/**
 Where every shape stands during a run of the full algorithm, and what that says
 about the clusters: the finished centres are pairwise apart, apart from all that is
 still in the tree, and every other finished shape belongs to exactly one of them.
 */
module ClusterPlaces {
  import opened ClusterGeometry
  import opened ClusterTree
  import opened ClusterSearch
  import opened ClusterCollect

  datatype Place = InTree | Centre | Member(of: ClusterInfo) | Rejected

  type Places = map<ClusterInfo, Place>

  ghost function At(places: Places, p: Place): set<ClusterInfo> {
    set s | s in places && places[s] == p
  }

  /** The members of finished clusters, centres included. */
  ghost function Finished(places: Places): set<ClusterInfo> {
    set s | s in places && (places[s].Centre? || places[s].Member?)
  }

  /** A member lies in the region of its centre. */
  ghost predicate Joined(rel: Relation, places: Places) {
    forall s :: s in places && places[s].Member? ==>
      && places[s].of in places && places[places[s].of] == Centre
      && (places[s].of.site, s.site) in rel
  }

  /** No centre has another centre, or a shape still in the tree, in its region. */
  ghost predicate Apart(rel: Relation, places: Places) {
    forall c, s :: c in places && s in places && c != s && places[c] == Centre ==>
      places[s] == Centre || places[s] == InTree ==> (c.site, s.site) !in rel
  }

  /** The tree and the result lists hold exactly the shapes placed there. */
  ghost predicate Listed(places: Places, T: set<ClusterInfo>, getAll: bool,
                         fin: seq<ClusterInfo>, flt: seq<ClusterInfo>) {
    && T == At(places, InTree)
    && Distinct(flt) && Members(flt) == At(places, Rejected)
    && Distinct(fin) && Members(fin) == if getAll then Finished(places) else At(places, Centre)
  }

  /** The places after the cluster around current has been taken out. */
  ghost function Settle(places: Places, current: ClusterInfo, rejected: bool, took: set<ClusterInfo>): Places {
    map s | s in places ::
      if s == current then (if rejected then Rejected else Centre)
      else if s in took then Member(current)
      else places[s]
  }

  lemma SettleGeometry(t: Tester, places: Places, current: ClusterInfo, rejected: bool, took: set<ClusterInfo>)
    requires t.Sound() && Joined(t.rel, places) && Apart(t.rel, places)
    requires current in At(places, InTree)
    requires took == if rejected then {current} else Near(t.rel, current, At(places, InTree))
    ensures Joined(t.rel, Settle(places, current, rejected, took))
    ensures Apart(t.rel, Settle(places, current, rejected, took))
  {
    SoundTest(t);
    var next := Settle(places, current, rejected, took);
    forall c, s | c in next && s in next && c != s && next[c] == Centre && (next[s] == Centre || next[s] == InTree)
      ensures (c.site, s.site) !in t.rel
    {
      if c == current {
        if s in At(places, InTree) {
          assert s !in took;
        } else {
          assert (s.site, c.site) !in t.rel;
        }
      }
    }
  }

  lemma SettleLists(places: Places, current: ClusterInfo, rejected: bool, took: set<ClusterInfo>, getAll: bool,
                    fin: seq<ClusterInfo>, flt: seq<ClusterInfo>, fin': seq<ClusterInfo>, flt': seq<ClusterInfo>)
    requires Listed(places, At(places, InTree), getAll, fin, flt)
    requires current in took && took <= At(places, InTree) && (rejected ==> took == {current})
    requires rejected ==> fin' == fin && flt' == [current] + flt
    requires !rejected && getAll ==> Gained(fin, fin', took) && flt' == flt
    requires !rejected && !getAll ==> fin' == [current] + fin && flt' == flt
    ensures Listed(Settle(places, current, rejected, took), At(places, InTree) - took, getAll, fin', flt')
  {
    var next := Settle(places, current, rejected, took);
    assert At(next, InTree) == At(places, InTree) - took;
    if rejected {
      assert At(next, Rejected) == {current} + At(places, Rejected);
      DistinctJoin([current], flt);
      assert Finished(next) == Finished(places) && At(next, Centre) == At(places, Centre);
    } else {
      assert At(next, Rejected) == At(places, Rejected);
      if getAll {
        assert Finished(next) == took + Finished(places);
        var n := |fin'| - |fin|;
        assert fin' == fin'[..n] + fin;
        DistinctJoin(fin'[..n], fin);
      } else {
        assert At(next, Centre) == {current} + At(places, Centre);
        DistinctJoin([current], fin);
      }
    }
  }

  /** The three together, folded; mentioning Peek opens it. */
  ghost predicate Consistent(rel: Relation, places: Places, T: set<ClusterInfo>, getAll: bool,
                             fin: seq<ClusterInfo>, flt: seq<ClusterInfo>) {
    forall k: int :: Peek(k) ==> Joined(rel, places) && Apart(rel, places) && Listed(places, T, getAll, fin, flt)
  }

  /** Every iteration keeps the run consistent. */
  lemma SettleConsistent(t: Tester, places: Places, T: set<ClusterInfo>, current: ClusterInfo, rejected: bool,
                         took: set<ClusterInfo>, getAll: bool,
                         fin: seq<ClusterInfo>, flt: seq<ClusterInfo>, fin': seq<ClusterInfo>, flt': seq<ClusterInfo>)
    requires t.Sound() && Consistent(t.rel, places, T, getAll, fin, flt) && current in T
    requires took == Taken(t.rel, rejected, current, T)
    requires rejected ==> fin' == fin && flt' == [current] + flt
    requires !rejected ==> flt' == flt
    requires !rejected && getAll ==> Gained(fin, fin', took)
    requires !rejected && !getAll ==> fin' == [current] + fin
    ensures Consistent(t.rel, Settle(places, current, rejected, took), T - took, getAll, fin', flt')
  {
    assert Peek(0);
    SelfNear(t, current, T);
    SettleGeometry(t, places, current, rejected, took);
    SettleLists(places, current, rejected, took, getAll, fin, flt, fin', flt');
  }
}
