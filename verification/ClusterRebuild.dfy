/**
 Rebuilding the clusters of a layer from its shapes: the full algorithm from start to
 end, and the first phase of the simple one.
 */
module ClusterRebuild {
  import opened ClusterGeometry
  import opened ClusterTree
  import opened ClusterSearch
  import opened ClusterInsert
  import opened ClusterCollect
  import opened ClusterBest
  import opened ClusterRun
  import opened ClusterPlaces
  import opened ClusterRank
  import opened ClusterHistory
  import opened ClusterFull
  import opened ClusterStuck

  /** The shapes whose search area meets the extent; the others are skipped. */
  function Accepted(d: Distances, extent: Rect, sites: seq<Site>): (r: seq<Site>) {
    if sites == [] then []
    else
      var last := sites[|sites| - 1];
      Accepted(d, extent, sites[..|sites| - 1])
      + if Overlap(extent, SearchArea(d, last)) then [last] else []
  }

  ghost predicate Pristine(S: set<ClusterInfo>)
    reads S
  {
    forall s :: s in S ==> s.siblings == [] && s.filter == -1
  }

  /** Enters one shape into the statistics and the tree. */
  method Enter(t: Tester, root: TreeNode, current: ClusterInfo, depth: nat)
    requires t.Sound() && root.Valid() && root.Full() && Anchored(current.site)
    requires current !in root.Contents && Overlap(root.rect, SearchArea(t.d, current.site))
    requires InSync(t.rel, root.Contents, root.Contents) && current.stats.over == {current}
    modifies root.Repr, root.Contents`stats, current`stats
    ensures root.Valid() && root.Full() && fresh(root.Repr - old(root.Repr))
    ensures root.Contents == old(root.Contents) + {current}
    ensures InSync(t.rel, root.Contents, root.Contents)
  {
    ghost var T := root.Contents;
    FindRelatedShapes(t, root, current, T);
    SelfNear(t, current, T + {current});
    NearGrows(t.rel, current, T, current);
    TreeNodeAddShape(root, current, depth);
  }

  /** Enters a shape if its search area meets the extent. */
  method EnterIfNear(t: Tester, root: TreeNode, current: ClusterInfo, depth: nat,
                     ghost made: seq<ClusterInfo>, ghost sites: seq<Site>) returns (ghost more: seq<ClusterInfo>)
    requires t.Sound() && root.Valid() && root.Full() && Anchored(current.site) && current !in root.Contents
    requires current.stats.over == {current} && Pristine(root.Contents + {current})
    requires MadeFrom(made, sites) && Members(made) == root.Contents
    requires AllReach(t, root, root.Contents) && InSync(t.rel, root.Contents, root.Contents)
    modifies root.Repr, root.Contents`stats, current`stats
    ensures root.Valid() && root.Full() && fresh(root.Repr - old(root.Repr))
    ensures root.Contents <= old(root.Contents) + {current}
    ensures MadeFrom(more, if Overlap(root.rect, SearchArea(t.d, current.site)) then sites + [current.site] else sites)
    ensures Members(more) == root.Contents
    ensures AllReach(t, root, root.Contents) && InSync(t.rel, root.Contents, root.Contents)
    ensures Pristine(root.Contents)
  {
    more := made;
    if Overlap(root.rect, SearchArea(t.d, current.site)) {
      Enter(t, root, current, depth);
      DistinctJoin(made, [current]);
      more := made + [current];
    }
  }

  lemma AcceptedStep(d: Distances, extent: Rect, sites: seq<Site>, k: nat)
    requires k < |sites|
    ensures sites[k] in sites
    ensures Accepted(d, extent, sites[..k + 1]) ==
            if Overlap(extent, SearchArea(d, sites[k])) then Accepted(d, extent, sites[..k]) + [sites[k]]
            else Accepted(d, extent, sites[..k])
  {
    assert sites[..k + 1][..k] == sites[..k];
  }

  /** Steps through the source shapes and populates the quadtree. */
  method Populate(t: Tester, extent: Rect, depth: nat, sites: seq<Site>)
    returns (root: TreeNode, ghost made: seq<ClusterInfo>)
    requires t.Sound() && forall s :: s in sites ==> Anchored(s)
    ensures root.rect == extent && root.Valid() && fresh(root.Repr) && fresh(root.Contents)
    ensures MadeFrom(made, Accepted(t.d, extent, sites)) && Members(made) == root.Contents
    ensures AllReach(t, root, root.Contents) && InSync(t.rel, root.Contents, root.Contents)
    ensures Pristine(root.Contents)
  {
    root := new TreeNode(extent);
    made := [];
    for k := 0 to |sites|
      invariant root.rect == extent && root.Valid() && root.Full() && fresh(root.Repr) && fresh(root.Contents)
      invariant MadeFrom(made, Accepted(t.d, extent, sites[..k])) && Members(made) == root.Contents
      invariant AllReach(t, root, root.Contents) && InSync(t.rel, root.Contents, root.Contents)
      invariant Pristine(root.Contents)
    {
      var current := new ClusterInfo(sites[k]);
      AcceptedStep(t.d, extent, sites, k);
      made := EnterIfNear(t, root, current, depth, made, Accepted(t.d, extent, sites[..k]));
    }
    assert sites[..|sites|] == sites;
  }

  /** The finished centres are pairwise out of each other's regions and every member
      lies in the region of its one centre; a shape the filter rejected is neither. */
  ghost predicate Clustered(rel: Relation, places: Places, out: Results, getAll: bool, left: set<ClusterInfo>)
    reads out, places.Keys
  {
    && Joined(rel, places) && Apart(rel, places)
    && Listed(places, left, getAll, out.finalized, out.filtered)
    && (forall c :: c in places && places[c] == Centre ==>
          && Exact(c.stats) && c.stats.over == {c} + At(places, Member(c))
          && (getAll || (Distinct(c.siblings) && Members(c.siblings) == At(places, Member(c)))))
  }

  lemma RunIsClustered(rel: Relation, places: Places, out: Results, getAll: bool, left: set<ClusterInfo>, start: real)
    requires Consistent(rel, places, left, getAll, out.finalized, out.filtered) && Settled(places, getAll, start)
    ensures Clustered(rel, places, out, getAll, left) && left <= places.Keys
    ensures forall c :: c in places && places[c] == Centre ==> c.stats.numsiblings == 0 || Outranks(c, start)
    ensures forall s :: s in places && places[s] == Rejected ==> s.filter == 0
  {
    assert ClusterCollect.Peek(0);
    forall c | c in places && places[c] == Centre
      ensures Exact(c.stats)
    {
      StatsAreExact(c.stats);
    }
  }

  /** The full algorithm, from the source shapes to the finished clusters. */
  method RebuildFull(region: Region, d: Distances, extent: Rect, depth: nat, rule: FilterRule, getAll: bool,
                     sites: seq<Site>)
    returns (out: Results, root: TreeNode, ghost made: seq<ClusterInfo>, ghost places: Places, ghost h: seq<Round>)
    requires d.Positive() && forall s :: s in sites ==> Anchored(s)
    ensures MadeFrom(made, Accepted(d, extent, sites)) && places.Keys == Members(made)
    ensures Clustered(RelationOf(region, d), places, out, getAll, root.Contents)
    ensures rule.NoFilter? ==> At(places, Rejected) == {}
    ensures NoChoice(root.Contents, StartRank(extent))
    ensures forall c :: c in places && places[c] == Centre ==>
              c.stats.numsiblings == 0 || Outranks(c, StartRank(extent))
    ensures Reach(region, d) <= StartRank(extent) || Inside(Members(made), extent) ==> root.Contents == {}
    ensures root.Contents != {} ==> exists left :: Stuck(region, d, extent, left)
    ensures rule.NoFilter? && Stuck(region, d, extent, Accepted(d, extent, sites)) ==> root.Contents == Members(made)
    ensures Complete(RelationOf(region, d), rule, StartRank(extent), Members(made), h, places, root.Contents)
  {
    ghost var rel := RelationOf(region, d);
    var t := Tester(region, d, rel);
    root, made := Populate(t, extent, depth, sites);
    out := new Results();
    if rule.NoFilter? && Stuck(region, d, extent, Accepted(d, extent, sites)) {
      StuckNeverChosen(t, extent, made, Accepted(d, extent, sites));
    }
    places, h := RunFull(t, rule, getAll, root, out);
    RunIsClustered(rel, places, out, getAll, root.Contents, StartRank(extent));
    AcceptedNear(d, extent, sites);
    NothingLeft(t, extent, root.Contents, made, Accepted(d, extent, sites));
  }

  lemma {:induction false} AcceptedNear(d: Distances, extent: Rect, sites: seq<Site>)
    ensures forall s :: s in Accepted(d, extent, sites) ==> s in sites && Overlap(extent, SearchArea(d, s))
    ensures (forall s :: s in sites ==> Overlap(extent, SearchArea(d, s))) ==> Accepted(d, extent, sites) == sites
  {
    if sites != [] {
      var n := |sites| - 1;
      AcceptedNear(d, extent, sites[..n]);
      assert sites == sites[..n] + [sites[n]];
    }
  }

  // ----- what can be left in the tree -----

  /** Shapes that are stuck as a collection are never chosen. */
  lemma StuckNeverChosen(t: Tester, extent: Rect, made: seq<ClusterInfo>, sites: seq<Site>)
    requires t.Sound() && t.d.Positive() && MadeFrom(made, sites) && Stuck(t.region, t.d, extent, sites)
    requires InSync(t.rel, Members(made), Members(made)) && Pristine(Members(made))
    ensures NoChoice(Members(made), StartRank(extent))
  {
    SoundTest(t);
    forall c | c in Members(made) ensures !Forced(c) && !Outranks(c, StartRank(extent)) {
      assert c.site in sites;
      SelfNear(t, c, Members(made));
      RankIsTallyRank(t.rel, c, made, sites);
      assert Unchosen(t.rel, StartRank(extent), c.site, sites);
    }
  }

  /** Shapes of which none can be chosen are stuck as a collection. */
  lemma UnchosenIsStuck(t: Tester, extent: Rect, made: seq<ClusterInfo>, sites: seq<Site>)
    requires t.Sound() && t.d.Positive() && MadeFrom(made, sites) && made != []
    requires InSync(t.rel, Members(made), Members(made)) && NoChoice(Members(made), StartRank(extent))
    requires forall s :: s in sites ==> Anchored(s) && Overlap(extent, SearchArea(t.d, s))
    ensures Stuck(t.region, t.d, extent, sites)
  {
    SoundTest(t);
    AllCounted(t, Members(made));
    forall s | s in sites ensures Unchosen(t.rel, StartRank(extent), s, sites) {
      var i :| 0 <= i < |sites| && sites[i] == s;
      SelfNear(t, made[i], Members(made));
      RankIsTallyRank(t.rel, made[i], made, sites);
    }
  }

  /** The shapes of a set in some order, and their sites. */
  lemma {:induction false} Enumerate(T: set<ClusterInfo>) returns (l: seq<ClusterInfo>, sites: seq<Site>)
    ensures Members(l) == T && MadeFrom(l, sites) && forall s :: s in sites ==> exists c :: c in T && c.site == s
    decreases |T|
  {
    if T == {} {
      l, sites := [], [];
    } else {
      var c :| c in T;
      l, sites := Enumerate(T - {c});
      DistinctJoin(l, [c]);
      l, sites := l + [c], sites + [c.site];
    }
  }

  /** When nothing can be chosen, what is left is stuck; within the extent, or if the region
      reaches no farther than the starting rank, nothing is left. */
  lemma NothingLeft(t: Tester, extent: Rect, T: set<ClusterInfo>, made: seq<ClusterInfo>, sites: seq<Site>)
    requires t.Sound() && t.d.Positive() && InSync(t.rel, T, T) && NoChoice(T, StartRank(extent))
    requires MadeFrom(made, sites) && T <= Members(made)
    requires forall s :: s in sites ==> Anchored(s) && Overlap(extent, SearchArea(t.d, s))
    ensures Reach(t.region, t.d) <= StartRank(extent) || Inside(Members(made), extent) ==> T == {}
    ensures T != {} ==> exists left :: Stuck(t.region, t.d, extent, left)
  {
    if T != {} {
      var l, left := Enumerate(T);
      forall s | s in left ensures Anchored(s) && Overlap(extent, SearchArea(t.d, s)) {
        var c :| c in T && c.site == s;
        assert c.site in sites;
      }
      UnchosenIsStuck(t, extent, l, left);
      StuckNeedsReach(t.region, t.d, extent, left);
      var s :| s in T;
      AllCounted(t, T);
      if Inside(Members(made), extent) { InsideBeatsStart(t, extent, s, T); }
    }
  }

  /** If the region reaches farther than the starting rank, there are shapes of which every
      one is left in the tree at the end. */
  method StuckRun(region: Region, d: Distances, extent: Rect, depth: nat)
    returns (out: Results, root: TreeNode, ghost made: seq<ClusterInfo>)
    requires d.Positive() && Proper(extent) && Reach(region, d) > StartRank(extent)
    ensures MadeFrom(made, StuckSites(region, d, extent)) && root.Contents == Members(made) != {}
  {
    var sites := StuckSites(region, d, extent);
    ReachIsStuck(region, d, extent);
    AcceptedNear(d, extent, sites);
    ghost var places, h;
    out, root, made, places, h := RebuildFull(region, d, extent, depth, NoFilter, false, sites);
    assert made[0] in Members(made);
  }

  // ----- the simple algorithm, first phase -----

  /** What the first phase of the simple algorithm keeps: the shapes in the tree are out of
      each other's regions, and each shape set aside is in the region of one of them. */
  ghost predicate Spread(rel: Relation, T: set<ClusterInfo>, later: seq<ClusterInfo>) {
    && Distinct(later) && T !! Members(later)
    && (forall c, s :: c in T && s in T && c != s ==> (c.site, s.site) !in rel)
    && (forall s :: s in later ==> exists c :: c in T && (c.site, s.site) in rel)
  }

  lemma SpreadMore(t: Tester, T: set<ClusterInfo>, later: seq<ClusterInfo>, current: ClusterInfo, found: ClusterInfo?)
    requires t.Sound() && Spread(t.rel, T, later) && current !in T && current !in later
    requires found != null ==> found in T && (found.site, current.site) in t.rel
    requires found == null ==> forall s :: s in T ==> (s.site, current.site) !in t.rel
    ensures if found != null then Spread(t.rel, T, [current] + later) else Spread(t.rel, T + {current}, later)
  {
    DistinctJoin([current], later);
    SoundTest(t);
  }

  /** Puts a shape into the tree, or aside if a shape of the tree is near it. */
  method PlaceOrDefer(t: Tester, root: TreeNode, current: ClusterInfo, depth: nat, later: seq<ClusterInfo>,
                      ghost made: seq<ClusterInfo>, ghost sites: seq<Site>)
    returns (aside: seq<ClusterInfo>, ghost more: seq<ClusterInfo>)
    requires t.Sound() && root.Valid() && root.Full() && Anchored(current.site) && current !in root.Contents
    requires current !in later && Spread(t.rel, root.Contents, later)
    requires MadeFrom(made, sites) && Members(made) == root.Contents + Members(later)
    modifies root.Repr
    ensures root.Valid() && root.Full() && fresh(root.Repr - old(root.Repr))
    ensures root.Contents <= old(root.Contents) + {current} && Members(aside) <= Members(later) + {current}
    ensures Spread(t.rel, root.Contents, aside) && Members(more) == root.Contents + Members(aside)
    ensures MadeFrom(more, if Overlap(root.rect, SearchArea(t.d, current.site)) then sites + [current.site] else sites)
  {
    aside, more := later, made;
    if Overlap(root.rect, SearchArea(t.d, current.site)) {
      var found := FindRelatedShapes2(t, root, current, null);
      SpreadMore(t, root.Contents, later, current, found);
      if found != null {
        aside := [current] + later;
      } else {
        TreeNodeAddShape(root, current, depth);
      }
      DistinctJoin(made, [current]);
      more := made + [current];
    }
  }

  /** The first phase of the simple algorithm: a shape that no tentative cluster claims
      becomes one, every other is stored for later. */
  method SimplePhase(region: Region, d: Distances, extent: Rect, depth: nat, sites: seq<Site>)
    returns (root: TreeNode, later: seq<ClusterInfo>, ghost made: seq<ClusterInfo>)
    requires d.Positive() && forall s :: s in sites ==> Anchored(s)
    ensures MadeFrom(made, Accepted(d, extent, sites)) && Distinct(later)
    ensures Members(made) == root.Contents + Members(later) && root.Contents !! Members(later)
    ensures forall c, s :: c in root.Contents && s in root.Contents && c != s ==>
              (c.site, s.site) !in RelationOf(region, d)
    ensures forall s :: s in later ==> exists c :: c in root.Contents && (c.site, s.site) in RelationOf(region, d)
  {
    ghost var rel := RelationOf(region, d);
    var t := Tester(region, d, rel);
    SoundTest(t);
    root := new TreeNode(extent);
    later, made := [], [];
    for k := 0 to |sites|
      invariant root.rect == extent && root.Valid() && root.Full() && fresh(root.Repr)
      invariant MadeFrom(made, Accepted(t.d, extent, sites[..k])) && Members(made) == root.Contents + Members(later)
      invariant Spread(rel, root.Contents, later)
    {
      var current := new ClusterInfo(sites[k]);
      AcceptedStep(t.d, extent, sites, k);
      later, made := PlaceOrDefer(t, root, current, depth, later, made, Accepted(t.d, extent, sites[..k]));
    }
    assert sites[..|sites|] == sites;
  }
}
