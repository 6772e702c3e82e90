/**
 One iteration of the full clustering algorithm, on the state that is left once the
 best cluster has been chosen: its members leave the tree and the statistics of what
 remains are repaired.
 */
module ClusterRun {
  import opened ClusterGeometry
  import opened ClusterTree
  import opened ClusterSearch
  import opened ClusterCollect

  /** Every shape under the cell meets the root rectangle with its search area. */
  ghost predicate AllReach(t: Tester, node: TreeNode, S: set<ClusterInfo>) {
    forall s :: s in S ==> Overlap(node.rect, SearchArea(t.d, s.site))
  }

  /** Repairs the statistics below root after the listed shapes have left the tree. */
  method RemoveAll(t: Tester, root: TreeNode, gone: seq<ClusterInfo>, ghost T: set<ClusterInfo>)
    requires t.Sound() && root.Valid() && Distinct(gone)
    requires Members(gone) !! root.Contents && root.Contents + Members(gone) <= T
    requires AllReach(t, root, T) && InSync(t.rel, root.Contents, T)
    modifies root.Contents`stats
    ensures InSync(t.rel, root.Contents, T - Members(gone))
  {
    ghost var done: set<ClusterInfo> := {};
    assert T - done == T;
    for k := 0 to |gone|
      invariant done == Members(gone[..k])
      invariant InSync(t.rel, root.Contents, T - done)
    {
      var s := gone[k];
      assert s in Members(gone) && s !in done;
      FindRelatedShapesRemove(t, root, s, T - done);
      assert T - done - {s} == T - (done + {s});
      assert gone[..k + 1] == gone[..k] + [s];
      done := done + {s};
    }
    assert gone[..|gone|] == gone;
  }

  /** A shape without siblings is in nobody's statistics but its own. */
  lemma LonelyLeaves(t: Tester, S: set<ClusterInfo>, T: set<ClusterInfo>, current: ClusterInfo)
    requires t.Sound() && InSync(t.rel, S, T) && S <= T && current !in S && current in T
    requires Near(t.rel, current, T) == {current}
    ensures InSync(t.rel, S, T - {current})
  {
    SoundTest(t);
    forall s | s in S ensures Near(t.rel, s, T - {current}) == Near(t.rel, s, T) {
      assert s !in Near(t.rel, current, T);
      NearShrinks(t.rel, s, T, current);
    }
  }

  lemma NoSiblings(r: Stats, s: ClusterInfo)
    requires s in r.over
    ensures r.numsiblings >= 0
    ensures r.numsiblings == 0 <==> r.over == {s}
  {
    StatsAreExact(r);
    if |r.over| == 1 {
      var rest := r.over - {s};
      assert r.over == rest + {s};
      assert |rest| == 0;
    }
  }

  /** The members of a finished cluster take over its mean position. */
  method CopyMean(sibs: seq<ClusterInfo>, centre: ClusterInfo, ghost S: set<ClusterInfo>)
    requires S == Members(sibs) && centre !in S
    modifies S`stats
    ensures forall s :: s in S ==>
              s.stats.avgx == centre.stats.avgx && s.stats.avgy == centre.stats.avgy
              && s.stats.numsiblings == old(s.stats.numsiblings)
  {
    for k := 0 to |sibs|
      invariant forall s :: s in S ==> s.stats.numsiblings == old(s.stats.numsiblings)
      invariant forall j :: 0 <= j < k ==>
                  sibs[j].stats.avgx == centre.stats.avgx && sibs[j].stats.avgy == centre.stats.avgy
    {
      var s := sibs[k];
      assert s in S;
      s.stats := Record(s.stats.numsiblings, centre.stats.avgx, centre.stats.avgy, {});
    }
  }

  /** Moves the cluster around current from the tree to the result lists. */
  method Extract(t: Tester, root: TreeNode, out: Results, current: ClusterInfo,
                 ghost T: set<ClusterInfo>, ghost took: set<ClusterInfo>) returns (sibs: seq<ClusterInfo>)
    requires t.Sound() && root.Valid() && T == root.Contents && current in T && AllReach(t, root, T)
    requires out.finalizedSiblings == [] && took == Taken(t.rel, current.filter == 0, current, T)
    modifies out, root.Repr
    ensures root.Valid() && root.Repr == old(root.Repr) && root.Contents == T - took
    ensures sibs == out.finalizedSiblings && Distinct(sibs) && Members(sibs) == took - {current}
    ensures out.finalized == if current.filter != 0 then [current] + old(out.finalized) else old(out.finalized)
    ensures out.filtered == if current.filter == 0 then [current] + old(out.filtered) else old(out.filtered)
  {
    var bare := CollectClusterShapes(t, out, root, current, current.filter == 0);
    assert Peek(0);
    sibs := out.finalizedSiblings;
    assert sibs[..|sibs|] == sibs;
  }

  /** Brings the statistics of the shapes still in the tree up to date. */
  method Repair(t: Tester, root: TreeNode, current: ClusterInfo, sibs: seq<ClusterInfo>,
                ghost T: set<ClusterInfo>, ghost took: set<ClusterInfo>)
    requires t.Sound() && root.Valid() && root.Contents == T - took && AllReach(t, root, T)
    requires InSync(t.rel, root.Contents, T) && current.stats.over == Near(t.rel, current, T)
    requires current in took && took <= T && Distinct(sibs) && Members(sibs) == took - {current}
    requires took == {current} || took == Near(t.rel, current, T)
    modifies root.Contents`stats
    ensures InSync(t.rel, root.Contents, root.Contents)
  {
    SelfNear(t, current, T);
    NoSiblings(current.stats, current);
    if current.stats.numsiblings > 0 {
      FindRelatedShapesRemove(t, root, current, T);
      RemoveAll(t, root, sibs, T - {current});
      assert T - {current} - (took - {current}) == T - took;
    } else {
      assert took == {current};
      LonelyLeaves(t, root.Contents, T, current);
    }
  }

  /** Takes the cluster around current out of the tree. */
  method FinishCluster(t: Tester, root: TreeNode, out: Results, current: ClusterInfo, getAll: bool,
                       ghost T: set<ClusterInfo>, ghost took: set<ClusterInfo>)
    requires t.Sound() && root.Valid() && T == root.Contents && current in T
    requires AllReach(t, root, T) && InSync(t.rel, T, T)
    requires out.finalizedSiblings == [] && current.siblings == []
    requires took == Taken(t.rel, current.filter == 0, current, T)
    modifies out, root.Repr, T`stats, current`siblings
    ensures root.Valid() && root.Repr == old(root.Repr) && root.Contents == T - took
    ensures InSync(t.rel, root.Contents, root.Contents)
    ensures out.finalizedSiblings == []
    ensures current.filter == 0 ==>
              && out.finalized == old(out.finalized) && out.filtered == [current] + old(out.filtered)
              && current.siblings == [] && current.stats.over == {current}
    ensures current.filter != 0 ==>
              && out.filtered == old(out.filtered)
              && current.stats == old(current.stats) && current.stats.over == took
              && Delivery(out, current, getAll, took, old(out.finalized))
    ensures forall s :: s in took && s != current ==>
              s.stats.avgx == current.stats.avgx && s.stats.avgy == current.stats.avgy
  {
    TakenIsRegion(t, current.filter == 0, current, T);
    var sibs := Extract(t, root, out, current, T, took);
    Repair(t, root, current, sibs, T, took);
    SelfNear(t, current, T);
    assert sibs != [] ==> sibs[0] in took - {current};
    Attach(out, current, sibs, getAll, took, old(out.finalized));
  }

  /** Hands the collected siblings over, and copies the mean of the cluster to them. A
      shape the filter rejected keeps no siblings. */
  method Attach(out: Results, current: ClusterInfo, sibs: seq<ClusterInfo>, getAll: bool,
                ghost took: set<ClusterInfo>, ghost fin: seq<ClusterInfo>)
    requires current in took && Distinct(sibs) && Members(sibs) == took - {current}
    requires current in current.stats.over && took <= current.stats.over
    requires current.filter != 0 ==> took == current.stats.over
    requires out.finalizedSiblings == sibs && current.siblings == []
    requires out.finalized == if current.filter != 0 then [current] + fin else fin
    requires current.filter == 0 ==> sibs == []
    modifies out`finalized, out`finalizedSiblings, took`stats, current`siblings
    ensures out.finalizedSiblings == []
    ensures current.filter == 0 ==>
              out.finalized == fin && current.siblings == [] && current.stats.over == {current}
    ensures current.filter != 0 ==> current.stats == old(current.stats) && Delivery(out, current, getAll, took, fin)
    ensures forall s :: s in took && s != current ==>
              s.stats.avgx == current.stats.avgx && s.stats.avgy == current.stats.avgy
  {
    NoSiblings(current.stats, current);
    GainedNone(fin);
    GainedOne(fin, fin, {}, current);
    assert sibs == [] ==> took == {current};
    assert sibs != [] ==> sibs[0] in took - {current};
    if current.stats.numsiblings > 0 {
      if current.filter == 0 {
        current.stats := Single(current);
      }
      CopyMean(sibs, current, took - {current});
      if sibs != [] {
        if getAll {
          GainedFront(fin, out.finalized, {} + {current}, sibs);
          assert {} + {current} + Members(sibs) == took;
          out.finalized := sibs + out.finalized;
        } else {
          current.siblings := sibs;
        }
        out.finalizedSiblings := [];
      }
    }
  }

  /** How a finished cluster is delivered: all its shapes on the result list, or the
      centre alone with its siblings attached to it. */
  ghost predicate Delivery(out: Results, centre: ClusterInfo, getAll: bool,
                           took: set<ClusterInfo>, fin: seq<ClusterInfo>)
    reads out`finalized, centre`siblings
  {
    if getAll then Gained(fin, out.finalized, took) && centre.siblings == []
    else && out.finalized == [centre] + fin
         && Distinct(centre.siblings) && Members(centre.siblings) == took - {centre}
  }

  lemma GainedFront(before: seq<ClusterInfo>, mid: seq<ClusterInfo>, S: set<ClusterInfo>, sibs: seq<ClusterInfo>)
    requires Gained(before, mid, S) && Distinct(sibs) && Members(sibs) !! S
    ensures Gained(before, sibs + mid, S + Members(sibs))
  {
    assert (sibs + mid)[|sibs|..] == mid;
    assert (sibs + mid)[..|sibs|] == sibs;
    GainedMore(before, mid, sibs + mid, S, Members(sibs));
  }

  lemma TakenIsRegion(t: Tester, rejected: bool, current: ClusterInfo, T: set<ClusterInfo>)
    requires t.Sound() && current in T
    ensures var took := Taken(t.rel, rejected, current, T);
            && current in took && took <= T
            && took == if rejected then {current} else Near(t.rel, current, T)
  {
    SelfNear(t, current, T);
  }
}
