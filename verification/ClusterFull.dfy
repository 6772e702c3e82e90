/**
 The full clustering algorithm: populate the quadtree, then repeatedly take out the
 best cluster until none can be chosen.
 */
module ClusterFull {
  import opened ClusterGeometry
  import opened ClusterTree
  import opened ClusterSearch
  import opened ClusterCollect
  import opened ClusterBest
  import opened ClusterRun
  import opened ClusterPlaces
  import opened ClusterRank
  import opened ClusterHistory

  /** What holds of a finished centre: its statistics are those of its cluster, its
      siblings are attached to it, and it stood alone or beat the starting rank. */
  ghost predicate GoodCentre(c: ClusterInfo, members: set<ClusterInfo>, getAll: bool, start: real)
    reads c
  {
    && c.stats.over == {c} + members
    && c.filter != 0
    && (c.stats.numsiblings == 0 || Outranks(c, start))
    && (if getAll then c.siblings == [] else Distinct(c.siblings) && Members(c.siblings) == members)
  }

  ghost predicate Settled(places: Places, getAll: bool, start: real)
    reads places.Keys
  {
    forall k: int :: ClusterCollect.Peek(k) ==>
      && (forall c :: c in places && places[c] == Centre ==> GoodCentre(c, At(places, Member(c)), getAll, start))
      && (forall s :: s in places && places[s] == InTree ==> s.siblings == [])
      && (forall s :: s in places && places[s] == Rejected ==> s.filter == 0)
  }

  /** Nothing can be chosen: no shape has to go and none beats the starting rank. */
  ghost predicate NoChoice(S: set<ClusterInfo>, start: real)
    reads S
  {
    forall s :: s in S ==> !Forced(s) && !Outranks(s, start)
  }

  /** Taking out one more cluster leaves the earlier ones as they were. */
  twostate lemma SettleCentres(places: Places, new current: ClusterInfo, new rejected: bool,
                               new took: set<ClusterInfo>, new getAll: bool, new start: real)
    requires old(Settled(places, getAll, start))
    requires forall s :: s in places && places[s].Member? ==> places[s].of in places && places[places[s].of] == Centre
    requires current in took && took <= At(places, InTree) && (rejected ==> took == {current})
    requires forall s :: s in places && places[s] != InTree ==> unchanged(s)
    requires forall s :: s in places && places[s] == InTree && s != current ==> s.siblings == old(s.siblings)
    requires rejected == (current.filter == 0)
    requires !rejected ==> GoodCentre(current, took - {current}, getAll, start)
    ensures Settled(Settle(places, current, rejected, took), getAll, start)
  {
    assert ClusterCollect.Peek(0);
    var next := Settle(places, current, rejected, took);
    assert !rejected ==> At(next, Member(current)) == took - {current};
    forall c | c in next && next[c] == Centre && c != current
      ensures GoodCentre(c, At(next, Member(c)), getAll, start)
    {
      assert At(next, Member(c)) == At(places, Member(c));
    }
  }

  /** A cluster chosen for its rank, or because it had to go, yields a good centre. */
  method FinishGood(t: Tester, getAll: bool, root: TreeNode, out: Results, current: ClusterInfo,
                    ghost T: set<ClusterInfo>, ghost took: set<ClusterInfo>, ghost start: real)
    requires t.Sound() && root.Valid() && T == root.Contents && current in T
    requires AllReach(t, root, T) && InSync(t.rel, T, T)
    requires out.finalizedSiblings == [] && current.siblings == []
    requires took == Taken(t.rel, current.filter == 0, current, T)
    requires Forced(current) || Outranks(current, start)
    modifies out, root.Repr, T`stats, current`siblings
    ensures root.Valid() && root.Repr == old(root.Repr) && root.Contents == T - took
    ensures InSync(t.rel, root.Contents, root.Contents)
    ensures out.finalizedSiblings == []
    ensures current.filter == 0 ==> out.finalized == old(out.finalized) && out.filtered == [current] + old(out.filtered)
    ensures current.filter != 0 ==> out.filtered == old(out.filtered)
    ensures current.filter != 0 && getAll ==> Gained(old(out.finalized), out.finalized, took)
    ensures current.filter != 0 && !getAll ==> out.finalized == [current] + old(out.finalized)
    ensures current.filter != 0 ==> GoodCentre(current, took - {current}, getAll, start)
  {
    TakenIsRegion(t, current.filter == 0, current, T);
    assert {current} + (took - {current}) == took;
    FinishCluster(t, root, out, current, getAll, T, took);
  }

  /** Takes out the cluster of current: it carries out the round r. */
  method TakeOut(t: Tester, getAll: bool, root: TreeNode, out: Results, current: ClusterInfo,
                 ghost places: Places, ghost start: real, ghost r: Round) returns (ghost next: Places)
    requires t.Sound() && root.Valid() && current in root.Contents && r == RoundOf(root.Contents, current)
    requires AllReach(t, root, root.Contents) && InSync(t.rel, root.Contents, root.Contents)
    requires Consistent(t.rel, places, root.Contents, getAll, out.finalized, out.filtered)
    requires Settled(places, getAll, start) && out.finalizedSiblings == []
    requires Forced(current) || Outranks(current, start)
    modifies out, root.Repr, root.Contents`stats, root.Contents`siblings
    ensures root.Valid() && root.Repr == old(root.Repr) && root.Contents < old(root.Contents)
    ensures next == After(t.rel, places, r) && root.Contents == r.tree - Gone(t.rel, r)
    ensures InSync(t.rel, root.Contents, root.Contents)
    ensures next.Keys == places.Keys
    ensures Consistent(t.rel, next, root.Contents, getAll, out.finalized, out.filtered)
    ensures Settled(next, getAll, start) && out.finalizedSiblings == []
  {
    ghost var T := root.Contents;
    ghost var rejected := current.filter == 0;
    ghost var took := Taken(t.rel, rejected, current, T);
    TakenIsRegion(t, rejected, current, T);
    next := Settle(places, current, rejected, took);
    TreePlaces(t.rel, places, T, getAll, out.finalized, out.filtered);
    TreeSiblings(places, current, getAll, start);
    FinishGood(t, getAll, root, out, current, T, took, start);
    SettleCentres(places, current, rejected, took, getAll, start);
    SettleConsistent(t, places, T, current, rejected, took, getAll,
                     old(out.finalized), old(out.filtered), out.finalized, out.filtered);
  }

  /** One iteration, after the choice of current; no filter changes. */
  method Iterate(t: Tester, getAll: bool, root: TreeNode, out: Results, current: ClusterInfo,
                 ghost places: Places, ghost start: real, ghost rule: FilterRule, ghost r: Round)
    returns (ghost next: Places)
    requires t.Sound() && root.Valid() && current in root.Contents && r == RoundOf(root.Contents, current)
    requires AllReach(t, root, root.Contents) && InSync(t.rel, root.Contents, root.Contents)
    requires Consistent(t.rel, places, root.Contents, getAll, out.finalized, out.filtered)
    requires Settled(places, getAll, start) && out.finalizedSiblings == []
    requires Remembered(rule, places, root.Contents, r.filters)
    requires Forced(current) || Outranks(current, start)
    modifies out, root.Repr, root.Contents`stats, root.Contents`siblings
    ensures root.Valid() && root.Repr == old(root.Repr) && root.Contents < old(root.Contents)
    ensures next == After(t.rel, places, r) && root.Contents == r.tree - Gone(t.rel, r)
    ensures InSync(t.rel, root.Contents, root.Contents)
    ensures next.Keys == places.Keys
    ensures Consistent(t.rel, next, root.Contents, getAll, out.finalized, out.filtered)
    ensures Settled(next, getAll, start) && out.finalizedSiblings == []
    ensures Remembered(rule, next, root.Contents, r.filters)
  {
    TreePlaces(t.rel, places, root.Contents, getAll, out.finalized, out.filtered);
    next := TakeOut(t, getAll, root, out, current, places, start, r);
    KeepsRemembered(rule, places, next, r.tree, root.Contents, r.filters);
  }

  twostate lemma KeepsRemembered(new rule: FilterRule, places: Places, new next: Places, new T: set<ClusterInfo>,
                                 new left: set<ClusterInfo>, new now: Filters)
    requires next.Keys == places.Keys && left <= T <= places.Keys && old(allocated(T) && allocated(now))
    requires old(Remembered(rule, places, T, now))
    requires forall s :: s in places ==> s.filter == old(s.filter)
    ensures Remembered(rule, next, left, now)
  {
    assert ClusterHistory.Peek(0);
  }

  lemma TreePlaces(rel: Relation, places: Places, T: set<ClusterInfo>, getAll: bool,
                   fin: seq<ClusterInfo>, flt: seq<ClusterInfo>)
    requires Consistent(rel, places, T, getAll, fin, flt)
    ensures T == At(places, InTree)
    ensures forall s :: s in places && places[s].Member? ==> places[s].of in places && places[places[s].of] == Centre
  {
    assert ClusterCollect.Peek(0);
  }

  lemma TreeSiblings(places: Places, s: ClusterInfo, getAll: bool, start: real)
    requires Settled(places, getAll, start) && s in At(places, InTree)
    ensures s.siblings == []
  {
    assert ClusterCollect.Peek(0);
  }

  /** Chooses the next cluster; there is none exactly if no shape has to go and none
      beats the starting rank. */
  method Choose(t: Tester, rule: FilterRule, getAll: bool, root: TreeNode, start: real, ghost places: Places,
                ghost before: Filters) returns (current: ClusterInfo?)
    requires t.Sound() && root.Valid() && InSync(t.rel, root.Contents, root.Contents)
    requires Settled(places, getAll, start) && root.Contents == At(places, InTree)
    requires Remembered(rule, places, root.Contents, before)
    modifies root.Contents`filter
    ensures Settled(places, getAll, start)
    ensures current == null <==> NoChoice(root.Contents, start)
    ensures current != null ==> current in root.Contents && (Forced(current) || Outranks(current, start))
    ensures IsRound(t.rel, rule, start, before, RoundOf(root.Contents, current))
    ensures Remembered(rule, places, root.Contents, RoundOf(root.Contents, current).filters)
  {
    AllCounted(t, root.Contents);
    assert ClusterHistory.Peek(0);
    var rank;
    current, rank := FindBestCluster(rule, root, null, start, before);
    ScanIsRound(t, rule, start, root.Contents, before, current, rank);
    ScanIsChoice(rule, start, root.Contents, before, current, rank);
    FilterKeepsSettled(places, getAll, start);
  }

  lemma ScanIsChoice(rule: FilterRule, start: real, T: set<ClusterInfo>, before: Filters,
                     current: ClusterInfo?, rank: real)
    requires Scan(rule, before, T, null, start, current, rank)
    ensures current == null <==> NoChoice(T, start)
    ensures current != null ==> current in T && (Forced(current) || Outranks(current, start))
    ensures rule.NoFilter? ==> Unscanned(T, before)
  {
    assert ClusterBest.Peek(0);
  }

  /** The filters of the shapes in the tree; without a filter none is ever evaluated. */
  ghost predicate Remembered(rule: FilterRule, places: Places, T: set<ClusterInfo>, now: Filters)
    reads places.Keys, T
  {
    forall k: int :: ClusterHistory.Peek(k) ==>
      Unscanned(T, now) && (rule.NoFilter? ==> forall s :: s in places ==> s.filter == -1)
  }

  /** Evaluating the filter of shapes in the tree does not touch finished clusters. */
  twostate lemma FilterKeepsSettled(places: Places, new getAll: bool, new start: real)
    requires old(Settled(places, getAll, start))
    requires forall s :: s in places && places[s] != InTree ==> unchanged(s)
    requires forall s :: s in places && places[s] == InTree ==> s.siblings == old(s.siblings)
    ensures Settled(places, getAll, start)
  {
    assert ClusterCollect.Peek(0);
  }

  /** One iteration: chooses a cluster and takes it out, or finds that none can be chosen. */
  method Advance(t: Tester, rule: FilterRule, getAll: bool, root: TreeNode, out: Results, start: real,
                 ghost places: Places, ghost before: Filters) returns (done: bool, ghost next: Places, ghost r: Round)
    requires t.Sound() && root.Valid() && out.finalizedSiblings == []
    requires AllReach(t, root, root.Contents) && InSync(t.rel, root.Contents, root.Contents)
    requires Consistent(t.rel, places, root.Contents, getAll, out.finalized, out.filtered)
    requires Settled(places, getAll, start) && Remembered(rule, places, root.Contents, before)
    modifies out, root.Repr, root.Contents`stats, root.Contents`siblings, root.Contents`filter
    ensures root.Valid() && root.Repr == old(root.Repr) && next.Keys == places.Keys && out.finalizedSiblings == []
    ensures InSync(t.rel, root.Contents, root.Contents)
    ensures Consistent(t.rel, next, root.Contents, getAll, out.finalized, out.filtered)
    ensures Settled(next, getAll, start) && Remembered(rule, next, root.Contents, r.filters)
    ensures r.tree == old(root.Contents) && IsRound(t.rel, rule, start, before, r)
    ensures next == After(t.rel, places, r) && root.Contents == r.tree - Gone(t.rel, r)
    ensures done <==> r.chosen == null
    ensures done ==> NoChoice(root.Contents, start)
    ensures !done ==> root.Contents < old(root.Contents)
  {
    TreePlaces(t.rel, places, root.Contents, getAll, out.finalized, out.filtered);
    var current := Choose(t, rule, getAll, root, start, places, before);
    r := RoundOf(root.Contents, current);
    done, next := current == null, places;
    if !done {
      next := Iterate(t, getAll, root, out, current, places, start, rule, r);
    }
  }

  /** Chooses and takes out clusters until none can be chosen. */
  method RunFull(t: Tester, rule: FilterRule, getAll: bool, root: TreeNode, out: Results)
    returns (ghost places: Places, ghost h: seq<Round>)
    requires t.Sound() && root.Valid() && out.Now() == Lists([], [], [])
    requires AllReach(t, root, root.Contents) && InSync(t.rel, root.Contents, root.Contents)
    requires forall s :: s in root.Contents ==> s.siblings == [] && s.filter == -1
    modifies out, root.Repr, root.Contents`stats, root.Contents`siblings, root.Contents`filter
    ensures root.Valid() && places.Keys == old(root.Contents)
    ensures InSync(t.rel, root.Contents, root.Contents)
    ensures Consistent(t.rel, places, root.Contents, getAll, out.finalized, out.filtered)
    ensures Settled(places, getAll, StartRank(root.rect))
    ensures NoChoice(root.Contents, StartRank(root.rect))
    ensures rule.NoFilter? ==> forall s :: s in places ==> s.filter == -1
    ensures rule.NoFilter? && old(NoChoice(root.Contents, StartRank(root.rect))) ==> root.Contents == old(root.Contents)
    ensures Complete(t.rel, rule, StartRank(root.rect), old(root.Contents), h, places, root.Contents)
  {
    places, h := map s | s in root.Contents :: InTree, [];
    ghost var all, now := root.Contents, map s | s in root.Contents :: -1;
    var start := StartRank(root.rect);
    Begins(t, rule, getAll, all, start, places, now);
    var done := false;
    while !done
      invariant root.Valid() && root.Contents <= all && root.Repr == old(root.Repr)
      invariant InSync(t.rel, root.Contents, root.Contents)
      invariant places.Keys == all && out.finalizedSiblings == []
      invariant Consistent(t.rel, places, root.Contents, getAll, out.finalized, out.filtered)
      invariant Settled(places, getAll, start) && Remembered(rule, places, root.Contents, now)
      invariant done ==> NoChoice(root.Contents, start)
      invariant Told(t.rel, rule, start, all, h, done, places, root.Contents, now)
      decreases !done, root.Contents
    {
      ghost var before := places;
      ghost var r;
      done, places, r := Advance(t, rule, getAll, root, out, start, places, now);
      ToldNext(t.rel, rule, start, all, h, before, now, r);
      h, now := h + [r], r.filters;
    }
    HistoryEnds(t.rel, rule, start, all, h, places, root.Contents, now);
    NeverEvaluated(rule, places, root.Contents, now);
  }

  lemma MemoryNoneEligible(t: Tester, T: set<ClusterInfo>, start: real)
    requires t.Sound() && InSync(t.rel, T, T) && NoChoice(T, start)
    ensures NoneEligible(t.rel, start, T)
  {
    forall s | s in T ensures Near(t.rel, s, T) != {s} && RankIn(t.rel, s, T) >= start {
      MemoryIsExact(t, s, T);
    }
  }

  lemma AllCounted(t: Tester, T: set<ClusterInfo>)
    requires t.Sound() && InSync(t.rel, T, T)
    ensures Counted(T)
  {
    forall s | s in T ensures s.stats.numsiblings >= 0 {
      SelfNear(t, s, T);
      NoSiblings(s.stats, s);
    }
  }

  /** Before the first iteration. */
  lemma Begins(t: Tester, rule: FilterRule, getAll: bool, all: set<ClusterInfo>, start: real, places: Places,
               now: Filters)
    requires t.Sound() && InSync(t.rel, all, all) && forall s :: s in all ==> s.siblings == [] && s.filter == -1
    requires places == (map s | s in all :: InTree) && now == map s | s in all :: -1
    ensures Consistent(t.rel, places, all, getAll, [], []) && Settled(places, getAll, start)
    ensures Remembered(rule, places, all, now) && Told(t.rel, rule, start, all, [], false, places, all, now)
    ensures NoChoice(all, start) ==> NoneEligible(t.rel, start, all)
  {
    StartConsistent(t.rel, all, getAll);
    StartSettled(all, getAll, start);
    if NoChoice(all, start) { MemoryNoneEligible(t, all, start); }
  }

  lemma StartConsistent(rel: Relation, T: set<ClusterInfo>, getAll: bool)
    ensures Consistent(rel, map s | s in T :: InTree, T, getAll, [], [])
  {
  }

  lemma StartSettled(T: set<ClusterInfo>, getAll: bool, start: real)
    requires forall s :: s in T ==> s.siblings == []
    ensures Settled(map s | s in T :: InTree, getAll, start)
  {
  }

  lemma NeverEvaluated(rule: FilterRule, places: Places, T: set<ClusterInfo>, now: Filters)
    requires Remembered(rule, places, T, now)
    ensures rule.NoFilter? ==> forall s :: s in places ==> s.filter == -1
  {
    assert ClusterHistory.Peek(0);
  }
}
