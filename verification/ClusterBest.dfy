/**
 Choosing the next cluster: shapes on their own and shapes the filter rejects come
 first, otherwise the shape closest to the mean of its neighbourhood.
 */
module ClusterBest {
  import opened RealMath
  import opened ClusterGeometry
  import opened ClusterTree

  /** The cluster filter, as a test of a shape and its feature count. */
  datatype FilterRule = NoFilter | Filter(accepts: (Site, int) -> bool)

  function RankOf(site: Site, r: Record): real
    requires r.numsiblings >= 0
  {
    Square(site.x - r.avgx) + Square(site.y - r.avgy) + 1.0 / (1 + r.numsiblings) as real
  }

  /** What the filter says of a shape that stands for count features. */
  ghost function Verdict(rule: FilterRule, site: Site, count: int): int
    requires rule.Filter?
  {
    if rule.accepts(site, count) then 1 else 0
  }

  /** The filters of some shapes at one moment; negative as long as none was evaluated. */
  type Filters = map<ClusterInfo, int>

  ghost function FiltersOf(S: set<ClusterInfo>): Filters
    reads S
  {
    map s | s in S :: s.filter
  }

  ghost predicate Unscanned(D: set<ClusterInfo>, before: Filters)
    reads D
  {
    forall s :: s in D ==> s in before && s.filter == before[s]
  }

  /** A filter that changed had not been evaluated before, and is what the filter says of
      the shape with its present count. */
  ghost predicate Evaluated(rule: FilterRule, s: ClusterInfo, before: Filters)
    reads s
  {
    && s in before
    && (|| s.filter == before[s]
        || (rule.Filter? && before[s] < 0 && s.filter == Verdict(rule, s.site, s.stats.numsiblings + 1)))
  }

  /** Evaluates the filter of a shape, once. */
  method EvaluateFilter(rule: FilterRule, s: ClusterInfo, ghost before: Filters)
    requires s in before && s.filter == before[s]
    modifies s`filter
    ensures Evaluated(rule, s, before)
    ensures rule.Filter? ==> s.filter >= 0
  {
    if s.filter < 0 && rule.Filter? {
      s.filter := if rule.accepts(s.site, s.stats.numsiblings + 1) then 1 else 0;
    }
  }

  /** Such a shape is removed at once, whatever its rank. */
  predicate Forced(s: ClusterInfo)
    reads s
  {
    s.stats.numsiblings == 0 || s.filter == 0
  }

  ghost predicate Outranks(s: ClusterInfo, rank: real)
    reads s
  {
    !Forced(s) && s.stats.numsiblings > 0 && RankOf(s.site, s.stats) < rank
  }

  /** What a scan of the shapes D does to the best candidate seen so far. With a filter, a
      candidate has been evaluated, and all shapes have unless the scan met a forced one. */
  ghost predicate Scanned(rule: FilterRule, before: Filters, D: set<ClusterInfo>, best0: ClusterInfo?, rank0: real,
                          best: ClusterInfo?, rank: real)
    reads D
  {
    && rank <= rank0 && (forall s :: s in D ==> Evaluated(rule, s, before))
    && (best == best0 || (best in D && (Forced(best) || Outranks(best, rank0))))
    && (best0 != null ==> best != null)
    && (best == null ==> forall s :: s in D ==> !Forced(s) && !Outranks(s, rank0))
    && ((forall s :: s in D ==> !Forced(s)) ==>
          && (forall s :: s in D ==> !Outranks(s, rank))
          && (|| (best == best0 && rank == rank0)
              || (best in D && Outranks(best, rank0) && rank == RankOf(best.site, best.stats)))
          && (rule.Filter? ==> forall s :: s in D ==> s.filter >= 0))
    && (rule.Filter? ==> best == best0 || (best in D && best.filter >= 0))
  }

  /** Scanned, folded for the proofs that only chain it; mentioning Peek opens it. */
  ghost predicate Scan(rule: FilterRule, before: Filters, D: set<ClusterInfo>, best0: ClusterInfo?, rank0: real,
                       best: ClusterInfo?, rank: real)
    reads D
  {
    rank <= rank0 && forall k: int :: Peek(k) ==> Scanned(rule, before, D, best0, rank0, best, rank)
  }

  ghost predicate Peek(k: int) { true }

  lemma ScanNone(rule: FilterRule, before: Filters, best: ClusterInfo?, rank: real)
    ensures Scan(rule, before, {}, best, rank, best, rank)
  {
  }

  lemma ScanOne(rule: FilterRule, before: Filters, s: ClusterInfo, best0: ClusterInfo?, rank0: real,
                best: ClusterInfo?, rank: real)
    requires !Forced(s) && s.stats.numsiblings >= 0 && (rule.Filter? ==> s.filter >= 0) && Evaluated(rule, s, before)
    requires if RankOf(s.site, s.stats) < rank0 then best == s && rank == RankOf(s.site, s.stats)
             else best == best0 && rank == rank0
    ensures Scan(rule, before, {s}, best0, rank0, best, rank)
  {
  }

  lemma ScanForced(rule: FilterRule, before: Filters, D: set<ClusterInfo>, s: ClusterInfo, best0: ClusterInfo?,
                   rank0: real, rank: real)
    requires s in D && Forced(s) && rank <= rank0 && (rule.Filter? ==> s.filter >= 0)
    requires forall u :: u in D ==> Evaluated(rule, u, before)
    ensures Scan(rule, before, D, best0, rank0, s, rank)
  {
  }

  lemma ScanMore(rule: FilterRule, before: Filters, A: set<ClusterInfo>, B: set<ClusterInfo>,
                 b0: ClusterInfo?, r0: real, b1: ClusterInfo?, r1: real, b2: ClusterInfo?, r2: real)
    requires Scan(rule, before, A, b0, r0, b1, r1) && Scan(rule, before, B, b1, r1, b2, r2)
    ensures Scan(rule, before, A + B, b0, r0, b2, r2)
  {
    assert Peek(0);
  }

  lemma ScanEvaluated(rule: FilterRule, before: Filters, D: set<ClusterInfo>, best0: ClusterInfo?, rank0: real,
                      best: ClusterInfo?, rank: real)
    requires Scan(rule, before, D, best0, rank0, best, rank)
    ensures forall s :: s in D ==> Evaluated(rule, s, before)
  {
    assert Peek(0);
  }

  ghost predicate Counted(D: set<ClusterInfo>)
    reads D
  {
    forall s :: s in D ==> s.stats.numsiblings >= 0
  }

  /** Scans the shapes of one cell; stops at the first forced shape. */
  method ScanOwn(rule: FilterRule, shapes: seq<ClusterInfo>, best0: ClusterInfo?, rank0: real,
                 ghost before: Filters, ghost D: set<ClusterInfo>) returns (best: ClusterInfo?, rank: real, stop: bool)
    requires D == (set s | s in shapes) && Counted(D) && Unscanned(D, before)
    requires forall i, j :: 0 <= i < j < |shapes| ==> shapes[i] != shapes[j]
    modifies D`filter
    ensures Scan(rule, before, D, best0, rank0, best, rank)
    ensures stop ==> best in D && Forced(best) && (rule.Filter? ==> best.filter >= 0)
  {
    best, rank, stop := best0, rank0, false;
    ghost var done: set<ClusterInfo> := {};
    ScanNone(rule, before, best, rank);
    for k := 0 to |shapes|
      invariant done == set s | s in shapes[..k]
      invariant Scan(rule, before, done, best0, rank0, best, rank)
      invariant Unscanned(D - done, before)
    {
      var s := shapes[k];
      assert s in D && s !in done;
      ghost var b, r := best, rank;
      EvaluateFilter(rule, s, before);
      if Forced(s) {
        ScanEvaluated(rule, before, done, best0, rank0, best, rank);
        best, stop := s, true;
        ScanForced(rule, before, D, s, best0, rank0, rank);
        return;
      }
      var own := RankOf(s.site, s.stats);
      if own < rank {
        best, rank := s, own;
      }
      ScanOne(rule, before, s, b, r, best, rank);
      ScanMore(rule, before, done, {s}, best0, rank0, b, r, best, rank);
      done := done + {s};
    }
    assert done == D;
  }

  /** Scans every cell at or below the given one. The search leaves only the current
      cell when it meets a forced shape, so a later cell may replace the candidate. */
  method FindBestCluster(rule: FilterRule, node: TreeNode, best0: ClusterInfo?, rank0: real, ghost before: Filters)
    returns (best: ClusterInfo?, rank: real)
    requires node.Valid() && Counted(node.Contents) && Unscanned(node.Contents, before)
    modifies node.Contents`filter
    ensures Scan(rule, before, node.Contents, best0, rank0, best, rank)
    decreases node.Repr, 1
  {
    Look(node);
    ghost var own, kids := node.Own(), Upto(node.subnode, 4);
    var stop;
    best, rank, stop := ScanOwn(rule, node.shapes, best0, rank0, before, own);
    if stop {
      ScanEvaluated(rule, before, own, best0, rank0, best, rank);
      ScanForced(rule, before, node.Contents, best, best0, rank0, rank);
      return;
    }
    ghost var b, r := best, rank;
    best, rank := FindBestBelow(rule, node.subnode, best, rank, before, kids, node.Repr - {node});
    ScanMore(rule, before, own, kids, best0, rank0, b, r, best, rank);
  }

  method FindBestBelow(rule: FilterRule, kids: seq<TreeNode?>, best0: ClusterInfo?, rank0: real,
                       ghost before: Filters, ghost S: set<ClusterInfo>, ghost R: set<TreeNode>)
    returns (best: ClusterInfo?, rank: real)
    requires Forest(kids, R, S) && Counted(S) && Unscanned(S, before)
    modifies S`filter
    ensures Scan(rule, before, S, best0, rank0, best, rank)
    decreases R, 3
  {
    best, rank := best0, rank0;
    ghost var parts := KidParts(kids, R, S);
    ghost var done: set<ClusterInfo> := {};
    ScanNone(rule, before, best, rank);
    for i := 0 to 4
      invariant done == Prefix(parts, i)
      invariant Scan(rule, before, done, best0, rank0, best, rank)
      invariant Unscanned(S - done, before)
    {
      PrefixStep(parts, i);
      best, rank := FindBestChild(rule, kids[i], best, rank, before, done, parts[i], best0, rank0);
      done := done + parts[i];
    }
  }

  /** One more child: the shapes in done have been scanned before. */
  method FindBestChild(rule: FilterRule, kid: TreeNode?, best1: ClusterInfo?, rank1: real, ghost before: Filters,
                       ghost done: set<ClusterInfo>, ghost C: set<ClusterInfo>, ghost best0: ClusterInfo?,
                       ghost rank0: real)
    returns (best: ClusterInfo?, rank: real)
    requires C == Below(kid) && (kid != null ==> kid.Valid()) && Counted(C) && Unscanned(C, before)
    requires done !! C && Scan(rule, before, done, best0, rank0, best1, rank1)
    modifies C`filter
    ensures Scan(rule, before, done + C, best0, rank0, best, rank)
    decreases if kid == null then {} else kid.Repr, 2
  {
    best, rank := best1, rank1;
    if kid == null {
      assert done + C == done;
    } else {
      best, rank := FindBestCluster(rule, kid, best1, rank1, before);
      ScanMore(rule, before, done, C, best0, rank0, best1, rank1, best, rank);
    }
  }
}
