/** Why a cluster can be chosen as long as shapes are left: bounds on the rank. */
module ClusterRank {
  import opened RealMath
  import opened ClusterGeometry
  import opened ClusterTree
  import opened ClusterSearch
  import opened ClusterBest

  /** The rank a run starts from: larger than any rank of points within the extent. */
  function StartRank(extent: Rect): real {
    Square(extent.maxx - extent.minx) + Square(extent.maxy - extent.miny) + 1.0
  }

  predicate Between(lo: real, sum: real, hi: real, n: nat) {
    lo * n as real <= sum <= hi * n as real
  }

  lemma BetweenStep(lo: real, rest: real, hi: real, n: nat, v: real)
    requires Between(lo, rest, hi, n) && lo <= v <= hi
    ensures Between(lo, v + rest, hi, n + 1)
  {
    var m := n as real;
    assert lo * (m + 1.0) == lo * m + lo && hi * (m + 1.0) == hi * m + hi;
  }

  lemma {:induction false} SumBounds(N: set<ClusterInfo>, box: Rect)
    requires Inside(N, box)
    ensures Between(box.minx, SumOf(N).x, box.maxx, |N|)
    ensures Between(box.miny, SumOf(N).y, box.maxy, |N|)
    decreases |N|
  {
    if N != {} {
      var u :| u in N && SumOf(N) == Sum(u.site.x + SumOf(N - {u}).x, u.site.y + SumOf(N - {u}).y);
      SumBounds(N - {u}, box);
      BetweenStep(box.minx, SumOf(N - {u}).x, box.maxx, |N - {u}|, u.site.x);
      BetweenStep(box.miny, SumOf(N - {u}).y, box.maxy, |N - {u}|, u.site.y);
      assert |N| == |N - {u}| + 1;
    }
  }

  lemma MeanBounds(sum: real, n: nat, lo: real, hi: real)
    requires n > 0 && Between(lo, sum, hi, n)
    ensures lo <= Mean(sum, n) <= hi
  {
    var m := Mean(sum, n);
    DivideMultiply(sum, n as real);
    CancelFactor(lo, m, n as real);
    CancelFactor(m, hi, n as real);
  }

  /** The mean of points in a box is in the box. */
  lemma MeanInside(r: Stats, box: Rect)
    requires r.over != {} && Inside(r.over, box)
    ensures PointIn(r.avgx, r.avgy, box)
  {
    StatsAreExact(r);
    SumBounds(r.over, box);
    MeanBounds(SumOf(r.over).x, |r.over|, box.minx, box.maxx);
    MeanBounds(SumOf(r.over).y, |r.over|, box.miny, box.maxy);
  }

  lemma SquareWithin(u: real, a: real)
    requires -a <= u <= a
    ensures Square(u) <= Square(a)
  {
    if u >= 0.0 { SquareMonotone(u, a); } else { SquareNegate(u); SquareMonotone(-u, a); }
  }

  /** The starting rank is one more than the largest squared distance of two points of the
      extent, which opposite corners have. */
  lemma StartRankIsFarthest(extent: Rect, x: real, y: real, u: real, v: real)
    requires PointIn(x, y, extent) && PointIn(u, v, extent)
    ensures SquaredDistance(x, y, u, v) + 1.0 <= StartRank(extent)
    ensures x == extent.minx && y == extent.miny && u == extent.maxx && v == extent.maxy ==>
              SquaredDistance(x, y, u, v) + 1.0 == StartRank(extent)
  {
    SquareWithin(x - u, extent.maxx - extent.minx);
    SquareWithin(y - v, extent.maxy - extent.miny);
    SquareNegate(extent.maxx - extent.minx);
    SquareNegate(extent.maxy - extent.miny);
  }

  lemma ReciprocalBelowOne(n: int)
    requires n > 0
    ensures 1.0 / (1 + n) as real < 1.0
  {
    QuotientFacts(1.0, (1 + n) as real);
    DivideMultiply(1.0, (1 + n) as real);
  }

  lemma RankWithin(s: Site, r: Record, a: real, b: real)
    requires r.numsiblings > 0
    requires -a <= s.x - r.avgx <= a && -b <= s.y - r.avgy <= b
    ensures RankOf(s, r) < Square(a) + Square(b) + 1.0
  {
    SquareWithin(s.x - r.avgx, a);
    SquareWithin(s.y - r.avgy, b);
    ReciprocalBelowOne(r.numsiblings);
  }

  /** Within the extent every shape with a sibling beats the starting rank. */
  lemma InsideBeatsStart(t: Tester, extent: Rect, s: ClusterInfo, T: set<ClusterInfo>)
    requires t.Sound() && s in T && s.stats.over == Near(t.rel, s, T) && Inside(T, extent)
    requires s.stats.numsiblings > 0
    ensures RankOf(s.site, s.stats) < StartRank(extent)
  {
    SoundTest(t);
    assert s in s.stats.over;
    MeanInside(s.stats, extent);
    assert PointIn(s.site.x, s.site.y, extent);
    RankWithin(s.site, s.stats, extent.maxx - extent.minx, extent.maxy - extent.miny);
  }
}
