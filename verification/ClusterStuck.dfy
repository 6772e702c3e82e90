/**
 Collections of shapes of which none can ever be chosen: every shape has a neighbour, and
 none beats the rank a run starts from. They exist exactly if the region of a shape
 reaches farther than the starting rank allows.
 */
module ClusterStuck {
  import opened RealMath
  import opened ClusterGeometry
  import opened ClusterTree
  import opened ClusterSearch
  import opened ClusterCollect
  import opened ClusterBest
  import opened ClusterRank

  // ----- neighbourhoods of sites -----

  /** How many sites there are, and the sums of their coordinates. */
  datatype Tally = Tally(n: nat, x: real, y: real)

  function Plus(a: Tally, b: Tally): Tally { Tally(a.n + b.n, a.x + b.x, a.y + b.y) }

  /** The sites in the region of s, s itself included. */
  ghost function TallyOf(rel: Relation, s: Site, sites: seq<Site>): Tally {
    TallyUpto(rel, s, sites, |sites|)
  }

  /** Those among the first n. */
  ghost function TallyUpto(rel: Relation, s: Site, sites: seq<Site>, n: nat): Tally
    requires n <= |sites|
  {
    if n == 0 then Tally(0, 0.0, 0.0)
    else Plus(TallyUpto(rel, s, sites, n - 1), TallyOne(rel, s, sites[n - 1]))
  }

  ghost function TallyOne(rel: Relation, s: Site, u: Site): Tally {
    if (s, u) in rel then Tally(1, u.x, u.y) else Tally(0, 0.0, 0.0)
  }

  /** The rank of s among them. */
  function TallyRank(s: Site, t: Tally): real
    requires t.n > 0
  {
    RankAt(s.x - Mean(t.x, t.n), s.y - Mean(t.y, t.n), t.n)
  }

  function RankAt(u: real, v: real, n: nat): real
    requires n > 0
  {
    Square(u) + Square(v) + 1.0 / n as real
  }

  /** No site can be chosen. */
  ghost predicate Stuck(region: Region, d: Distances, extent: Rect, sites: seq<Site>)
    requires d.Positive()
  {
    && sites != []
    && (forall s :: s in sites ==> Anchored(s) && Overlap(extent, SearchArea(d, s)))
    && (forall s :: s in sites ==> Unchosen(RelationOf(region, d), StartRank(extent), s, sites))
  }

  ghost predicate Unchosen(rel: Relation, start: real, s: Site, sites: seq<Site>) {
    var t := TallyOf(rel, s, sites);
    t.n > 1 && TallyRank(s, t) >= start
  }

  // ----- sites and the shapes made from them -----

  /** One tentative cluster has been made for each of the given sites. */
  ghost predicate MadeFrom(made: seq<ClusterInfo>, sites: seq<Site>) {
    && |made| == |sites| && Distinct(made)
    && forall i :: 0 <= i < |made| ==> made[i].site == sites[i]
  }

  /** The neighbourhood of a shape, counted by sites. */
  lemma {:induction false} TallyIsNear(rel: Relation, c: ClusterInfo, made: seq<ClusterInfo>, sites: seq<Site>, n: nat)
    requires MadeFrom(made, sites) && n <= |made|
    ensures var N := Near(rel, c, Members(made[..n]));
            TallyUpto(rel, c.site, sites, n) == Tally(|N|, SumOf(N).x, SumOf(N).y)
  {
    if n == 0 {
      assert Near(rel, c, Members(made[..n])) == {};
    } else {
      var m := n - 1;
      TallyIsNear(rel, c, made, sites, m);
      var N := Near(rel, c, Members(made[..m]));
      NearOfNext(rel, c, made, m);
      if (c.site, made[m].site) in rel {
        SumAdd(N, made[m]);
        assert |N + {made[m]}| == |N| + 1;
      }
    }
  }

  lemma NearOfNext(rel: Relation, c: ClusterInfo, made: seq<ClusterInfo>, m: nat)
    requires m < |made| && Distinct(made)
    ensures var N := Near(rel, c, Members(made[..m]));
            && made[m] !in N
            && Near(rel, c, Members(made[..m + 1])) == if (c.site, made[m].site) in rel then N + {made[m]} else N
  {
    assert made[..m + 1] == made[..m] + [made[m]];
    assert Members(made[..m + 1]) == Members(made[..m]) + {made[m]};
    NearGrows(rel, c, Members(made[..m]), made[m]);
  }

  /** The statistics of a shape give the rank of its site. */
  lemma RankIsTallyRank(rel: Relation, c: ClusterInfo, made: seq<ClusterInfo>, sites: seq<Site>)
    requires MadeFrom(made, sites) && c.stats.over == Near(rel, c, Members(made)) && c in c.stats.over
    ensures var t := TallyOf(rel, c.site, sites);
            t.n == c.stats.numsiblings + 1 > 0 && RankOf(c.site, c.stats) == TallyRank(c.site, t)
  {
    TallyIsNear(rel, c, made, sites, |made|);
    assert made[..|made|] == made;
    StatsAreExact(c.stats);
  }

  // ----- how far a region reaches -----

  function Longer(d: Distances): real { if d.dx < d.dy then d.dy else d.dx }

  /** The greatest squared distance between a shape and one in its region. */
  function Reach(region: Region, d: Distances): real {
    match region
    case Rectangle => Square(d.dx) + Square(d.dy)
    case Ellipse => Square(Longer(d))
  }

  lemma RatioScaled(u: real, m: real, big: real)
    requires 0.0 < m <= big
    ensures Square(u) <= Product(SquaredRatio(u, m), Square(big))
  {
    DivideMultiply(Square(u), Square(m));
    SquareMonotone(m, big);
    ScaleUp(SquaredRatio(u, m), Square(m), Square(big));
  }

  lemma ScaleUp(q: real, a: real, b: real)
    requires q >= 0.0 && a <= b
    ensures q * a <= Product(q, b)
  {
    MulMonotone(a, b, q);
    assert a * q == q * a && b * q == q * b;
  }

  lemma EllipseReach(a: real, b: real, c: real)
    requires a + b <= 1.0 && c >= 0.0
    ensures Product(a, c) + Product(b, c) <= c
  {
    MulMonotone(a + b, 1.0, c);
    assert (a + b) * c == a * c + b * c;
  }

  /** No shape of the region is farther away. */
  lemma WithinReach(region: Region, d: Distances, a: Site, b: Site)
    requires d.Positive() && Compare(region, d, a, b)
    ensures Square(b.x - a.x) + Square(b.y - a.y) <= Reach(region, d)
  {
    match region {
      case Rectangle =>
        SquareWithin(b.x - a.x, d.dx);
        SquareWithin(b.y - a.y, d.dy);
      case Ellipse =>
        EllipseCentred(d, a, b);
        RatioScaled(b.x - a.x, d.dx, Longer(d));
        RatioScaled(b.y - a.y, d.dy, Longer(d));
        EllipseReach(SquaredRatio(b.x - a.x, d.dx), SquaredRatio(b.y - a.y, d.dy), Square(Longer(d)));
    }
  }

  // ----- the rank of a shape within reach of its neighbours -----

  /** The offsets add up to at most k times the reach. */
  predicate Spanned(p: real, q: real, k: real, reach: real) {
    Square(p) + Square(q) <= Square(k) * reach
  }

  /** One more offset within reach. */
  lemma SpanStep(p: real, q: real, k: real, u: real, v: real, reach: real)
    requires k >= 0.0 && Spanned(p, q, k, reach) && Square(u) + Square(v) <= reach
    ensures Spanned(p + u, q + v, k + 1.0, reach)
  {
    CrossTerm(p, q, k, u, v, reach);
    calc {
      Square(p + u) + Square(q + v);
      Square(p) + Square(q) + 2.0 * (p * u + q * v) + Square(u) + Square(v);
    <=
      k * k * reach + 2.0 * (k * reach) + reach;
      Square(k + 1.0) * reach;
    }
  }

  lemma CrossTerm(p: real, q: real, k: real, u: real, v: real, reach: real)
    requires k >= 0.0 && Square(p) + Square(q) <= Square(k) * reach && Square(u) + Square(v) <= reach
    ensures p * u + q * v <= k * reach
    ensures k == 0.0 ==> p == 0.0 && q == 0.0
  {
    if k == 0.0 {
      assert Square(p) <= 0.0 && Square(q) <= 0.0;
    } else {
      ExpandSquare(p, k, u);
      ExpandSquare(q, k, v);
      MulMonotone(Square(u) + Square(v), reach, Square(k));
      assert (Square(u) + Square(v)) * Square(k) == Square(u) * Square(k) + Square(v) * Square(k);
      CrossLinear(Square(p) + Square(q), p * u, q * v, k, Square(u) * Square(k) + Square(v) * Square(k), Square(k) * reach);
      CrossCancel(p * u + q * v, k, reach);
    }
  }

  lemma ExpandSquare(p: real, k: real, u: real)
    ensures Square(p) - 2.0 * (k * (p * u)) + Square(u) * Square(k) >= 0.0
  {
    assert Square(p - k * u) == Square(p) - 2.0 * (k * (p * u)) + Square(u) * Square(k);
  }

  lemma CrossLinear(a: real, b: real, c: real, k: real, e: real, m: real)
    requires a <= m && e <= m && a - 2.0 * (k * b) - 2.0 * (k * c) + e >= 0.0
    ensures k * (b + c) <= m
  {
    assert k * (b + c) == k * b + k * c;
  }

  lemma CrossCancel(c: real, k: real, reach: real)
    requires k > 0.0 && k * c <= Square(k) * reach
    ensures c <= k * reach
  {
    assert Square(k) * reach == (k * reach) * k && k * c == c * k;
    CancelFactor(c, k * reach, k);
  }

  /** The offsets of n coordinates with the given sum from x, added up. */
  function Offset(sum: real, n: nat, x: real): real { sum - n as real * x }

  /** The sites of a tally are offset from s by at most m times the reach altogether.
      Folded; opened by Peek. */
  ghost predicate TallySpanned(s: Site, t: Tally, m: nat, reach: real) {
    forall k: int :: Peek(k) ==> Spanned(Offset(t.x, t.n, s.x), Offset(t.y, t.n, s.y), m as real, reach)
  }

  ghost predicate Peek(k: int) { true }

  lemma SpannedNone(s: Site, reach: real)
    ensures TallySpanned(s, Tally(0, 0.0, 0.0), 0, reach)
  {
  }

  lemma OffsetMore(sum: real, n: nat, x: real, u: real)
    ensures Offset(sum + u, n + 1, x) == Offset(sum, n, x) + (u - x)
  {
  }

  /** One more site: it adds its offset, or nothing if it is where s is. */
  lemma SpannedMore(s: Site, t: Tally, m: nat, u: Site, reach: real)
    requires TallySpanned(s, t, m, reach) && CloseTo(s, u, reach)
    ensures TallySpanned(s, Plus(t, Tally(1, u.x, u.y)), m + 1, reach)
    ensures u == s ==> TallySpanned(s, Plus(t, Tally(1, u.x, u.y)), m, reach)
  {
    assert Peek(0);
    OffsetMore(t.x, t.n, s.x, u.x);
    OffsetMore(t.y, t.n, s.y, u.y);
    SpanStep(Offset(t.x, t.n, s.x), Offset(t.y, t.n, s.y), m as real, u.x - s.x, u.y - s.y, reach);
  }

  /** The site u is within reach of s. Folded; opened by Peek. */
  ghost predicate CloseTo(s: Site, u: Site, reach: real) {
    forall k: int :: Peek(k) ==> Square(u.x - s.x) + Square(u.y - s.y) <= reach
  }

  /** Every site related to s is within reach of it. */
  ghost predicate Reaches(rel: Relation, s: Site, reach: real) {
    (s, s) in rel && forall u: Site :: (s, u) in rel ==> CloseTo(s, u, reach)
  }

  /** The site s is among the first n. */
  ghost predicate Among(s: Site, sites: seq<Site>, n: nat)
    requires n <= |sites|
  {
    n > 0 && (sites[n - 1] == s || Among(s, sites, n - 1))
  }

  /** The number of neighbours of a site among the first n sites, itself not counted. */
  ghost function Others(rel: Relation, s: Site, sites: seq<Site>, n: nat): (m: nat)
    requires n <= |sites|
  {
    if n == 0 then 0
    else Others(rel, s, sites, n - 1) + if (s, sites[n - 1]) in rel && (sites[n - 1] != s || Among(s, sites, n - 1)) then 1 else 0
  }

  lemma {:induction false} OthersCounted(rel: Relation, s: Site, sites: seq<Site>, n: nat)
    requires n <= |sites| && (s, s) in rel
    ensures TallyUpto(rel, s, sites, n).n == Others(rel, s, sites, n) + if Among(s, sites, n) then 1 else 0
  {
    if n > 0 { OthersCounted(rel, s, sites, n - 1); }
  }

  lemma {:induction false} FirstAmong(sites: seq<Site>, n: nat)
    requires 0 < n <= |sites|
    ensures Among(sites[0], sites, n)
  {
    if n > 1 { FirstAmong(sites, n - 1); }
  }

  /** The offsets of a site's neighbours from it, of which it is one itself. */
  lemma {:induction false} SitesSpanned(rel: Relation, s: Site, sites: seq<Site>, n: nat, reach: real)
    requires n <= |sites| && Reaches(rel, s, reach)
    ensures TallySpanned(s, TallyUpto(rel, s, sites, n), Others(rel, s, sites, n), reach)
  {
    if n == 0 {
      SpannedNone(s, reach);
    } else {
      SitesSpanned(rel, s, sites, n - 1, reach);
      var t, u, m := TallyUpto(rel, s, sites, n - 1), sites[n - 1], Others(rel, s, sites, n - 1);
      if (s, u) in rel {
        SpannedMore(s, t, m, u, reach);
      } else {
        PlusAssociates(t, Tally(0, 0.0, 0.0), Tally(0, 0.0, 0.0));
      }
    }
  }

  lemma RegionReaches(region: Region, d: Distances, s: Site)
    requires d.Positive()
    ensures Reaches(RelationOf(region, d), s, Reach(region, d))
  {
    ComparatorIsRegionTest(region, d);
    forall u: Site | (s, u) in RelationOf(region, d)
      ensures CloseTo(s, u, Reach(region, d))
    {
      WithinReach(region, d, s, u);
    }
  }

  /** The offset of the mean is that of the sum, divided. */
  lemma MeanOffset(sum: real, n: nat, x: real)
    requires n > 0
    ensures Square(x - Mean(sum, n)) * Square(n as real) == Square(Offset(sum, n, x))
  {
    var m, k := Mean(sum, n), n as real;
    DivideMultiply(sum, k);
    var u := x - m;
    calc {
      Square(u) * Square(k);
      Square(k * u);
      { assert k * u == -(sum - k * x); }
      Square(-(sum - k * x));
      { SquareNegate(sum - k * x); }
      Square(sum - k * x);
    }
  }

  lemma RankScaled(s: Site, t: Tally)
    requires t.n > 0
    ensures TallyRank(s, t) * Square(t.n as real)
            == Square(Offset(t.x, t.n, s.x)) + Square(Offset(t.y, t.n, s.y)) + t.n as real
  {
    MeanOffset(t.x, t.n, s.x);
    MeanOffset(t.y, t.n, s.y);
    RankAtScaled(s.x - Mean(t.x, t.n), s.y - Mean(t.y, t.n), t.n);
  }

  lemma RankAtScaled(u: real, v: real, n: nat)
    requires n > 0
    ensures RankAt(u, v, n) * Square(n as real) == Square(u) * Square(n as real) + Square(v) * Square(n as real) + n as real
  {
    DivideMultiply(1.0, n as real);
    Distribute(Square(u), Square(v), 1.0 / n as real, n as real);
  }

  lemma Distribute(a: real, b: real, c: real, k: real)
    requires c * k == 1.0
    ensures (a + b + c) * Square(k) == a * Square(k) + b * Square(k) + k
  {
    assert c * Square(k) == c * k * k;
  }

  /** Within reach, the rank of a site with neighbours stays below any bound of at least one
      that the reach does not exceed. */
  lemma SpannedRank(s: Site, t: Tally, reach: real, start: real)
    requires t.n > 1 && TallySpanned(s, t, t.n - 1, reach) && reach <= start && start >= 1.0
    ensures TallyRank(s, t) < start
  {
    assert Peek(0);
    RankScaled(s, t);
    SpannedBelow(TallyRank(s, t), Square(Offset(t.x, t.n, s.x)) + Square(Offset(t.y, t.n, s.y)), t.n as real, reach, start);
  }

  lemma SpannedBelow(rank: real, offsets: real, k: real, reach: real, start: real)
    requires k >= 2.0 && reach <= start && start >= 1.0
    requires rank * Square(k) == offsets + k && offsets <= Square(k - 1.0) * reach
    ensures rank < start
  {
    RankArithmetic(k, reach, start);
    if rank >= start { MulMonotone(start, rank, Square(k)); }
  }

  lemma RankArithmetic(k: real, reach: real, start: real)
    requires k >= 2.0 && reach <= start && start >= 1.0
    ensures Square(k - 1.0) * reach + k < start * Square(k)
  {
    var a := Square(k - 1.0);
    Commuted(reach, start, a);
    MulMonotone(1.0, start, k);
    MulPositive(start, k - 1.0);
    SquareLess(k, start);
    Chained(a * reach, a * start, start * k, start * (k - 1.0), k, start * Square(k));
  }

  lemma Commuted(p: real, q: real, a: real)
    requires p <= q && a >= 0.0
    ensures a * p <= a * q
  {
    MulMonotone(p, q, a);
    assert p * a == a * p && q * a == a * q;
  }

  lemma Chained(a: real, b: real, c: real, e: real, k: real, g: real)
    requires a <= b && k <= c && e > 0.0 && b + c == g - e
    ensures a + k < g
  {
  }

  lemma SquareLess(k: real, start: real)
    ensures Square(k - 1.0) * start + start * k == start * Square(k) - start * (k - 1.0)
  {
    assert Square(k - 1.0) == Square(k) - 2.0 * k + 1.0;
    assert (Square(k) - 2.0 * k + 1.0) * start == Square(k) * start - 2.0 * k * start + start;
  }

  /** Only a region that reaches farther than the starting rank can be stuck. */
  lemma StuckNeedsReach(region: Region, d: Distances, extent: Rect, sites: seq<Site>)
    requires d.Positive() && Stuck(region, d, extent, sites)
    ensures Reach(region, d) > StartRank(extent)
  {
    var s := sites[0];
    assert Unchosen(RelationOf(region, d), StartRank(extent), s, sites);
    RegionReaches(region, d, s);
    SitesSpanned(RelationOf(region, d), s, sites, |sites|, Reach(region, d));
    FirstAmong(sites, |sites|);
    OthersCounted(RelationOf(region, d), s, sites, |sites|);
    if Reach(region, d) <= StartRank(extent) {
      SpannedRank(s, TallyOf(RelationOf(region, d), s, sites), Reach(region, d), StartRank(extent));
    }
  }

  // ----- hubs and leaves -----

  /** An offset as long as the region reaches. */
  function Farthest(region: Region, d: Distances): (real, real) {
    match region
    case Rectangle => (d.dx, d.dy)
    case Ellipse => if d.dx < d.dy then (0.0, d.dy) else (d.dx, 0.0)
  }

  function Point(x: real, y: real, group: Group): Site { Site(x, y, Rect(x, y, x, y), group) }

  function CentreX(extent: Rect): real { (extent.minx + extent.maxx) / 2.0 }

  function CentreY(extent: Rect): real { (extent.miny + extent.maxy) / 2.0 }

  /** A site without group at one end of the offset, which is centred on the extent. */
  function Hub(extent: Rect, o: (real, real)): Site {
    Point(CentreX(extent) + o.0 / 2.0, CentreY(extent) + o.1 / 2.0, NoGroup)
  }

  /** A group of its own for every leaf. */
  function GroupName(i: nat): string { seq(i, j => 'a') }

  /** A site with a group of its own at the other end. */
  function LeafSite(extent: Rect, o: (real, real), i: nat): Site {
    Point(CentreX(extent) - o.0 / 2.0, CentreY(extent) - o.1 / 2.0, Group(GroupName(i)))
  }

  function Hubs(extent: Rect, o: (real, real), k: nat): (r: seq<Site>)
    ensures |r| == k
  {
    seq(k, i => Hub(extent, o))
  }

  function Leaves(extent: Rect, o: (real, real), k: nat): (r: seq<Site>)
    ensures |r| == k
  {
    seq(k, i requires 0 <= i < k => LeafSite(extent, o, i))
  }

  /** k hubs, each related to all, and k k leaves, each related to the hubs and itself. */
  function HubsAndLeaves(extent: Rect, o: (real, real), k: nat): seq<Site> {
    Hubs(extent, o, k) + Leaves(extent, o, k * k)
  }

  lemma OwnGroup(i: nat, j: nat)
    ensures SameGroup(Group(GroupName(i)), Group(GroupName(j))) <==> i == j
  {
    assert |Lower(GroupName(i))| == i && |Lower(GroupName(j))| == j;
  }

  lemma FarthestReach(region: Region, d: Distances)
    requires d.Positive()
    ensures var o := Farthest(region, d);
            && Square(o.0) + Square(o.1) == Reach(region, d)
            && 0.0 <= o.0 <= d.dx && 0.0 <= o.1 <= d.dy
  {
    assert Square(0.0) == 0.0;
  }

  /** Sites of one group that are the farthest offset apart, or nothing, are related. */
  lemma FarthestRelated(region: Region, d: Distances, a: Site, b: Site)
    requires d.Positive() && SameGroup(a.group, b.group)
    requires var o := Farthest(region, d);
             || (b.x - a.x == 0.0 && b.y - a.y == 0.0)
             || (b.x - a.x == o.0 && b.y - a.y == o.1)
             || (b.x - a.x == -o.0 && b.y - a.y == -o.1)
    ensures (a, b) in RelationOf(region, d)
  {
    FarthestReach(region, d);
    if region.Ellipse? {
      EllipseCentred(d, a, b);
      SquareNegate(d.dx);
      SquareNegate(d.dy);
      QuotientFacts(Square(d.dx), Square(d.dx));
      QuotientFacts(Square(d.dy), Square(d.dy));
    }
  }

  /** The first sites of two lists one after the other. */
  lemma {:induction false} TallyConcat(rel: Relation, s: Site, a: seq<Site>, b: seq<Site>, n: nat)
    requires n <= |a| + |b|
    ensures TallyUpto(rel, s, a + b, n) == if n <= |a| then TallyUpto(rel, s, a, n)
                                           else Plus(TallyUpto(rel, s, a, |a|), TallyUpto(rel, s, b, n - |a|))
  {
    if n > 0 {
      var m := n - 1;
      TallyConcat(rel, s, a, b, m);
      if m < |a| {
        assert (a + b)[m] == a[m];
      } else {
        var i := m - |a|;
        assert (a + b)[m] == b[i];
        PlusAssociates(TallyUpto(rel, s, a, |a|), TallyUpto(rel, s, b, i), TallyOne(rel, s, b[i]));
      }
    }
  }

  lemma PlusAssociates(a: Tally, b: Tally, c: Tally)
    ensures Plus(Plus(a, b), c) == Plus(a, Plus(b, c))
    ensures Plus(a, Tally(0, 0.0, 0.0)) == a
  {
  }

  /** Sites at one place, all of them related to s. */
  lemma {:induction false} TallyAll(rel: Relation, s: Site, sites: seq<Site>, x: real, y: real, n: nat)
    requires n <= |sites| && AllAt(rel, s, sites, x, y)
    ensures TallyUpto(rel, s, sites, n) == Tally(n, n as real * x, n as real * y)
  {
    if n > 0 {
      TallyAll(rel, s, sites, x, y, n - 1);
      assert n as real * x == (n - 1) as real * x + x && n as real * y == (n - 1) as real * y + y;
    }
  }

  /** Sites of which only the one at position j is related to s. */
  lemma {:induction false} TallySelf(rel: Relation, s: Site, sites: seq<Site>, j: nat, n: nat)
    requires n <= |sites| && j < |sites| && forall i :: 0 <= i < |sites| ==> ((s, sites[i]) in rel <==> i == j)
    ensures TallyUpto(rel, s, sites, n) == if j < n then Tally(1, sites[j].x, sites[j].y) else Tally(0, 0.0, 0.0)
  {
    if n > 0 { TallySelf(rel, s, sites, j, n - 1); }
  }

  /** All hubs and leaves overlap the extent. */
  lemma HubsNear(region: Region, d: Distances, extent: Rect, k: nat)
    requires d.Positive() && Proper(extent)
    ensures var o := Farthest(region, d);
            forall s :: s in HubsAndLeaves(extent, o, k) ==> Anchored(s) && Overlap(extent, SearchArea(d, s))
  {
    FarthestReach(region, d);
  }

  /** All sites are at one place and related to s. */
  ghost predicate AllAt(rel: Relation, s: Site, sites: seq<Site>, x: real, y: real) {
    forall i :: 0 <= i < |sites| ==> (s, sites[i]) in rel && sites[i].x == x && sites[i].y == y
  }

  lemma HubsRelated(region: Region, d: Distances, extent: Rect, k: nat, s: Site)
    requires d.Positive()
    requires var o := Farthest(region, d); s == Hub(extent, o) || exists j: nat :: s == LeafSite(extent, o, j)
    ensures var o := Farthest(region, d);
            AllAt(RelationOf(region, d), s, Hubs(extent, o, k), Hub(extent, o).x, Hub(extent, o).y)
  {
    FarthestRelated(region, d, s, Hub(extent, Farthest(region, d)));
  }

  lemma LeavesRelated(region: Region, d: Distances, extent: Rect, k: nat)
    requires d.Positive()
    ensures var o := Farthest(region, d);
            AllAt(RelationOf(region, d), Hub(extent, o), Leaves(extent, o, k), LeafSite(extent, o, 0).x, LeafSite(extent, o, 0).y)
  {
    var o := Farthest(region, d);
    forall i | 0 <= i < k ensures (Hub(extent, o), Leaves(extent, o, k)[i]) in RelationOf(region, d) {
      FarthestRelated(region, d, Hub(extent, o), LeafSite(extent, o, i));
    }
  }

  /** Leaves are related to themselves only. */
  lemma LeavesApart(region: Region, d: Distances, extent: Rect, k: nat, j: nat)
    requires d.Positive() && j < k
    ensures var o := Farthest(region, d);
            forall i :: 0 <= i < k ==>
              ((LeafSite(extent, o, j), Leaves(extent, o, k)[i]) in RelationOf(region, d) <==> i == j)
  {
    var o := Farthest(region, d);
    forall i | 0 <= i < k
      ensures (LeafSite(extent, o, j), Leaves(extent, o, k)[i]) in RelationOf(region, d) <==> i == j
    {
      OwnGroup(j, i);
      if i == j { FarthestRelated(region, d, LeafSite(extent, o, j), LeafSite(extent, o, i)); }
    }
  }

  lemma TallyBoth(rel: Relation, s: Site, a: seq<Site>, b: seq<Site>)
    ensures TallyOf(rel, s, a + b) == Plus(TallyOf(rel, s, a), TallyOf(rel, s, b))
  {
    TallyConcat(rel, s, a, b, |a| + |b|);
    if b == [] { PlusAssociates(TallyOf(rel, s, a), Tally(0, 0.0, 0.0), Tally(0, 0.0, 0.0)); }
  }

  /** n sites at one place. */
  function Copies(n: nat, s: Site): Tally { Tally(n, n as real * s.x, n as real * s.y) }

  lemma AllCopies(rel: Relation, s: Site, sites: seq<Site>, p: Site)
    requires AllAt(rel, s, sites, p.x, p.y)
    ensures TallyOf(rel, s, sites) == Copies(|sites|, p)
  {
    TallyAll(rel, s, sites, p.x, p.y, |sites|);
  }

  lemma HubTally(rel: Relation, h: Site, l: Site, hubs: seq<Site>, leaves: seq<Site>)
    requires AllAt(rel, h, hubs, h.x, h.y) && AllAt(rel, h, leaves, l.x, l.y)
    ensures TallyOf(rel, h, hubs + leaves) == Plus(Copies(|hubs|, h), Copies(|leaves|, l))
  {
    TallyBoth(rel, h, hubs, leaves);
    AllCopies(rel, h, hubs, h);
    AllCopies(rel, h, leaves, l);
  }

  lemma LeafTally(rel: Relation, h: Site, l: Site, hubs: seq<Site>, leaves: seq<Site>, j: nat)
    requires AllAt(rel, l, hubs, h.x, h.y) && j < |leaves| && leaves[j] == l
    requires forall i :: 0 <= i < |leaves| ==> ((l, leaves[i]) in rel <==> i == j)
    ensures TallyOf(rel, l, hubs + leaves) == Plus(Copies(|hubs|, h), Tally(1, l.x, l.y))
  {
    TallyBoth(rel, l, hubs, leaves);
    AllCopies(rel, l, hubs, h);
    TallySelf(rel, l, leaves, j, |leaves|);
  }

  // ----- their ranks -----

  /** So many hubs that the rank comes close enough to the reach. Folded; opened by Peek. */
  ghost predicate Enough(k: real, reach: real, start: real) {
    k >= 1.0 && forall i: int :: Peek(i) ==> Square(k) * reach >= start * Square(k + 1.0)
  }

  function HubCount(reach: real, start: real): nat
    requires reach > start > 0.0
  {
    QuotientFacts(3.0 * start, reach - start);
    (3.0 * start / (reach - start)).Floor + 1
  }

  lemma HubCountEnough(reach: real, start: real)
    requires reach > start > 0.0
    ensures Enough(HubCount(reach, start) as real, reach, start)
  {
    var gap, k := reach - start, HubCount(reach, start) as real;
    QuotientFacts(3.0 * start, gap);
    DivideMultiply(3.0 * start, gap);
    assert k > 3.0 * start / gap;
    MulMonotone(3.0 * start / gap, k, gap);
    EnoughArithmetic(k, gap, start);
  }

  lemma EnoughArithmetic(k: real, gap: real, start: real)
    requires k >= 1.0 && start > 0.0 && 3.0 * start <= k * gap
    ensures Square(k) * (start + gap) >= start * Square(k + 1.0)
  {
    MulMonotone(3.0 * start, k * gap, k);
    MulMonotone(1.0, k, start);
    calc {
      Square(k) * (start + gap);
      Square(k) * start + (k * gap) * k;
    >=
      Square(k) * start + 3.0 * start * k;
    >=
      Square(k) * start + 2.0 * start * k + start;
      start * Square(k + 1.0);
    }
  }

  /** An offset whose square is at least start. Folded; opened by Peek. */
  ghost predicate FarOff(u: real, v: real, start: real) {
    forall i: int :: Peek(i) ==> Square(u) + Square(v) >= start
  }

  /** The offset of a coordinate from the mean of itself and k others at o. */
  function FromMean(k: nat, o: real, s: real): real { s - Mean(k as real * o + s, k + 1) }

  /** One site, and k others at the offset of the reach from it. */
  lemma FarFromMean(k: nat, s: Site, o: Site, reach: real, start: real)
    requires Square(o.x - s.x) + Square(o.y - s.y) == reach && Enough(k as real, reach, start)
    ensures FarOff(FromMean(k, o.x, s.x), FromMean(k, o.y, s.y), start)
  {
    AlongAxis(k, o.x, s.x);
    AlongAxis(k, o.y, s.y);
    FarDivided(FromMean(k, o.x, s.x), FromMean(k, o.y, s.y), k as real, o.x - s.x, o.y - s.y, reach, start);
  }

  /** The offset a is u, times k / (k + 1), as squares. Folded; opened by Peek. */
  ghost predicate Pulled(a: real, k: real, u: real) {
    forall i: int :: Peek(i) ==> Square(a) * Square(k + 1.0) == Square(k * u)
  }

  lemma AlongAxis(k: nat, o: real, s: real)
    ensures Pulled(FromMean(k, o, s), k as real, o - s)
  {
    MeanOffset(k as real * o + s, k + 1, s);
    OtherOffsets(k, o, s);
  }

  lemma OtherOffsets(k: nat, o: real, s: real)
    ensures Offset(k as real * o + s, k + 1, s) == k as real * (o - s)
  {
  }

  lemma FarDivided(a: real, b: real, k: real, u: real, v: real, reach: real, start: real)
    requires Pulled(a, k, u) && Pulled(b, k, v) && Square(u) + Square(v) == reach && Enough(k, reach, start)
    ensures FarOff(a, b, start)
  {
    assert Peek(0);
    SquareProduct(k, u);
    SquareProduct(k, v);
    Divide(Square(a), Square(b), Square(k + 1.0), Square(k), Square(u), Square(v), start);
  }

  lemma SquareProduct(k: real, u: real)
    ensures Square(k * u) == Square(k) * Square(u)
  {
  }

  lemma Divide(a: real, b: real, c: real, d: real, x: real, y: real, start: real)
    requires c > 0.0 && a * c == d * x && b * c == d * y && d * (x + y) >= start * c
    ensures a + b >= start
  {
    assert (a + b) * c == a * c + b * c && d * (x + y) == d * x + d * y;
    CancelFactor(start, a + b, c);
  }

  lemma RankFarOff(u: real, v: real, n: nat, start: real)
    requires n > 0 && FarOff(u, v, start)
    ensures RankAt(u, v, n) >= start
  {
    assert Peek(0);
    QuotientFacts(1.0, n as real);
  }

  lemma LeafRank(k: nat, h: Site, l: Site, reach: real, start: real)
    requires Square(h.x - l.x) + Square(h.y - l.y) == reach && Enough(k as real, reach, start)
    ensures TallyRank(l, Plus(Copies(k, h), Tally(1, l.x, l.y))) >= start
  {
    FarFromMean(k, l, h, reach, start);
    RankFarOff(FromMean(k, h.x, l.x), FromMean(k, h.y, l.y), k + 1, start);
  }

  /** k hubs and k k leaves have the mean of one hub and k leaves. */
  lemma HubRank(k: nat, h: Site, l: Site, reach: real, start: real)
    requires Square(h.x - l.x) + Square(h.y - l.y) == reach && Enough(k as real, reach, start)
    ensures TallyRank(h, Plus(Copies(k, h), Copies(k * k, l))) >= start
  {
    Turned(h, l);
    FarFromMean(k, h, l, reach, start);
    HubMean(k, h, l);
    RankFarOff(FromMean(k, l.x, h.x), FromMean(k, l.y, h.y), k + k * k, start);
  }

  lemma HubMean(k: nat, h: Site, l: Site)
    requires k > 0
    ensures var t := Plus(Copies(k, h), Copies(k * k, l));
            && t.n == k + k * k
            && h.x - Mean(t.x, t.n) == FromMean(k, l.x, h.x) && h.y - Mean(t.y, t.n) == FromMean(k, l.y, h.y)
  {
    SameMean(k, h.x, l.x);
    SameMean(k, h.y, l.y);
  }

  lemma Turned(h: Site, l: Site)
    ensures Square(l.x - h.x) + Square(l.y - h.y) == Square(h.x - l.x) + Square(h.y - l.y)
  {
    SquareNegate(h.x - l.x);
    SquareNegate(h.y - l.y);
    assert l.x - h.x == -(h.x - l.x) && l.y - h.y == -(h.y - l.y);
  }

  lemma SameMean(k: nat, h: real, l: real)
    requires k > 0
    ensures Mean(k as real * h + (k * k) as real * l, k + k * k) == Mean(k as real * l + h, k + 1)
  {
    var m := k as real;
    var a, b := Mean(m * h + (k * k) as real * l, k + k * k), Mean(m * l + h, k + 1);
    DivideMultiply(m * h + (k * k) as real * l, (k + k * k) as real);
    DivideMultiply(m * l + h, (k + 1) as real);
    assert (k * k) as real == m * m;
    SameQuotient(m, a, b, h, l);
  }

  lemma SameQuotient(m: real, a: real, b: real, h: real, l: real)
    requires m >= 1.0 && a * (m + m * m) == m * h + (m * m) * l && b * (m + 1.0) == m * l + h
    ensures a == b
  {
    var n := m + m * m;
    assert b * n == (b * (m + 1.0)) * m;
    assert (m * l + h) * m == m * h + (m * m) * l;
    CancelFactor(a, b, n);
  }

  // ----- the exact condition -----

  /** The sites that can never be chosen. */
  function StuckSites(region: Region, d: Distances, extent: Rect): seq<Site>
    requires Reach(region, d) > StartRank(extent)
  {
    HubsAndLeaves(extent, Farthest(region, d), HubCount(Reach(region, d), StartRank(extent)))
  }

  lemma ReachIsStuck(region: Region, d: Distances, extent: Rect)
    requires d.Positive() && Proper(extent) && Reach(region, d) > StartRank(extent)
    ensures Stuck(region, d, extent, StuckSites(region, d, extent))
  {
    var o, rel, reach, start := Farthest(region, d), RelationOf(region, d), Reach(region, d), StartRank(extent);
    var k := HubCount(reach, start);
    var hubs, leaves := Hubs(extent, o, k), Leaves(extent, o, k * k);
    HubCountEnough(reach, start);
    FarthestReach(region, d);
    HubsNear(region, d, extent, k);
    forall s | s in hubs + leaves ensures Unchosen(rel, start, s, hubs + leaves) {
      if s in hubs {
        HubUnchosen(region, d, extent, k);
      } else {
        var j :| 0 <= j < k * k && leaves[j] == s;
        LeafUnchosen(region, d, extent, k, j);
      }
    }
  }

  lemma HubUnchosen(region: Region, d: Distances, extent: Rect, k: nat)
    requires d.Positive() && Enough(k as real, Reach(region, d), StartRank(extent))
    ensures var o := Farthest(region, d);
            Unchosen(RelationOf(region, d), StartRank(extent), Hub(extent, o), HubsAndLeaves(extent, o, k))
  {
    var o := Farthest(region, d);
    var h, l := Hub(extent, o), LeafSite(extent, o, 0);
    HubsRelated(region, d, extent, k, h);
    LeavesRelated(region, d, extent, k * k);
    HubTally(RelationOf(region, d), h, l, Hubs(extent, o, k), Leaves(extent, o, k * k));
    FarthestReach(region, d);
    HubRank(k, h, l, Reach(region, d), StartRank(extent));
  }

  lemma LeafUnchosen(region: Region, d: Distances, extent: Rect, k: nat, j: nat)
    requires d.Positive() && Enough(k as real, Reach(region, d), StartRank(extent)) && j < k * k
    ensures var o := Farthest(region, d);
            Unchosen(RelationOf(region, d), StartRank(extent), LeafSite(extent, o, j), HubsAndLeaves(extent, o, k))
  {
    var o := Farthest(region, d);
    var h, l := Hub(extent, o), LeafSite(extent, o, j);
    HubsRelated(region, d, extent, k, l);
    LeavesApart(region, d, extent, k * k, j);
    LeafTally(RelationOf(region, d), h, l, Hubs(extent, o, k), Leaves(extent, o, k * k), j);
    FarthestReach(region, d);
    LeafRank(k, h, l, Reach(region, d), StartRank(extent));
  }

  /** Some shapes can never be chosen if and only if the region reaches farther than the
      starting rank. */
  lemma StuckExactly(region: Region, d: Distances, extent: Rect)
    requires d.Positive() && Proper(extent)
    ensures (exists sites :: Stuck(region, d, extent, sites)) <==> Reach(region, d) > StartRank(extent)
  {
    if sites :| Stuck(region, d, extent, sites) {
      StuckNeedsReach(region, d, extent, sites);
    }
    if Reach(region, d) > StartRank(extent) {
      ReachIsStuck(region, d, extent);
    }
  }
}
