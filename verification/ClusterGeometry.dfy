/**
 The planar geometry behind point clustering: rectangle tests, the two region
 comparators and the overlapping split of a quadtree cell.
 */
module ClusterGeometry {
  import opened RealMath

  datatype Rect = Rect(minx: real, miny: real, maxx: real, maxy: real)

  /** What clustering knows about one source shape: its anchor point, its bounding
      box and the optional group text. */
  datatype Site = Site(x: real, y: real, bounds: Rect, group: Group)

  datatype Group = NoGroup | Group(text: string)

  /** The search distances shared by every shape of one clustering run. */
  datatype Distances = Distances(dx: real, dy: real)
  {
    predicate Positive() { dx > 0.0 && dy > 0.0 }
  }

  const SPLIT_RATIO := 0.55

  predicate Overlap(a: Rect, b: Rect) {
    a.minx <= b.maxx && b.minx <= a.maxx && a.miny <= b.maxy && b.miny <= a.maxy
  }

  predicate Contained(a: Rect, b: Rect) {
    a.minx >= b.minx && a.maxx <= b.maxx && a.miny >= b.miny && a.maxy <= b.maxy
  }

  predicate PointIn(x: real, y: real, r: Rect) {
    r.minx <= x <= r.maxx && r.miny <= y <= r.maxy
  }

  predicate Proper(r: Rect) { r.minx <= r.maxx && r.miny <= r.maxy }

  /** Two rectangles overlap if and only if they have a point in common. */
  lemma OverlapIsCommonPoint(a: Rect, b: Rect)
    requires Proper(a) && Proper(b)
    ensures Overlap(a, b) <==> exists x, y :: PointIn(x, y, a) && PointIn(x, y, b)
  {
    if Overlap(a, b) {
      var x, y := Larger(a.minx, b.minx), Larger(a.miny, b.miny);
      assert PointIn(x, y, a) && PointIn(x, y, b);
    }
  }

  ghost function Larger(u: real, v: real): real { if u < v then v else u }

  /** A rectangle is contained in another if and only if all its points are. */
  lemma ContainedIsSubset(a: Rect, b: Rect)
    requires Proper(a)
    ensures Contained(a, b) <==> forall x, y :: PointIn(x, y, a) ==> PointIn(x, y, b)
  {
    assert PointIn(a.minx, a.miny, a) && PointIn(a.maxx, a.maxy, a);
  }

  /** The anchor is the lower left corner of the shape's bounding box. */
  predicate Anchored(s: Site) {
    s.x == s.bounds.minx <= s.bounds.maxx && s.y == s.bounds.miny <= s.bounds.maxy
  }

  function SearchArea(d: Distances, s: Site): Rect {
    Rect(s.x - d.dx, s.y - d.dy, s.x + d.dx, s.y + d.dy)
  }

  // ----- group texts compare without regard to ASCII case -----

  function LowerChar(c: char): char {
    if 'A' <= c <= 'Z' then (c as int + 32) as char else c
  }

  function Lower(s: string): string {
    seq(|s|, i requires 0 <= i < |s| => LowerChar(s[i]))
  }

  predicate SameGroup(a: Group, b: Group) {
    a.Group? && b.Group? ==> Lower(a.text) == Lower(b.text)
  }

  /** The texts differ in the case of ASCII letters at most. */
  ghost predicate CaseVariant(s: string, t: string) {
    && |s| == |t|
    && forall k :: 0 <= k < |s| ==>
         || s[k] == t[k]
         || ('A' <= s[k] <= 'Z' && t[k] as int == s[k] as int + 32)
         || ('A' <= t[k] <= 'Z' && s[k] as int == t[k] as int + 32)
  }

  lemma LowerIsCaseVariant(s: string, t: string)
    ensures Lower(s) == Lower(t) <==> CaseVariant(s, t)
  {
    if |s| == |t| {
      forall k | 0 <= k < |s|
        ensures Lower(s)[k] == Lower(t)[k] <==>
                || s[k] == t[k]
                || ('A' <= s[k] <= 'Z' && t[k] as int == s[k] as int + 32)
                || ('A' <= t[k] <= 'Z' && s[k] as int == t[k] as int + 32)
      {
      }
    } else {
      assert |Lower(s)| != |Lower(t)|;
    }
  }

  /** Two shapes are in one group unless both have a group text and these differ in more than
      the case of letters. */
  lemma GroupsAgree(a: Group, b: Group)
    ensures SameGroup(a, b) <==> (a.Group? && b.Group? ==> CaseVariant(a.text, b.text))
  {
    if a.Group? && b.Group? { LowerIsCaseVariant(a.text, b.text); }
  }

  // ----- the two comparators -----

  /** One axis of the ellipse equation: squared offset over squared half axis. */
  function SquaredRatio(u: real, m: real): (q: real)
    requires m > 0.0
    ensures q >= 0.0
    ensures u == 0.0 ==> q == 0.0
    ensures q <= 1.0 ==> -m <= u <= m
  {
    QuotientFacts(Square(u), Square(m));
    if Square(u) <= Square(m) then SquareOrder(u, m); Square(u) / Square(m) else Square(u) / Square(m)
  }

  predicate CompareEllipse(d: Distances, current: Site, other: Site)
    requires d.Positive()
  {
    var b := SearchArea(d, current);
    && SameGroup(current.group, other.group)
    && SquaredRatio(other.x - current.x, b.maxx - current.x)
       + SquaredRatio(other.y - current.y, b.maxy - current.y) <= 1.0
  }

  predicate CompareRectangle(d: Distances, current: Site, other: Site) {
    && SameGroup(current.group, other.group)
    && PointIn(other.x, other.y, SearchArea(d, current))
  }

  datatype Region = Rectangle | Ellipse

  /** The comparator that the layer has selected. */
  predicate Compare(region: Region, d: Distances, current: Site, other: Site)
    requires d.Positive()
  {
    match region
    case Rectangle => CompareRectangle(d, current, other)
    case Ellipse => CompareEllipse(d, current, other)
  }

  /** Which pairs of sites lie in each other's region, as a mathematical relation. */
  type Relation = iset<(Site, Site)>

  ghost function RelationOf(region: Region, d: Distances): Relation
    requires d.Positive()
  {
    iset a, b | Compare(region, d, a, b) :: (a, b)
  }

  /** The facts about the relation that the quadtree algorithms depend on. */
  ghost predicate IsRegionTest(d: Distances, rel: Relation) {
    && (forall a, b :: (a, b) in rel ==> (b, a) in rel)
    && (forall a :: (a, a) in rel)
    && (forall a, b :: (a, b) in rel ==> PointIn(b.x, b.y, SearchArea(d, a)))
  }

  /** Either comparator is symmetric, reflexive and confined to the search area. */
  lemma ComparatorIsRegionTest(region: Region, d: Distances)
    requires d.Positive()
    ensures IsRegionTest(d, RelationOf(region, d))
  {
    forall a, b
      ensures Compare(region, d, a, b) == Compare(region, d, b, a)
      ensures Compare(region, d, a, b) ==> PointIn(b.x, b.y, SearchArea(d, a))
      ensures Compare(region, d, a, a)
    {
      EllipseCentred(d, a, b);
      EllipseCentred(d, b, a);
      EllipseCentred(d, a, a);
      SquareNegate(b.x - a.x);
      SquareNegate(b.y - a.y);
      assert a.x - b.x == -(b.x - a.x) && a.y - b.y == -(b.y - a.y);
    }
  }

  lemma EllipseCentred(d: Distances, a: Site, b: Site)
    requires d.Positive()
    ensures CompareEllipse(d, a, b) ==
            (SameGroup(a.group, b.group)
             && SquaredRatio(b.x - a.x, d.dx) + SquaredRatio(b.y - a.y, d.dy) <= 1.0)
  {
    var r := SearchArea(d, a);
    assert r.maxx - a.x == d.dx && r.maxy - a.y == d.dy;
  }

  // ----- what the comparators test -----

  /** The rectangle: no farther than the distances, along either axis. */
  lemma RectangleMeans(d: Distances, a: Site, b: Site)
    ensures CompareRectangle(d, a, b) <==>
            && (a.group.Group? && b.group.Group? ==> CaseVariant(a.group.text, b.group.text))
            && -d.dx <= b.x - a.x <= d.dx && -d.dy <= b.y - a.y <= d.dy
  {
    GroupsAgree(a.group, b.group);
  }

  /** The ellipse with the distances as half axes, its equation without quotients. */
  lemma EllipseMeans(d: Distances, a: Site, b: Site)
    requires d.Positive()
    ensures var u, v := b.x - a.x, b.y - a.y;
            CompareEllipse(d, a, b) <==>
            && (a.group.Group? && b.group.Group? ==> CaseVariant(a.group.text, b.group.text))
            && Square(u) * Square(d.dy) + Square(v) * Square(d.dx) <= Square(d.dx) * Square(d.dy)
  {
    EllipseCentred(d, a, b);
    GroupsAgree(a.group, b.group);
    RatioSum(b.x - a.x, d.dx, b.y - a.y, d.dy);
  }

  lemma RatioSum(u: real, m: real, v: real, n: real)
    requires m > 0.0 && n > 0.0
    ensures SquaredRatio(u, m) + SquaredRatio(v, n) <= 1.0 <==>
            Square(u) * Square(n) + Square(v) * Square(m) <= Square(m) * Square(n)
  {
    SumOfQuotients(Square(u), Square(m), Square(v), Square(n));
  }

  lemma SumOfQuotients(a: real, m: real, b: real, n: real)
    requires m > 0.0 && n > 0.0
    ensures a / m + b / n <= 1.0 <==> a * n + b * m <= m * n
  {
    var p, q := a / m, b / n;
    DivideMultiply(a, m);
    DivideMultiply(b, n);
    MulPositive(m, n);
    CommonFactor(p, q, m, n);
    CancelFactor(p + q, 1.0, m * n);
    if p + q <= 1.0 { MulMonotone(p + q, 1.0, m * n); }
  }

  lemma CommonFactor(p: real, q: real, m: real, n: real)
    ensures (p + q) * (m * n) == (p * m) * n + (q * n) * m
  {
  }

  /** Changing the case of a group text changes nothing. */
  lemma GroupCaseIrrelevant(region: Region, d: Distances, a: Site, b: Site, text: string)
    requires d.Positive() && a.group.Group? && CaseVariant(a.group.text, text)
    ensures Compare(region, d, a, b) == Compare(region, d, a.(group := Group(text)), b)
  {
    LowerIsCaseVariant(a.group.text, text);
  }

  // ----- quadtree cells -----

  /** Splits a rectangle along its longer side into two halves that overlap by a tenth. */
  function SplitBounds(r: Rect): (h: (Rect, Rect)) {
    if r.maxx - r.minx > r.maxy - r.miny then
      var range := r.maxx - r.minx;
      (r.(maxx := r.minx + range * SPLIT_RATIO), r.(minx := r.maxx - range * SPLIT_RATIO))
    else
      var range := r.maxy - r.miny;
      (r.(maxy := r.miny + range * SPLIT_RATIO), r.(miny := r.maxy - range * SPLIT_RATIO))
  }

  function Quads(r: Rect): (q: seq<Rect>)
    ensures |q| == 4
  {
    var (half1, half2) := SplitBounds(r);
    var (q1, q2) := SplitBounds(half1);
    var (q3, q4) := SplitBounds(half2);
    [q1, q2, q3, q4]
  }

  /** Both halves keep the shorter side, and overlap in a tenth of the longer one. */
  lemma SplitOverlaps(r: Rect)
    ensures var ((a, b), w, h) := (SplitBounds(r), r.maxx - r.minx, r.maxy - r.miny);
            if w > h then
              a == r.(maxx := a.maxx) && b == r.(minx := b.minx)
              && a.maxx - r.minx == r.maxx - b.minx && 10.0 * (a.maxx - b.minx) == w
            else
              a == r.(maxy := a.maxy) && b == r.(miny := b.miny)
              && a.maxy - r.miny == r.maxy - b.miny && 10.0 * (a.maxy - b.miny) == h
  {
  }

  lemma SplitCovers(r: Rect, x: real, y: real)
    requires PointIn(x, y, r)
    ensures var (a, b) := SplitBounds(r);
            && (PointIn(x, y, a) || PointIn(x, y, b))
            && Contained(a, r) && Contained(b, r)
  {
  }

  /** The four quads stay inside the parent and leave no point of it uncovered. */
  lemma QuadsCoverParent(r: Rect, x: real, y: real)
    requires PointIn(x, y, r)
    ensures exists i :: 0 <= i < 4 && PointIn(x, y, Quads(r)[i])
    ensures forall i :: 0 <= i < 4 ==> Contained(Quads(r)[i], r)
  {
    SplitCovers(r, x, y);
    var (h1, h2) := SplitBounds(r);
    var q := Quads(r);
    SplitCovers(h1, h1.minx, h1.miny);
    SplitCovers(h2, h2.minx, h2.miny);
    if PointIn(x, y, h1) {
      SplitCovers(h1, x, y);
      assert PointIn(x, y, q[0]) || PointIn(x, y, q[1]);
    } else {
      SplitCovers(h2, x, y);
      assert PointIn(x, y, q[2]) || PointIn(x, y, q[3]);
    }
  }
}
