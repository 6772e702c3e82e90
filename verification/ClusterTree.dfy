/**
 The tentative clusters and the quadtree that stores them, as they are kept in
 memory while a clustering run is under way.
 */
module ClusterTree {
  import opened RealMath
  import opened ClusterGeometry

  datatype Sum = Sum(x: real, y: real)

  /** The statistics of a neighbourhood: how many siblings, and the mean position.
      The set they were taken over is recorded beside them for the proofs; it is empty
      once the shape has joined a finished cluster and the values are merely copied. */
  datatype Record = Record(numsiblings: int, avgx: real, avgy: real, ghost over: set<ClusterInfo>)

  ghost predicate Exact(r: Record) {
    r.over != {} ==>
      && r.numsiblings == |r.over| - 1
      && r.avgx == Mean(SumOf(r.over).x, |r.over|)
      && r.avgy == Mean(SumOf(r.over).y, |r.over|)
  }

  /** Exact(r), folded so that proofs which merely pass statistics along do not
      unfold it; mentioning Unfold(r) opens it. */
  ghost predicate Sealed(r: Record) {
    forall q :: q == r && Unfold(q) ==> Exact(q)
  }

  ghost predicate Unfold(r: Record) { true }

  /** Only exact statistics are ever stored: the sibling count is the size of the
      neighbourhood less one and the averages are its exact mean. */
  type Stats = r: Record | Sealed(r) witness Record(0, 0.0, 0.0, {})

  lemma StatsAreExact(r: Stats)
    ensures Exact(r)
  {
    assert Unfold(r);
  }

  function Single(s: ClusterInfo): (r: Stats)
    ensures r.over == {s}
  {
    SumAdd({}, s);
    assert {} + {s} == {s};
    Record(0, s.site.x, s.site.y, {s})
  }

  /** The statistics after one more neighbour has been taken in. */
  function Absorb(r: Stats, other: ClusterInfo): (r': Stats)
    requires other !in r.over && r.over != {}
    ensures r'.over == r.over + {other}
  {
    StatsAreExact(r);
    SumAdd(r.over, other);
    MeanGrows(r.avgx, SumOf(r.over).x, |r.over|, other.site.x);
    MeanGrows(r.avgy, SumOf(r.over).y, |r.over|, other.site.y);
    var n := r.numsiblings + 1;
    Record(n, Grown(r.avgx, n, other.site.x), Grown(r.avgy, n, other.site.y), r.over + {other})
  }

  /** The statistics after a neighbour has left. */
  function Release(r: Stats, other: ClusterInfo): (r': Stats)
    requires other in r.over && r.numsiblings > 0
    ensures r'.over == r.over - {other}
  {
    StatsAreExact(r);
    var n := r.numsiblings;
    SumAdd(r.over - {other}, other);
    assert r.over - {other} + {other} == r.over;
    MeanShrinks(r.avgx, SumOf(r.over).x, n, other.site.x);
    MeanShrinks(r.avgy, SumOf(r.over).y, n, other.site.y);
    Record(n - 1, Shrunk(r.avgx, n, other.site.x), Shrunk(r.avgy, n, other.site.y), r.over - {other})
  }

  /** A source shape with the statistics of its neighbourhood. */
  class ClusterInfo {
    const site: Site
    var stats: Stats
    var filter: int
    var siblings: seq<ClusterInfo>

    constructor (site: Site)
      ensures this.site == site && stats.over == {this}
      ensures filter == -1 && siblings == []
    {
      this.site := site;
      filter, siblings := -1, [];
      new;
      stats := Single(this);
    }
  }

  /** A quadtree cell: the shapes kept at this level and up to four smaller cells.
      Contents and Repr are the shapes and the cells found at or below this one. */
  class TreeNode {
    const rect: Rect
    var shapes: seq<ClusterInfo>
    var subnode: seq<TreeNode?>
    ghost var Contents: set<ClusterInfo>
    ghost var Repr: set<TreeNode>

    constructor (rect: Rect)
      ensures this.rect == rect && Valid() && Full() && Repr == {this}
      ensures shapes == [] && Contents == {} && subnode == [null, null, null, null]
    {
      this.rect := rect;
      shapes, subnode := [], [null, null, null, null];
      Contents, Repr := {}, {this};
    }

    ghost function Own(): set<ClusterInfo>
      reads this
    {
      set s | s in shapes
    }

    /** The structural invariant of a subtree. It is folded behind Open, so that only
        the proofs that ask for it (through Look) unfold it, one cell at a time. */
    ghost predicate Valid()
      reads this, Repr
      decreases Repr
    {
      && this in Repr
      && |subnode| == 4
      && forall k: int :: Open(k, this) ==>
          && (forall i :: 0 <= i < 4 && subnode[i] != null ==>
                && subnode[i] in Repr
                && subnode[i].Repr < Repr
                && this !in subnode[i].Repr
                && subnode[i].Valid()
                && Inside(subnode[i].Contents, subnode[i].rect))
          && (forall i, j :: 0 <= i < j < 4 && subnode[i] != null && subnode[j] != null ==>
                subnode[i].Repr !! subnode[j].Repr && subnode[i].Contents !! subnode[j].Contents)
          && (forall i, j :: 0 <= i < j < |shapes| ==> shapes[i] != shapes[j])
          && Own() !! Upto(subnode, 4)
          && Contents == Own() + Upto(subnode, 4)
    }

    /** Every cell has either all four children or none, as while the tree grows. */
    ghost predicate Full()
      requires Valid()
      reads this, Repr
      decreases Repr
    {
      forall k: int :: Open(k, this) ==>
        || (forall i :: 0 <= i < 4 ==> subnode[i] == null)
        || (forall i :: 0 <= i < 4 ==> subnode[i] != null && subnode[i].Full())
    }
  }

  ghost predicate Open(k: int, n: TreeNode) { true }

  /** Unfolds the invariant of one cell. */
  lemma Look(n: TreeNode)
    requires n.Valid()
    ensures Forest(n.subnode, n.Repr - {n}, Upto(n.subnode, 4))
    ensures forall i, j :: 0 <= i < j < |n.shapes| ==> n.shapes[i] != n.shapes[j]
    ensures n.Own() !! Upto(n.subnode, 4)
    ensures n.Contents == n.Own() + Upto(n.subnode, 4)
  {
    assert Open(0, n);
  }

  lemma LookFull(n: TreeNode)
    requires n.Valid() && n.Full()
    ensures || (forall i :: 0 <= i < 4 ==> n.subnode[i] == null)
            || (forall i :: 0 <= i < 4 ==> n.subnode[i] != null && n.subnode[i].Valid() && n.subnode[i].Full())
  {
    assert Open(0, n);
  }

  /** Establishes the invariant of one cell. */
  lemma Fold(n: TreeNode)
    requires n in n.Repr && |n.subnode| == 4
    requires Forest(n.subnode, n.Repr - {n}, Upto(n.subnode, 4))
    requires forall i, j :: 0 <= i < j < |n.shapes| ==> n.shapes[i] != n.shapes[j]
    requires n.Own() !! Upto(n.subnode, 4)
    requires n.Contents == n.Own() + Upto(n.subnode, 4)
    ensures n.Valid()
  {
  }

  lemma FoldFull(n: TreeNode)
    requires n.Valid()
    requires || (forall i :: 0 <= i < 4 ==> n.subnode[i] == null)
             || (forall i :: 0 <= i < 4 ==> n.subnode[i] != null && n.subnode[i].Valid() && n.subnode[i].Full())
    ensures n.Full()
  {
  }

  /** A subtree none of whose cells was written is as it was. */
  twostate lemma Untouched(n: TreeNode)
    requires old(n.Valid()) && unchanged(old(n.Repr))
    ensures n.Valid() && n.Repr == old(n.Repr) && n.Contents == old(n.Contents)
    ensures old(n.Full()) ==> n.Full()
  {
  }

  /** The shapes below one child; none when the child is missing. */
  ghost function Below(c: TreeNode?): set<ClusterInfo>
    reads if c == null then {} else {c}
  {
    if c == null then {} else c.Contents
  }

  /** The shapes below the first n of four children. */
  ghost function Upto(kids: seq<TreeNode?>, n: nat): set<ClusterInfo>
    requires |kids| == 4
    reads set i | 0 <= i < |kids| && kids[i] != null :: kids[i]
  {
    (if n > 0 then Below(kids[0]) else {}) + (if n > 1 then Below(kids[1]) else {})
    + (if n > 2 then Below(kids[2]) else {}) + (if n > 3 then Below(kids[3]) else {})
  }

  /** Four valid and disjoint subtrees over the cells R, some of which may be missing,
      holding the shapes S between them. */
  ghost predicate Forest(kids: seq<TreeNode?>, R: set<TreeNode>, S: set<ClusterInfo>)
    reads R
  {
    && |kids| == 4
    && (forall i :: 0 <= i < 4 && kids[i] != null ==>
          && kids[i] in R && kids[i].Repr <= R && kids[i].Valid()
          && Inside(kids[i].Contents, kids[i].rect)
          && kids[i].Contents <= S)
    && S <= Upto(kids, 4)
    && (forall i, j :: 0 <= i < j < 4 && kids[i] != null && kids[j] != null ==>
          kids[i].Repr !! kids[j].Repr && kids[i].Contents !! kids[j].Contents)
  }

  lemma ForestShapes(kids: seq<TreeNode?>, R: set<TreeNode>, S: set<ClusterInfo>)
    requires Forest(kids, R, S)
    ensures Upto(kids, 4) == S
  {
  }

  ghost predicate Inside(S: set<ClusterInfo>, r: Rect) {
    forall s :: s in S ==> PointIn(s.site.x, s.site.y, r)
  }

  ghost function SumOf(N: set<ClusterInfo>): Sum {
    if N == {} then Sum(0.0, 0.0) else
      var t :| t in N;
      var rest := SumOf(N - {t});
      Sum(t.site.x + rest.x, t.site.y + rest.y)
  }

  /** The sum does not depend on the order in which the members are taken. */
  lemma {:induction false} SumAdd(N: set<ClusterInfo>, t: ClusterInfo)
    requires t !in N
    ensures SumOf(N + {t}) == Sum(SumOf(N).x + t.site.x, SumOf(N).y + t.site.y)
    decreases |N|
  {
    var all := N + {t};
    var u :| u in all && SumOf(all) == Sum(u.site.x + SumOf(all - {u}).x, u.site.y + SumOf(all - {u}).y);
    if u == t {
      assert all - {u} == N;
    } else {
      assert all - {u} == N - {u} + {t};
      SumAdd(N - {u}, t);
      SumAdd(N - {u}, u);
      assert N - {u} + {u} == N;
    }
  }

  function Mean(sum: real, n: nat): real
    requires n > 0
  {
    sum / n as real
  }

  /** The mean of n values after one more value v has been taken in. */
  function Grown(avg: real, n: nat, v: real): real {
    (avg * n as real + v) / (n + 1) as real
  }

  /** The mean that is left when v leaves n + 1 values. */
  function Shrunk(avg: real, n: nat, v: real): real
    requires n > 0
  {
    (avg * (n + 1) as real - v) / n as real
  }

  lemma MeanGrows(avg: real, sum: real, n: nat, v: real)
    requires n > 0 && avg == Mean(sum, n)
    ensures Grown(avg, n, v) == Mean(sum + v, n + 1)
  {
    DivideMultiply(sum, n as real);
  }

  lemma MeanShrinks(avg: real, sum: real, n: nat, v: real)
    requires n > 0 && avg == Mean(sum, n + 1)
    ensures Shrunk(avg, n, v) == Mean(sum - v, n)
  {
    DivideMultiply(sum, (n + 1) as real);
  }

  ghost function Prefix(parts: seq<set<ClusterInfo>>, n: nat): set<ClusterInfo>
    requires |parts| == 4
  {
    (if n > 0 then parts[0] else {}) + (if n > 1 then parts[1] else {})
    + (if n > 2 then parts[2] else {}) + (if n > 3 then parts[3] else {})
  }

  lemma PrefixStep(parts: seq<set<ClusterInfo>>, n: nat)
    requires |parts| == 4 && n < 4
    ensures Prefix(parts, n + 1) == Prefix(parts, n) + parts[n]
    ensures (forall j, k :: 0 <= j < k < 4 ==> parts[j] !! parts[k]) ==> Prefix(parts, n) !! parts[n]
  {
  }

  /** What each child holds; together they hold everything, and no two have a shape in common. */
  lemma KidParts(kids: seq<TreeNode?>, R: set<TreeNode>, S: set<ClusterInfo>) returns (parts: seq<set<ClusterInfo>>)
    requires Forest(kids, R, S)
    ensures |parts| == 4 && forall i :: 0 <= i < 4 ==> parts[i] == Below(kids[i]) && parts[i] <= S
    ensures forall j, k :: 0 <= j < k < 4 ==> parts[j] !! parts[k]
    ensures Prefix(parts, 0) == {} && Prefix(parts, 4) == S
  {
    parts := [Below(kids[0]), Below(kids[1]), Below(kids[2]), Below(kids[3])];
    ForestShapes(kids, R, S);
  }
}
