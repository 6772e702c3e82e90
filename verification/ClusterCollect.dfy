/**
 Taking a finished cluster out of the quadtree: its members move from the cells
 to the layer's result lists and cells left empty are dropped.
 */
module ClusterCollect {
  import opened ClusterGeometry
  import opened ClusterTree
  import opened ClusterSearch

  datatype Lists = Lists(finalized: seq<ClusterInfo>, siblings: seq<ClusterInfo>, filtered: seq<ClusterInfo>)

  /** The result lists of a run; new entries go to the front. */
  class Results {
    var finalized: seq<ClusterInfo>
    var finalizedSiblings: seq<ClusterInfo>
    var filtered: seq<ClusterInfo>

    constructor ()
      ensures finalized == [] && finalizedSiblings == [] && filtered == []
    {
      finalized, finalizedSiblings, filtered := [], [], [];
    }

    ghost function Now(): Lists
      reads this
    {
      Lists(finalized, finalizedSiblings, filtered)
    }
  }

  ghost predicate Distinct(s: seq<ClusterInfo>) {
    forall i, j :: 0 <= i < j < |s| ==> s[i] != s[j]
  }

  ghost function Members(s: seq<ClusterInfo>): set<ClusterInfo> {
    set x | x in s
  }

  /** The list has received exactly the members of S, once each, in front of what it held. */
  ghost predicate Gained(before: seq<ClusterInfo>, after: seq<ClusterInfo>, S: set<ClusterInfo>) {
    && |before| <= |after|
    && after[|after| - |before|..] == before
    && Distinct(after[..|after| - |before|])
    && Members(after[..|after| - |before|]) == S
  }

  lemma GainedNone(l: seq<ClusterInfo>)
    ensures Gained(l, l, {})
  {
    assert l[..0] == [];
  }

  lemma GainedOne(before: seq<ClusterInfo>, mid: seq<ClusterInfo>, S: set<ClusterInfo>, x: ClusterInfo)
    requires Gained(before, mid, S) && x !in S
    ensures Gained(before, [x] + mid, S + {x})
  {
    var n := |mid| - |before|;
    assert ([x] + mid)[..n + 1] == [x] + mid[..n];
    assert ([x] + mid)[n + 1..] == mid[n..];
  }

  lemma GainedMore(a: seq<ClusterInfo>, b: seq<ClusterInfo>, c: seq<ClusterInfo>,
                   S: set<ClusterInfo>, U: set<ClusterInfo>)
    requires Gained(a, b, S) && Gained(b, c, U) && S !! U
    ensures Gained(a, c, S + U)
  {
    var n, m := |b| - |a|, |c| - |b|;
    assert c[m..][n..] == c[m + n..];
    assert c[..m + n] == c[..m] + b[..n];
    assert Members(c[..m] + b[..n]) == Members(c[..m]) + Members(b[..n]);
    DistinctJoin(c[..m], b[..n]);
  }

  lemma DistinctJoin(p: seq<ClusterInfo>, q: seq<ClusterInfo>)
    requires Distinct(p) && Distinct(q) && Members(p) !! Members(q)
    ensures Distinct(p + q) && Members(p + q) == Members(p) + Members(q)
  {
    forall i, j | 0 <= i < j < |p + q| ensures (p + q)[i] != (p + q)[j] {
      if i < |p| <= j {
        assert (p + q)[i] in Members(p) && (p + q)[j] in Members(q);
      }
    }
  }

  /** The shapes of S that leave with the cluster around current: its whole region, or
      only the shape itself when the filter has rejected it. */
  ghost function Taken(rel: Relation, rejected: bool, current: ClusterInfo, S: set<ClusterInfo>): set<ClusterInfo> {
    if rejected then S * {current} else Near(rel, current, S) + S * {current}
  }

  lemma TakenGrows(rel: Relation, rejected: bool, current: ClusterInfo, S: set<ClusterInfo>, s: ClusterInfo)
    ensures Taken(rel, rejected, current, S + {s}) ==
            if s == current || ((current.site, s.site) in rel && !rejected)
            then Taken(rel, rejected, current, S) + {s} else Taken(rel, rejected, current, S)
  {
    NearGrows(rel, current, S, s);
  }

  /** Taking from two disjoint parts is taking from the whole. */
  lemma TakenParts(rel: Relation, rejected: bool, current: ClusterInfo, A: set<ClusterInfo>, B: set<ClusterInfo>)
    requires A !! B
    ensures var ta, tb := Taken(rel, rejected, current, A), Taken(rel, rejected, current, B);
            && Taken(rel, rejected, current, A + B) == ta + tb
            && ta <= A && tb <= B && ta !! tb && A - ta !! B - tb
            && A + B - (ta + tb) == (A - ta) + (B - tb)
  {
    NearUnion(rel, current, A, B);
  }

  /** The shapes took have moved to the lists: current to finalized or, if the filter
      rejected it, to filtered; all others to the siblings. */
  ghost predicate Delivered(rejected: bool, current: ClusterInfo, took: set<ClusterInfo>, before: Lists, after: Lists) {
    && Gained(before.siblings, after.siblings, took - {current})
    && after.finalized == (if current in took && !rejected then [current] + before.finalized
                           else before.finalized)
    && after.filtered == (if current in took && rejected then [current] + before.filtered
                          else before.filtered)
  }

  /** Delivered, folded for the proofs that only chain it; mentioning Peek opens it. */
  ghost predicate Moved(rejected: bool, current: ClusterInfo, took: set<ClusterInfo>, before: Lists, after: Lists) {
    forall k: int :: Peek(k) ==> Delivered(rejected, current, took, before, after)
  }

  ghost predicate Peek(k: int) { true }

  lemma MovedMore(rejected: bool, current: ClusterInfo, a: Lists, b: Lists, c: Lists,
                  S: set<ClusterInfo>, U: set<ClusterInfo>)
    requires Moved(rejected, current, S, a, b) && Moved(rejected, current, U, b, c) && S !! U
    ensures Moved(rejected, current, S + U, a, c)
  {
    assert Peek(0);
    GainedMore(a.siblings, b.siblings, c.siblings, S - {current}, U - {current});
    assert S + U - {current} == S - {current} + (U - {current});
  }

  /** Takes one shape of the cluster to the list it belongs on. */
  method Take(out: Results, s: ClusterInfo, current: ClusterInfo, rejected: bool)
    requires rejected == (current.filter == 0)
    modifies out
    ensures Moved(rejected, current, {s}, old(out.Now()), out.Now())
  {
    if s == current {
      if s.filter != 0 {
        out.finalized := [s] + out.finalized;
      } else {
        out.filtered := [s] + out.filtered;
      }
      assert {s} - {current} == {};
      GainedNone(out.finalizedSiblings);
    } else {
      GainedNone(out.finalizedSiblings);
      GainedOne(out.finalizedSiblings, out.finalizedSiblings, {}, s);
      out.finalizedSiblings := [s] + out.finalizedSiblings;
      assert {s} - {current} == {} + {s};
    }
  }

  /** Walks the list of one cell, moving the members of the cluster out of it. */
  method Sift(t: Tester, out: Results, shapes: seq<ClusterInfo>, current: ClusterInfo, rejected: bool)
    returns (keep: seq<ClusterInfo>)
    requires t.Sound() && Distinct(shapes) && rejected == (current.filter == 0)
    modifies out
    ensures Distinct(keep)
    ensures Members(keep) == Members(shapes) - Taken(t.rel, rejected, current, Members(shapes))
    ensures Moved(rejected, current, Taken(t.rel, rejected, current, Members(shapes)), old(out.Now()), out.Now())
  {
    keep := [];
    ghost var done: set<ClusterInfo> := {};
    MovedNone(rejected, current, out.Now());
    for k := 0 to |shapes|
      invariant done == Members(shapes[..k])
      invariant Distinct(keep) && Members(keep) == done - Taken(t.rel, rejected, current, done)
      invariant Moved(rejected, current, Taken(t.rel, rejected, current, done), old(out.Now()), out.Now())
    {
      var s := shapes[k];
      assert s !in done && shapes[..k + 1] == shapes[..k] + [s];
      var hit := Matches(t, current, s);
      TakenGrows(t.rel, rejected, current, done, s);
      if (s == current || hit) && !(s != current && rejected) {
        ghost var mid := out.Now();
        Take(out, s, current, rejected);
        MovedMore(rejected, current, old(out.Now()), mid, out.Now(), Taken(t.rel, rejected, current, done), {s});
      } else {
        DistinctJoin(keep, [s]);
        keep := keep + [s];
      }
      done := done + {s};
    }
    assert shapes[..|shapes|] == shapes;
  }

  predicate IsBare(shapes: seq<ClusterInfo>, kids: seq<TreeNode?>) {
    shapes == [] && forall i :: 0 <= i < |kids| ==> kids[i] == null
  }

  /** Moves every member of the cluster below the cell to the result lists; reports
      whether the cell is left without shapes and children. */
  method CollectClusterShapes(t: Tester, out: Results, node: TreeNode, current: ClusterInfo, rejected: bool)
    returns (bare: bool)
    requires t.Sound() && node.Valid() && Reachable(t.d, node, current.site) && rejected == (current.filter == 0)
    requires current in node.Contents ==> Overlap(node.rect, SearchArea(t.d, current.site))
    modifies out, node.Repr
    ensures node.Valid() && node.Repr == old(node.Repr)
    ensures node.Contents == old(node.Contents) - Taken(t.rel, rejected, current, old(node.Contents))
    ensures Moved(rejected, current, Taken(t.rel, rejected, current, old(node.Contents)), old(out.Now()), out.Now())
    ensures bare ==> node.Contents == {}
    ensures bare <==> node.shapes == [] && node.subnode == [null, null, null, null]
    decreases node.Repr, 1
  {
    ghost var took := Taken(t.rel, rejected, current, node.Contents);
    ghost var before := out.Now();
    if !Overlap(node.rect, SearchArea(t.d, current.site)) {
      PrunedCellHasNoNeighbour(t, node, current);
      assert took == {};
      MovedNone(rejected, current, before);
      bare := IsBare(node.shapes, node.subnode);
      BareIsEmpty(node);
      return;
    }
    CollectCell(t, out, node, current, rejected, took);
    bare := IsBare(node.shapes, node.subnode);
    BareIsEmpty(node);
  }

  /** Collects in a cell that the search area meets. */
  method CollectCell(t: Tester, out: Results, node: TreeNode, current: ClusterInfo, rejected: bool,
                     ghost took: set<ClusterInfo>)
    requires t.Sound() && node.Valid() && rejected == (current.filter == 0)
    requires took == Taken(t.rel, rejected, current, node.Contents)
    modifies out, node.Repr
    ensures node.Valid() && node.Repr == old(node.Repr) && node.Contents == old(node.Contents) - took
    ensures Moved(rejected, current, took, old(out.Now()), out.Now())
    decreases node.Repr, 0
  {
    Look(node);
    ghost var before := out.Now();
    ghost var below, own := Upto(node.subnode, 4), Members(node.shapes);
    TakenParts(t.rel, rejected, current, own, below);
    ghost var ownTook, belowTook := Taken(t.rel, rejected, current, own), Taken(t.rel, rejected, current, below);
    var keep := Sift(t, out, node.shapes, current, rejected);
    ghost var mid := out.Now();
    var kids := CollectBelow(t, out, node.subnode, current, rejected, below, node.Repr - {node});
    MovedMore(rejected, current, before, mid, out.Now(), ownTook, belowTook);
    Replace(node, keep, kids, node.Contents - took, below - belowTook);
  }

  lemma MovedNone(rejected: bool, current: ClusterInfo, l: Lists)
    ensures Moved(rejected, current, {}, l, l)
  {
    GainedNone(l.siblings);
  }

  lemma BareIsEmpty(node: TreeNode)
    requires node.Valid()
    ensures IsBare(node.shapes, node.subnode) ==> node.Contents == {}
  {
    Look(node);
  }

  /** Installs what is left of a cell. */
  method Replace(node: TreeNode, shapes: seq<ClusterInfo>, kids: seq<TreeNode?>,
                 ghost all: set<ClusterInfo>, ghost below: set<ClusterInfo>)
    requires node in node.Repr
    requires Forest(kids, node.Repr - {node}, below)
    requires Distinct(shapes) && Members(shapes) !! below && all == Members(shapes) + below
    modifies node`shapes, node`subnode, node`Contents
    ensures node.Valid() && node.shapes == shapes && node.subnode == kids && node.Contents == all
  {
    ForestShapes(kids, node.Repr - {node}, below);
    node.shapes, node.subnode := shapes, kids;
    node.Contents := all;
    Fold(node);
  }

  /** Collects below child i of a cell and drops the child if it is left empty. */
  method CollectChild(t: Tester, out: Results, kids: seq<TreeNode?>, i: nat, current: ClusterInfo, rejected: bool,
                      ghost S: set<ClusterInfo>, ghost R: set<TreeNode>, ghost C: set<ClusterInfo>)
    returns (left: seq<TreeNode?>)
    requires t.Sound() && Forest(kids, R, S) && rejected == (current.filter == 0)
    requires i < 4 && kids[i] != null && C == kids[i].Contents
    modifies out, kids[i].Repr
    ensures Forest(left, R, S - Taken(t.rel, rejected, current, C))
    ensures forall j :: 0 <= j < 4 && j != i ==> left[j] == kids[j] && Below(left[j]) == old(Below(kids[j]))
    ensures Moved(rejected, current, Taken(t.rel, rejected, current, C), old(out.Now()), out.Now())
    ensures left[i] == null <==> kids[i].shapes == [] && kids[i].subnode == [null, null, null, null]
    decreases R, 2
  {
    var c := kids[i];
    PointInOwnArea(t, c, current);
    ghost var before := KidParts(kids, R, S);
    var bare := CollectClusterShapes(t, out, c, current, rejected);
    left := if bare then kids[i := null] else kids;
    ghost var took := Taken(t.rel, rejected, current, C);
    ChildShrunk(kids, left, i, R, S, took, before);
  }

  /** After one child has been collected from, the others are as they were and the forest is
      the old one without what was taken. */
  twostate lemma ChildShrunk(kids: seq<TreeNode?>, new left: seq<TreeNode?>, new i: nat, new R: set<TreeNode>,
                             new S: set<ClusterInfo>, new took: set<ClusterInfo>, new before: seq<set<ClusterInfo>>)
    requires old(allocated(R)) && old(allocated(S)) && old(Forest(kids, R, S)) && i < 4 && kids[i] != null && |before| == 4
    requires forall j :: 0 <= j < 4 ==> before[j] == old(Below(kids[j]))
    requires forall j, k :: 0 <= j < k < 4 ==> before[j] !! before[k]
    requires S <= before[0] + before[1] + before[2] + before[3]
    requires took <= before[i] && unchanged(R - old(kids[i].Repr))
    requires kids[i].Valid() && kids[i].Repr == old(kids[i].Repr) && kids[i].Contents == before[i] - took
    requires left == kids || (left == kids[i := null] && kids[i].Contents == {})
    ensures Forest(left, R, S - took)
    ensures forall j :: 0 <= j < 4 && j != i ==> Below(left[j]) == before[j]
  {
    forall j | 0 <= j < 4 && j != i && kids[j] != null
      ensures kids[j].Valid() && kids[j].Repr == old(kids[j].Repr) && kids[j].Contents == before[j]
    {
      Untouched(kids[j]);
    }
    assert forall j :: 0 <= j < 4 && j != i ==> before[j] - took == before[j];
    ShrunkForest(kids, left, i, R, S, took, before);
  }

  /** What is left of four subtrees from which the shapes took have gone. */
  lemma ShrunkForest(kids: seq<TreeNode?>, left: seq<TreeNode?>, i: nat, R: set<TreeNode>, S: set<ClusterInfo>,
                     took: set<ClusterInfo>, before: seq<set<ClusterInfo>>)
    requires |kids| == |before| == 4 && i < 4
    requires left == kids || (left == kids[i := null] && kids[i] != null && kids[i].Contents == {})
    requires forall j :: 0 <= j < 4 && kids[j] != null ==>
               && kids[j] in R && kids[j].Repr <= R && kids[j].Valid()
               && kids[j].Contents == before[j] - took
               && Inside(before[j], kids[j].rect) && before[j] <= S
    requires forall j :: 0 <= j < 4 && kids[j] == null ==> before[j] == {}
    requires forall j, k :: 0 <= j < k < 4 && kids[j] != null && kids[k] != null ==>
               kids[j].Repr !! kids[k].Repr && before[j] !! before[k]
    requires S <= before[0] + before[1] + before[2] + before[3]
    ensures Forest(left, R, S - took)
  {
  }

  /** A shape inside a cell's rectangle has a search area that meets the cell. */
  lemma PointInOwnArea(t: Tester, c: TreeNode, s: ClusterInfo)
    requires t.Sound() && Inside(c.Contents, c.rect)
    ensures s in c.Contents ==> Overlap(c.rect, SearchArea(t.d, s.site))
  {
    SoundTest(t);
  }

  /** The same for all the children of a cell. */
  method CollectBelow(t: Tester, out: Results, kids: seq<TreeNode?>, current: ClusterInfo, rejected: bool,
                      ghost S: set<ClusterInfo>, ghost R: set<TreeNode>) returns (left: seq<TreeNode?>)
    requires t.Sound() && Forest(kids, R, S) && rejected == (current.filter == 0)
    modifies out, R
    ensures Forest(left, R, S - Taken(t.rel, rejected, current, S))
    ensures Moved(rejected, current, Taken(t.rel, rejected, current, S), old(out.Now()), out.Now())
    decreases R, 4
  {
    left := kids;
    ghost var parts := KidParts(kids, R, S);
    ghost var done: set<ClusterInfo> := {};
    MovedNone(rejected, current, out.Now());
    for i := 0 to 4
      invariant done == Prefix(parts, i)
      invariant Forest(left, R, S - Taken(t.rel, rejected, current, done))
      invariant forall j :: i <= j < 4 ==> Below(left[j]) == parts[j]
      invariant Moved(rejected, current, Taken(t.rel, rejected, current, done), old(out.Now()), out.Now())
    {
      PrefixStep(parts, i);
      left := CollectNext(t, out, left, i, current, rejected, S, R, done, parts[i], old(out.Now()));
      done := done + parts[i];
    }
  }

  /** Collects below one more child: so far the shapes in done have been seen. */
  method CollectNext(t: Tester, out: Results, kids: seq<TreeNode?>, i: nat, current: ClusterInfo, rejected: bool, ghost S: set<ClusterInfo>,
                     ghost R: set<TreeNode>, ghost done: set<ClusterInfo>, ghost C: set<ClusterInfo>, ghost start: Lists)
    returns (left: seq<TreeNode?>)
    requires t.Sound() && Forest(kids, R, S - Taken(t.rel, rejected, current, done)) && rejected == (current.filter == 0)
    requires i < 4 && C == Below(kids[i]) && C !! done
    requires Moved(rejected, current, Taken(t.rel, rejected, current, done), start, out.Now())
    modifies out, if kids[i] == null then {} else kids[i].Repr
    ensures Forest(left, R, S - Taken(t.rel, rejected, current, done + C))
    ensures Moved(rejected, current, Taken(t.rel, rejected, current, done + C), start, out.Now())
    ensures forall j :: 0 <= j < 4 && j != i ==> left[j] == kids[j] && Below(left[j]) == old(Below(kids[j]))
    decreases R, 3
  {
    ghost var mid := out.Now();
    ghost var gone, more := Taken(t.rel, rejected, current, done), Taken(t.rel, rejected, current, C);
    TakenParts(t.rel, rejected, current, done, C);
    if kids[i] == null {
      assert done + C == done;
      return kids;
    }
    left := CollectChild(t, out, kids, i, current, rejected, S - gone, R, C);
    MovedMore(rejected, current, start, mid, out.Now(), gone, more);
    assert S - gone - more == S - (gone + more);
  }
}
