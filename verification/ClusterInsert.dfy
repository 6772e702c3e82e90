/**
 Growing the quadtree: a shape goes to the deepest cell that still holds its
 bounding box, and cells split on the way down.
 */
module ClusterInsert {
  import opened ClusterGeometry
  import opened ClusterTree

  /** Puts a shape at a cell. */
  method Store(node: TreeNode, shape: ClusterInfo)
    requires node.Valid() && node.Full() && shape !in node.Contents
    modifies node
    ensures node.Valid() && node.Full()
    ensures node.Repr == old(node.Repr) && node.subnode == old(node.subnode)
    ensures node.shapes == [shape] + old(node.shapes)
    ensures node.Contents == old(node.Contents) + {shape}
  {
    Look(node);
    LookFull(node);
    node.shapes := [shape] + node.shapes;
    node.Contents := node.Contents + {shape};
    assert node.Own() == old(node.Own()) + {shape};
    Fold(node);
    FoldFull(node);
  }

  /** Four new empty cells over the given rectangles. */
  method NewCells(quads: seq<Rect>) returns (cells: seq<TreeNode>)
    requires |quads| == 4
    ensures |cells| == 4
    ensures forall i :: 0 <= i < 4 ==>
              && fresh(cells[i]) && cells[i].rect == quads[i]
              && cells[i].Valid() && cells[i].Full()
              && cells[i].Repr == {cells[i]} && cells[i].Contents == {}
    ensures forall i, j :: 0 <= i < j < 4 ==> cells[i] != cells[j]
  {
    cells := [];
    for k := 0 to 4
      invariant |cells| == k
      invariant forall i :: 0 <= i < k ==>
                  && fresh(cells[i]) && cells[i].rect == quads[i]
                  && cells[i].Valid() && cells[i].Full()
                  && cells[i].Repr == {cells[i]} && cells[i].Contents == {}
      invariant forall i, j :: 0 <= i < j < k ==> cells[i] != cells[j]
    {
      var c := new TreeNode(quads[k]);
      cells := cells + [c];
    }
  }

  /** The four cells are valid, empty and have nothing in common. */
  ghost predicate Vacant(cells: seq<TreeNode>)
    reads set c | c in cells, set c, n | c in cells && n in c.Repr :: n
  {
    && |cells| == 4
    && (forall i :: 0 <= i < 4 ==>
          cells[i].Valid() && cells[i].Full() && cells[i].Repr == {cells[i]} && cells[i].Contents == {})
    && forall i, j :: 0 <= i < j < 4 ==> cells[i] != cells[j]
  }

  lemma VacantForest(cells: seq<TreeNode>, R: set<TreeNode>)
    requires Vacant(cells) && forall i :: 0 <= i < 4 ==> cells[i] in R
    ensures Upto(cells, 4) == {} && Forest(cells, R, {})
  {
  }

  /** Makes four vacant cells the children of an undivided cell. */
  method Install(node: TreeNode, cells: seq<TreeNode>)
    requires node in node.Repr && node.Contents == node.Own() && Vacant(cells) && node !in cells
    requires forall i, j :: 0 <= i < j < |node.shapes| ==> node.shapes[i] != node.shapes[j]
    modifies node`subnode, node`Repr
    ensures node.Valid() && node.Full() && node.subnode == cells && node.Repr == old(node.Repr) + set c | c in cells
  {
    node.subnode := cells;
    node.Repr := node.Repr + set c | c in cells;
    VacantForest(cells, node.Repr - {node});
    Fold(node);
    FoldFull(node);
  }

  /** Gives an undivided cell its four children. */
  method Split(node: TreeNode)
    requires node.Valid() && node.Full() && node.subnode[0] == null
    modifies node
    ensures node.Valid() && node.Full() && fresh(node.Repr - old(node.Repr))
    ensures node.shapes == old(node.shapes) && node.Contents == old(node.Contents)
    ensures forall i :: 0 <= i < 4 ==> node.subnode[i] != null && node.subnode[i].rect == Quads(node.rect)[i]
    ensures forall i :: 0 <= i < 4 ==> node.subnode[i] != null && fresh(node.subnode[i]) && node.subnode[i].Contents == {}
  {
    Look(node);
    LookFull(node);
    var cells := NewCells(Quads(node.rect));
    Install(node, cells);
  }

  /** Adds a shape below child i of a cell. */
  method AddBelow(node: TreeNode, i: nat, shape: ClusterInfo, depth: nat)
    requires node.Valid() && node.Full() && shape !in node.Contents && Anchored(shape.site)
    requires i < 4 && node.subnode[i] != null && Contained(shape.site.bounds, node.subnode[i].rect)
    modifies node.Repr
    ensures node.Valid() && node.Full() && fresh(node.Repr - old(node.Repr))
    ensures node.shapes == old(node.shapes) && node.subnode == old(node.subnode)
    ensures node.Contents == old(node.Contents) + {shape} && shape in node.subnode[i].Contents
    decreases depth, 1
  {
    Look(node);
    LookFull(node);
    var c := node.subnode[i];
    TreeNodeAddShape(c, shape, depth);
    label Added:
    node.Contents := node.Contents + {shape};
    node.Repr := node.Repr + c.Repr;
    Untouched@Added(c);
    GrownBelow(node, i, shape);
  }

  /** A cell one of whose children has taken in a shape is valid again once its own
      summary has been brought up to date. */
  twostate lemma GrownBelow(node: TreeNode, new i: nat, new shape: ClusterInfo)
    requires old(node.Valid()) && old(node.Full()) && i < 4 && node.subnode == old(node.subnode)
    requires node.shapes == old(node.shapes) && shape !in old(node.Contents)
    requires node.subnode[i] != null && node.subnode[i].Valid() && node.subnode[i].Full()
    requires node !in node.subnode[i].Repr
    requires node.subnode[i].Contents == old(node.subnode[i].Contents) + {shape}
    requires PointIn(shape.site.x, shape.site.y, node.subnode[i].rect)
    requires forall n :: n in node.subnode[i].Repr && old(allocated(n)) ==> n in old(node.subnode[i].Repr)
    requires unchanged(old(node.Repr) - {node} - old(node.subnode[i].Repr))
    requires node.Contents == old(node.Contents) + {shape}
    requires node.Repr == old(node.Repr) + node.subnode[i].Repr
    ensures node.Valid() && node.Full()
  {
    OldLook(node);
    OtherChildren(node, i);
    GrownForest(node, i, shape);
    assert Upto(node.subnode, 4) == old(Upto(node.subnode, 4)) + {shape};
    Fold(node);
    FoldFull(node);
  }

  twostate lemma GrownForest(node: TreeNode, new i: nat, new shape: ClusterInfo)
    requires old(node.Valid()) && old(node.Full()) && i < 4 && node.subnode == old(node.subnode)
    requires node.shapes == old(node.shapes) && shape !in old(node.Contents)
    requires node.subnode[i] != null && node.subnode[i].Valid() && node.subnode[i].Full()
    requires node !in node.subnode[i].Repr
    requires node.subnode[i].Contents == old(node.subnode[i].Contents) + {shape}
    requires PointIn(shape.site.x, shape.site.y, node.subnode[i].rect)
    requires forall n :: n in node.subnode[i].Repr && old(allocated(n)) ==> n in old(node.subnode[i].Repr)
    requires unchanged(old(node.Repr) - {node} - old(node.subnode[i].Repr))
    requires node.Contents == old(node.Contents) + {shape}
    requires node.Repr == old(node.Repr) + node.subnode[i].Repr
    ensures Forest(node.subnode, node.Repr - {node}, Upto(node.subnode, 4))
  {
    GrownMembers(node, i, shape);
    GrownApart(node, i, shape);
  }

  twostate lemma GrownMembers(node: TreeNode, new i: nat, new shape: ClusterInfo)
    requires old(node.Valid()) && old(node.Full()) && i < 4 && node.subnode == old(node.subnode)
    requires node.shapes == old(node.shapes) && shape !in old(node.Contents)
    requires node.subnode[i] != null && node.subnode[i].Valid() && node.subnode[i].Full()
    requires node !in node.subnode[i].Repr
    requires node.subnode[i].Contents == old(node.subnode[i].Contents) + {shape}
    requires PointIn(shape.site.x, shape.site.y, node.subnode[i].rect)
    requires forall n :: n in node.subnode[i].Repr && old(allocated(n)) ==> n in old(node.subnode[i].Repr)
    requires unchanged(old(node.Repr) - {node} - old(node.subnode[i].Repr))
    requires node.Contents == old(node.Contents) + {shape}
    requires node.Repr == old(node.Repr) + node.subnode[i].Repr
    ensures forall j :: 0 <= j < 4 && node.subnode[j] != null ==>
              && node.subnode[j] in node.Repr - {node} && node.subnode[j].Repr <= node.Repr - {node}
              && node.subnode[j].Valid() && Inside(node.subnode[j].Contents, node.subnode[j].rect)
              && node.subnode[j].Contents <= Upto(node.subnode, 4)
  {
    OldLook(node);
    OtherChildren(node, i);
    var kids := node.subnode;
    forall j | 0 <= j < 4 && kids[j] != null
      ensures kids[j] in node.Repr - {node} && kids[j].Repr <= node.Repr - {node}
      ensures kids[j].Valid() && Inside(kids[j].Contents, kids[j].rect) && kids[j].Contents <= Upto(kids, 4)
    {
      assert old(kids[j].Contents <= Upto(kids, 4));
    }
  }

  twostate lemma GrownApart(node: TreeNode, new i: nat, new shape: ClusterInfo)
    requires old(node.Valid()) && old(node.Full()) && i < 4 && node.subnode == old(node.subnode)
    requires node.shapes == old(node.shapes) && shape !in old(node.Contents)
    requires node.subnode[i] != null && node.subnode[i].Valid() && node.subnode[i].Full()
    requires node !in node.subnode[i].Repr
    requires node.subnode[i].Contents == old(node.subnode[i].Contents) + {shape}
    requires PointIn(shape.site.x, shape.site.y, node.subnode[i].rect)
    requires forall n :: n in node.subnode[i].Repr && old(allocated(n)) ==> n in old(node.subnode[i].Repr)
    requires unchanged(old(node.Repr) - {node} - old(node.subnode[i].Repr))
    requires node.Contents == old(node.Contents) + {shape}
    requires node.Repr == old(node.Repr) + node.subnode[i].Repr
    ensures forall j, k :: 0 <= j < k < 4 && node.subnode[j] != null && node.subnode[k] != null ==>
              node.subnode[j].Repr !! node.subnode[k].Repr && node.subnode[j].Contents !! node.subnode[k].Contents
  {
    OldLook(node);
    OtherChildren(node, i);
    var kids := node.subnode;
    forall j, k | 0 <= j < k < 4 && kids[j] != null && kids[k] != null
      ensures kids[j].Repr !! kids[k].Repr && kids[j].Contents !! kids[k].Contents
    {
      assert old(kids[j].Repr !! kids[k].Repr && kids[j].Contents !! kids[k].Contents);
    }
  }

  twostate lemma OtherChildren(node: TreeNode, new i: nat)
    requires old(node.Valid()) && old(node.Full()) && i < 4 && node.subnode == old(node.subnode)
    requires node.subnode[i] != null
    requires unchanged(old(node.Repr) - {node} - old(node.subnode[i].Repr))
    ensures forall j :: 0 <= j < 4 && j != i && node.subnode[j] != null ==>
              && node.subnode[j].Valid() && node.subnode[j].Full()
              && node.subnode[j].Repr == old(node.subnode[j].Repr)
              && node.subnode[j].Contents == old(node.subnode[j].Contents)
  {
    OldLook(node);
    forall j | 0 <= j < 4 && j != i && node.subnode[j] != null
      ensures node.subnode[j].Valid() && node.subnode[j].Full()
      ensures node.subnode[j].Repr == old(node.subnode[j].Repr)
      ensures node.subnode[j].Contents == old(node.subnode[j].Contents)
    {
      Untouched(node.subnode[j]);
    }
  }

  twostate lemma OldLook(n: TreeNode)
    requires old(n.Valid()) && old(n.Full())
    ensures old(Forest(n.subnode, n.Repr - {n}, Upto(n.subnode, 4)))
    ensures old(forall i, j :: 0 <= i < j < |n.shapes| ==> n.shapes[i] != n.shapes[j])
    ensures old(n.Own() !! Upto(n.subnode, 4))
    ensures old(n.Contents == n.Own() + Upto(n.subnode, 4))
    ensures old(|| (forall i :: 0 <= i < 4 ==> n.subnode[i] == null)
                || (forall i :: 0 <= i < 4 ==> n.subnode[i] != null && n.subnode[i].Valid() && n.subnode[i].Full()))
  {
    assert Open(0, n);
  }

  /** The rectangle of child i, or the one it would have. */
  ghost function Quad(node: TreeNode, i: nat): Rect
    requires |node.subnode| == 4 && i < 4
    reads node
  {
    if node.subnode[i] != null then node.subnode[i].rect else Quads(node.rect)[i]
  }

  /** The first child that holds the box, or -1. */
  ghost function Home(node: TreeNode, box: Rect): int
    requires |node.subnode| == 4
    reads node
  {
    if Contained(box, Quad(node, 0)) then 0
    else if Contained(box, Quad(node, 1)) then 1
    else if Contained(box, Quad(node, 2)) then 2
    else if Contained(box, Quad(node, 3)) then 3
    else -1
  }

  method FindChild(node: TreeNode, box: Rect) returns (k: int)
    requires |node.subnode| == 4 && forall i :: 0 <= i < 4 ==> node.subnode[i] != null
    ensures k == Home(node, box)
  {
    for i := 0 to 4
      invariant forall j :: 0 <= j < i ==> !Contained(box, Quad(node, j))
    {
      if Contained(box, node.subnode[i].rect) { return i; }
    }
    k := -1;
  }

  method FindQuad(node: TreeNode, box: Rect) returns (k: int)
    requires |node.subnode| == 4 && forall i :: 0 <= i < 4 ==> node.subnode[i] == null
    ensures k == Home(node, box)
  {
    var quads := Quads(node.rect);
    k := -1;
    if Contained(box, quads[0]) {
      k := 0;
    } else if Contained(box, quads[1]) {
      k := 1;
    } else if Contained(box, quads[2]) {
      k := 2;
    } else if Contained(box, quads[3]) {
      k := 3;
    }
  }

  /** Adds a shape to the deepest cell that holds its bounding box: below the first child
      that holds it, here if none does or the tree may not grow deeper. */
  method TreeNodeAddShape(node: TreeNode, shape: ClusterInfo, depth: nat)
    requires node.Valid() && node.Full() && shape !in node.Contents && Anchored(shape.site)
    modifies node.Repr
    ensures node.Valid() && node.Full() && fresh(node.Repr - old(node.Repr))
    ensures node.Contents == old(node.Contents) + {shape}
    ensures var k := old(Home(node, shape.site.bounds));
            if depth <= 1 || k < 0 then node.shapes == [shape] + old(node.shapes) && node.subnode == old(node.subnode)
            else && node.shapes == old(node.shapes) && node.subnode[k] != null && shape in node.subnode[k].Contents
                 && node.subnode[k].rect == old(Quad(node, k))
    decreases depth, 0
  {
    LookFull(node);
    if depth > 1 && node.subnode[0] != null {
      var k := FindChild(node, shape.site.bounds);
      if k >= 0 {
        AddBelow(node, k, shape, depth - 1);
        return;
      }
    } else if depth > 1 && node.subnode[0] == null {
      var k := FindQuad(node, shape.site.bounds);
      if k >= 0 {
        Split(node);
        AddBelow(node, k, shape, depth - 1);
        return;
      }
    }
    Store(node, shape);
  }
}
