/**
 What the parser does with the nodes: its actions build and relink them, never copying a
 sub-expression. Each tree lives in its own set of nodes.
 */
module CqlActions {
  import opened CqlTree
  import opened CqlStore

  /** The node at r stands for t, and every node of it is in the set home. */
  ghost predicate Lives(nodes: Nodes, r: Ref, t: Tree, home: set<Ref>)
    decreases t
  {
    && r in home && r in nodes && Matches(nodes[r], t)
    && (t.Operation? ==> forall i :: 0 <= i < |t.kids| ==> Lives(nodes, nodes[r].kids[i], t.kids[i], home))
  }

  ghost predicate LiveAll(nodes: Nodes, rs: seq<Ref>, ts: seq<Tree>, home: set<Ref>) {
    |rs| == |ts| && forall i :: 0 <= i < |rs| ==> Lives(nodes, rs[i], ts[i], home)
  }

  lemma {:induction false} LivesRepresents(nodes: Nodes, r: Ref, t: Tree, home: set<Ref>)
    requires Lives(nodes, r, t, home)
    ensures Represents(nodes, r, t)
    decreases t
  {
    if t.Operation? {
      forall i | 0 <= i < |t.kids| ensures Represents(nodes, nodes[r].kids[i], t.kids[i]) {
        LivesRepresents(nodes, nodes[r].kids[i], t.kids[i], home);
      }
    }
  }

  /** A tree is not disturbed by changes outside its home. */
  lemma {:induction false} LivesOn(nodes: Nodes, r: Ref, t: Tree, home: set<Ref>, after: Nodes, wider: set<Ref>)
    requires Lives(nodes, r, t, home) && home <= wider
    requires forall x :: x in home && x in nodes ==> x in after && after[x] == nodes[x]
    ensures Lives(after, r, t, wider)
    decreases t
  {
    if t.Operation? {
      forall i | 0 <= i < |t.kids| ensures Lives(after, after[r].kids[i], t.kids[i], wider) {
        LivesOn(nodes, nodes[r].kids[i], t.kids[i], home, after, wider);
      }
    }
  }

  lemma LiveOnAll(nodes: Nodes, rs: seq<Ref>, ts: seq<Tree>, home: set<Ref>, after: Nodes, wider: set<Ref>)
    requires LiveAll(nodes, rs, ts, home) && home <= wider
    requires forall x :: x in home && x in nodes ==> x in after && after[x] == nodes[x]
    ensures LiveAll(after, rs, ts, wider)
  {
    forall i | 0 <= i < |rs| ensures Lives(after, rs[i], ts[i], wider) {
      LivesOn(nodes, rs[i], ts[i], home, after, wider);
    }
  }

  /** A node that stands for a larger tree is not part of a smaller one. */
  lemma {:induction false} LivesWithout(nodes: Nodes, r: Ref, t: Tree, home: set<Ref>, x: Ref, u: Tree)
    requires Lives(nodes, r, t, home) && Represents(nodes, x, u) && Size(t) < Size(u)
    ensures Lives(nodes, r, t, home - {x})
    decreases t
  {
    LivesRepresents(nodes, r, t, home);
    if r == x { OneTree(nodes, r, t, u); }
    if t.Operation? {
      forall i | 0 <= i < |t.kids| ensures Lives(nodes, nodes[r].kids[i], t.kids[i], home - {x}) {
        SizeAt(t.kids, i);
        LivesWithout(nodes, nodes[r].kids[i], t.kids[i], home, x, u);
      }
    }
  }

  /** Below a node the node itself does not occur again. */
  lemma KidsElsewhere(nodes: Nodes, r: Ref, t: Tree, home: set<Ref>)
    requires Lives(nodes, r, t, home) && t.Operation?
    ensures LiveAll(nodes, nodes[r].kids, t.kids, home - {r})
  {
    LivesRepresents(nodes, r, t, home);
    forall i | 0 <= i < |t.kids| ensures Lives(nodes, nodes[r].kids[i], t.kids[i], home - {r}) {
      SizeAt(t.kids, i);
      LivesWithout(nodes, nodes[r].kids[i], t.kids[i], home, r, t);
    }
  }

  lemma LiveConcat(nodes: Nodes, rs: seq<Ref>, ts: seq<Tree>, qs: seq<Ref>, us: seq<Tree>, home: set<Ref>)
    requires LiveAll(nodes, rs, ts, home) && LiveAll(nodes, qs, us, home)
    ensures LiveAll(nodes, rs + qs, ts + us, home)
  {
  }

  /** Nodes outside home are as they were. */
  ghost predicate OnlyWithin(before: Nodes, after: Nodes, home: set<Ref>) {
    forall x :: x in before && x !in home ==> x in after && after[x] == before[x]
  }

  /** Appends a sub-expression to an operation. */
  method PushSubExpression(store: Store, r: Ref, child: Ref, ghost t: Tree, ghost home: set<Ref>,
                           ghost u: Tree, ghost room: set<Ref>)
    requires store.Valid() && t.Operation? && home !! room
    requires Lives(store.nodes, r, t, home) && Lives(store.nodes, child, u, room)
    modifies store
    ensures store.Valid() && store.next == old(store.next) && OnlyWithin(old(store.nodes), store.nodes, {r})
    ensures Lives(store.nodes, r, Operation(t.op, t.kids + [u]), home + room)
  {
    KidsElsewhere(store.nodes, r, t, home);
    store.Push(r, child);
    LiveOnAll(old(store.nodes), old(store.nodes)[r].kids, t.kids, home - {r}, store.nodes, home + room);
    LivesOn(old(store.nodes), child, u, room, store.nodes, home + room);
    LiveConcat(store.nodes, old(store.nodes)[r].kids, t.kids, [child], [u], home + room);
  }

  function Reversed<T>(s: seq<T>): (r: seq<T>)
    ensures |r| == |s|
    ensures forall i :: 0 <= i < |s| ==> r[i] == s[|s| - 1 - i]
  {
    seq(|s|, i requires 0 <= i < |s| => s[|s| - 1 - i])
  }

  /** The outer i elements at either end have been exchanged. */
  ghost predicate Halfway<T>(now: seq<T>, was: seq<T>, i: nat) {
    && |now| == |was| && 2 * i <= |was|
    && forall k :: 0 <= k < |was| ==> now[k] == EndsSwapped(was, i, k)
  }

  ghost function EndsSwapped<T>(was: seq<T>, i: nat, k: nat): T
    requires k < |was|
  {
    if k < i || k >= |was| - i then was[|was| - 1 - k] else was[k]
  }

  lemma SwapEnds<T>(now: seq<T>, was: seq<T>, i: nat)
    requires Halfway(now, was, i) && i < |was| / 2
    ensures var j := |now| - i - 1; Halfway(now[i := now[j]][j := now[i]], was, i + 1)
  {
    var n, j := |was|, |now| - i - 1;
    var next, m := now[i := now[j]][j := now[i]], i + 1;
    assert now[i] == was[i] && now[j] == was[j];
    forall k | 0 <= k < n ensures next[k] == EndsSwapped(was, m, k) {
      assert now[k] == EndsSwapped(was, i, k);
    }
  }

  method SwapAll(store: Store, r: Ref)
    requires store.Valid() && r in store.nodes
    modifies store
    ensures store.Valid() && store.next == old(store.next)
    ensures store.nodes == old(store.nodes)[r := old(store.nodes)[r].(kids := Reversed(old(store.nodes)[r].kids))]
  {
    ghost var kids := store.nodes[r].kids;
    var i := 0;
    assert store.nodes == old(store.nodes)[r := old(store.nodes)[r].(kids := kids)];
    while i < |store.nodes[r].kids| / 2
      invariant store.Valid() && store.next == old(store.next) && r in store.nodes && Halfway(store.nodes[r].kids, kids, i)
      invariant store.nodes == old(store.nodes)[r := old(store.nodes)[r].(kids := store.nodes[r].kids)]
    {
      var now := store.nodes[r].kids;
      var j := |now| - i - 1;
      SwapEnds(now, kids, i);
      var next := now[i := now[j]][j := now[i]];
      store.nodes := store.nodes[r := store.nodes[r].(kids := next)];
      i := i + 1;
    }
    assert store.nodes[r].kids == Reversed(kids);
  }

  /** Reverses the sub-expressions by swapping from both ends. */
  method ReverseSubExpressions(store: Store, r: Ref, ghost t: Tree, ghost home: set<Ref>)
    requires store.Valid() && t.Operation? && Lives(store.nodes, r, t, home)
    modifies store
    ensures store.Valid() && store.next == old(store.next) && OnlyWithin(old(store.nodes), store.nodes, {r})
    ensures Lives(store.nodes, r, Operation(t.op, Reversed(t.kids)), home)
  {
    KidsElsewhere(store.nodes, r, t, home);
    SwapAll(store, r);
    LiveOnAll(old(store.nodes), old(store.nodes)[r].kids, t.kids, home - {r}, store.nodes, home);
  }

  // ----- AND and OR -----

  predicate IsChain(nodes: Nodes, x: Ref, op: Operator)
    requires x in nodes
  {
    nodes[x].kind == Does(op)
  }

  /** The sub-expressions of a chain live on without the node that held them. */
  lemma OperandsLive(nodes: Nodes, x: Ref, t: Tree, op: Operator, home: set<Ref>)
    requires Lives(nodes, x, t, home)
    ensures IsChain(nodes, x, op) <==> t.Operation? && t.op == op
    ensures if IsChain(nodes, x, op) then LiveAll(nodes, nodes[x].kids, Operands(op, t), home - {x})
            else LiveAll(nodes, [x], Operands(op, t), home)
  {
    if IsChain(nodes, x, op) { KidsElsewhere(nodes, x, t, home); }
  }

  /** The node for "left op right". The operands of a chain are moved into the new node and
      the emptied node is released; a chain on the right alone comes first. */
  method CreateAndOr(store: Store, op: Operator, left: Ref, right: Ref,
                     ghost tl: Tree, ghost A: set<Ref>, ghost tr: Tree, ghost B: set<Ref>) returns (r: Ref)
    requires store.Valid() && A !! B && Lives(store.nodes, left, tl, A) && Lives(store.nodes, right, tr, B)
    modifies store
    ensures store.Valid() && r == old(store.next) && store.next == r + 1
    ensures OnlyWithin(old(store.nodes), store.nodes, {left, right})
    ensures Lives(store.nodes, r, Flatten(op, tl, tr), A + B + {r})
  {
    var l, m := IsChain(store.nodes, left, op), IsChain(store.nodes, right, op);
    var ls := if l then store.nodes[left].kids else [left];
    var rs := if m then store.nodes[right].kids else [right];
    r := store.Make(Does(op));
    var kids := if m && !l then rs + ls else ls + rs;
    var emptied := (if l then {left} else {}) + (if m then {right} else {});
    Release(store, r, kids, emptied);
    Created(old(store.nodes), store.nodes, r, op, left, right, emptied, ls, rs, tl, A, tr, B);
  }

  lemma Created(before: Nodes, after: Nodes, r: Ref, op: Operator, left: Ref, right: Ref, emptied: set<Ref>,
                ls: seq<Ref>, rs: seq<Ref>, tl: Tree, A: set<Ref>, tr: Tree, B: set<Ref>)
    requires A !! B && Lives(before, left, tl, A) && Lives(before, right, tr, B)
    requires r in after && OnlyWithin(before, after, emptied) && after[r].kind == Does(op)
    requires emptied == (if IsChain(before, left, op) then {left} else {}) + (if IsChain(before, right, op) then {right} else {})
    requires ls == if IsChain(before, left, op) then before[left].kids else [left]
    requires rs == if IsChain(before, right, op) then before[right].kids else [right]
    requires after[r].kids == if IsChain(before, right, op) && !IsChain(before, left, op) then rs + ls else ls + rs
    ensures Lives(after, r, Flatten(op, tl, tr), A + B + {r})
  {
    var l, m := IsChain(before, left, op), IsChain(before, right, op);
    OperandsLive(before, left, tl, op, A);
    OperandsLive(before, right, tr, op, B);
    Installed(before, after, ls, Operands(op, tl), if l then A - {left} else A,
              rs, Operands(op, tr), if m then B - {right} else B, A + B + {r});
  }

  /** Gives the node its sub-expressions and releases the emptied nodes. */
  method Release(store: Store, r: Ref, kids: seq<Ref>, emptied: set<Ref>)
    requires store.Valid() && r in store.nodes && r !in emptied
    modifies store
    ensures store.Valid() && store.next == old(store.next)
    ensures store.nodes == (old(store.nodes) - emptied)[r := Cell(old(store.nodes)[r].kind, kids)]
  {
    store.nodes := (store.nodes - emptied)[r := Cell(store.nodes[r].kind, kids)];
  }

  lemma Installed(before: Nodes, after: Nodes, ls: seq<Ref>, us: seq<Tree>, A: set<Ref>,
                  rs: seq<Ref>, vs: seq<Tree>, B: set<Ref>, home: set<Ref>)
    requires LiveAll(before, ls, us, A) && LiveAll(before, rs, vs, B) && A <= home && B <= home
    requires forall x :: x in before && (x in A || x in B) ==> x in after && after[x] == before[x]
    ensures LiveAll(after, ls + rs, us + vs, home) && LiveAll(after, rs + ls, vs + us, home)
  {
    LiveOnAll(before, ls, us, A, after, home);
    LiveOnAll(before, rs, vs, B, after, home);
    LiveConcat(after, ls, us, rs, vs, home);
    LiveConcat(after, rs, vs, ls, us, home);
  }
}
