/**
 Expression nodes in memory. Nodes are named by references; the parser's actions and the
 rebalancing change them in place. What a node stands for is a tree of CqlTree.
 */
module CqlStore {
  import opened CqlTree

  type Ref = nat

  datatype Kind = Literal(constant: Constant) | Name(name: string) | Does(op: Operator)

  /** A node: what it is, and its sub-expressions. */
  datatype Cell = Cell(kind: Kind, kids: seq<Ref>)

  type Nodes = map<Ref, Cell>

  ghost predicate Matches(cell: Cell, t: Tree) {
    match t
    case Leaf(c) => cell.kind == Literal(c)
    case Column(name) => cell.kind == Name(name)
    case Operation(op, kids) => cell.kind == Does(op) && |cell.kids| == |kids|
  }

  /** The node at r stands for the tree t. */
  ghost predicate Represents(nodes: Nodes, r: Ref, t: Tree)
    decreases t
  {
    && r in nodes && Matches(nodes[r], t)
    && (t.Operation? ==> forall i :: 0 <= i < |t.kids| ==> Represents(nodes, nodes[r].kids[i], t.kids[i]))
  }

  /** A node stands for one tree only. */
  lemma {:induction false} OneTree(nodes: Nodes, r: Ref, t: Tree, u: Tree)
    requires Represents(nodes, r, t) && Represents(nodes, r, u)
    ensures t == u
    decreases t
  {
    if t.Operation? {
      forall i | 0 <= i < |t.kids| ensures t.kids[i] == u.kids[i] {
        OneTree(nodes, nodes[r].kids[i], t.kids[i], u.kids[i]);
      }
      assert t.kids == u.kids;
    }
  }

  /** New nodes do not disturb the old ones. */
  lemma {:induction false} KeepsTree(nodes: Nodes, more: Nodes, r: Ref, t: Tree)
    requires Represents(nodes, r, t) && forall x :: x in nodes ==> x in more && more[x] == nodes[x]
    ensures Represents(more, r, t)
    decreases t
  {
    if t.Operation? {
      forall i | 0 <= i < |t.kids| ensures Represents(more, more[r].kids[i], t.kids[i]) {
        KeepsTree(nodes, more, nodes[r].kids[i], t.kids[i]);
      }
    }
  }

  // ----- sizes -----

  function Size(t: Tree): nat
    decreases t, 0
  {
    if t.Operation? then 1 + SizeAll(t.kids) else 1
  }

  function SizeAll(ts: seq<Tree>): nat
    decreases ts, 1
  {
    if ts == [] then 0 else Size(ts[0]) + SizeAll(ts[1..])
  }

  lemma {:induction false} SizeConcat(ss: seq<Tree>, ts: seq<Tree>)
    ensures SizeAll(ss + ts) == SizeAll(ss) + SizeAll(ts)
    decreases |ss|
  {
    if ss == [] {
      assert ss + ts == ts;
    } else {
      SizeConcat(ss[1..], ts);
      assert (ss + ts)[1..] == ss[1..] + ts;
    }
  }

  lemma {:induction false} SizeAt(ts: seq<Tree>, i: nat)
    requires i < |ts|
    ensures Size(ts[i]) <= SizeAll(ts)
    decreases i
  {
    if i > 0 { SizeAt(ts[1..], i - 1); }
  }

  lemma {:induction false} PairUpSize(op: Operator, ts: seq<Tree>)
    ensures SizeAll(ts) <= SizeAll(PairUp(op, ts))
    decreases |ts|
  {
    if |ts| >= 2 {
      var pair, rest := ts[..2], ts[2..];
      assert ts == pair + rest && pair == [ts[0], ts[1]];
      PairUpSize(op, rest);
      SizeConcat(pair, rest);
      SizeConcat([Operation(op, pair)], PairUp(op, rest));
      assert [Operation(op, pair)][1..] == [];
      assert SizeAll([Operation(op, pair)]) == Size(Operation(op, pair)) + SizeAll([]);
    }
  }

  lemma {:induction false} ShrinkSize(op: Operator, ts: seq<Tree>)
    ensures SizeAll(ts) <= SizeAll(Shrink(op, ts))
    decreases |ts|
  {
    if |ts| > 2 {
      PairUpSize(op, ts);
      ShrinkSize(op, PairUp(op, ts));
    }
  }

  /** A balanced node is larger than its operands together. */
  lemma BalanceNodeSize(op: Operator, kids: seq<Tree>)
    ensures SizeAll(kids) < Size(BalanceNode(op, kids))
  {
    ShrinkSize(op, kids);
  }

  // ----- rebalancing: where each node is going -----

  /** The tree that each node is to stand for in the end. */
  type Goals = map<Ref, Tree>

  ghost function GoalsOf(goal: Goals, kids: seq<Ref>): (ts: seq<Tree>)
    requires forall i :: 0 <= i < |kids| ==> kids[i] in goal
    ensures |ts| == |kids|
  {
    seq(|kids|, i requires 0 <= i < |kids| => goal[kids[i]])
  }

  predicate Wide(cell: Cell) { cell.kind.Does? && IsAndOr(cell.kind.op) && |cell.kids| > 2 }

  /** The goal of a node follows from those of its sub-expressions. */
  ghost predicate Follows(cell: Cell, goal: Goals, t: Tree) {
    match cell.kind
    case Literal(c) => t == Leaf(c)
    case Name(name) => t == Column(name)
    case Does(op) =>
      && (forall i :: 0 <= i < |cell.kids| ==> cell.kids[i] in goal)
      && t == BalanceNode(op, GoalsOf(goal, cell.kids))
  }

  ghost predicate Coherent(nodes: Nodes, goal: Goals) {
    forall r :: r in goal ==> r in nodes && Follows(nodes[r], goal, goal[r]) && Narrow(goal[r])
  }

  /** No AND or OR has more than two operands. */
  predicate Narrow(t: Tree)
    decreases t
  {
    t.Operation? ==>
      && (IsAndOr(t.op) ==> |t.kids| <= 2)
      && forall i :: 0 <= i < |t.kids| ==> Narrow(t.kids[i])
  }

  /** Only nodes with too many operands have changed. */
  ghost predicate Tame(before: Nodes, after: Nodes) {
    forall r :: r in before ==> r in after && (!Wide(before[r]) ==> after[r] == before[r])
  }

  lemma {:induction false} TameKeeps(before: Nodes, after: Nodes, r: Ref, t: Tree)
    requires Tame(before, after) && Narrow(t) && Represents(before, r, t)
    ensures Represents(after, r, t)
    decreases t
  {
    if t.Operation? {
      forall i | 0 <= i < |t.kids| ensures Represents(after, before[r].kids[i], t.kids[i]) {
        TameKeeps(before, after, before[r].kids[i], t.kids[i]);
      }
    }
  }

  /** What remains to be done is below the nodes of the queue: down to them the node at r
      stands for the tree t already, and their goals are the missing parts of t. */
  ghost predicate Upto(nodes: Nodes, goal: Goals, queue: seq<Ref>, r: Ref, t: Tree)
    decreases t
  {
    || (r in queue && r in goal && goal[r] == t)
    || (&& r in nodes && Matches(nodes[r], t)
        && (t.Operation? ==> forall i :: 0 <= i < |t.kids| ==> Upto(nodes, goal, queue, nodes[r].kids[i], t.kids[i])))
  }

  lemma {:induction false} UptoTame(before: Nodes, goal: Goals, after: Nodes, more: Goals, queue: seq<Ref>, r: Ref, t: Tree)
    requires Tame(before, after) && (forall x :: x in goal ==> x in more && more[x] == goal[x])
    requires Narrow(t) && Upto(before, goal, queue, r, t)
    ensures Upto(after, more, queue, r, t)
    decreases t
  {
    if !(r in queue && r in goal && goal[r] == t) && t.Operation? {
      forall i | 0 <= i < |t.kids| ensures Upto(after, more, queue, before[r].kids[i], t.kids[i]) {
        UptoTame(before, goal, after, more, queue, before[r].kids[i], t.kids[i]);
      }
    }
  }

  /** A node of the queue gives way to its sub-expressions, if it needs no change itself. */
  lemma {:induction false} UptoExpand(nodes: Nodes, goal: Goals, queue: seq<Ref>, q: Ref, next: seq<Ref>, r: Ref, t: Tree)
    requires Coherent(nodes, goal) && Upto(nodes, goal, queue, r, t)
    requires q in goal && !Wide(nodes[q])
    requires forall x :: x in queue ==> x == q || x in next
    requires nodes[q].kind.Does? ==> forall i :: 0 <= i < |nodes[q].kids| ==> nodes[q].kids[i] in next
    ensures Upto(nodes, goal, next, r, t)
    decreases t
  {
    if r in queue && r in goal && goal[r] == t {
      if r == q && t.Operation? {
        forall i | 0 <= i < |t.kids| ensures Upto(nodes, goal, next, nodes[r].kids[i], t.kids[i]) {
          assert nodes[r].kids[i] in next && goal[nodes[r].kids[i]] == t.kids[i];
        }
      }
    } else if t.Operation? {
      forall i | 0 <= i < |t.kids| ensures Upto(nodes, goal, next, nodes[r].kids[i], t.kids[i]) {
        UptoExpand(nodes, goal, queue, q, next, nodes[r].kids[i], t.kids[i]);
      }
    }
  }

  lemma {:induction false} RepresentsUpto(nodes: Nodes, goal: Goals, queue: seq<Ref>, r: Ref, t: Tree)
    requires Represents(nodes, r, t)
    ensures Upto(nodes, goal, queue, r, t)
    decreases t
  {
    if t.Operation? {
      forall i | 0 <= i < |t.kids| ensures Upto(nodes, goal, queue, nodes[r].kids[i], t.kids[i]) {
        RepresentsUpto(nodes, goal, queue, nodes[r].kids[i], t.kids[i]);
      }
    }
  }

  /** A node of the queue that stands for its goal can be dropped. */
  lemma {:induction false} UptoSettle(nodes: Nodes, goal: Goals, queue: seq<Ref>, q: Ref, next: seq<Ref>, r: Ref, t: Tree)
    requires q in goal && Represents(nodes, q, goal[q]) && Upto(nodes, goal, queue, r, t)
    requires forall x :: x in queue ==> x == q || x in next
    ensures Upto(nodes, goal, next, r, t)
    decreases t
  {
    if r in queue && r in goal && goal[r] == t {
      if r == q { RepresentsUpto(nodes, goal, next, r, t); }
    } else if t.Operation? {
      forall i | 0 <= i < |t.kids| ensures Upto(nodes, goal, next, nodes[r].kids[i], t.kids[i]) {
        UptoSettle(nodes, goal, queue, q, next, nodes[r].kids[i], t.kids[i]);
      }
    }
  }

  lemma {:induction false} UptoNothing(nodes: Nodes, goal: Goals, r: Ref, t: Tree)
    requires Upto(nodes, goal, [], r, t)
    ensures Represents(nodes, r, t)
    decreases t
  {
    if t.Operation? {
      forall i | 0 <= i < |t.kids| ensures Represents(nodes, nodes[r].kids[i], t.kids[i]) {
        UptoNothing(nodes, goal, nodes[r].kids[i], t.kids[i]);
      }
    }
  }

  ghost predicate Extends(goal: Goals, more: Goals) {
    forall x :: x in goal ==> x in more && more[x] == goal[x]
  }

  /** The nodes stand for the trees, which are their goals as well. */
  ghost predicate Settled(nodes: Nodes, goal: Goals, rs: seq<Ref>, ts: seq<Tree>) {
    && |rs| == |ts|
    && forall i :: 0 <= i < |rs| ==>
         rs[i] in goal && goal[rs[i]] == ts[i] && Narrow(ts[i]) && Represents(nodes, rs[i], ts[i])
  }

  lemma SettledTame(before: Nodes, goal: Goals, after: Nodes, more: Goals, rs: seq<Ref>, ts: seq<Tree>)
    requires Tame(before, after) && Extends(goal, more) && Settled(before, goal, rs, ts)
    ensures Settled(after, more, rs, ts)
  {
    forall i | 0 <= i < |rs| ensures Represents(after, rs[i], ts[i]) {
      TameKeeps(before, after, rs[i], ts[i]);
    }
  }

  /** A new node over two settled ones is settled. */
  lemma PairSettled(nodes: Nodes, goal: Goals, r: Ref, op: Operator, a: Ref, b: Ref, s: Tree, t: Tree)
    requires Coherent(nodes, goal) && r !in nodes && Settled(nodes, goal, [a, b], [s, t])
    ensures var after, more := nodes[r := Cell(Does(op), [a, b])], goal[r := Operation(op, [s, t])];
            Coherent(after, more) && Extends(goal, more) && Settled(after, more, [r], [Operation(op, [s, t])])
  {
    var after, more := nodes[r := Cell(Does(op), [a, b])], goal[r := Operation(op, [s, t])];
    assert [a, b][0] == a && [a, b][1] == b;
    KeepsTree(nodes, after, a, s);
    KeepsTree(nodes, after, b, t);
    assert GoalsOf(more, [a, b]) == [s, t];
    forall x | x in more && x != r ensures x in after && Follows(after[x], more, more[x]) {
      if nodes[x].kind.Does? { assert GoalsOf(more, nodes[x].kids) == GoalsOf(goal, nodes[x].kids); }
    }
  }

  /** Nodes and goals have been added, and of the old nodes only those with too many operands
      and a goal of at most the given size have changed. Folded; opened by Peek. */
  ghost predicate Step(before: Nodes, goal: Goals, after: Nodes, more: Goals, bound: nat) {
    forall k: int :: Peek(k) ==> Stepped(before, goal, after, more, bound)
  }

  ghost predicate Peek(k: int) { true }

  ghost predicate Stepped(before: Nodes, goal: Goals, after: Nodes, more: Goals, bound: nat) {
    && Extends(goal, more)
    && (forall x :: x in more ==> x in goal || x !in before)
    && (forall x :: x in before ==>
          x in after && (after[x] == before[x] || (Wide(before[x]) && x in goal && Size(goal[x]) <= bound)))
  }

  lemma StepTrans(a: Nodes, g: Goals, b: Nodes, h: Goals, c: Nodes, k: Goals, bound: nat)
    requires Step(a, g, b, h, bound) && Step(b, h, c, k, bound)
    ensures Step(a, g, c, k, bound)
  {
    assert Peek(0);
    forall x | x in a ensures x in c && (c[x] == a[x] || (Wide(a[x]) && x in g && Size(g[x]) <= bound)) {
      if b[x] == a[x] && c[x] != b[x] { assert x in h && h[x] == g[x]; }
    }
  }

  /** A round of pairing has reached operand i. Folded; opened by Peek. */
  ghost predicate Pairing(nodes: Nodes, goal: Goals, op: Operator, exprs: seq<Ref>, ts: seq<Tree>, i: nat,
                          pairs: seq<Ref>, done: seq<Tree>) {
    i <= |exprs| == |ts| && forall k: int :: Peek(k) ==> Paired(nodes, goal, op, exprs, ts, i, pairs, done)
  }

  ghost predicate Paired(nodes: Nodes, goal: Goals, op: Operator, exprs: seq<Ref>, ts: seq<Tree>, i: nat,
                         pairs: seq<Ref>, done: seq<Tree>)
    requires i <= |exprs| == |ts|
  {
    && Coherent(nodes, goal)
    && Settled(nodes, goal, exprs, ts) && Settled(nodes, goal, pairs, done)
    && PairUp(op, ts) == done + PairUp(op, ts[i..])
  }

  lemma PairingStart(nodes: Nodes, goal: Goals, op: Operator, exprs: seq<Ref>, ts: seq<Tree>)
    requires Coherent(nodes, goal) && Settled(nodes, goal, exprs, ts)
    ensures Pairing(nodes, goal, op, exprs, ts, 0, [], [])
  {
    assert ts[0..] == ts;
  }

  lemma PairingEnd(nodes: Nodes, goal: Goals, op: Operator, exprs: seq<Ref>, ts: seq<Tree>, i: nat,
                   pairs: seq<Ref>, done: seq<Tree>)
    requires Pairing(nodes, goal, op, exprs, ts, i, pairs, done) && i == |exprs|
    ensures Coherent(nodes, goal) && Settled(nodes, goal, pairs, PairUp(op, ts))
  {
    assert Peek(0);
    assert ts[i..] == [] && PairUp(op, []) == [] && done + [] == done;
  }

  /** Old goals stay, and so do old nodes unless they were to change. */
  lemma StepKeeps(before: Nodes, goal: Goals, after: Nodes, more: Goals, bound: nat, x: Ref)
    requires Step(before, goal, after, more, bound)
    ensures x in goal ==> x in more && more[x] == goal[x]
    ensures x in before ==> x in after
    ensures x in before && x in goal && Size(goal[x]) > bound ==> after[x] == before[x]
  {
    assert Peek(0);
  }

  lemma StepNone(nodes: Nodes, goal: Goals)
    ensures Step(nodes, goal, nodes, goal, 0)
  {
  }

  lemma SettledConcat(nodes: Nodes, goal: Goals, rs: seq<Ref>, ts: seq<Tree>, r: Ref, t: Tree)
    requires Settled(nodes, goal, rs, ts) && Settled(nodes, goal, [r], [t])
    ensures Settled(nodes, goal, rs + [r], ts + [t])
  {
    assert [r][0] == r && [t][0] == t;
  }

  lemma PairStep(nodes: Nodes, goal: Goals, op: Operator, exprs: seq<Ref>, ts: seq<Tree>, i: nat,
                 pairs: seq<Ref>, done: seq<Tree>, r: Ref, t: Tree)
    requires Pairing(nodes, goal, op, exprs, ts, i, pairs, done) && i + 1 < |exprs|
    requires r !in nodes && t == Operation(op, [ts[i], ts[i + 1]])
    ensures var after, more := nodes[r := Cell(Does(op), [exprs[i], exprs[i + 1]])], goal[r := t];
            Extends(goal, more) && Pairing(after, more, op, exprs, ts, i + 2, pairs + [r], done + [t])
  {
    assert Peek(0);
    var after, more := nodes[r := Cell(Does(op), [exprs[i], exprs[i + 1]])], goal[r := t];
    PairSettled(nodes, goal, r, op, exprs[i], exprs[i + 1], ts[i], ts[i + 1]);
    SettledTame(nodes, goal, after, more, exprs, ts);
    SettledTame(nodes, goal, after, more, pairs, done);
    SettledConcat(after, more, pairs, done, r, t);
    PairUpStep(op, ts, i, done);
  }

  lemma RoundStep(first: Nodes, start: Goals, nodes: Nodes, goal: Goals, op: Operator, exprs: seq<Ref>, ts: seq<Tree>,
                  i: nat, pairs: seq<Ref>, done: seq<Tree>, r: Ref, t: Tree)
    requires Step(first, start, nodes, goal, 0) && Pairing(nodes, goal, op, exprs, ts, i, pairs, done) && i + 1 < |exprs|
    requires r !in nodes && t == Operation(op, [ts[i], ts[i + 1]])
    ensures var after, more := nodes[r := Cell(Does(op), [exprs[i], exprs[i + 1]])], goal[r := t];
            Step(first, start, after, more, 0) && Pairing(after, more, op, exprs, ts, i + 2, pairs + [r], done + [t])
  {
    assert Peek(0);
    PairStep(nodes, goal, op, exprs, ts, i, pairs, done, r, t);
    StepTrans(first, start, nodes, goal, nodes[r := Cell(Does(op), [exprs[i], exprs[i + 1]])], goal[r := t], 0);
  }

  lemma PairUpStep(op: Operator, ts: seq<Tree>, i: nat, done: seq<Tree>)
    requires i < |ts| && PairUp(op, ts) == done + PairUp(op, ts[i..])
    ensures if i + 1 < |ts| then PairUp(op, ts) == done + [Operation(op, [ts[i], ts[i + 1]])] + PairUp(op, ts[i + 2..])
            else PairUp(op, ts) == done + [ts[i]]
  {
    if i + 1 < |ts| { assert ts[i..][2..] == ts[i + 2..]; } else { assert ts[i..] == [ts[i]]; }
  }

  lemma OddStep(nodes: Nodes, goal: Goals, op: Operator, exprs: seq<Ref>, ts: seq<Tree>, i: nat,
                pairs: seq<Ref>, done: seq<Tree>)
    requires Pairing(nodes, goal, op, exprs, ts, i, pairs, done) && i + 1 == |exprs|
    ensures Pairing(nodes, goal, op, exprs, ts, i + 1, pairs + [exprs[i]], done + [ts[i]])
  {
    assert Peek(0);
    SettledConcat(nodes, goal, pairs, done, exprs[i], ts[i]);
    PairUpStep(op, ts, i, done);
    assert ts[i + 1..] == [];
  }

  lemma StepWider(before: Nodes, goal: Goals, after: Nodes, more: Goals, small: nat, bound: nat)
    requires Step(before, goal, after, more, small) && small <= bound
    ensures Step(before, goal, after, more, bound)
  {
    assert Peek(0);
  }

  /** Each operand has a smaller goal than the node over them. */
  lemma OperandSizes(op: Operator, ts: seq<Tree>)
    ensures forall i :: 0 <= i < |ts| ==> Size(ts[i]) < Size(BalanceNode(op, ts))
  {
    BalanceNodeSize(op, ts);
    forall i | 0 <= i < |ts| ensures Size(ts[i]) < Size(BalanceNode(op, ts)) {
      SizeAt(ts, i);
    }
  }

  lemma KidGoals(nodes: Nodes, goal: Goals, node: Ref)
    requires Coherent(nodes, goal) && node in goal && nodes[node].kind.Does?
    ensures Queued(nodes[node].kids, goal, Size(goal[node]) - 1)
    ensures SizeAll(GoalsOf(goal, nodes[node].kids)) < Size(goal[node])
  {
    var kids := nodes[node].kids;
    var ts := GoalsOf(goal, kids);
    OperandSizes(nodes[node].kind.op, ts);
    BalanceNodeSize(nodes[node].kind.op, ts);
    forall i | 0 <= i < |kids| ensures kids[i] in goal && Size(goal[kids[i]]) <= Size(goal[node]) - 1 {
      assert ts[i] == goal[kids[i]];
    }
  }

  /** Installing the joined operands settles the node. */
  lemma InstallSettled(nodes: Nodes, goal: Goals, node: Ref, op: Operator, exprs: seq<Ref>, ts: seq<Tree>)
    requires Coherent(nodes, goal) && node in goal && Wide(nodes[node]) && nodes[node].kind == Does(op) && |ts| > 2
    requires goal[node] == BalanceNode(op, ts) && Settled(nodes, goal, exprs, Shrink(op, ts))
    ensures var after := nodes[node := nodes[node].(kids := exprs)];
            && Coherent(after, goal) && Represents(after, node, goal[node])
            && Step(nodes, goal, after, goal, Size(goal[node]))
  {
    assert Peek(0);
    var after := nodes[node := nodes[node].(kids := exprs)];
    SettledTame(nodes, goal, after, goal, exprs, Shrink(op, ts));
    assert GoalsOf(goal, exprs) == Shrink(op, ts);
  }

  /** The operands have been rebalanced, then joined; installing them settles the node. */
  lemma ChainDone(first: Nodes, goal: Goals, mid: Nodes, goals: Goals, joined: Nodes, more: Goals,
                  node: Ref, op: Operator, exprs: seq<Ref>, ts: seq<Tree>)
    requires Coherent(joined, more) && node in first && node in goal && Wide(first[node]) && first[node].kind == Does(op)
    requires |ts| > 2 && goal[node] == BalanceNode(op, ts) && Size(goal[node]) > 0
    requires Step(first, goal, mid, goals, Size(goal[node]) - 1) && Step(mid, goals, joined, more, 0)
    requires Settled(joined, more, exprs, Shrink(op, ts))
    ensures node in joined
    ensures var after := joined[node := joined[node].(kids := exprs)];
            && Coherent(after, more) && Represents(after, node, goal[node])
            && Step(first, goal, after, more, Size(goal[node]))
  {
    assert Peek(0);
    var bound := Size(goal[node]);
    assert mid[node] == first[node] && joined[node] == mid[node];
    StepWider(first, goal, mid, goals, bound - 1, bound);
    StepWider(mid, goals, joined, more, 0, bound);
    StepTrans(first, goal, mid, goals, joined, more, bound);
    InstallSettled(joined, more, node, op, exprs, ts);
    StepTrans(first, goal, joined, more, joined[node := joined[node].(kids := exprs)], more, bound);
  }

  lemma OperandDone(first: Nodes, goal: Goals, before: Nodes, goals: Goals, after: Nodes, more: Goals,
                    kids: seq<Ref>, ts: seq<Tree>, i: nat, bound: nat)
    requires i < |kids| == |ts| && Settled(before, goals, kids[..i], ts[..i])
    requires Step(first, goal, before, goals, bound) && Size(ts[i]) <= bound
    requires Step(before, goals, after, more, Size(ts[i])) && Settled(after, more, [kids[i]], [ts[i]])
    ensures Step(first, goal, after, more, bound) && Settled(after, more, kids[..i + 1], ts[..i + 1])
  {
    assert Peek(0);
    StepWider(before, goals, after, more, Size(ts[i]), bound);
    StepTrans(first, goal, before, goals, after, more, bound);
    SettledTame(before, goals, after, more, kids[..i], ts[..i]);
    SettledConcat(after, more, kids[..i], ts[..i], kids[i], ts[i]);
    assert kids[..i + 1] == kids[..i] + [kids[i]] && ts[..i + 1] == ts[..i] + [ts[i]];
  }

  // ----- the queue -----

  ghost predicate Queued(queue: seq<Ref>, goal: Goals, bound: nat) {
    forall i :: 0 <= i < |queue| ==> queue[i] in goal && Size(goal[queue[i]]) <= bound
  }

  lemma QueueDropped(nodes: Nodes, goal: Goals, queue: seq<Ref>, bound: nat, root: Ref, t: Tree)
    requires queue != [] && Coherent(nodes, goal) && Queued(queue, goal, bound) && Upto(nodes, goal, queue, root, t)
    requires !nodes[queue[0]].kind.Does?
    ensures Queued(queue[1..], goal, bound) && Upto(nodes, goal, queue[1..], root, t)
    ensures SizeAll(GoalsOf(goal, queue[1..])) < SizeAll(GoalsOf(goal, queue))
  {
    UptoExpand(nodes, goal, queue, queue[0], queue[1..], root, t);
    QueueShorter(goal, queue);
  }

  lemma QueueShorter(goal: Goals, queue: seq<Ref>)
    requires queue != [] && forall i :: 0 <= i < |queue| ==> queue[i] in goal
    ensures SizeAll(GoalsOf(goal, queue)) == Size(goal[queue[0]]) + SizeAll(GoalsOf(goal, queue[1..]))
    ensures SizeAll(GoalsOf(goal, queue[1..])) < SizeAll(GoalsOf(goal, queue))
  {
    assert GoalsOf(goal, queue)[1..] == GoalsOf(goal, queue[1..]);
  }

  lemma QueueExpanded(nodes: Nodes, goal: Goals, queue: seq<Ref>, bound: nat, root: Ref, t: Tree)
    requires queue != [] && Coherent(nodes, goal) && Queued(queue, goal, bound) && Upto(nodes, goal, queue, root, t)
    requires nodes[queue[0]].kind.Does? && !Wide(nodes[queue[0]])
    ensures var next := queue[1..] + nodes[queue[0]].kids;
            && Queued(next, goal, bound) && Upto(nodes, goal, next, root, t)
            && SizeAll(GoalsOf(goal, next)) < SizeAll(GoalsOf(goal, queue))
  {
    var q, kids := queue[0], nodes[queue[0]].kids;
    var next := queue[1..] + kids;
    KidGoals(nodes, goal, q);
    UptoExpand(nodes, goal, queue, q, next, root, t);
    QueueShorter(goal, queue);
    GoalsConcat(goal, queue[1..], kids);
  }

  lemma GoalsConcat(goal: Goals, a: seq<Ref>, b: seq<Ref>)
    requires forall i :: 0 <= i < |a| ==> a[i] in goal
    requires forall i :: 0 <= i < |b| ==> b[i] in goal
    ensures forall i :: 0 <= i < |a + b| ==> (a + b)[i] in goal
    ensures SizeAll(GoalsOf(goal, a + b)) == SizeAll(GoalsOf(goal, a)) + SizeAll(GoalsOf(goal, b))
  {
    assert GoalsOf(goal, a + b) == GoalsOf(goal, a) + GoalsOf(goal, b);
    SizeConcat(GoalsOf(goal, a), GoalsOf(goal, b));
  }

  lemma QueueSettled(before: Nodes, goal: Goals, after: Nodes, more: Goals, queue: seq<Ref>, bound: nat, root: Ref, t: Tree)
    requires queue != [] && Queued(queue, goal, bound) && Upto(before, goal, queue, root, t) && Narrow(t)
    requires Step(before, goal, after, more, Size(goal[queue[0]])) && Represents(after, queue[0], goal[queue[0]])
    ensures Queued(queue[1..], more, bound) && Upto(after, more, queue[1..], root, t)
    ensures SizeAll(GoalsOf(more, queue[1..])) < SizeAll(GoalsOf(goal, queue))
    ensures Step(before, goal, after, more, bound)
  {
    assert Peek(0);
    UptoTame(before, goal, after, more, queue, root, t);
    UptoSettle(after, more, queue, queue[0], queue[1..], root, t);
    QueueShorter(goal, queue);
    assert GoalsOf(more, queue[1..]) == GoalsOf(goal, queue[1..]);
  }

  // ----- the store -----

  class Store {
    var nodes: Nodes
    /** No node has a reference from here on. */
    var next: Ref

    ghost predicate Valid()
      reads this
    {
      forall r :: r in nodes ==> r < next
    }

    constructor ()
      ensures Valid() && nodes == map[]
    {
      nodes, next := map[], 0;
    }

    /** Makes a node without sub-expressions. */
    method Make(kind: Kind) returns (r: Ref)
      requires Valid()
      modifies this
      ensures Valid() && r == old(next) && next == r + 1 && nodes == old(nodes)[r := Cell(kind, [])]
    {
      r := next;
      nodes := nodes[r := Cell(kind, [])];
      next := next + 1;
    }

    /** Appends a sub-expression. */
    method Push(r: Ref, child: Ref)
      requires Valid() && r in nodes
      modifies this
      ensures Valid() && next == old(next)
      ensures nodes == old(nodes)[r := old(nodes)[r].(kids := old(nodes)[r].kids + [child])]
    {
      nodes := nodes[r := nodes[r].(kids := nodes[r].kids + [child])];
    }

    /** A new node over two others. */
    method Pair(op: Operator, a: Ref, b: Ref) returns (r: Ref)
      requires Valid()
      modifies this
      ensures Valid() && r !in old(nodes) && nodes == old(nodes)[r := Cell(Does(op), [a, b])]
    {
      r := Make(Does(op));
      Push(r, a);
      Push(r, b);
      assert nodes[r].kids == [a, b];
    }

    /** Joins the operands at i and i + 1, or keeps the last one. */
    method PairNext(op: Operator, exprs: seq<Ref>, ghost ts: seq<Tree>, i: nat, pairs: seq<Ref>, ghost done: seq<Tree>,
                    ghost first: Nodes, ghost start: Goals, ghost goal: Goals)
      returns (next: nat, longer: seq<Ref>, ghost more: Goals, ghost built: seq<Tree>)
      requires Valid() && i < |exprs| && Pairing(nodes, goal, op, exprs, ts, i, pairs, done)
      requires Step(first, start, nodes, goal, 0)
      modifies this
      ensures Valid() && i < next && Step(first, start, nodes, more, 0)
      ensures Pairing(nodes, more, op, exprs, ts, next, longer, built)
    {
      if i + 1 < |exprs| {
        ghost var t := Operation(op, [ts[i], ts[i + 1]]);
        ghost var before := nodes;
        var pair := Pair(op, exprs[i], exprs[i + 1]);
        RoundStep(first, start, before, goal, op, exprs, ts, i, pairs, done, pair, t);
        return i + 2, pairs + [pair], goal[pair := t], done + [t];
      } else {
        OddStep(nodes, goal, op, exprs, ts, i, pairs, done);
        return i + 1, pairs + [exprs[i]], goal, done + [ts[i]];
      }
    }

    /** One round of pairing. */
    method Round(op: Operator, exprs: seq<Ref>, ghost ts: seq<Tree>, ghost goal: Goals)
      returns (pairs: seq<Ref>, ghost more: Goals)
      requires Valid() && Coherent(nodes, goal) && Settled(nodes, goal, exprs, ts)
      modifies this
      ensures Valid() && Coherent(nodes, more) && Step(old(nodes), goal, nodes, more, 0)
      ensures Settled(nodes, more, pairs, PairUp(op, ts))
    {
      pairs, more := [], goal;
      ghost var done: seq<Tree> := [];
      var i := 0;
      PairingStart(nodes, goal, op, exprs, ts);
      StepNone(nodes, goal);
      while i < |exprs|
        invariant Valid() && Pairing(nodes, more, op, exprs, ts, i, pairs, done)
        invariant Step(old(nodes), goal, nodes, more, 0)
      {
        i, pairs, more, done := PairNext(op, exprs, ts, i, pairs, done, old(nodes), goal, more);
      }
      PairingEnd(nodes, more, op, exprs, ts, i, pairs, done);
    }

    /** Pairs until two are left. */
    method Join(op: Operator, operands: seq<Ref>, ghost ts: seq<Tree>, ghost goal: Goals)
      returns (exprs: seq<Ref>, ghost more: Goals)
      requires Valid() && Coherent(nodes, goal) && Settled(nodes, goal, operands, ts)
      modifies this
      ensures Valid() && Coherent(nodes, more) && Step(old(nodes), goal, nodes, more, 0)
      ensures Settled(nodes, more, exprs, Shrink(op, ts))
    {
      exprs, more := operands, goal;
      ghost var now := ts;
      StepNone(nodes, goal);
      while |exprs| > 2
        invariant Valid() && Coherent(nodes, more) && Step(old(nodes), goal, nodes, more, 0)
        invariant Settled(nodes, more, exprs, now) && Shrink(op, now) == Shrink(op, ts)
      {
        ghost var before, goals := nodes, more;
        exprs, more := Round(op, exprs, now, more);
        now := PairUp(op, now);
        StepTrans(old(nodes), goal, before, goals, nodes, more, 0);
      }
    }

    /** Rebalances the operands of a node. */
    method RebalanceOperands(kids: seq<Ref>, ghost goal: Goals, ghost bound: nat) returns (ghost more: Goals)
      requires Valid() && Coherent(nodes, goal)
      requires Queued(kids, goal, bound)
      modifies this
      ensures Valid() && Coherent(nodes, more) && Step(old(nodes), goal, nodes, more, bound)
      ensures Settled(nodes, more, kids, GoalsOf(goal, kids))
      decreases bound, 3
    {
      more := goal;
      ghost var ts := GoalsOf(goal, kids);
      StepNone(nodes, goal);
      StepWider(nodes, goal, nodes, goal, 0, bound);
      for i := 0 to |kids|
        invariant Valid() && Coherent(nodes, more) && Step(old(nodes), goal, nodes, more, bound)
        invariant Settled(nodes, more, kids[..i], ts[..i])
      {
        ghost var before, goals := nodes, more;
        StepKeeps(old(nodes), goal, nodes, more, bound, kids[i]);
        more := RebalanceAndOr(kids[i], more);
        OperandDone(old(nodes), goal, before, goals, nodes, more, kids, ts, i, bound);
      }
      assert kids[..|kids|] == kids && ts[..|ts|] == ts;
    }

    /** Rebalances a node with too many operands. */
    method RebalanceChain(node: Ref, op: Operator, ghost goal: Goals) returns (ghost more: Goals)
      requires Valid() && Coherent(nodes, goal) && node in goal
      requires Wide(nodes[node]) && nodes[node].kind == Does(op)
      modifies this
      ensures Valid() && Coherent(nodes, more) && Step(old(nodes), goal, nodes, more, Size(goal[node]))
      ensures Represents(nodes, node, goal[node])
      decreases Size(goal[node]), 1
    {
      var kids := nodes[node].kids;
      ghost var ts, bound := GoalsOf(goal, kids), Size(goal[node]);
      KidGoals(nodes, goal, node);
      more := RebalanceOperands(kids, goal, bound - 1);
      ghost var mid, goals := nodes, more;
      var exprs;
      exprs, more := Join(op, kids, ts, more);
      ghost var joined := nodes;
      StepKeeps(old(nodes), goal, mid, goals, bound - 1, node);
      StepKeeps(mid, goals, joined, more, 0, node);
      nodes := nodes[node := nodes[node].(kids := exprs)];
      ChainDone(old(nodes), goal, mid, goals, joined, more, node, op, exprs, ts);
    }

    /** Rebalances the expression at root in place: afterwards it stands for its goal. */
    method RebalanceAndOr(root: Ref, ghost goal: Goals) returns (ghost more: Goals)
      requires Valid() && Coherent(nodes, goal) && root in goal
      modifies this
      ensures Valid() && Coherent(nodes, more) && Step(old(nodes), goal, nodes, more, Size(goal[root]))
      ensures Settled(nodes, more, [root], [goal[root]])
      decreases Size(goal[root]), 2
    {
      more := goal;
      ghost var t := goal[root];
      StepNone(nodes, goal);
      StepWider(nodes, goal, nodes, goal, 0, Size(t));
      var queue := [root];
      while queue != []
        invariant Valid() && Coherent(nodes, more) && Step(old(nodes), goal, nodes, more, Size(t))
        invariant Queued(queue, more, Size(t)) && Upto(nodes, more, queue, root, t)
        decreases SizeAll(GoalsOf(more, queue))
      {
        var node := queue[0];
        ghost var before, goals, was := nodes, more, queue;
        queue := queue[1..];
        if Wide(nodes[node]) {
          more := RebalanceChain(node, nodes[node].kind.op, more);
          QueueSettled(before, goals, nodes, more, was, Size(t), root, t);
          StepTrans(old(nodes), goal, before, goals, nodes, more, Size(t));
        } else if nodes[node].kind.Does? {
          queue := queue + nodes[node].kids;
          QueueExpanded(nodes, more, was, Size(t), root, t);
        } else {
          QueueDropped(nodes, more, was, Size(t), root, t);
        }
      }
      UptoNothing(nodes, more, root, t);
      StepKeeps(old(nodes), goal, nodes, more, Size(t), root);
    }
  }
}
