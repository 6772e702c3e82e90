/**
 Filter expressions as trees: what they mean, how chains of AND or OR are flattened into
 one node and then rebalanced into binary nodes.
 */
module CqlTree {

  datatype Operator =
    | And | Or | Not
    | Eq | Ne | Ge | Le | Lt | Gt
    | IsNull | In | Between
    | Add | Subtract | Multiply | Divide | Modulo
    | ArgumentList

  datatype Constant = Whole(n: int) | Fraction(r: real) | Quoted(s: string) | Boolean(b: bool)

  datatype Tree =
    | Leaf(constant: Constant)
    | Column(name: string)
    | Operation(op: Operator, kids: seq<Tree>)

  predicate IsAndOr(op: Operator) { op == And || op == Or }

  // ----- meaning -----

  datatype Value = Bool(b: bool) | Number(r: real) | Text(s: string)

  /** The values of the columns, and any meaning for comparisons and arithmetic. */
  datatype Interp = Interp(column: string -> Value, compare: (Operator, seq<Value>) -> bool,
                           compute: (Operator, seq<Value>) -> Value)

  predicate IsComparison(op: Operator) {
    op == Eq || op == Ne || op == Ge || op == Le || op == Lt || op == Gt || op == IsNull
  }

  predicate Truth(v: Value) {
    match v
    case Bool(b) => b
    case Number(r) => r != 0.0
    case Text(s) => s != ""
  }

  function ConstantValue(c: Constant): Value {
    match c
    case Whole(n) => Number(n as real)
    case Fraction(r) => Number(r)
    case Quoted(s) => Text(s)
    case Boolean(b) => Number(if b then 1.0 else 0.0)
  }

  ghost predicate AllTrue(vs: seq<Value>) { forall i :: 0 <= i < |vs| ==> Truth(vs[i]) }

  ghost predicate AnyTrue(vs: seq<Value>) { exists i :: 0 <= i < |vs| && Truth(vs[i]) }

  ghost predicate Among(v: Value, vs: seq<Value>, I: Interp) {
    exists i :: 0 <= i < |vs| && I.compare(Eq, [v, vs[i]])
  }

  /** The meaning of an operation on the values of its operands. */
  ghost function Combine(op: Operator, vs: seq<Value>, I: Interp): Value {
    if op == And then Bool(AllTrue(vs))
    else if op == Or then Bool(AnyTrue(vs))
    else if op == Not && |vs| == 1 then Bool(!Truth(vs[0]))
    else if op == In && |vs| >= 1 then Bool(Among(vs[0], vs[1..], I))
    else if op == Between && |vs| == 3 then
      Bool(I.compare(Ge, [vs[0], vs[1]]) && I.compare(Le, [vs[0], vs[2]]))
    else if IsComparison(op) then Bool(I.compare(op, vs))
    else I.compute(op, vs)
  }

  ghost function Eval(t: Tree, I: Interp): Value
    decreases t
  {
    match t
    case Leaf(c) => ConstantValue(c)
    case Column(name) => I.column(name)
    case Operation(op, kids) => Combine(op, seq(|kids|, i requires 0 <= i < |kids| => Eval(kids[i], I)), I)
  }

  ghost function EvalAll(ts: seq<Tree>, I: Interp): (vs: seq<Value>)
    ensures |vs| == |ts|
  {
    seq(|ts|, i requires 0 <= i < |ts| => Eval(ts[i], I))
  }

  lemma EvalOperation(op: Operator, kids: seq<Tree>, I: Interp)
    ensures Eval(Operation(op, kids), I) == Combine(op, EvalAll(kids, I), I)
  {
    var t := Operation(op, kids);
    assert seq(|kids|, i requires 0 <= i < |kids| => Eval(t.kids[i], I)) == EvalAll(kids, I);
  }

  /** The operands of an AND or OR, taken together. */
  ghost predicate Joined(op: Operator, vs: seq<Value>) {
    if op == And then AllTrue(vs) else AnyTrue(vs)
  }

  lemma JoinedConcat(op: Operator, us: seq<Value>, vs: seq<Value>)
    ensures Joined(op, us + vs) == if op == And then Joined(op, us) && Joined(op, vs) else Joined(op, us) || Joined(op, vs)
  {
    var ws := us + vs;
    assert forall i :: 0 <= i < |us| ==> ws[i] == us[i];
    assert forall i :: 0 <= i < |vs| ==> ws[|us| + i] == vs[i];
  }

  lemma JoinedSwap(op: Operator, us: seq<Value>, vs: seq<Value>)
    ensures Joined(op, us + vs) == Joined(op, vs + us)
  {
    JoinedConcat(op, us, vs);
    JoinedConcat(op, vs, us);
  }

  lemma JoinedOne(op: Operator, v: Value)
    ensures Joined(op, [v]) == Truth(v)
  {
    assert [v][0] == v;
  }

  lemma PairTruth(u: Value, v: Value)
    ensures AllTrue([u, v]) == (Truth(u) && Truth(v))
    ensures AnyTrue([u, v]) == (Truth(u) || Truth(v))
  {
    assert [u, v][0] == u && [u, v][1] == v;
  }

  // ----- flattening -----

  /** The operands that t contributes to a chain of op. */
  function Operands(op: Operator, t: Tree): seq<Tree> {
    if t.Operation? && t.op == op then t.kids else [t]
  }

  /** The node made for "left op right"; a chain on the right alone comes first. */
  function Flatten(op: Operator, left: Tree, right: Tree): Tree {
    if right.Operation? && right.op == op && !(left.Operation? && left.op == op) then
      Operation(op, right.kids + [left])
    else
      Operation(op, Operands(op, left) + Operands(op, right))
  }

  lemma EvalConcat(ss: seq<Tree>, ts: seq<Tree>, I: Interp)
    ensures EvalAll(ss + ts, I) == EvalAll(ss, I) + EvalAll(ts, I)
  {
  }

  lemma OperandsMeaning(op: Operator, t: Tree, I: Interp)
    requires IsAndOr(op)
    ensures Joined(op, EvalAll(Operands(op, t), I)) == Truth(Eval(t, I))
  {
    if t.Operation? && t.op == op {
      EvalOperation(op, t.kids, I);
    } else {
      assert EvalAll([t], I) == [Eval(t, I)];
      JoinedOne(op, Eval(t, I));
    }
  }

  /** Flattening keeps the truth value, although it may reorder the operands. */
  lemma FlattenMeaning(op: Operator, left: Tree, right: Tree, I: Interp)
    requires IsAndOr(op)
    ensures Eval(Flatten(op, left, right), I) == Combine(op, [Eval(left, I), Eval(right, I)], I)
  {
    var ls, rs := Operands(op, left), Operands(op, right);
    var f := Flatten(op, left, right);
    EvalOperation(op, f.kids, I);
    OperandsMeaning(op, left, I);
    OperandsMeaning(op, right, I);
    EvalConcat(ls, rs, I);
    EvalConcat(rs, ls, I);
    JoinedSwap(op, EvalAll(ls, I), EvalAll(rs, I));
    JoinedConcat(op, EvalAll(ls, I), EvalAll(rs, I));
    JoinedConcat(op, [Eval(left, I)], [Eval(right, I)]);
    JoinedOne(op, Eval(left, I));
    JoinedOne(op, Eval(right, I));
    assert [Eval(left, I)] + [Eval(right, I)] == [Eval(left, I), Eval(right, I)];
  }

  // ----- rebalancing -----

  /** One round: neighbours are joined in pairs, an odd one out is kept. */
  function PairUp(op: Operator, ts: seq<Tree>): (r: seq<Tree>)
    ensures |r| == (|ts| + 1) / 2
  {
    if |ts| < 2 then ts else [Operation(op, [ts[0], ts[1]])] + PairUp(op, ts[2..])
  }

  /** Rounds until two are left. */
  function Shrink(op: Operator, ts: seq<Tree>): (r: seq<Tree>)
    ensures |r| == if |ts| < 2 then |ts| else 2
    decreases |ts|
  {
    if |ts| <= 2 then ts else Shrink(op, PairUp(op, ts))
  }

  /** A node over operands that are balanced already. */
  function BalanceNode(op: Operator, kids: seq<Tree>): Tree {
    Operation(op, if IsAndOr(op) && |kids| > 2 then Shrink(op, kids) else kids)
  }

  function Balanced(t: Tree): Tree
    decreases t
  {
    match t
    case Operation(op, kids) => BalanceNode(op, seq(|kids|, i requires 0 <= i < |kids| => Balanced(kids[i])))
    case _ => t
  }

  function BalancedAll(ts: seq<Tree>): (r: seq<Tree>)
    ensures |r| == |ts|
  {
    seq(|ts|, i requires 0 <= i < |ts| => Balanced(ts[i]))
  }

  lemma BalancedOperation(op: Operator, kids: seq<Tree>)
    ensures Balanced(Operation(op, kids)) == BalanceNode(op, BalancedAll(kids))
  {
    var t := Operation(op, kids);
    assert seq(|kids|, i requires 0 <= i < |kids| => Balanced(t.kids[i])) == BalancedAll(kids);
  }

  lemma {:induction false} PairUpMeaning(op: Operator, ts: seq<Tree>, I: Interp)
    requires IsAndOr(op)
    ensures Joined(op, EvalAll(PairUp(op, ts), I)) == Joined(op, EvalAll(ts, I))
    decreases |ts|
  {
    if |ts| >= 2 {
      var pair, rest := ts[..2], ts[2..];
      assert pair == [ts[0], ts[1]] && ts == pair + rest;
      PairUpMeaning(op, rest, I);
      EvalOperation(op, pair, I);
      EvalConcat(pair, rest, I);
      EvalConcat([Operation(op, pair)], PairUp(op, rest), I);
      assert EvalAll([Operation(op, pair)], I) == [Eval(Operation(op, pair), I)];
      JoinedOne(op, Eval(Operation(op, pair), I));
      JoinedConcat(op, EvalAll(pair, I), EvalAll(rest, I));
      JoinedConcat(op, [Eval(Operation(op, pair), I)], EvalAll(PairUp(op, rest), I));
    }
  }

  lemma {:induction false} ShrinkMeaning(op: Operator, ts: seq<Tree>, I: Interp)
    requires IsAndOr(op)
    ensures Joined(op, EvalAll(Shrink(op, ts), I)) == Joined(op, EvalAll(ts, I))
    decreases |ts|
  {
    if |ts| > 2 {
      PairUpMeaning(op, ts, I);
      ShrinkMeaning(op, PairUp(op, ts), I);
    }
  }

  lemma BalanceNodeMeaning(op: Operator, kids: seq<Tree>, I: Interp)
    ensures Eval(BalanceNode(op, kids), I) == Combine(op, EvalAll(kids, I), I)
  {
    EvalOperation(op, BalanceNode(op, kids).kids, I);
    if IsAndOr(op) { ShrinkMeaning(op, kids, I); }
  }

  /** Rebalancing keeps the value of every expression under every interpretation. */
  lemma {:induction false} BalancedMeaning(t: Tree, I: Interp)
    ensures Eval(Balanced(t), I) == Eval(t, I)
    decreases t
  {
    if t.Operation? {
      var kids := t.kids;
      forall i | 0 <= i < |kids| ensures Eval(Balanced(kids[i]), I) == Eval(kids[i], I) {
        BalancedMeaning(kids[i], I);
      }
      assert EvalAll(BalancedAll(kids), I) == EvalAll(kids, I);
      BalancedOperation(t.op, kids);
      BalanceNodeMeaning(t.op, BalancedAll(kids), I);
      EvalOperation(t.op, kids, I);
    }
  }

  // ----- shape -----

  /** The number of operands the parser can give to an operation. */
  predicate Arity(op: Operator, n: nat) {
    match op
    case And | Or | In => n >= 2
    case Not | IsNull => n == 1
    case Between => n == 3
    case ArgumentList => false
    case _ => n == 2
  }

  /** Every node has an admissible number of operands. */
  predicate Shaped(t: Tree)
    decreases t
  {
    t.Operation? ==> Arity(t.op, |t.kids|) && forall i :: 0 <= i < |t.kids| ==> Shaped(t.kids[i])
  }

  /** Every AND and OR has exactly two operands, as the printer demands. */
  predicate Binary(t: Tree)
    decreases t
  {
    t.Operation? ==>
      && Arity(t.op, |t.kids|) && (IsAndOr(t.op) ==> |t.kids| == 2)
      && forall i :: 0 <= i < |t.kids| ==> Binary(t.kids[i])
  }

  predicate AllBinary(ts: seq<Tree>) { forall i :: 0 <= i < |ts| ==> Binary(ts[i]) }

  lemma FlattenShaped(op: Operator, left: Tree, right: Tree)
    requires IsAndOr(op) && Shaped(left) && Shaped(right)
    ensures Shaped(Flatten(op, left, right))
  {
  }

  lemma {:induction false} PairUpBinary(op: Operator, ts: seq<Tree>)
    requires IsAndOr(op) && AllBinary(ts)
    ensures AllBinary(PairUp(op, ts))
    decreases |ts|
  {
    if |ts| >= 2 {
      PairUpBinary(op, ts[2..]);
      assert Binary(Operation(op, [ts[0], ts[1]]));
    }
  }

  lemma {:induction false} ShrinkBinary(op: Operator, ts: seq<Tree>)
    requires IsAndOr(op) && AllBinary(ts)
    ensures AllBinary(Shrink(op, ts))
    decreases |ts|
  {
    if |ts| > 2 {
      PairUpBinary(op, ts);
      ShrinkBinary(op, PairUp(op, ts));
    }
  }

  /** Rebalancing leaves every AND and OR with exactly two operands. */
  lemma {:induction false} BalancedBinary(t: Tree)
    requires Shaped(t)
    ensures Binary(Balanced(t))
    decreases t
  {
    if t.Operation? {
      forall i | 0 <= i < |t.kids| ensures Binary(Balanced(t.kids[i])) {
        BalancedBinary(t.kids[i]);
      }
      BalancedOperation(t.op, t.kids);
      assert AllBinary(BalancedAll(t.kids));
      if IsAndOr(t.op) { ShrinkBinary(t.op, BalancedAll(t.kids)); }
    }
  }

  /** What is binary already stays as it is. */
  lemma {:induction false} BalancedFixed(t: Tree)
    requires Binary(t)
    ensures Balanced(t) == t
    decreases t
  {
    if t.Operation? {
      forall i | 0 <= i < |t.kids| ensures Balanced(t.kids[i]) == t.kids[i] {
        BalancedFixed(t.kids[i]);
      }
      BalancedOperation(t.op, t.kids);
      assert BalancedAll(t.kids) == t.kids;
    }
  }

  // ----- height -----

  function Max(a: nat, b: nat): nat { if a < b then b else a }

  function Height(t: Tree): nat
    decreases t, 0
  {
    if t.Operation? then 1 + Highest(t.kids) else 0
  }

  function Highest(ts: seq<Tree>): nat
    decreases ts, 1
  {
    if ts == [] then 0 else Max(Height(ts[0]), Highest(ts[1..]))
  }

  /** The least number of levels in which n operands can be joined in pairs. */
  function Levels(n: nat): nat {
    if n <= 1 then 0 else 1 + Levels((n + 1) / 2)
  }

  function Power(n: nat): nat { if n == 0 then 1 else 2 * Power(n - 1) }

  /** Levels(n) is the logarithm of n to base two, rounded up. */
  lemma {:induction false} LevelsIsLogarithm(n: nat)
    requires n > 0
    ensures n <= Power(Levels(n))
    ensures n > 1 ==> Power(Levels(n) - 1) < n
  {
    if n > 1 {
      LevelsIsLogarithm((n + 1) / 2);
    }
  }

  lemma {:induction false} PairUpHeight(op: Operator, ts: seq<Tree>)
    ensures Highest(PairUp(op, ts)) <= Highest(ts) + 1
    decreases |ts|
  {
    if |ts| >= 2 {
      PairUpHeight(op, ts[2..]);
      HighestPair(ts[0], ts[1]);
      assert ts[1..][1..] == ts[2..];
      assert Highest(ts[1..]) == Max(Height(ts[1]), Highest(ts[2..]));
    }
  }

  lemma HighestPair(a: Tree, b: Tree)
    ensures Highest([a, b]) == Max(Height(a), Height(b))
  {
    assert [a, b][1..] == [b];
    assert Highest([b]) == Max(Height(b), Highest([b][1..]));
  }

  lemma {:induction false} ShrinkHeight(op: Operator, ts: seq<Tree>)
    requires |ts| >= 2
    ensures Highest(Shrink(op, ts)) + 1 <= Highest(ts) + Levels(|ts|)
    decreases |ts|
  {
    if |ts| > 2 {
      PairUpHeight(op, ts);
      ShrinkHeight(op, PairUp(op, ts));
    }
  }

  /** The height of an expression when a chain of k operands counts as Levels(k). */
  function ChainHeight(t: Tree): nat
    decreases t, 0
  {
    if !t.Operation? then 0
    else (if IsAndOr(t.op) && |t.kids| > 2 then Levels(|t.kids|) else 1) + HighestChain(t.kids)
  }

  function HighestChain(ts: seq<Tree>): nat
    decreases ts, 1
  {
    if ts == [] then 0 else Max(ChainHeight(ts[0]), HighestChain(ts[1..]))
  }

  lemma {:induction false} BalancedAllHeight(ts: seq<Tree>)
    ensures Highest(BalancedAll(ts)) <= HighestChain(ts)
    decreases ts, 1
  {
    if ts != [] {
      BalancedHeight(ts[0]);
      BalancedAllHeight(ts[1..]);
      assert BalancedAll(ts)[1..] == BalancedAll(ts[1..]);
    }
  }

  /** A chain of k operands costs only Levels(k) levels after rebalancing. */
  lemma {:induction false} BalancedHeight(t: Tree)
    ensures Height(Balanced(t)) <= ChainHeight(t)
    decreases t, 0
  {
    if t.Operation? {
      BalancedOperation(t.op, t.kids);
      BalancedAllHeight(t.kids);
      if IsAndOr(t.op) && |t.kids| > 2 {
        ShrinkHeight(t.op, BalancedAll(t.kids));
      }
    }
  }

  // ----- no tree is lower -----

  function Leaves(t: Tree): nat
    decreases t, 0
  {
    if t.Operation? then LeavesOf(t.kids) else 1
  }

  function LeavesOf(ts: seq<Tree>): nat
    decreases ts, 1
  {
    if ts == [] then 0 else Leaves(ts[0]) + LeavesOf(ts[1..])
  }

  /** No node has more than two operands. */
  predicate Pairwise(t: Tree)
    decreases t
  {
    t.Operation? ==> |t.kids| <= 2 && forall i :: 0 <= i < |t.kids| ==> Pairwise(t.kids[i])
  }

  lemma {:induction false} PowerGrows(a: nat, b: nat)
    requires a <= b
    ensures Power(a) <= Power(b)
  {
    if a < b { PowerGrows(a, b - 1); }
  }

  lemma LeavesPair(a: Tree, b: Tree)
    ensures LeavesOf([a, b]) == Leaves(a) + Leaves(b)
  {
    assert [a, b][1..] == [b];
    assert LeavesOf([b]) == Leaves(b) + LeavesOf([b][1..]);
  }

  /** A tree of height h has room for two to the power of h leaves. */
  lemma {:induction false} LeavesBound(t: Tree)
    requires Pairwise(t)
    ensures Leaves(t) <= Power(Height(t))
    decreases t
  {
    if t.Operation? && t.kids != [] {
      var h := Highest(t.kids);
      assert Power(Height(t)) == 2 * Power(h);
      LeavesBound(t.kids[0]);
      PowerGrows(Height(t.kids[0]), h);
      if |t.kids| == 1 {
        assert LeavesOf(t.kids[1..]) == 0;
      } else {
        assert t.kids == [t.kids[0], t.kids[1]];
        LeavesPair(t.kids[0], t.kids[1]);
        HighestPair(t.kids[0], t.kids[1]);
        LeavesBound(t.kids[1]);
        PowerGrows(Height(t.kids[1]), h);
      }
    }
  }

  lemma {:induction false} AtomsAreLow(ts: seq<Tree>)
    requires forall i :: 0 <= i < |ts| ==> !ts[i].Operation?
    ensures HighestChain(ts) == 0
  {
    if ts != [] { AtomsAreLow(ts[1..]); }
  }

  /** Of all trees with as many leaves in which no node has more than two operands, none is
      lower than a rebalanced chain. */
  lemma LowestChain(op: Operator, atoms: seq<Tree>, other: Tree)
    requires IsAndOr(op) && |atoms| >= 2 && forall i :: 0 <= i < |atoms| ==> !atoms[i].Operation?
    requires Pairwise(other) && Leaves(other) >= |atoms|
    ensures Height(Balanced(Operation(op, atoms))) <= Height(other)
  {
    var n := |atoms|;
    BalancedHeight(Operation(op, atoms));
    AtomsAreLow(atoms);
    LeavesBound(other);
    LevelsIsLogarithm(n);
    if Height(other) < Levels(n) { PowerGrows(Height(other), Levels(n) - 1); }
    assert Levels(2) == 1;
  }
}
