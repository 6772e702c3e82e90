/**
 Printing a filter as a MapServer expression, and reading such expressions. The printed
 tokens have one value, however the reader resolves precedence and associativity.
 */
module CqlPrint {
  import opened CqlTree

  datatype Token = Open | Close | Sign(op: Operator) | Lit(value: Value) | Field(name: string)

  datatype Problem = NotQueryable(name: string) | NullTest

  datatype Result<T> = Ok(value: T) | Err(problem: Problem)

  predicate IsInfix(op: Operator) {
    op in {And, Or, Eq, Ne, Ge, Le, Lt, Gt, Add, Subtract, Multiply, Divide, Modulo}
  }

  // ----- printing -----

  function Wrap(ts: seq<Token>): seq<Token> { [Open] + ts + [Close] }

  function Infixed(a: seq<Token>, op: Operator, b: seq<Token>): seq<Token> { a + [Sign(op)] + b }

  /** Prints one after the other; the first problem stops it. */
  function Then(a: Result<seq<Token>>, b: Result<seq<Token>>): Result<(seq<Token>, seq<Token>)> {
    if a.Err? then Err(a.problem) else if b.Err? then Err(b.problem) else Ok((a.value, b.value))
  }

  /** "(a op b)" */
  function PrintInfix(a: Result<seq<Token>>, op: Operator, b: Result<seq<Token>>): Result<seq<Token>> {
    match Then(a, b)
    case Err(p) => Err(p)
    case Ok((x, y)) => Ok(Wrap(Infixed(x, op, y)))
  }

  /** "(a = b) OR (a = c) OR ..." over the elements from i on. */
  function PrintList(a: Result<seq<Token>>, list: seq<Result<seq<Token>>>): (r: Result<seq<Token>>)
    requires list != []
  {
    var first := PrintInfix(a, Eq, list[0]);
    if |list| == 1 then first
    else
      match Then(first, PrintList(a, list[1..]))
      case Err(p) => Err(p)
      case Ok((x, y)) => Ok(Infixed(x, Or, y))
  }

  /** The filter as a MapServer expression, or the first problem. */
  function ToMapServerFilter(t: Tree, items: seq<string>): Result<seq<Token>>
    requires Binary(t)
    decreases t
  {
    match t
    case Leaf(c) => Ok([Lit(ConstantValue(c))])
    case Column(name) => if name in items then Ok([Field(name)]) else Err(NotQueryable(name))
    case Operation(op, kids) =>
      if op == IsNull then Err(NullTest)
      else
        var parts := seq(|kids|, i requires 0 <= i < |kids| => ToMapServerFilter(kids[i], items));
        PrintOperation(op, parts)
  }

  function PrintOperation(op: Operator, parts: seq<Result<seq<Token>>>): Result<seq<Token>>
    requires Arity(op, |parts|) && op != IsNull && (IsAndOr(op) ==> |parts| == 2)
  {
    if op == Not then (if parts[0].Err? then parts[0] else Ok(Wrap([Sign(Not)] + parts[0].value)))
    else if op == In then
      var list := PrintList(parts[0], parts[1..]);
      if list.Err? then list else Ok(Wrap(list.value))
    else if op == Between then
      PrintInfix(PrintInfix(parts[0], Ge, parts[1]), And, PrintInfix(parts[0], Le, parts[2]))
    else PrintInfix(parts[0], op, parts[1])
  }

  // ----- brackets -----

  function Weight(t: Token): int { if t == Open then 1 else if t == Close then -1 else 0 }

  function Depth(ts: seq<Token>): int {
    if ts == [] then 0 else Depth(ts[..|ts| - 1]) + Weight(ts[|ts| - 1])
  }

  lemma {:induction false} DepthConcat(a: seq<Token>, b: seq<Token>)
    ensures Depth(a + b) == Depth(a) + Depth(b)
    decreases |b|
  {
    if b == [] {
      assert a + b == a;
    } else {
      var n := |b| - 1;
      DepthConcat(a, b[..n]);
      assert (a + b)[..|a + b| - 1] == a + b[..n];
    }
  }

  /** Brackets match. */
  ghost predicate Level(ts: seq<Token>) {
    Depth(ts) == 0 && forall k :: 0 <= k <= |ts| ==> Depth(ts[..k]) >= 0
  }

  /** One operand: an atom, or brackets that match at the very end only. */
  ghost predicate Unit(ts: seq<Token>) {
    && ts != [] && Depth(ts) == 0 && !ts[0].Sign?
    && forall k :: 0 < k < |ts| ==> Depth(ts[..k]) >= 1
  }

  lemma UnitLevel(ts: seq<Token>)
    requires Unit(ts)
    ensures Level(ts)
  {
    assert ts[..|ts|] == ts && ts[..0] == [];
  }

  lemma PrefixOfConcat(a: seq<Token>, b: seq<Token>, k: nat)
    requires k <= |a + b|
    ensures Depth((a + b)[..k]) == if k <= |a| then Depth(a[..k]) else Depth(a) + Depth(b[..k - |a|])
  {
    if k <= |a| {
      assert (a + b)[..k] == a[..k];
    } else {
      assert (a + b)[..k] == a + b[..k - |a|];
      DepthConcat(a, b[..k - |a|]);
    }
  }

  lemma LevelConcat(a: seq<Token>, b: seq<Token>)
    requires Level(a) && Level(b)
    ensures Level(a + b)
  {
    DepthConcat(a, b);
    forall k | 0 <= k <= |a + b| ensures Depth((a + b)[..k]) >= 0 {
      PrefixOfConcat(a, b, k);
    }
  }

  lemma LevelSign(op: Operator)
    ensures Level([Sign(op)])
  {
    assert [Sign(op)][..0] == [] && [Sign(op)][..1] == [Sign(op)];
  }

  lemma LevelInfixed(a: seq<Token>, op: Operator, b: seq<Token>)
    requires Level(a) && Level(b)
    ensures Level(Infixed(a, op, b))
  {
    LevelSign(op);
    LevelConcat(a, [Sign(op)]);
    LevelConcat(a + [Sign(op)], b);
  }

  lemma DepthOne(t: Token)
    ensures Depth([t]) == Weight(t)
  {
    assert [t][..0] == [];
  }

  lemma WrapUnit(ts: seq<Token>)
    requires Level(ts)
    ensures Unit(Wrap(ts))
  {
    DepthOne(Open);
    DepthOne(Close);
    DepthConcat([Open], ts);
    DepthConcat([Open] + ts, [Close]);
    forall k | 0 < k < |Wrap(ts)| ensures Depth(Wrap(ts)[..k]) >= 1 {
      assert Wrap(ts)[..k] == [Open] + ts[..k - 1];
      DepthConcat([Open], ts[..k - 1]);
    }
  }

  // ----- reading -----

  /** A way of reading a sequence of tokens, with any precedence and associativity. */
  datatype Reading =
    | Atom(token: Token)
    | Group(inner: Reading)
    | Opposite(arg: Reading)
    | Minus(arg: Reading)
    | Infix(op: Operator, left: Reading, right: Reading)

  predicate Proper(d: Reading) {
    match d
    case Atom(t) => t.Lit? || t.Field?
    case Group(e) => Proper(e)
    case Opposite(e) => Proper(e)
    case Minus(e) => Proper(e)
    case Infix(op, l, r) => IsInfix(op) && Proper(l) && Proper(r)
  }

  /** The tokens that are read. */
  function Yield(d: Reading): seq<Token> {
    match d
    case Atom(t) => [t]
    case Group(e) => Wrap(Yield(e))
    case Opposite(e) => [Sign(Not)] + Yield(e)
    case Minus(e) => [Sign(Subtract)] + Yield(e)
    case Infix(op, l, r) => Infixed(Yield(l), op, Yield(r))
  }

  ghost function InfixValue(op: Operator, u: Value, v: Value, I: Interp): Value {
    if op == And then Bool(Truth(u) && Truth(v))
    else if op == Or then Bool(Truth(u) || Truth(v))
    else if IsComparison(op) then Bool(I.compare(op, [u, v]))
    else I.compute(op, [u, v])
  }

  ghost function ValueOf(d: Reading, I: Interp): Value {
    match d
    case Atom(Lit(v)) => v
    case Atom(Field(name)) => I.column(name)
    case Atom(_) => Bool(false)
    case Group(e) => ValueOf(e, I)
    case Opposite(e) => Bool(!Truth(ValueOf(e, I)))
    case Minus(e) => I.compute(Subtract, [ValueOf(e, I)])
    case Infix(op, l, r) => InfixValue(op, ValueOf(l, I), ValueOf(r, I), I)
  }

  lemma {:induction false} YieldLevel(d: Reading)
    requires Proper(d)
    ensures Yield(d) != [] && Level(Yield(d))
  {
    match d {
      case Atom(t) =>
        DepthOne(t);
        assert [t][..0] == [] && [t][..1] == [t];
      case Group(e) =>
        YieldLevel(e);
        WrapUnit(Yield(e));
        UnitLevel(Wrap(Yield(e)));
      case Opposite(e) =>
        YieldLevel(e);
        LevelSign(Not);
        LevelConcat([Sign(Not)], Yield(e));
      case Minus(e) =>
        YieldLevel(e);
        LevelSign(Subtract);
        LevelConcat([Sign(Subtract)], Yield(e));
      case Infix(op, l, r) =>
        YieldLevel(l);
        YieldLevel(r);
        LevelInfixed(Yield(l), op, Yield(r));
    }
  }

  /** The left operand of an infix reading ends at bracket depth zero, before its sign. */
  lemma InfixCut(d: Reading)
    requires Proper(d) && d.Infix?
    ensures var p, ts := |Yield(d.left)|, Yield(d);
            0 < p < |ts| - 1 && ts[..p] == Yield(d.left) && Depth(ts[..p]) == 0 && ts[p] == Sign(d.op)
            && ts[p + 1..] == Yield(d.right)
  {
    YieldLevel(d.left);
    YieldLevel(d.right);
  }

  /** A bracketed operand can only be read as a group. */
  lemma UnitIsGroup(d: Reading, ts: seq<Token>)
    requires Proper(d) && Level(ts) && ts != [] && Yield(d) == Wrap(ts)
    ensures d.Group? && Yield(d.inner) == ts
  {
    WrapUnit(ts);
    if d.Infix? {
      InfixCut(d);
    } else if d.Group? {
      assert Wrap(Yield(d.inner))[1..|Yield(d.inner)| + 1] == Yield(d.inner);
      assert Wrap(ts)[1..|ts| + 1] == ts;
    }
  }

  /** The sequence is one operand which can be read, and every reading has the value v. */
  ghost predicate Means(ts: seq<Token>, v: Value, I: Interp) {
    && Unit(ts)
    && (exists d :: Proper(d) && Yield(d) == ts)
    && (forall d :: Proper(d) && Yield(d) == ts ==> ValueOf(d, I) == v)
  }

  lemma AtomMeans(t: Token, I: Interp)
    requires t.Lit? || t.Field?
    ensures Means([t], ValueOf(Atom(t), I), I)
  {
    DepthOne(t);
    assert Yield(Atom(t)) == [t];
    forall d | Proper(d) && Yield(d) == [t] ensures d == Atom(t) {
      match d {
        case Atom(u) => assert [u][0] == [t][0];
        case Group(e) =>
        case Opposite(e) => YieldLevel(e);
        case Minus(e) => YieldLevel(e);
        case Infix(op, l, r) => InfixCut(d);
      }
    }
  }

  // ----- chains of operands -----

  /** "u1 op u2 op u3 ..." */
  function Chain(units: seq<seq<Token>>, op: Operator): seq<Token>
    requires units != []
  {
    if |units| == 1 then units[0] else Infixed(units[0], op, Chain(units[1..], op))
  }

  ghost predicate Units(units: seq<seq<Token>>) { forall i :: 0 <= i < |units| ==> Unit(units[i]) }

  lemma {:induction false} ChainLevel(units: seq<seq<Token>>, op: Operator)
    requires units != [] && Units(units)
    ensures Level(Chain(units, op)) && Chain(units, op) != [] && !Chain(units, op)[0].Sign?
  {
    UnitLevel(units[0]);
    if |units| > 1 {
      ChainLevel(units[1..], op);
      LevelInfixed(units[0], op, Chain(units[1..], op));
    }
  }

  /** A sign at bracket depth zero is one of those between the operands. */
  lemma {:induction false} ChainCut(units: seq<seq<Token>>, op: Operator, p: nat) returns (j: nat)
    requires units != [] && Units(units) && 0 < p < |Chain(units, op)|
    requires Depth(Chain(units, op)[..p]) == 0 && Chain(units, op)[p].Sign?
    ensures 0 < j < |units| && Chain(units, op)[p] == Sign(op)
    ensures Chain(units, op)[..p] == Chain(units[..j], op) && Chain(units, op)[p + 1..] == Chain(units[j..], op)
    decreases |units|
  {
    NotInside(units, op, p);
    if p == |units[0]| {
      j := 1;
      FirstCut(units, op);
    } else {
      var rest, q := Chain(units[1..], op), p - |units[0]| - 1;
      InRest(units, op, q);
      var i := ChainCut(units[1..], op, q);
      j := ChainGrow(units, op, i, q);
    }
  }

  /** Inside the first operand there is no cut. */
  lemma NotInside(units: seq<seq<Token>>, op: Operator, p: nat)
    requires units != [] && Unit(units[0]) && 0 < p < |Chain(units, op)| && Depth(Chain(units, op)[..p]) == 0
    ensures p >= |units[0]| && |units| > 1
  {
    assert p <= |units[0]| ==> Chain(units, op)[..p] == units[0][..p];
  }

  lemma FirstCut(units: seq<seq<Token>>, op: Operator)
    requires |units| > 1
    ensures var ts, p := Chain(units, op), |units[0]|;
            p < |ts| && ts[p] == Sign(op) && ts[..p] == Chain(units[..1], op) && ts[p + 1..] == Chain(units[1..], op)
  {
    assert units[..1] == [units[0]];
  }

  lemma InRest(units: seq<seq<Token>>, op: Operator, q: nat)
    requires |units| > 1 && Units(units) && q < |Chain(units[1..], op)|
    ensures var ts, p, rest := Chain(units, op), |units[0]| + 1 + q, Chain(units[1..], op);
            && p < |ts| && ts[p] == rest[q] && Depth(ts[..p]) == Depth(rest[..q])
            && (rest[q].Sign? ==> q > 0)
  {
    ChainLevel(units[1..], op);
    AfterFirst(units[0], op, Chain(units[1..], op), q);
    DepthInfixed(units[0], op, Chain(units[1..], op)[..q]);
  }

  lemma ChainGrow(units: seq<seq<Token>>, op: Operator, i: nat, q: nat) returns (j: nat)
    requires |units| > 1 && 0 < i < |units| - 1 && q < |Chain(units[1..], op)|
    requires Chain(units[1..], op)[..q] == Chain(units[1..][..i], op)
    requires Chain(units[1..], op)[q + 1..] == Chain(units[1..][i..], op)
    ensures j == i + 1
    ensures var ts, p := Chain(units, op), |units[0]| + 1 + q;
            p < |ts| && ts[..p] == Chain(units[..j], op) && ts[p + 1..] == Chain(units[j..], op)
  {
    j := i + 1;
    AfterFirst(units[0], op, Chain(units[1..], op), q);
    assert units[1..][..i] == units[..j][1..] && units[1..][i..] == units[j..];
  }

  lemma AfterFirst(u: seq<Token>, op: Operator, rest: seq<Token>, q: nat)
    requires q < |rest|
    ensures var ts, p := Infixed(u, op, rest), |u| + 1 + q;
            ts[p] == rest[q] && ts[..p] == Infixed(u, op, rest[..q]) && ts[p + 1..] == rest[q + 1..]
  {
    var ts, p := Infixed(u, op, rest), |u| + 1 + q;
    assert |ts| == |u| + 1 + |rest|;
    assert forall i :: p <= i < |ts| ==> ts[i] == rest[i - |u| - 1];
  }

  lemma DepthInfixed(u: seq<Token>, op: Operator, v: seq<Token>)
    ensures Depth(Infixed(u, op, v)) == Depth(u) + Depth(v)
  {
    DepthConcat(u, [Sign(op)]);
    DepthConcat(u + [Sign(op)], v);
    DepthOne(Sign(op));
  }

  /** A chain of two or more operands can only be read by splitting it at one of its signs. */
  lemma ChainIsInfix(units: seq<seq<Token>>, op: Operator, d: Reading) returns (j: nat)
    requires |units| > 1 && Units(units) && Proper(d) && Yield(d) == Chain(units, op)
    ensures d.Infix? && d.op == op && 0 < j < |units|
    ensures Yield(d.left) == Chain(units[..j], op) && Yield(d.right) == Chain(units[j..], op)
  {
    var ts, n := Chain(units, op), |units[0]|;
    ChainLevel(units, op);
    ChainLevel(units[1..], op);
    assert ts[..n] == units[0];
    match d {
      case Atom(t) => assert false;
      case Group(e) =>
        YieldLevel(e);
        WrapUnit(Yield(e));
        assert false;
      case Opposite(e) => assert false;
      case Minus(e) => assert false;
      case Infix(o, l, r) =>
        InfixCut(d);
        j := ChainCut(units, op, |Yield(l)|);
    }
  }

  // ----- what the printed forms mean -----

  lemma WrapMeans(ts: seq<Token>, v: Value, I: Interp, d: Reading)
    requires Level(ts) && ts != [] && Proper(d) && Yield(d) == ts
    requires forall e :: Proper(e) && Yield(e) == ts ==> ValueOf(e, I) == v
    ensures Means(Wrap(ts), v, I)
  {
    WrapUnit(ts);
    assert Proper(Group(d)) && Yield(Group(d)) == Wrap(ts);
    forall e | Proper(e) && Yield(e) == Wrap(ts) ensures ValueOf(e, I) == v {
      UnitIsGroup(e, ts);
    }
  }

  lemma PairIsInfix(a: seq<Token>, op: Operator, b: seq<Token>, d: Reading)
    requires Unit(a) && Unit(b) && Proper(d) && Yield(d) == Infixed(a, op, b)
    ensures d.Infix? && d.op == op && Yield(d.left) == a && Yield(d.right) == b
  {
    var units := [a, b];
    assert units[1..] == [b] && units[..1] == [a];
    var j := ChainIsInfix(units, op, d);
  }

  lemma InfixMeans(a: seq<Token>, u: Value, op: Operator, b: seq<Token>, v: Value, I: Interp)
    requires Means(a, u, I) && Means(b, v, I) && IsInfix(op)
    ensures Means(Wrap(Infixed(a, op, b)), InfixValue(op, u, v, I), I)
  {
    UnitLevel(a);
    UnitLevel(b);
    LevelInfixed(a, op, b);
    var d :| Proper(d) && Yield(d) == a;
    var e :| Proper(e) && Yield(e) == b;
    forall g | Proper(g) && Yield(g) == Infixed(a, op, b) ensures ValueOf(g, I) == InfixValue(op, u, v, I) {
      PairIsInfix(a, op, b, g);
    }
    WrapMeans(Infixed(a, op, b), InfixValue(op, u, v, I), I, Infix(op, d, e));
  }

  lemma NotMeans(a: seq<Token>, u: Value, I: Interp)
    requires Means(a, u, I)
    ensures Means(Wrap([Sign(Not)] + a), Bool(!Truth(u)), I)
  {
    var ts := [Sign(Not)] + a;
    UnitLevel(a);
    LevelSign(Not);
    LevelConcat([Sign(Not)], a);
    var d :| Proper(d) && Yield(d) == a;
    forall g | Proper(g) && Yield(g) == ts ensures ValueOf(g, I) == Bool(!Truth(u)) {
      NotIsOpposite(a, g);
    }
    WrapMeans(ts, Bool(!Truth(u)), I, Opposite(d));
  }

  lemma NotIsOpposite(a: seq<Token>, g: Reading)
    requires Unit(a) && Proper(g) && Yield(g) == [Sign(Not)] + a
    ensures g.Opposite? && Yield(g.arg) == a
  {
    var ts := [Sign(Not)] + a;
    if g.Infix? {
      InfixCut(g);
      var p := |Yield(g.left)|;
      PrefixOfConcat([Sign(Not)], a, p);
      DepthOne(Sign(Not));
    } else {
      assert ts[0] == Sign(Not) && ts[1..] == a;
    }
  }

  ghost predicate AllMean(units: seq<seq<Token>>, bs: seq<bool>, I: Interp) {
    |units| == |bs| && forall i :: 0 <= i < |units| ==> Means(units[i], Bool(bs[i]), I)
  }

  ghost predicate Some(bs: seq<bool>) { exists i :: 0 <= i < |bs| && bs[i] }

  lemma SomeSplit(bs: seq<bool>, j: nat)
    requires j <= |bs|
    ensures Some(bs) == (Some(bs[..j]) || Some(bs[j..]))
  {
    if Some(bs) {
      var i :| 0 <= i < |bs| && bs[i];
      if i < j { assert bs[..j][i]; } else { assert bs[j..][i - j]; }
    }
  }

  /** A chain of OR, read in any way, is true if some operand is. */
  lemma {:induction false} OrChain(units: seq<seq<Token>>, bs: seq<bool>, I: Interp, d: Reading)
    requires units != [] && AllMean(units, bs, I) && Proper(d) && Yield(d) == Chain(units, Or)
    ensures ValueOf(d, I) == Bool(Some(bs))
    decreases |units|
  {
    if |units| == 1 {
      assert Some(bs) == bs[0];
    } else {
      AllMeanUnits(units, bs, I);
      var j := ChainIsInfix(units, Or, d);
      AllMeanSplit(units, bs, I, j);
      OrChain(units[..j], bs[..j], I, d.left);
      OrChain(units[j..], bs[j..], I, d.right);
      SomeSplit(bs, j);
    }
  }

  lemma AllMeanUnits(units: seq<seq<Token>>, bs: seq<bool>, I: Interp)
    requires AllMean(units, bs, I)
    ensures Units(units)
  {
    forall i | 0 <= i < |units| ensures Unit(units[i]) {
      assert Means(units[i], Bool(bs[i]), I);
    }
  }

  lemma AllMeanSplit(units: seq<seq<Token>>, bs: seq<bool>, I: Interp, j: nat)
    requires AllMean(units, bs, I) && j <= |units|
    ensures AllMean(units[..j], bs[..j], I) && AllMean(units[j..], bs[j..], I)
  {
    forall i | 0 <= i < |units| - j ensures Means(units[j..][i], Bool(bs[j..][i]), I) {
      var m := j + i;
      assert Means(units[m], Bool(bs[m]), I);
    }
  }

  lemma {:induction false} ChainReadable(units: seq<seq<Token>>, bs: seq<bool>, I: Interp) returns (d: Reading)
    requires units != [] && AllMean(units, bs, I)
    ensures Proper(d) && Yield(d) == Chain(units, Or)
    decreases |units|
  {
    assert Means(units[0], Bool(bs[0]), I);
    d :| Proper(d) && Yield(d) == units[0];
    if |units| > 1 {
      var rest := ChainReadable(units[1..], bs[1..], I);
      d := Infix(Or, d, rest);
    }
  }

  lemma ChainMeans(units: seq<seq<Token>>, bs: seq<bool>, I: Interp)
    requires units != [] && AllMean(units, bs, I)
    ensures Means(Wrap(Chain(units, Or)), Bool(Some(bs)), I)
  {
    ChainLevel(units, Or);
    var d := ChainReadable(units, bs, I);
    forall e | Proper(e) && Yield(e) == Chain(units, Or) ensures ValueOf(e, I) == Bool(Some(bs)) {
      OrChain(units, bs, I, e);
    }
    WrapMeans(Chain(units, Or), Bool(Some(bs)), I, d);
  }

  /** The printed equations of an IN, in the order of its list. */
  function Equations(a: seq<Token>, list: seq<seq<Token>>): (units: seq<seq<Token>>)
    ensures |units| == |list|
  {
    seq(|list|, i requires 0 <= i < |list| => Wrap(Infixed(a, Eq, list[i])))
  }

  predicate AllOk(parts: seq<Result<seq<Token>>>) { forall i :: 0 <= i < |parts| ==> parts[i].Ok? }

  function Texts(parts: seq<Result<seq<Token>>>): (r: seq<seq<Token>>)
    requires AllOk(parts)
    ensures |r| == |parts|
  {
    seq(|parts|, i requires 0 <= i < |parts| => parts[i].value)
  }

  lemma {:induction false} PrintListChain(a: Result<seq<Token>>, list: seq<Result<seq<Token>>>)
    requires list != []
    ensures PrintList(a, list).Ok? <==> a.Ok? && AllOk(list)
    ensures a.Ok? && AllOk(list) ==> PrintList(a, list).value == Chain(Equations(a.value, Texts(list)), Or)
    decreases |list|
  {
    if |list| > 1 {
      PrintListChain(a, list[1..]);
      if a.Ok? && AllOk(list) {
        assert Texts(list)[1..] == Texts(list[1..]);
        assert Equations(a.value, Texts(list))[1..] == Equations(a.value, Texts(list[1..]));
      }
    }
  }

  // ----- the printer is right -----

  lemma InMeans(a: seq<Token>, u: Value, list: seq<seq<Token>>, vs: seq<Value>, I: Interp)
    requires Means(a, u, I) && list != [] && |vs| == |list| && forall i :: 0 <= i < |list| ==> Means(list[i], vs[i], I)
    ensures Means(Wrap(Chain(Equations(a, list), Or)), Bool(Among(u, vs, I)), I)
  {
    var bs := seq(|vs|, i requires 0 <= i < |vs| => I.compare(Eq, [u, vs[i]]));
    forall i | 0 <= i < |list| ensures Means(Equations(a, list)[i], Bool(bs[i]), I) {
      InfixMeans(a, u, Eq, list[i], vs[i], I);
    }
    ChainMeans(Equations(a, list), bs, I);
    SomeAmong(u, vs, bs, I);
  }

  lemma SomeAmong(u: Value, vs: seq<Value>, bs: seq<bool>, I: Interp)
    requires |bs| == |vs| && forall i :: 0 <= i < |vs| ==> bs[i] == I.compare(Eq, [u, vs[i]])
    ensures Some(bs) <==> Among(u, vs, I)
  {
    if Some(bs) {
      var i :| 0 <= i < |bs| && bs[i];
      assert I.compare(Eq, [u, vs[i]]);
    }
    if Among(u, vs, I) {
      var i :| 0 <= i < |vs| && I.compare(Eq, [u, vs[i]]);
      assert bs[i];
    }
  }

  lemma BetweenMeans(a: seq<Token>, u: Value, b: seq<Token>, v: Value, c: seq<Token>, w: Value, I: Interp)
    requires Means(a, u, I) && Means(b, v, I) && Means(c, w, I)
    ensures Means(Wrap(Infixed(Wrap(Infixed(a, Ge, b)), And, Wrap(Infixed(a, Le, c)))),
                  Bool(I.compare(Ge, [u, v]) && I.compare(Le, [u, w])), I)
  {
    InfixMeans(a, u, Ge, b, v, I);
    InfixMeans(a, u, Le, c, w, I);
    InfixMeans(Wrap(Infixed(a, Ge, b)), Bool(I.compare(Ge, [u, v])), And,
               Wrap(Infixed(a, Le, c)), Bool(I.compare(Le, [u, w])), I);
  }

  lemma ListMeans(parts: seq<Result<seq<Token>>>, vs: seq<Value>, I: Interp)
    requires |parts| == |vs| >= 2 && PrintList(parts[0], parts[1..]).Ok?
    requires forall i :: 0 <= i < |parts| && parts[i].Ok? ==> Means(parts[i].value, vs[i], I)
    ensures Means(Wrap(PrintList(parts[0], parts[1..]).value), Bool(Among(vs[0], vs[1..], I)), I)
  {
    var list := parts[1..];
    PrintListChain(parts[0], list);
    forall i | 0 <= i < |list| ensures Means(Texts(list)[i], vs[1..][i], I) {
      assert list[i] == parts[i + 1] && vs[1..][i] == vs[i + 1];
    }
    InMeans(parts[0].value, vs[0], Texts(list), vs[1..], I);
  }

  lemma PairMeans(op: Operator, a: seq<Token>, u: Value, b: seq<Token>, v: Value, I: Interp)
    requires Means(a, u, I) && Means(b, v, I) && IsInfix(op)
    ensures Means(Wrap(Infixed(a, op, b)), Combine(op, [u, v], I), I)
  {
    InfixMeans(a, u, op, b, v, I);
    PairTruth(u, v);
  }

  lemma OperationMeans(op: Operator, parts: seq<Result<seq<Token>>>, vs: seq<Value>, I: Interp)
    requires Arity(op, |parts|) && op != IsNull && (IsAndOr(op) ==> |parts| == 2) && |vs| == |parts|
    requires forall i :: 0 <= i < |parts| && parts[i].Ok? ==> Means(parts[i].value, vs[i], I)
    requires PrintOperation(op, parts).Ok?
    ensures Means(PrintOperation(op, parts).value, Combine(op, vs, I), I)
  {
    if op == In {
      ListMeans(parts, vs, I);
    } else if op == Not {
      NotMeans(parts[0].value, vs[0], I);
    } else if op == Between {
      BetweenMeans(parts[0].value, vs[0], parts[1].value, vs[1], parts[2].value, vs[2], I);
    } else {
      assert parts[0].Ok? && parts[1].Ok? && vs == [vs[0], vs[1]];
      PairMeans(op, parts[0].value, vs[0], parts[1].value, vs[1], I);
    }
  }

  function PrintAll(ts: seq<Tree>, items: seq<string>): (r: seq<Result<seq<Token>>>)
    requires AllBinary(ts)
    ensures |r| == |ts|
  {
    seq(|ts|, i requires 0 <= i < |ts| => ToMapServerFilter(ts[i], items))
  }

  lemma PrintedOperation(t: Tree, items: seq<string>)
    requires Binary(t) && t.Operation? && t.op != IsNull
    ensures ToMapServerFilter(t, items) == PrintOperation(t.op, PrintAll(t.kids, items))
  {
    assert PrintAll(t.kids, items) ==
           seq(|t.kids|, i requires 0 <= i < |t.kids| => ToMapServerFilter(t.kids[i], items));
  }

  /** However the printed tokens are read, they have the value of the filter. */
  lemma {:induction false} FilterMeans(t: Tree, items: seq<string>, I: Interp)
    requires Binary(t) && ToMapServerFilter(t, items).Ok?
    ensures Means(ToMapServerFilter(t, items).value, Eval(t, I), I)
    decreases t
  {
    match t {
      case Leaf(c) => AtomMeans(Lit(ConstantValue(c)), I);
      case Column(name) => AtomMeans(Field(name), I);
      case Operation(op, kids) =>
        PrintedOperation(t, items);
        var parts := PrintAll(kids, items);
        forall i | 0 <= i < |kids| && parts[i].Ok? ensures Means(parts[i].value, EvalAll(kids, I)[i], I) {
          FilterMeans(kids[i], items, I);
        }
        EvalOperation(op, kids, I);
        OperationMeans(op, parts, EvalAll(kids, I), I);
    }
  }

  // ----- the problems -----

  /** What cannot be printed, from left to right. */
  function Problems(t: Tree, items: seq<string>): seq<Problem>
    decreases t, 0
  {
    match t
    case Leaf(_) => []
    case Column(name) => if name in items then [] else [NotQueryable(name)]
    case Operation(op, kids) => if op == IsNull then [NullTest] else AllProblems(kids, items)
  }

  function AllProblems(ts: seq<Tree>, items: seq<string>): seq<Problem>
    decreases ts, 1
  {
    if ts == [] then [] else Problems(ts[0], items) + AllProblems(ts[1..], items)
  }

  /** The outcome of printing, given the problems of what is printed. */
  predicate Reports(r: Result<seq<Token>>, ps: seq<Problem>) {
    if ps == [] then r.Ok? else r == Err(ps[0])
  }

  ghost predicate AllReport(parts: seq<Result<seq<Token>>>, ts: seq<Tree>, items: seq<string>) {
    |parts| == |ts| && forall i :: 0 <= i < |ts| ==> Reports(parts[i], Problems(ts[i], items))
  }

  lemma {:induction false} ListReports(a: Result<seq<Token>>, ps: seq<Problem>, parts: seq<Result<seq<Token>>>,
                                       ts: seq<Tree>, items: seq<string>)
    requires Reports(a, ps) && ts != [] && AllReport(parts, ts, items)
    ensures Reports(PrintList(a, parts), ps + AllProblems(ts, items))
    decreases |ts|
  {
    if |ts| > 1 {
      ListReports(a, ps, parts[1..], ts[1..], items);
    } else {
      assert AllProblems(ts[1..], items) == [];
    }
  }

  lemma TwoProblems(ts: seq<Tree>, items: seq<string>)
    requires |ts| == 2
    ensures AllProblems(ts, items) == Problems(ts[0], items) + Problems(ts[1], items)
  {
    assert ts[1..][1..] == [];
    assert AllProblems(ts[1..], items) == Problems(ts[1], items) + AllProblems(ts[1..][1..], items);
  }

  lemma OperationReports(op: Operator, parts: seq<Result<seq<Token>>>, ts: seq<Tree>, items: seq<string>)
    requires Arity(op, |ts|) && op != IsNull && (IsAndOr(op) ==> |ts| == 2) && AllReport(parts, ts, items)
    ensures Reports(PrintOperation(op, parts), AllProblems(ts, items))
  {
    if op == Not {
      assert AllProblems(ts[1..], items) == [];
    } else if op == In {
      ListReports(parts[0], Problems(ts[0], items), parts[1..], ts[1..], items);
    } else if op == Between {
      TwoProblems(ts[1..], items);
      BetweenReports(parts, Problems(ts[0], items), Problems(ts[1], items), Problems(ts[2], items));
    } else {
      TwoProblems(ts, items);
      InfixReports(parts[0], op, parts[1], Problems(ts[0], items), Problems(ts[1], items));
    }
  }

  lemma InfixReports(a: Result<seq<Token>>, op: Operator, b: Result<seq<Token>>, ps: seq<Problem>, qs: seq<Problem>)
    requires Reports(a, ps) && Reports(b, qs)
    ensures Reports(PrintInfix(a, op, b), ps + qs)
  {
  }

  lemma BetweenReports(parts: seq<Result<seq<Token>>>, ps: seq<Problem>, qs: seq<Problem>, rs: seq<Problem>)
    requires |parts| == 3 && Reports(parts[0], ps) && Reports(parts[1], qs) && Reports(parts[2], rs)
    ensures Reports(PrintOperation(Between, parts), ps + (qs + rs))
  {
    InfixReports(parts[0], Ge, parts[1], ps, qs);
    InfixReports(parts[0], Le, parts[2], ps, rs);
  }

  /** Printing fails exactly if there is a problem, and reports the first. */
  lemma {:induction false} FirstProblem(t: Tree, items: seq<string>)
    requires Binary(t)
    ensures Reports(ToMapServerFilter(t, items), Problems(t, items))
    decreases t
  {
    if t.Operation? && t.op != IsNull {
      PrintedOperation(t, items);
      forall i | 0 <= i < |t.kids| ensures Reports(PrintAll(t.kids, items)[i], Problems(t.kids[i], items)) {
        FirstProblem(t.kids[i], items);
      }
      OperationReports(t.op, PrintAll(t.kids, items), t.kids, items);
    }
  }
}
