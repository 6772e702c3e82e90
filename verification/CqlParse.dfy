/**
 The text parser's grammar as data, the trees its actions build, and what they mean.
 */
module CqlParse {
  import opened CqlTree
  import opened CqlStore
  import opened CqlActions

  /** A filter as the grammar sees it. Lists are in source order. */
  datatype Syntax =
    | Plain(constant: Constant)
    | Item(name: string)
    | Both(left: Syntax, right: Syntax)
    | Either(left: Syntax, right: Syntax)
    | Negation(arg: Syntax)
    | Dyadic(op: Operator, left: Syntax, right: Syntax)
    | OneOf(arg: Syntax, list: seq<Syntax>, negated: bool)
    | Range(arg: Syntax, low: Syntax, high: Syntax, negated: bool)
    | Null(arg: Syntax, negated: bool)

  predicate IsDyadic(op: Operator) {
    op in {Eq, Ne, Ge, Le, Lt, Gt, Add, Subtract, Multiply, Divide, Modulo}
  }

  /** What the grammar admits: comparisons and arithmetic take two operands, a list is not empty. */
  predicate Grammatical(s: Syntax)
    decreases s
  {
    match s
    case Plain(_) => true
    case Item(_) => true
    case Both(l, r) => Grammatical(l) && Grammatical(r)
    case Either(l, r) => Grammatical(l) && Grammatical(r)
    case Negation(e) => Grammatical(e)
    case Dyadic(op, l, r) => IsDyadic(op) && Grammatical(l) && Grammatical(r)
    case OneOf(e, list, _) => Grammatical(e) && list != [] && forall i :: 0 <= i < |list| ==> Grammatical(list[i])
    case Range(e, lo, hi, _) => Grammatical(e) && Grammatical(lo) && Grammatical(hi)
    case Null(e, _) => Grammatical(e)
  }

  /** The value of a filter, read off the grammar. */
  ghost function Meaning(s: Syntax, I: Interp): Value
    decreases s
  {
    match s
    case Plain(Whole(n)) => Number(n as real)
    case Plain(Fraction(x)) => Number(x)
    case Plain(Quoted(text)) => Text(text)
    case Plain(Boolean(b)) => if b then Number(1.0) else Number(0.0)
    case Item(name) => I.column(name)
    case Both(l, r) => Bool(Truth(Meaning(l, I)) && Truth(Meaning(r, I)))
    case Either(l, r) => Bool(Truth(Meaning(l, I)) || Truth(Meaning(r, I)))
    case Negation(e) => Bool(!Truth(Meaning(e, I)))
    case Dyadic(op, l, r) =>
      var vs := [Meaning(l, I), Meaning(r, I)];
      if IsComparison(op) then Bool(I.compare(op, vs)) else I.compute(op, vs)
    case OneOf(e, list, negated) =>
      Bool(negated != exists i :: 0 <= i < |list| && I.compare(Eq, [Meaning(e, I), Meaning(list[i], I)]))
    case Range(e, lo, hi, negated) =>
      Bool(negated != (&& I.compare(Ge, [Meaning(e, I), Meaning(lo, I)])
                       && I.compare(Le, [Meaning(e, I), Meaning(hi, I)])))
    case Null(e, negated) =>
      Bool(negated != I.compare(IsNull, [Meaning(e, I)]))
  }

  function Negate(t: Tree, negated: bool): Tree {
    if negated then Operation(Not, [t]) else t
  }

  /** The tree the parser's actions make. */
  function TreeOf(s: Syntax): Tree
    decreases s
  {
    match s
    case Plain(c) => Leaf(c)
    case Item(name) => Column(name)
    case Both(l, r) => Flatten(And, TreeOf(l), TreeOf(r))
    case Either(l, r) => Flatten(Or, TreeOf(l), TreeOf(r))
    case Negation(e) => Operation(Not, [TreeOf(e)])
    case Dyadic(op, l, r) => Operation(op, [TreeOf(l), TreeOf(r)])
    case OneOf(e, list, negated) =>
      Negate(Operation(In, [TreeOf(e)] + seq(|list|, i requires 0 <= i < |list| => TreeOf(list[i]))), negated)
    case Range(e, lo, hi, negated) => Negate(Operation(Between, [TreeOf(e), TreeOf(lo), TreeOf(hi)]), negated)
    case Null(e, negated) => Negate(Operation(IsNull, [TreeOf(e)]), negated)
  }

  function TreesOf(list: seq<Syntax>): (ts: seq<Tree>)
    ensures |ts| == |list|
  {
    seq(|list|, i requires 0 <= i < |list| => TreeOf(list[i]))
  }

  lemma TreeOfOneOf(e: Syntax, list: seq<Syntax>, negated: bool)
    ensures TreeOf(OneOf(e, list, negated)) == Negate(Operation(In, [TreeOf(e)] + TreesOf(list)), negated)
  {
    var s := OneOf(e, list, negated);
    assert seq(|list|, i requires 0 <= i < |list| => TreeOf(s.list[i])) == TreesOf(list);
  }

  // ----- the trees mean what was written -----

  lemma NegateMeaning(t: Tree, negated: bool, I: Interp)
    ensures Eval(Negate(t, negated), I) == if negated then Bool(!Truth(Eval(t, I))) else Eval(t, I)
  {
    EvalOperation(Not, [t], I);
    assert EvalAll([t], I) == [Eval(t, I)];
  }

  lemma AmongMeaning(e: Syntax, list: seq<Syntax>, vs: seq<Value>, I: Interp)
    requires |vs| == |list| && forall i :: 0 <= i < |list| ==> vs[i] == Meaning(list[i], I)
    ensures Among(Meaning(e, I), vs, I) <==>
            exists i :: 0 <= i < |list| && I.compare(Eq, [Meaning(e, I), Meaning(list[i], I)])
  {
  }

  /** The tree of a filter has the value of the filter, under every interpretation. */
  lemma {:induction false} TreeMeaning(s: Syntax, I: Interp)
    requires Grammatical(s)
    ensures Eval(TreeOf(s), I) == Meaning(s, I)
    decreases s
  {
    match s {
      case Plain(c) => ConstantMeaning(c, I);
      case Item(_) =>
      case Both(l, r) =>
        TreeMeaning(l, I);
        TreeMeaning(r, I);
        FlattenMeaning(And, TreeOf(l), TreeOf(r), I);
        PairTruth(Meaning(l, I), Meaning(r, I));
      case Either(l, r) =>
        TreeMeaning(l, I);
        TreeMeaning(r, I);
        FlattenMeaning(Or, TreeOf(l), TreeOf(r), I);
        PairTruth(Meaning(l, I), Meaning(r, I));
      case Negation(e) =>
        TreeMeaning(e, I);
        NegateMeaning(TreeOf(e), true, I);
      case Dyadic(op, l, r) =>
        TreeMeaning(l, I);
        TreeMeaning(r, I);
        DyadicMeaning(op, TreeOf(l), TreeOf(r), I);
      case OneOf(e, list, negated) =>
        TreeMeaning(e, I);
        forall i | 0 <= i < |list| ensures Eval(TreeOf(list[i]), I) == Meaning(list[i], I) {
          TreeMeaning(list[i], I);
        }
        OneOfMeaning(e, list, negated, I);
      case Range(e, lo, hi, negated) =>
        TreeMeaning(e, I);
        TreeMeaning(lo, I);
        TreeMeaning(hi, I);
        RangeMeaning(TreeOf(e), TreeOf(lo), TreeOf(hi), negated, I);
      case Null(e, negated) =>
        TreeMeaning(e, I);
        NullMeaning(TreeOf(e), negated, I);
    }
  }

  lemma ConstantMeaning(c: Constant, I: Interp)
    ensures Eval(Leaf(c), I) == Meaning(Plain(c), I)
  {
    match c {
      case Whole(_) =>
      case Fraction(_) =>
      case Quoted(_) =>
      case Boolean(_) =>
    }
  }

  lemma DyadicMeaning(op: Operator, l: Tree, r: Tree, I: Interp)
    ensures Eval(Operation(op, [l, r]), I) == Combine(op, [Eval(l, I), Eval(r, I)], I)
  {
    EvalOperation(op, [l, r], I);
    assert EvalAll([l, r], I) == [Eval(l, I), Eval(r, I)];
  }

  lemma RangeMeaning(e: Tree, lo: Tree, hi: Tree, negated: bool, I: Interp)
    ensures Eval(Negate(Operation(Between, [e, lo, hi]), negated), I) ==
            Bool(negated != (I.compare(Ge, [Eval(e, I), Eval(lo, I)]) && I.compare(Le, [Eval(e, I), Eval(hi, I)])))
  {
    EvalOperation(Between, [e, lo, hi], I);
    assert EvalAll([e, lo, hi], I) == [Eval(e, I), Eval(lo, I), Eval(hi, I)];
    NegateMeaning(Operation(Between, [e, lo, hi]), negated, I);
  }

  lemma NullMeaning(e: Tree, negated: bool, I: Interp)
    ensures Eval(Negate(Operation(IsNull, [e]), negated), I) == Bool(negated != I.compare(IsNull, [Eval(e, I)]))
  {
    EvalOperation(IsNull, [e], I);
    assert EvalAll([e], I) == [Eval(e, I)];
    NegateMeaning(Operation(IsNull, [e]), negated, I);
  }

  lemma InMeaning(e: Tree, ts: seq<Tree>, negated: bool, I: Interp)
    ensures Eval(Negate(Operation(In, [e] + ts), negated), I) == Bool(negated != Among(Eval(e, I), EvalAll(ts, I), I))
  {
    EvalOperation(In, [e] + ts, I);
    EvalConcat([e], ts, I);
    assert EvalAll([e], I) == [Eval(e, I)];
    NegateMeaning(Operation(In, [e] + ts), negated, I);
  }

  lemma OneOfMeaning(e: Syntax, list: seq<Syntax>, negated: bool, I: Interp)
    requires Eval(TreeOf(e), I) == Meaning(e, I)
    requires forall i :: 0 <= i < |list| ==> Eval(TreeOf(list[i]), I) == Meaning(list[i], I)
    ensures Eval(TreeOf(OneOf(e, list, negated)), I) == Meaning(OneOf(e, list, negated), I)
  {
    TreeOfOneOf(e, list, negated);
    InMeaning(TreeOf(e), TreesOf(list), negated, I);
    AmongMeaning(e, list, EvalAll(TreesOf(list), I), I);
  }

  /** The parser's trees have admissible numbers of operands. */
  lemma {:induction false} TreeShaped(s: Syntax)
    requires Grammatical(s)
    ensures Shaped(TreeOf(s))
    decreases s
  {
    match s {
      case Plain(_) =>
      case Item(_) =>
      case Both(l, r) =>
        TreeShaped(l);
        TreeShaped(r);
        FlattenShaped(And, TreeOf(l), TreeOf(r));
      case Either(l, r) =>
        TreeShaped(l);
        TreeShaped(r);
        FlattenShaped(Or, TreeOf(l), TreeOf(r));
      case Negation(e) => TreeShaped(e);
      case Dyadic(op, l, r) =>
        TreeShaped(l);
        TreeShaped(r);
      case OneOf(e, list, negated) =>
        TreeShaped(e);
        forall i | 0 <= i < |list| ensures Shaped(TreesOf(list)[i]) {
          TreeShaped(list[i]);
        }
        TreeOfOneOf(e, list, negated);
        assert Shaped(Operation(In, [TreeOf(e)] + TreesOf(list)));
      case Range(e, lo, hi, negated) =>
        TreeShaped(e);
        TreeShaped(lo);
        TreeShaped(hi);
        assert Shaped(Operation(Between, [TreeOf(e), TreeOf(lo), TreeOf(hi)]));
      case Null(e, negated) =>
        TreeShaped(e);
        assert Shaped(Operation(IsNull, [TreeOf(e)]));
    }
  }

  // ----- the actions -----

  /** The home consists of references given out since lo. */
  ghost predicate Within(home: set<Ref>, lo: Ref, hi: Ref) {
    forall x :: x in home ==> lo <= x < hi
  }

  /** A new operation node over the given sub-expressions. */
  method Node(store: Store, op: Operator, kids: seq<Ref>, ghost ts: seq<Tree>, ghost room: set<Ref>)
    returns (r: Ref)
    requires store.Valid() && LiveAll(store.nodes, kids, ts, room) && store.next !in room
    modifies store
    ensures store.Valid() && r == old(store.next) && store.next == r + 1
    ensures OnlyWithin(old(store.nodes), store.nodes, {})
    ensures Lives(store.nodes, r, Operation(op, ts), room + {r})
  {
    r := store.Make(Does(op));
    for i := 0 to |kids|
      invariant store.Valid() && store.next == r + 1
      invariant store.nodes == old(store.nodes)[r := Cell(Does(op), kids[..i])]
    {
      store.Push(r, kids[i]);
      assert kids[..i + 1] == kids[..i] + [kids[i]];
    }
    assert kids[..|kids|] == kids;
    LiveOnAll(old(store.nodes), kids, ts, room, store.nodes, room + {r});
  }

  /** A list under construction, last element first. */
  method BuildList(store: Store, list: seq<Syntax>) returns (r: Ref, ghost home: set<Ref>)
    requires store.Valid() && list != [] && forall i :: 0 <= i < |list| ==> Grammatical(list[i])
    modifies store
    ensures store.Valid() && Within(home, old(store.next), store.next)
    ensures OnlyWithin(old(store.nodes), store.nodes, home)
    ensures Lives(store.nodes, r, Operation(ArgumentList, Reversed(TreesOf(list))), home)
    decreases list, 4
  {
    var v, room := Build(store, list[0]);
    ghost var ts := TreesOf(list);
    if |list| == 1 {
      r := Node(store, ArgumentList, [v], [ts[0]], room);
      home := room + {r};
      assert Reversed(ts) == [ts[0]];
    } else {
      ghost var mid := store.nodes;
      r, home := BuildList(store, list[1..]);
      LivesOn(mid, v, ts[0], room, store.nodes, room);
      ghost var rest := Operation(ArgumentList, Reversed(TreesOf(list[1..])));
      PushSubExpression(store, r, v, rest, home, ts[0], room);
      assert Reversed(ts) == rest.kids + [ts[0]];
      home := home + room;
    }
  }

  /** Turns a list into the operation "arg IN (list)". */
  method MakeIn(store: Store, arg: Ref, list: Ref, ghost t: Tree, ghost room: set<Ref>,
                ghost ts: seq<Tree>, ghost home: set<Ref>)
    requires store.Valid() && room !! home
    requires Lives(store.nodes, arg, t, room) && Lives(store.nodes, list, Operation(ArgumentList, Reversed(ts)), home)
    modifies store
    ensures store.Valid() && store.next == old(store.next) && OnlyWithin(old(store.nodes), store.nodes, {list})
    ensures Lives(store.nodes, list, Operation(In, [t] + ts), home + room)
  {
    KidsElsewhere(store.nodes, list, Operation(ArgumentList, Reversed(ts)), home);
    store.nodes := store.nodes[list := store.nodes[list].(kind := Does(In))];
    LiveOnAll(old(store.nodes), old(store.nodes)[list].kids, Reversed(ts), home - {list}, store.nodes, home);
    LivesOn(old(store.nodes), arg, t, room, store.nodes, room);
    PushSubExpression(store, list, arg, Operation(In, Reversed(ts)), home, t, room);
    ReverseSubExpressions(store, list, Operation(In, Reversed(ts) + [t]), home + room);
    assert Reversed(Reversed(ts) + [t]) == [t] + ts;
  }

  /** Adds the NOT of a negated construct. */
  method Negated(store: Store, negated: bool, e: Ref, ghost t: Tree, ghost room: set<Ref>)
    returns (r: Ref, ghost home: set<Ref>)
    requires store.Valid() && Lives(store.nodes, e, t, room) && store.next !in room
    modifies store
    ensures store.Valid() && old(store.next) <= store.next && OnlyWithin(old(store.nodes), store.nodes, {})
    ensures Lives(store.nodes, r, Negate(t, negated), home) && home <= room + {old(store.next)}
    ensures old(store.next) in home ==> old(store.next) < store.next
  {
    r, home := e, room;
    if negated {
      r := Node(store, Not, [e], [t], room);
      home := room + {r};
    }
  }

  /** Two sub-expressions, one after the other. */
  method BuildTwo(store: Store, first: Syntax, second: Syntax, ghost whole: Syntax)
    returns (a: Ref, b: Ref, ghost A: set<Ref>, ghost B: set<Ref>)
    requires first < whole && second < whole && store.Valid() && Grammatical(first) && Grammatical(second)
    modifies store
    ensures store.Valid() && Within(A, old(store.next), store.next) && Within(B, old(store.next), store.next) && A !! B
    ensures OnlyWithin(old(store.nodes), store.nodes, A + B)
    ensures Lives(store.nodes, a, TreeOf(first), A) && Lives(store.nodes, b, TreeOf(second), B)
    decreases whole, 1
  {
    a, A := Build(store, first);
    ghost var mid := store.nodes;
    b, B := Build(store, second);
    LivesOn(mid, a, TreeOf(first), A, store.nodes, A);
  }

  method BuildAndOr(store: Store, op: Operator, l: Syntax, m: Syntax, ghost whole: Syntax)
    returns (r: Ref, ghost home: set<Ref>)
    requires l < whole && m < whole && store.Valid() && Grammatical(l) && Grammatical(m)
    modifies store
    ensures store.Valid() && Within(home, old(store.next), store.next)
    ensures OnlyWithin(old(store.nodes), store.nodes, home)
    ensures Lives(store.nodes, r, Flatten(op, TreeOf(l), TreeOf(m)), home)
    decreases whole, 2
  {
    var a, b, A, B := BuildTwo(store, l, m, whole);
    ghost var mid := store.nodes;
    r := CreateAndOr(store, op, a, b, TreeOf(l), A, TreeOf(m), B);
    home := A + B + {r};
  }

  method BuildDyadic(store: Store, op: Operator, l: Syntax, m: Syntax, ghost whole: Syntax)
    returns (r: Ref, ghost home: set<Ref>)
    requires l < whole && m < whole && store.Valid() && Grammatical(l) && Grammatical(m)
    modifies store
    ensures store.Valid() && Within(home, old(store.next), store.next)
    ensures OnlyWithin(old(store.nodes), store.nodes, home)
    ensures Lives(store.nodes, r, Operation(op, [TreeOf(l), TreeOf(m)]), home)
    decreases whole, 2
  {
    var a, b, A, B := BuildTwo(store, l, m, whole);
    LivesOn(store.nodes, a, TreeOf(l), A, store.nodes, A + B);
    LivesOn(store.nodes, b, TreeOf(m), B, store.nodes, A + B);
    r := Node(store, op, [a, b], [TreeOf(l), TreeOf(m)], A + B);
    home := A + B + {r};
  }

  method BuildBetween(store: Store, e: Syntax, lo: Syntax, hi: Syntax, negated: bool, ghost whole: Syntax)
    returns (r: Ref, ghost home: set<Ref>)
    requires e < whole && lo < whole && hi < whole
    requires store.Valid() && Grammatical(e) && Grammatical(lo) && Grammatical(hi)
    modifies store
    ensures store.Valid() && Within(home, old(store.next), store.next)
    ensures OnlyWithin(old(store.nodes), store.nodes, home)
    ensures Lives(store.nodes, r, Negate(Operation(Between, [TreeOf(e), TreeOf(lo), TreeOf(hi)]), negated), home)
    decreases whole, 2
  {
    var a, b, A, B := BuildTwo(store, e, lo, whole);
    ghost var mid := store.nodes;
    var c, C := Build(store, hi);
    ghost var room := A + B + C;
    LivesOn(mid, a, TreeOf(e), A, store.nodes, room);
    LivesOn(mid, b, TreeOf(lo), B, store.nodes, room);
    LivesOn(store.nodes, c, TreeOf(hi), C, store.nodes, room);
    ghost var ts := [TreeOf(e), TreeOf(lo), TreeOf(hi)];
    var n := Node(store, Between, [a, b, c], ts, room);
    r, home := Negated(store, negated, n, Operation(Between, ts), room + {n});
  }

  method BuildIn(store: Store, e: Syntax, list: seq<Syntax>, negated: bool, ghost whole: Syntax)
    returns (r: Ref, ghost home: set<Ref>)
    requires e < whole && whole.OneOf? && list == whole.list && list != []
    requires store.Valid() && Grammatical(e) && forall i :: 0 <= i < |list| ==> Grammatical(list[i])
    modifies store
    ensures store.Valid() && Within(home, old(store.next), store.next)
    ensures OnlyWithin(old(store.nodes), store.nodes, home)
    ensures Lives(store.nodes, r, Negate(Operation(In, [TreeOf(e)] + TreesOf(list)), negated), home)
    decreases whole, 2
  {
    var a, A := Build(store, e);
    ghost var mid := store.nodes;
    var l, L := BuildList(store, list);
    LivesOn(mid, a, TreeOf(e), A, store.nodes, A);
    MakeIn(store, a, l, TreeOf(e), A, TreesOf(list), L);
    r, home := Negated(store, negated, l, Operation(In, [TreeOf(e)] + TreesOf(list)), L + A);
  }

  method BuildNull(store: Store, e: Syntax, negated: bool, ghost whole: Syntax) returns (r: Ref, ghost home: set<Ref>)
    requires e < whole && store.Valid() && Grammatical(e)
    modifies store
    ensures store.Valid() && Within(home, old(store.next), store.next)
    ensures OnlyWithin(old(store.nodes), store.nodes, home)
    ensures Lives(store.nodes, r, Negate(Operation(IsNull, [TreeOf(e)]), negated), home)
    decreases whole, 2
  {
    var a, A := Build(store, e);
    var n := Node(store, IsNull, [a], [TreeOf(e)], A);
    r, home := Negated(store, negated, n, Operation(IsNull, [TreeOf(e)]), A + {n});
  }

  /** The parser's actions for one construct, after those for its parts. */
  method Build(store: Store, s: Syntax) returns (r: Ref, ghost home: set<Ref>)
    requires store.Valid() && Grammatical(s)
    modifies store
    ensures store.Valid() && Within(home, old(store.next), store.next)
    ensures OnlyWithin(old(store.nodes), store.nodes, home)
    ensures Lives(store.nodes, r, TreeOf(s), home)
    decreases s, 3
  {
    match s
    case Plain(c) =>
      r := store.Make(Literal(c));
      home := {r};
    case Item(name) =>
      r := store.Make(Name(name));
      home := {r};
    case Both(l, m) =>
      r, home := BuildAndOr(store, And, l, m, s);
    case Either(l, m) =>
      r, home := BuildAndOr(store, Or, l, m, s);
    case Negation(e) =>
      var a, A := Build(store, e);
      r := Node(store, Not, [a], [TreeOf(e)], A);
      home := A + {r};
    case Dyadic(op, l, m) =>
      r, home := BuildDyadic(store, op, l, m, s);
    case OneOf(e, list, negated) =>
      TreeOfOneOf(e, list, negated);
      r, home := BuildIn(store, e, list, negated, s);
    case Range(e, lo, hi, negated) =>
      r, home := BuildBetween(store, e, lo, hi, negated, s);
    case Null(e, negated) =>
      r, home := BuildNull(store, e, negated, s);
  }
}
