/**
 The filter compiler end to end: the parser's actions build nodes, the nodes are
 rebalanced in place and printed, and the printed tokens mean what was written.
 */
module CqlCompile {
  import opened CqlTree
  import opened CqlStore
  import opened CqlActions
  import opened CqlParse
  import opened CqlPrint

  // ----- goals to start from -----

  ghost predicate HasTree(nodes: Nodes, x: Ref) { exists t :: Represents(nodes, x, t) }

  ghost function TreeAt(nodes: Nodes, x: Ref): (t: Tree)
    requires HasTree(nodes, x)
    ensures Represents(nodes, x, t)
  {
    var t :| Represents(nodes, x, t); t
  }

  /** Every node is to become the balanced form of its tree. */
  ghost function InitialGoals(nodes: Nodes): Goals {
    map x | x in nodes && HasTree(nodes, x) :: Balanced(TreeAt(nodes, x))
  }

  lemma {:induction false} PairUpNarrow(op: Operator, ts: seq<Tree>)
    requires forall i :: 0 <= i < |ts| ==> Narrow(ts[i])
    ensures forall i :: 0 <= i < |PairUp(op, ts)| ==> Narrow(PairUp(op, ts)[i])
    decreases |ts|
  {
    if |ts| >= 2 {
      PairUpNarrow(op, ts[2..]);
      assert Narrow(Operation(op, [ts[0], ts[1]]));
    }
  }

  lemma {:induction false} ShrinkNarrow(op: Operator, ts: seq<Tree>)
    requires forall i :: 0 <= i < |ts| ==> Narrow(ts[i])
    ensures forall i :: 0 <= i < |Shrink(op, ts)| ==> Narrow(Shrink(op, ts)[i])
    decreases |ts|
  {
    if |ts| > 2 {
      PairUpNarrow(op, ts);
      ShrinkNarrow(op, PairUp(op, ts));
    }
  }

  lemma {:induction false} BalancedNarrow(t: Tree)
    ensures Narrow(Balanced(t))
    decreases t
  {
    if t.Operation? {
      forall i | 0 <= i < |t.kids| ensures Narrow(BalancedAll(t.kids)[i]) {
        BalancedNarrow(t.kids[i]);
      }
      BalancedOperation(t.op, t.kids);
      ShrinkNarrow(t.op, BalancedAll(t.kids));
    }
  }

  lemma GoalFollows(nodes: Nodes, x: Ref)
    requires x in nodes && HasTree(nodes, x)
    ensures Follows(nodes[x], InitialGoals(nodes), InitialGoals(nodes)[x])
  {
    var t, goal := TreeAt(nodes, x), InitialGoals(nodes);
    if t.Operation? {
      var kids := nodes[x].kids;
      forall i | 0 <= i < |kids| ensures kids[i] in goal && goal[kids[i]] == Balanced(t.kids[i]) {
        assert Represents(nodes, kids[i], t.kids[i]);
        OneTree(nodes, kids[i], TreeAt(nodes, kids[i]), t.kids[i]);
      }
      assert GoalsOf(goal, kids) == BalancedAll(t.kids);
      BalancedOperation(t.op, t.kids);
    }
  }

  lemma InitialCoherent(nodes: Nodes)
    ensures Coherent(nodes, InitialGoals(nodes))
  {
    var goal := InitialGoals(nodes);
    forall x | x in goal ensures Follows(nodes[x], goal, goal[x]) && Narrow(goal[x]) {
      GoalFollows(nodes, x);
      BalancedNarrow(TreeAt(nodes, x));
    }
  }

  /** Rebalances the expression at root in place. */
  method Rebalance(store: Store, root: Ref, ghost t: Tree)
    requires store.Valid() && Represents(store.nodes, root, t)
    modifies store
    ensures store.Valid() && Represents(store.nodes, root, Balanced(t))
  {
    ghost var goal := InitialGoals(store.nodes);
    InitialCoherent(store.nodes);
    assert HasTree(store.nodes, root);
    OneTree(store.nodes, root, TreeAt(store.nodes, root), t);
    ghost var more := store.RebalanceAndOr(root, goal);
    assert [root][0] == root;
  }

  /** Parses: the actions build the nodes, then the tree is rebalanced. */
  method Parse(store: Store, s: Syntax) returns (root: Ref)
    requires store.Valid() && Grammatical(s)
    modifies store
    ensures store.Valid() && Represents(store.nodes, root, Balanced(TreeOf(s)))
  {
    ghost var home;
    root, home := Build(store, s);
    LivesRepresents(store.nodes, root, TreeOf(s), home);
    Rebalance(store, root, TreeOf(s));
  }

  /** Prints the expression at r. */
  method PrintNode(store: Store, r: Ref, items: seq<string>, ghost t: Tree) returns (res: Result<seq<Token>>)
    requires Represents(store.nodes, r, t) && Binary(t)
    ensures res == ToMapServerFilter(t, items)
    decreases t
  {
    var cell := store.nodes[r];
    match cell.kind
    case Literal(c) => return Ok([Lit(ConstantValue(c))]);
    case Name(name) => return if name in items then Ok([Field(name)]) else Err(NotQueryable(name));
    case Does(op) =>
      if op == IsNull { return Err(NullTest); }
      var parts: seq<Result<seq<Token>>> := [];
      for i := 0 to |cell.kids|
        invariant parts == PrintAll(t.kids, items)[..i]
      {
        var part := PrintNode(store, cell.kids[i], items, t.kids[i]);
        parts := parts + [part];
      }
      assert PrintAll(t.kids, items)[..|t.kids|] == PrintAll(t.kids, items);
      PrintedOperation(t, items);
      return PrintOperation(op, parts);
  }

  /** From a filter to its MapServer expression, which has the value of the filter however it
      is read, for all values of the columns and all meanings of the operators. */
  method Compile(s: Syntax, items: seq<string>) returns (res: Result<seq<Token>>)
    requires Grammatical(s)
    ensures Binary(Balanced(TreeOf(s))) && res == ToMapServerFilter(Balanced(TreeOf(s)), items)
    ensures Reports(res, Problems(Balanced(TreeOf(s)), items))
    ensures res.Ok? ==> forall I: Interp :: Means(res.value, Meaning(s, I), I)
  {
    TreeShaped(s);
    BalancedBinary(TreeOf(s));
    var store := new Store();
    var root := Parse(store, s);
    res := PrintNode(store, root, items, Balanced(TreeOf(s)));
    FirstProblem(Balanced(TreeOf(s)), items);
    forall I: Interp | res.Ok? ensures Means(res.value, Meaning(s, I), I) {
      CompiledMeaning(s, items, I);
    }
  }

  /** However the compiled filter is read, it has the value of the filter that was written;
      compiling fails exactly if some item is not queryable or there is a test for null. */
  lemma CompiledMeaning(s: Syntax, items: seq<string>, I: Interp)
    requires Grammatical(s)
    ensures var t := Balanced(TreeOf(s));
            && Binary(t) && Reports(ToMapServerFilter(t, items), Problems(t, items))
            && (ToMapServerFilter(t, items).Ok? ==> Means(ToMapServerFilter(t, items).value, Meaning(s, I), I))
  {
    var t := Balanced(TreeOf(s));
    TreeShaped(s);
    BalancedBinary(TreeOf(s));
    FirstProblem(t, items);
    TreeMeaning(s, I);
    BalancedMeaning(TreeOf(s), I);
    if ToMapServerFilter(t, items).Ok? { FilterMeans(t, items, I); }
  }

  // ----- constants -----

  /** Numbers and texts are printed as themselves, true as 1 and false as 0. */
  lemma PrintedConstants(n: int, r: real, text: string, items: seq<string>)
    ensures ToMapServerFilter(Leaf(Whole(n)), items) == Ok([Lit(Number(n as real))])
    ensures ToMapServerFilter(Leaf(Fraction(r)), items) == Ok([Lit(Number(r))])
    ensures ToMapServerFilter(Leaf(Quoted(text)), items) == Ok([Lit(Text(text))])
    ensures ToMapServerFilter(Leaf(Boolean(true)), items) == Ok([Lit(Number(1.0))])
    ensures ToMapServerFilter(Leaf(Boolean(false)), items) == Ok([Lit(Number(0.0))])
  {
  }

  /** The filter that is a truth value selects everything or nothing, however it is read. */
  lemma TruthConstant(b: bool, items: seq<string>, I: Interp, d: Reading)
    requires Proper(d) && Ok(Yield(d)) == ToMapServerFilter(Balanced(TreeOf(Plain(Boolean(b)))), items)
    ensures Truth(ValueOf(d, I)) <==> b
  {
    CompiledMeaning(Plain(Boolean(b)), items, I);
  }
}
