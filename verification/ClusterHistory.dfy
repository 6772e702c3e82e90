/**
 The history of a run of the full algorithm, one round for each iteration: which shapes
 were in the tree, what their filters were, and which of them was chosen. It tells which
 cluster every shape ends in, without the statistics kept in memory.
 */
module ClusterHistory {
  import opened ClusterGeometry
  import opened ClusterTree
  import opened ClusterSearch
  import opened ClusterBest
  import opened ClusterRun
  import opened ClusterPlaces

  /** The shapes in the tree, their filters after the scan, and the shape chosen, if any. */
  datatype Round = Round(tree: set<ClusterInfo>, filters: Filters, chosen: ClusterInfo?)

  /** The squared distance of a shape from the mean of its neighbourhood in T, itself
      included, and the reciprocal of how many there are. */
  ghost function RankIn(rel: Relation, s: ClusterInfo, T: set<ClusterInfo>): real {
    var N := Near(rel, s, T);
    if N == {} then 0.0
    else
      var dx, dy := s.site.x - SumOf(N).x / |N| as real, s.site.y - SumOf(N).y / |N| as real;
      dx * dx + dy * dy + 1.0 / |N| as real
  }

  /** A shape on its own, or refused by the filter, has to go. */
  ghost predicate Must(rel: Relation, r: Round, s: ClusterInfo) {
    Near(rel, s, r.tree) == {s} || (s in r.filters && r.filters[s] == 0)
  }

  ghost predicate NoneMust(rel: Relation, r: Round) {
    forall s :: s in r.tree ==> !Must(rel, r, s)
  }

  ghost predicate Eligible(rel: Relation, start: real, r: Round, s: ClusterInfo) {
    Must(rel, r, s) || RankIn(rel, s, r.tree) < start
  }

  /** The choice: some eligible shape if there is one, and the one of least rank unless some
      shape has to go. */
  ghost predicate BestFirst(rel: Relation, start: real, r: Round) {
    if r.chosen == null then forall s :: s in r.tree ==> !Eligible(rel, start, r, s)
    else && r.chosen in r.tree && Eligible(rel, start, r, r.chosen)
         && (NoneMust(rel, r) ==> forall s :: s in r.tree ==> RankIn(rel, r.chosen, r.tree) <= RankIn(rel, s, r.tree))
  }

  /** The filter is evaluated once, with the number of shapes in the region at that moment,
      for the shape chosen and, unless some shape has to go, for all. */
  ghost predicate Judged(rel: Relation, rule: FilterRule, before: Filters, r: Round) {
    && r.filters.Keys == r.tree
    && (forall s :: s in r.tree ==> s in before && (r.filters[s] == before[s] || JudgedNow(rel, rule, before, r, s)))
    && (rule.Filter? && r.chosen in r.tree ==> r.filters[r.chosen] >= 0)
    && (rule.Filter? && NoneMust(rel, r) ==> forall s :: s in r.tree ==> r.filters[s] >= 0)
  }

  ghost predicate JudgedNow(rel: Relation, rule: FilterRule, before: Filters, r: Round, s: ClusterInfo)
    requires s in r.filters
  {
    && rule.Filter? && s in before && before[s] < 0
    && r.filters[s] == if rule.accepts(s.site, |Near(rel, s, r.tree)|) then 1 else 0
  }

  /** What leaves the tree: a refused shape alone, otherwise the region of the one chosen. */
  ghost function Gone(rel: Relation, r: Round): set<ClusterInfo> {
    if r.chosen == null then {} else if Refused(r) then {r.chosen} else Near(rel, r.chosen, r.tree)
  }

  ghost predicate Refused(r: Round) {
    r.chosen in r.filters && r.filters[r.chosen] == 0
  }

  /** The tree and the filters that round k begins with. */
  ghost function TreeAt(rel: Relation, all: set<ClusterInfo>, h: seq<Round>, k: nat): set<ClusterInfo>
    requires k <= |h|
  {
    if k == 0 then all else h[k - 1].tree - Gone(rel, h[k - 1])
  }

  ghost function FiltersAt(all: set<ClusterInfo>, h: seq<Round>, k: nat): Filters
    requires k <= |h|
  {
    if k == 0 then map s | s in all :: -1 else h[k - 1].filters
  }

  ghost predicate Follows(rel: Relation, rule: FilterRule, start: real, all: set<ClusterInfo>, h: seq<Round>, k: nat)
    requires k < |h|
  {
    && h[k].tree == TreeAt(rel, all, h, k)
    && BestFirst(rel, start, h[k])
    && Judged(rel, rule, FiltersAt(all, h, k), h[k])
  }

  /** A history of the shapes all: every round begins with what the one before it left. */
  ghost predicate History(rel: Relation, rule: FilterRule, start: real, all: set<ClusterInfo>, h: seq<Round>) {
    forall k :: 0 <= k < |h| ==> Follows(rel, rule, start, all, h, k)
  }

  /** Where a history leaves every shape. */
  ghost function Outcome(rel: Relation, all: set<ClusterInfo>, h: seq<Round>): Places {
    if h == [] then map s | s in all :: InTree
    else After(rel, Outcome(rel, all, h[..|h| - 1]), h[|h| - 1])
  }

  ghost function After(rel: Relation, places: Places, r: Round): Places {
    if r.chosen == null then places else Settle(places, r.chosen, Refused(r), Gone(rel, r))
  }

  /** One more round. */
  lemma HistoryNext(rel: Relation, rule: FilterRule, start: real, all: set<ClusterInfo>, h: seq<Round>, r: Round)
    requires History(rel, rule, start, all, h)
    requires r.tree == TreeAt(rel, all, h, |h|) && BestFirst(rel, start, r)
    requires Judged(rel, rule, FiltersAt(all, h, |h|), r)
    ensures History(rel, rule, start, all, h + [r])
    ensures TreeAt(rel, all, h + [r], |h| + 1) == r.tree - Gone(rel, r) && FiltersAt(all, h + [r], |h| + 1) == r.filters
    ensures Outcome(rel, all, h + [r]) == After(rel, Outcome(rel, all, h), r)
  {
    assert (h + [r])[..|h|] == h;
    forall k | 0 <= k < |h| + 1 ensures Follows(rel, rule, start, all, h + [r], k) {
      if k < |h| {
        assert Follows(rel, rule, start, all, h, k);
      }
    }
  }

  /** A round that begins with the filters before; mentioning Peek opens it. */
  ghost predicate IsRound(rel: Relation, rule: FilterRule, start: real, before: Filters, r: Round) {
    forall k: int :: Peek(k) ==> BestFirst(rel, start, r) && Judged(rel, rule, before, r)
  }

  /** A history together with what it has led to; it is done when a round chose nothing. */
  ghost predicate Told(rel: Relation, rule: FilterRule, start: real, all: set<ClusterInfo>, h: seq<Round>, done: bool,
                       places: Places, T: set<ClusterInfo>, now: Filters) {
    forall k: int :: Peek(k) ==>
      && History(rel, rule, start, all, h) && Ends(h, done) && places == Outcome(rel, all, h)
      && T == TreeAt(rel, all, h, |h|) && now == FiltersAt(all, h, |h|)
  }

  ghost predicate Ends(h: seq<Round>, done: bool) {
    && (done ==> h != [])
    && forall k :: 0 <= k < |h| ==> (h[k].chosen == null <==> done && k == |h| - 1)
  }

  ghost predicate Peek(k: int) { true }

  lemma ToldNext(rel: Relation, rule: FilterRule, start: real, all: set<ClusterInfo>, h: seq<Round>,
                 places: Places, now: Filters, r: Round)
    requires Told(rel, rule, start, all, h, false, places, r.tree, now) && IsRound(rel, rule, start, now, r)
    ensures Told(rel, rule, start, all, h + [r], r.chosen == null, After(rel, places, r),
                 r.tree - Gone(rel, r), r.filters)
  {
    assert Peek(0);
    HistoryNext(rel, rule, start, all, h, r);
    EndsNext(h, r);
  }

  lemma EndsNext(h: seq<Round>, r: Round)
    requires Ends(h, false)
    ensures Ends(h + [r], r.chosen == null)
  {
  }

  // ----- what the statistics in memory say of a round -----

  lemma MemoryIsExact(t: Tester, s: ClusterInfo, T: set<ClusterInfo>)
    requires t.Sound() && InSync(t.rel, T, T) && s in T
    ensures s.stats.numsiblings >= 0 && s.stats.numsiblings + 1 == |Near(t.rel, s, T)|
    ensures s.stats.numsiblings == 0 <==> Near(t.rel, s, T) == {s}
    ensures RankOf(s.site, s.stats) == RankIn(t.rel, s, T)
  {
    TreeIsExact(t, s, T);
    NoSiblings(s.stats, s);
    var N := Near(t.rel, s, T);
    assert N == (N - {s}) + {s};
  }

  ghost function RoundOf(T: set<ClusterInfo>, chosen: ClusterInfo?): Round
    reads T
  {
    Round(T, FiltersOf(T), chosen)
  }

  lemma MemoryForced(t: Tester, T: set<ClusterInfo>, chosen: ClusterInfo?)
    requires t.Sound() && InSync(t.rel, T, T)
    ensures forall s :: s in T ==> (Forced(s) <==> Must(t.rel, RoundOf(T, chosen), s))
    ensures forall s :: s in T ==> s.stats.numsiblings >= 0 && RankOf(s.site, s.stats) == RankIn(t.rel, s, T)
  {
    forall s | s in T
      ensures Forced(s) <==> Must(t.rel, RoundOf(T, chosen), s)
      ensures s.stats.numsiblings >= 0 && RankOf(s.site, s.stats) == RankIn(t.rel, s, T)
    {
      MemoryIsExact(t, s, T);
    }
  }

  /** The shape that a scan of the whole tree comes up with is the choice of a round. */
  lemma ScanIsRound(t: Tester, rule: FilterRule, start: real, T: set<ClusterInfo>, before: Filters,
                    chosen: ClusterInfo?, rank: real)
    requires t.Sound() && InSync(t.rel, T, T) && Scan(rule, before, T, null, start, chosen, rank)
    ensures IsRound(t.rel, rule, start, before, RoundOf(T, chosen))
  {
    ScanIsBestFirst(t, rule, start, T, before, chosen, rank);
    ScanIsJudged(t, rule, start, T, before, chosen, rank);
  }

  lemma ScanIsBestFirst(t: Tester, rule: FilterRule, start: real, T: set<ClusterInfo>, before: Filters,
                        chosen: ClusterInfo?, rank: real)
    requires t.Sound() && InSync(t.rel, T, T) && Scan(rule, before, T, null, start, chosen, rank)
    ensures BestFirst(t.rel, start, RoundOf(T, chosen))
  {
    assert ClusterBest.Peek(0);
    MemoryForced(t, T, chosen);
  }

  lemma ScanIsJudged(t: Tester, rule: FilterRule, start: real, T: set<ClusterInfo>, before: Filters,
                     chosen: ClusterInfo?, rank: real)
    requires t.Sound() && InSync(t.rel, T, T) && Scan(rule, before, T, null, start, chosen, rank)
    ensures Judged(t.rel, rule, before, RoundOf(T, chosen))
  {
    ScanEvaluated(rule, before, T, null, start, chosen, rank);
    if rule.Filter? { ScanEvaluatesAll(t, rule, start, T, before, chosen, rank); }
    var r := RoundOf(T, chosen);
    forall s | s in T
      ensures s in before && (r.filters[s] == before[s] || JudgedNow(t.rel, rule, before, r, s))
    {
      MemoryJudged(t, rule, T, before, chosen, s);
    }
  }

  lemma ScanEvaluatesAll(t: Tester, rule: FilterRule, start: real, T: set<ClusterInfo>, before: Filters,
                         chosen: ClusterInfo?, rank: real)
    requires t.Sound() && InSync(t.rel, T, T) && Scan(rule, before, T, null, start, chosen, rank) && rule.Filter?
    ensures chosen in T ==> chosen.filter >= 0
    ensures NoneMust(t.rel, RoundOf(T, chosen)) ==> forall s :: s in T ==> s.filter >= 0
  {
    assert ClusterBest.Peek(0);
    MemoryForced(t, T, chosen);
  }

  lemma MemoryJudged(t: Tester, rule: FilterRule, T: set<ClusterInfo>, before: Filters, chosen: ClusterInfo?,
                     s: ClusterInfo)
    requires t.Sound() && InSync(t.rel, T, T) && s in T && Evaluated(rule, s, before)
    ensures s in before && (s.filter == before[s] || JudgedNow(t.rel, rule, before, RoundOf(T, chosen), s))
  {
    MemoryIsExact(t, s, T);
  }

  // ----- shapes of which none can be chosen -----

  ghost predicate NoneEligible(rel: Relation, start: real, T: set<ClusterInfo>) {
    forall s :: s in T ==> Near(rel, s, T) != {s} && RankIn(rel, s, T) >= start
  }

  /** Without a filter, a history of such shapes ends with its first round. */
  lemma NothingChosen(rel: Relation, rule: FilterRule, start: real, all: set<ClusterInfo>, h: seq<Round>)
    requires History(rel, rule, start, all, h) && Ends(h, true) && rule.NoFilter? && NoneEligible(rel, start, all)
    ensures |h| == 1 && TreeAt(rel, all, h, |h|) == all
  {
    assert Follows(rel, rule, start, all, h, 0);
  }

  // ----- what a history says of the filter -----

  /** Shape s was evaluated in round k, and this is what the filter said of it. */
  ghost predicate JudgedIn(rel: Relation, rule: FilterRule, all: set<ClusterInfo>, h: seq<Round>, k: int,
                           s: ClusterInfo, verdict: int)
  {
    && 0 <= k < |h| && s in h[k].tree && s in FiltersAt(all, h, k) && FiltersAt(all, h, k)[s] < 0
    && rule.Filter? && verdict == if rule.accepts(s.site, |Near(rel, s, h[k].tree)|) then 1 else 0
  }

  lemma RoundEvaluates(rel: Relation, rule: FilterRule, start: real, all: set<ClusterInfo>, h: seq<Round>, k: nat,
                       s: ClusterInfo)
    requires History(rel, rule, start, all, h) && k < |h| && s in h[k].filters
    ensures s in FiltersAt(all, h, k)
    ensures h[k].filters[s] == FiltersAt(all, h, k)[s] || JudgedIn(rel, rule, all, h, k, s, h[k].filters[s])
  {
    assert Follows(rel, rule, start, all, h, k);
  }

  /** A filter that is not negative is what the rule said in the round that evaluated it. */
  lemma {:induction false} EvaluatedOnce(rel: Relation, rule: FilterRule, start: real, all: set<ClusterInfo>,
                                         h: seq<Round>, k: nat, s: ClusterInfo, verdict: int)
    requires History(rel, rule, start, all, h) && k <= |h| && s in FiltersAt(all, h, k)
    requires FiltersAt(all, h, k)[s] == verdict >= 0
    ensures exists j :: j < k && JudgedIn(rel, rule, all, h, j, s, verdict)
  {
    var j := k - 1;
    RoundEvaluates(rel, rule, start, all, h, j, s);
    if !JudgedIn(rel, rule, all, h, j, s, verdict) {
      EvaluatedOnce(rel, rule, start, all, h, j, s, verdict);
    }
  }

  /** Centres and rejected shapes are the shapes chosen, and what the filter was then tells
      them apart. */
  ghost predicate ChosenIn(h: seq<Round>, k: int, s: ClusterInfo, place: Place) {
    0 <= k < |h| && h[k].chosen == s && place == if Refused(h[k]) then Rejected else Centre
  }

  lemma {:induction false} OutcomeIsChoice(rel: Relation, all: set<ClusterInfo>, h: seq<Round>, s: ClusterInfo,
                                           place: Place)
    requires s in Outcome(rel, all, h) && Outcome(rel, all, h)[s] == place && (place == Centre || place == Rejected)
    ensures exists k :: ChosenIn(h, k, s, place)
  {
    var n := |h| - 1;
    if h[n].chosen == s {
      assert ChosenIn(h, n, s, place);
    } else {
      OutcomeIsChoice(rel, all, h[..n], s, place);
      var k :| ChosenIn(h[..n], k, s, place);
      assert ChosenIn(h, k, s, place);
    }
  }

  /** With a filter, every centre was accepted and every rejected shape refused, with the
      number of shapes in its region when the filter was evaluated. */
  lemma FilterDecides(rel: Relation, rule: FilterRule, start: real, all: set<ClusterInfo>, h: seq<Round>,
                      s: ClusterInfo)
    requires History(rel, rule, start, all, h) && rule.Filter? && s in Outcome(rel, all, h)
    ensures Outcome(rel, all, h)[s] == Centre ==> exists k :: JudgedIn(rel, rule, all, h, k, s, 1)
    ensures Outcome(rel, all, h)[s] == Rejected ==> exists k :: JudgedIn(rel, rule, all, h, k, s, 0)
  {
    var place := Outcome(rel, all, h)[s];
    if place == Centre || place == Rejected {
      OutcomeIsChoice(rel, all, h, s, place);
      var k :| ChosenIn(h, k, s, place);
      assert Follows(rel, rule, start, all, h, k);
      EvaluatedOnce(rel, rule, start, all, h, k + 1, s, h[k].filters[s]);
    }
  }

  ghost predicate FilterObeyed(rel: Relation, rule: FilterRule, all: set<ClusterInfo>, h: seq<Round>, places: Places) {
    && (forall s :: s in places && places[s] == Centre ==> exists k :: JudgedIn(rel, rule, all, h, k, s, 1))
    && (forall s :: s in places && places[s] == Rejected ==> exists k :: JudgedIn(rel, rule, all, h, k, s, 0))
  }

  lemma AllDecided(rel: Relation, rule: FilterRule, start: real, all: set<ClusterInfo>, h: seq<Round>)
    requires History(rel, rule, start, all, h) && rule.Filter?
    ensures FilterObeyed(rel, rule, all, h, Outcome(rel, all, h))
  {
    forall s | s in Outcome(rel, all, h)
      ensures Outcome(rel, all, h)[s] == Centre ==> exists k :: JudgedIn(rel, rule, all, h, k, s, 1)
      ensures Outcome(rel, all, h)[s] == Rejected ==> exists k :: JudgedIn(rel, rule, all, h, k, s, 0)
    {
      FilterDecides(rel, rule, start, all, h, s);
    }
  }

  /** The history of a whole run, which leaves the shapes at their places and T in the tree;
      mentioning Peek opens it. */
  ghost predicate Complete(rel: Relation, rule: FilterRule, start: real, all: set<ClusterInfo>, h: seq<Round>,
                           places: Places, T: set<ClusterInfo>) {
    forall k: int :: Peek(k) ==>
      && History(rel, rule, start, all, h) && Ends(h, true)
      && places == Outcome(rel, all, h) && T == TreeAt(rel, all, h, |h|)
      && (rule.Filter? ==> FilterObeyed(rel, rule, all, h, places))
  }

  lemma HistoryEnds(rel: Relation, rule: FilterRule, start: real, all: set<ClusterInfo>, h: seq<Round>,
                    places: Places, T: set<ClusterInfo>, now: Filters)
    requires Told(rel, rule, start, all, h, true, places, T, now)
    ensures Complete(rel, rule, start, all, h, places, T)
    ensures rule.NoFilter? && NoneEligible(rel, start, all) ==> T == all
  {
    assert Peek(0);
    if rule.Filter? { AllDecided(rel, rule, start, all, h); }
    if rule.NoFilter? && NoneEligible(rel, start, all) { NothingChosen(rel, rule, start, all, h); }
  }
}
