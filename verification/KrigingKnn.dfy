/**
 The bounded accumulator of the nearest samples seen so far: a sorted pair of arrays
 into which each candidate is inserted by shifting.
 */
module KrigingKnn {
  /** A sample and its squared distance from the query. */
  datatype Entry = Entry(id: nat, d2: real)

  // ----- the accumulator as a value -----

  predicate Ascending(l: seq<Entry>) {
    forall i, j :: 0 <= i < j < |l| ==> l[i].d2 <= l[j].d2
  }

  /** The position at which a candidate at distance d enters: after all that are no farther. */
  function Slot(l: seq<Entry>, d: real): (k: nat)
    ensures k <= |l|
    ensures forall i :: k <= i < |l| ==> l[i].d2 > d
    ensures k > 0 ==> l[k - 1].d2 <= d
  {
    if l == [] then 0
    else if l[|l| - 1].d2 > d then Slot(l[..|l| - 1], d)
    else |l|
  }

  lemma {:induction false} SlotUnique(l: seq<Entry>, d: real, k: nat)
    requires k <= |l| && (forall i :: k <= i < |l| ==> l[i].d2 > d) && (k > 0 ==> l[k - 1].d2 <= d)
    ensures Slot(l, d) == k
  {
  }

  function Spliced(l: seq<Entry>, k: nat, e: Entry): (r: seq<Entry>)
    requires k <= |l|
    ensures |r| == |l| + 1
  {
    seq(|l| + 1, i requires 0 <= i <= |l| => SplicedAt(l, k, e, i))
  }

  function SplicedAt(l: seq<Entry>, k: nat, e: Entry, i: nat): Entry
    requires k <= |l| && i <= |l|
  {
    if i < k then l[i] else if i == k then e else l[i - 1]
  }

  /** The accumulator after a candidate has been offered to it. */
  function Offer(l: seq<Entry>, cap: nat, e: Entry): (r: seq<Entry>) {
    var full := Spliced(l, Slot(l, e.d2), e);
    if |full| <= cap then full else full[..cap]
  }

  ghost function Ids(l: seq<Entry>): set<nat> { set i | 0 <= i < |l| :: l[i].id }

  ghost predicate DistinctIds(l: seq<Entry>) {
    forall i, j :: 0 <= i < j < |l| ==> l[i].id != l[j].id
  }

  /** The list holds the nearest of the samples seen: it is in order, free of repetition
      and as long as possible, and no sample left out is strictly nearer than the last
      (hence than any) of those kept. */
  ghost predicate Nearest(l: seq<Entry>, cap: nat, seen: set<nat>, dist: seq<real>) {
    && (forall s :: s in seen ==> s < |dist|)
    && Ascending(l) && DistinctIds(l)
    && Recorded(l, seen, dist)
    && |l| == (if |seen| <= cap then |seen| else cap)
    && Excludes(l, seen, dist)
  }

  ghost predicate Excludes(l: seq<Entry>, seen: set<nat>, dist: seq<real>)
    requires forall s :: s in seen ==> s < |dist|
  {
    l != [] ==> forall s :: s in seen && s !in Ids(l) ==> dist[s] >= l[|l| - 1].d2
  }

  lemma NearestNone(cap: nat, dist: seq<real>)
    ensures Nearest([], cap, {}, dist)
  {
  }

  lemma {:induction false} IdsSize(l: seq<Entry>)
    requires DistinctIds(l)
    ensures |Ids(l)| == |l|
  {
    if l != [] {
      var n := |l| - 1;
      IdsSize(l[..n]);
      assert Ids(l) == Ids(l[..n]) + {l[n].id};
    } else {
      assert Ids(l) == {};
    }
  }

  /** While there is room, every sample seen is kept. */
  lemma AllKept(l: seq<Entry>, cap: nat, seen: set<nat>, dist: seq<real>)
    requires Nearest(l, cap, seen, dist) && |l| < cap
    ensures Ids(l) == seen
  {
    IdsSize(l);
    assert Ids(l) <= seen;
    SubsetSize(Ids(l), seen);
  }

  lemma SubsetSize(a: set<nat>, b: set<nat>)
    requires a <= b && |a| == |b|
    ensures a == b
  {
    var rest := b - a;
    assert b == a + rest;
  }

  lemma SplicedAscending(l: seq<Entry>, k: nat, e: Entry)
    requires Ascending(l) && k <= |l|
    requires forall i :: k <= i < |l| ==> l[i].d2 > e.d2
    requires k > 0 ==> l[k - 1].d2 <= e.d2
    ensures Ascending(Spliced(l, k, e))
  {
    assert forall i :: 0 <= i < k ==> l[i].d2 <= l[k - 1].d2;
  }

  lemma SplicedIds(l: seq<Entry>, k: nat, e: Entry)
    requires k <= |l| && DistinctIds(l) && e.id !in Ids(l)
    ensures DistinctIds(Spliced(l, k, e)) && Ids(Spliced(l, k, e)) == Ids(l) + {e.id}
  {
    var r := Spliced(l, k, e);
    forall s | s in Ids(l) ensures s in Ids(r) {
      var i :| 0 <= i < |l| && l[i].id == s;
      assert r[if i < k then i else i + 1] == l[i];
    }
    assert r[k] == e;
  }

  /** Every entry records a sample seen, at its distance. */
  ghost predicate Recorded(l: seq<Entry>, seen: set<nat>, dist: seq<real>) {
    forall i :: 0 <= i < |l| ==> l[i].id in seen && l[i].id < |dist| && l[i].d2 == dist[l[i].id]
  }

  lemma SplicedRecorded(l: seq<Entry>, seen: set<nat>, dist: seq<real>, k: nat, e: Entry)
    requires k <= |l| && Recorded(l, seen, dist) && e.id < |dist| && e.d2 == dist[e.id]
    ensures Recorded(Spliced(l, k, e), seen + {e.id}, dist)
  {
  }

  /** Offering a sample not seen before keeps the accumulator the list of the nearest. */
  lemma OfferNearest(l: seq<Entry>, cap: nat, seen: set<nat>, dist: seq<real>, id: nat)
    requires Nearest(l, cap, seen, dist) && id !in seen && id < |dist|
    ensures Nearest(Offer(l, cap, Entry(id, dist[id])), cap, seen + {id}, dist)
  {
    var e := Entry(id, dist[id]);
    var k := Slot(l, e.d2);
    SpliceNearest(l, cap, seen, dist, k, e);
  }

  lemma IdsTake(l: seq<Entry>, c: nat, p: nat)
    requires p < c <= |l|
    ensures l[p].id in Ids(l[..c])
  {
    assert l[..c][p] == l[p];
  }

  lemma TakeKeeps(l: seq<Entry>, c: nat, seen: set<nat>, dist: seq<real>)
    requires Ascending(l) && DistinctIds(l) && Recorded(l, seen, dist) && c <= |l|
    ensures Ascending(l[..c]) && DistinctIds(l[..c]) && Recorded(l[..c], seen, dist)
  {
  }

  lemma SpliceNearest(l: seq<Entry>, cap: nat, seen: set<nat>, dist: seq<real>, k: nat, e: Entry)
    requires Nearest(l, cap, seen, dist) && e.id !in seen && e.id < |dist| && e.d2 == dist[e.id]
    requires k <= |l| && (forall i :: k <= i < |l| ==> l[i].d2 > e.d2) && (k > 0 ==> l[k - 1].d2 <= e.d2)
    ensures var full := Spliced(l, k, e); Nearest(if |full| <= cap then full else full[..cap], cap, seen + {e.id}, dist)
  {
    var full := Spliced(l, k, e);
    SplicedAscending(l, k, e);
    assert e.id !in Ids(l);
    SplicedIds(l, k, e);
    SplicedRecorded(l, seen, dist, k, e);
    assert |seen + {e.id}| == |seen| + 1;
    if |full| <= cap {
      AllKept(l, cap, seen, dist);
    } else {
      TakeKeeps(full, cap, seen + {e.id}, dist);
      SpliceExcludes(l, full, cap, seen, dist, k, e);
    }
  }

  lemma SpliceExcludes(l: seq<Entry>, full: seq<Entry>, cap: nat, seen: set<nat>, dist: seq<real>, k: nat, e: Entry)
    requires (forall s :: s in seen ==> s < |dist|) && e.id < |dist| && Excludes(l, seen, dist)
    requires |l| == cap && k <= cap && full == Spliced(l, k, e) && Ids(full) == Ids(l) + {e.id}
    requires Ascending(full) && Recorded(full, seen + {e.id}, dist)
    ensures Excludes(full[..cap], seen + {e.id}, dist)
  {
    if cap > 0 {
      var last := full[cap - 1];
      assert full[..cap][cap - 1] == last;
      forall s | s in seen + {e.id} && s !in Ids(full[..cap]) ensures dist[s] >= last.d2 {
        if s in Ids(full) {
          LeftOver(full, cap, seen + {e.id}, dist, s);
        } else {
          LastMoves(l, full, cap, k, e);
        }
      }
    }
  }

  /** The entry pushed out of the list is no nearer than the last that stays. */
  lemma LeftOver(full: seq<Entry>, cap: nat, seen: set<nat>, dist: seq<real>, s: nat)
    requires 0 < cap && |full| == cap + 1 && Ascending(full) && Recorded(full, seen, dist)
    requires s in Ids(full) && s !in Ids(full[..cap])
    ensures s < |dist| && dist[s] >= full[cap - 1].d2
  {
    var p :| 0 <= p < |full| && full[p].id == s;
    if p < cap { IdsTake(full, cap, p); }
    assert full[cap - 1].d2 <= full[cap].d2;
  }

  lemma LastMoves(l: seq<Entry>, full: seq<Entry>, cap: nat, k: nat, e: Entry)
    requires |l| == cap > 0 && k <= cap && full == Spliced(l, k, e) && Ascending(full)
    ensures full[cap - 1].d2 <= l[cap - 1].d2
  {
    if k < cap { assert full[cap] == l[cap - 1] && full[cap - 1].d2 <= full[cap].d2; }
  }

  /** The last clause of Nearest in full: nothing left out beats anything kept. */
  lemma NothingNearer(l: seq<Entry>, cap: nat, seen: set<nat>, dist: seq<real>, s: nat, i: nat)
    requires Nearest(l, cap, seen, dist) && s in seen && s !in Ids(l) && i < |l|
    ensures dist[s] >= l[i].d2
  {
    if i < |l| - 1 { assert l[i].d2 <= l[|l| - 1].d2; }
  }

  /** A full list of the nearest among the samples seen is one among all samples, if every
      sample not seen is at least as far as its last entry. */
  lemma NearestOfAll(l: seq<Entry>, cap: nat, seen: set<nat>, all: set<nat>, dist: seq<real>)
    requires Nearest(l, cap, seen, dist) && |l| == cap > 0 && seen <= all
    requires forall s :: s in all ==> s < |dist|
    requires forall s :: s in all && s !in seen ==> dist[s] >= l[cap - 1].d2
    ensures Nearest(l, cap, all, dist)
  {
    var rest := all - seen;
    assert all == seen + rest && |all| == |seen| + |rest|;
  }

  // ----- the accumulator in memory -----

  class Accumulator {
    const idx: array<nat>
    const d2: array<real>
    var count: nat

    ghost predicate Valid()
      reads this
    {
      idx.Length == d2.Length && count <= d2.Length
    }

    ghost function Cap(): nat { d2.Length }

    /** What the arrays hold. */
    ghost function Entries(): (l: seq<Entry>)
      requires Valid()
      reads this, idx, d2
      ensures |l| == count
    {
      seq(count, i requires 0 <= i < count && Valid() reads this, idx, d2 => Entry(idx[i], d2[i]))
    }

    constructor (cap: nat)
      ensures Valid() && fresh(idx) && fresh(d2) && Cap() == cap && count == 0
    {
      idx := new nat[cap];
      d2 := new real[cap];
      count := 0;
    }

    /** Slides the larger entries up one slot until the place is open, then drops it in. */
    method Place(top: nat, id: nat, d: real, ghost l: seq<Entry>)
      requires idx.Length == d2.Length && top < d2.Length && top <= |l|
      requires forall j :: 0 <= j < top ==> idx[j] == l[j].id && d2[j] == l[j].d2
      requires forall j :: top <= j < |l| ==> l[j].d2 > d
      modifies idx, d2
      ensures forall j :: 0 <= j <= top ==> Entry(idx[j], d2[j]) == Spliced(l, Slot(l, d), Entry(id, d))[j]
    {
      var i := top;
      while i > 0 && d2[i - 1] > d
        invariant 0 <= i <= top
        invariant forall j :: 0 <= j < i ==> idx[j] == l[j].id && d2[j] == l[j].d2
        invariant forall j :: i < j <= top ==> idx[j] == l[j - 1].id && d2[j] == l[j - 1].d2
        invariant forall j :: i <= j < |l| ==> l[j].d2 > d
      {
        d2[i] := d2[i - 1];
        idx[i] := idx[i - 1];
        i := i - 1;
      }
      d2[i] := d;
      idx[i] := id;
      SlotUnique(l, d, i);
      assert forall j :: 0 <= j <= top ==> Entry(idx[j], d2[j]) == SplicedAt(l, i, Entry(id, d), j);
    }

    /** Offers a candidate to the accumulator. */
    method Insert(id: nat, d: real)
      requires Valid() && Ascending(Entries()) && Cap() > 0
      modifies this, idx, d2
      ensures Valid() && Entries() == Offer(old(Entries()), Cap(), Entry(id, d))
    {
      ghost var l := Entries();
      ghost var full := Spliced(l, Slot(l, d), Entry(id, d));
      if count < d2.Length {
        count := count + 1;
        Place(count - 1, id, d, l);
        assert Entries() == full;
      } else if d < d2[d2.Length - 1] {
        Place(d2.Length - 1, id, d, l);
        assert Entries() == full[..count];
      } else {
        SlotUnique(l, d, |l|);
        assert full[..count] == l;
      }
    }

    /** The accumulator holds the nearest of the samples seen. Folded: only Consider and
        Contents unfold it. */
    ghost predicate Keeps(seen: set<nat>, dist: seq<real>)
      reads this, idx, d2
    {
      Valid() && Cap() > 0 && forall k: int :: Peek(k) ==> Nearest(Entries(), Cap(), seen, dist)
    }

    /** Takes one more sample into consideration. */
    method Consider(id: nat, d: real, ghost seen: set<nat>, ghost dist: seq<real>)
      requires Keeps(seen, dist) && id !in seen && id < |dist| && d == dist[id]
      modifies this, idx, d2
      ensures Keeps(seen + {id}, dist)
    {
      assert Peek(0);
      OfferNearest(Entries(), Cap(), seen, dist, id);
      Insert(id, d);
    }

    /** Starts over. */
    method Reset(ghost dist: seq<real>)
      requires Valid() && Cap() > 0
      modifies this
      ensures count == 0 && Keeps({}, dist)
    {
      count := 0;
      NearestNone(Cap(), dist);
    }

    lemma Contents(seen: set<nat>, dist: seq<real>)
      requires Keeps(seen, dist)
      ensures Nearest(Entries(), Cap(), seen, dist)
    {
      assert Peek(0);
    }
  }

  ghost predicate Peek(k: int) { true }
}
