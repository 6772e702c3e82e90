/**
 Bucketing by counting: tallies, prefix sums and a stable scatter, as used to pack the
 samples of a grid cell by cell (compressed rows).
 */
module CountingSort {

  /** Every entry names one of nc buckets. */
  predicate Keys(cells: seq<nat>, nc: nat) {
    forall i :: 0 <= i < |cells| ==> cells[i] < nc
  }

  /** The indices below k whose key is c, in order. */
  function Bucket(cells: seq<nat>, c: nat, k: nat): (b: seq<nat>)
    requires k <= |cells|
    ensures |b| <= k
  {
    if k == 0 then []
    else Bucket(cells, c, k - 1) + if cells[k - 1] == c then [k - 1] else []
  }

  /** How many indices below k have a key below c. */
  function Before(cells: seq<nat>, c: nat, k: nat): (n: nat)
    requires k <= |cells|
  {
    if c == 0 then 0 else Before(cells, c - 1, k) + |Bucket(cells, c - 1, k)|
  }

  lemma {:induction false} BeforeStep(cells: seq<nat>, c: nat, k: nat)
    requires k < |cells|
    ensures Before(cells, c, k + 1) == Before(cells, c, k) + if cells[k] < c then 1 else 0
  {
    if c > 0 { BeforeStep(cells, c - 1, k); }
  }

  /** All indices have a key below nc. */
  lemma {:induction false} BeforeAll(cells: seq<nat>, nc: nat, k: nat)
    requires k <= |cells| && Keys(cells, nc)
    ensures Before(cells, nc, k) == k
  {
    if k == 0 {
      BeforeNone(cells, nc);
    } else {
      var m := k - 1;
      BeforeAll(cells, nc, m);
      BeforeStep(cells, nc, m);
      assert cells[m] < nc && Before(cells, nc, m + 1) == m + 1;
    }
  }

  lemma {:induction false} BeforeNone(cells: seq<nat>, c: nat)
    ensures Before(cells, c, 0) == 0
  {
    if c > 0 { BeforeNone(cells, c - 1); }
  }

  lemma {:induction false} BeforeMonotone(cells: seq<nat>, c: nat, e: nat, k: nat)
    requires k <= |cells| && c <= e
    ensures Before(cells, c, k) <= Before(cells, e, k)
    decreases e - c
  {
    if c < e { BeforeMonotone(cells, c, e - 1, k); }
  }

  lemma {:induction false} BucketGrows(cells: seq<nat>, c: nat, k: nat, m: nat)
    requires k <= m <= |cells|
    ensures |Bucket(cells, c, k)| <= |Bucket(cells, c, m)|
    ensures Bucket(cells, c, k) <= Bucket(cells, c, m)
    decreases m - k
  {
    if k < m { BucketGrows(cells, c, k, m - 1); }
  }

  /** A bucket holds exactly the indices with its key, in ascending order. */
  lemma {:induction false} BucketContents(cells: seq<nat>, c: nat, k: nat)
    requires k <= |cells|
    ensures forall i :: i in Bucket(cells, c, k) <==> 0 <= i < k && cells[i] == c
    ensures forall s, t :: 0 <= s < t < |Bucket(cells, c, k)| ==> Bucket(cells, c, k)[s] < Bucket(cells, c, k)[t]
  {
    if k > 0 {
      BucketContents(cells, c, k - 1);
      if cells[k - 1] == c { OneMore(Bucket(cells, c, k - 1), k - 1); }
    }
  }

  /** An index greater than all of an ascending list goes to its end. */
  lemma OneMore(b: seq<nat>, i: nat)
    requires (forall j :: j in b ==> j < i) && forall s, t :: 0 <= s < t < |b| ==> b[s] < b[t]
    ensures forall j :: j in b + [i] <==> j in b || j == i
    ensures forall s, t :: 0 <= s < t < |b| + 1 ==> (b + [i])[s] < (b + [i])[t]
  {
    assert forall s :: 0 <= s < |b| ==> b[s] in b;
  }

  /** Packed cell by cell: start holds the offsets and items the indices of each cell in order. */
  ghost predicate Packed(cells: seq<nat>, nc: nat, start: seq<nat>, items: seq<nat>) {
    && |start| == nc + 1 && |items| == |cells| && Keys(cells, nc)
    && start[0] == 0 && start[nc] == |cells|
    && (forall c :: 0 <= c < nc ==> PackedAt(cells, start, items, c))
  }

  ghost predicate PackedAt(cells: seq<nat>, start: seq<nat>, items: seq<nat>, c: nat)
    requires c + 1 < |start|
  {
    start[c] <= start[c + 1] <= |items| && items[start[c]..start[c + 1]] == Bucket(cells, c, |cells|)
  }

  lemma BeforeNext(cells: seq<nat>, c: nat, k: nat)
    requires k <= |cells|
    ensures Before(cells, c + 1, k) == Before(cells, c, k) + |Bucket(cells, c, k)|
  {
  }

  /** The slots of a cell lie before those of any later cell. */
  lemma SlotsOrdered(cells: seq<nat>, c: nat, e: nat)
    requires c < e
    ensures Before(cells, c, |cells|) + |Bucket(cells, c, |cells|)| <= Before(cells, e, |cells|)
  {
    BeforeNext(cells, c, |cells|);
    BeforeMonotone(cells, c + 1, e, |cells|);
  }

  /** Tallies the keys, each into the slot after its own. */
  method Tally(cells: seq<nat>, nc: nat) returns (start: array<nat>)
    requires Keys(cells, nc)
    ensures fresh(start) && start.Length == nc + 1 && start[0] == 0
    ensures forall c :: 0 <= c < nc ==> start[c + 1] == |Bucket(cells, c, |cells|)|
  {
    start := new nat[nc + 1](i => 0);
    for i := 0 to |cells|
      invariant start[0] == 0
      invariant forall c :: 0 <= c < nc ==> start[c + 1] == |Bucket(cells, c, i)|
    {
      start[cells[i] + 1] := start[cells[i] + 1] + 1;
    }
  }

  /** Turns the counts into offsets, by a running sum. */
  method Accumulate(start: array<nat>, ghost counts: seq<nat>, ghost offsets: seq<nat>)
    requires start.Length == |counts| + 1 == |offsets| && start[0] == 0 == offsets[0]
    requires forall c :: 0 <= c < |counts| ==> start[c + 1] == counts[c]
    requires forall c :: 0 <= c < |counts| ==> offsets[c + 1] == offsets[c] + counts[c]
    modifies start
    ensures start[..] == offsets
  {
    for i := 0 to start.Length - 1
      invariant forall c :: 0 <= c <= i ==> start[c] == offsets[c]
      invariant forall c :: i <= c < |counts| ==> start[c + 1] == counts[c]
    {
      start[i + 1] := start[i + 1] + start[i];
    }
  }

  /** Where the next index of each cell goes, once the indices below k have been placed. */
  ghost function Cursors(cells: seq<nat>, nc: nat, k: nat): (r: seq<nat>)
    requires k <= |cells|
    ensures |r| == nc
  {
    seq(nc, c requires 0 <= c < nc => Before(cells, c, |cells|) + |Bucket(cells, c, k)|)
  }

  ghost predicate AllFilled(cells: seq<nat>, nc: nat, items: seq<nat>, k: nat)
    requires k <= |cells|
  {
    forall c :: 0 <= c < nc ==> Filled(cells, items, c, k)
  }

  lemma StartFilled(cells: seq<nat>, nc: nat, items: seq<nat>)
    requires Keys(cells, nc) && |items| == |cells|
    ensures AllFilled(cells, nc, items, 0)
  {
    forall c | 0 <= c < nc ensures Filled(cells, items, c, 0) {
      BeforeMonotone(cells, c, nc, |cells|);
      BeforeAll(cells, nc, |cells|);
    }
  }

  lemma PlaceNext(cells: seq<nat>, nc: nat, items: seq<nat>, i: nat)
    requires Keys(cells, nc) && i < |cells| == |items| && AllFilled(cells, nc, items, i)
    ensures var p := Cursors(cells, nc, i)[cells[i]]; p < |items| && AllFilled(cells, nc, items[p := i], i + 1)
  {
    CursorInside(cells, nc, cells[i], i);
    var now, next := items[Cursors(cells, nc, i)[cells[i]] := i], i + 1;
    forall e | 0 <= e < nc ensures Filled(cells, now, e, next) {
      FillNext(cells, items, e, i);
    }
  }

  lemma CursorsAdvance(cells: seq<nat>, nc: nat, i: nat)
    requires Keys(cells, nc) && i < |cells|
    ensures var now := Cursors(cells, nc, i);
            Cursors(cells, nc, i + 1) == now[cells[i] := now[cells[i]] + 1]
  {
  }

  /** Places index i at the cursor of its cell and advances the cursor. */
  method PlaceOne(cells: seq<nat>, nc: nat, items: array<nat>, cur: array<nat>, i: nat)
    requires Keys(cells, nc) && i < |cells| == items.Length && cur != items
    requires cur[..] == Cursors(cells, nc, i) && AllFilled(cells, nc, items[..], i)
    modifies items, cur
    ensures cur[..] == Cursors(cells, nc, i + 1) && AllFilled(cells, nc, items[..], i + 1)
  {
    PlaceNext(cells, nc, items[..], i);
    CursorsAdvance(cells, nc, i);
    var c := cells[i];
    assert cur[c] == cur[..][c];
    items[cur[c]] := i;
    cur[c] := cur[c] + 1;
  }

  /** Places index after index. */
  method Scatter(cells: seq<nat>, nc: nat, start: array<nat>) returns (items: array<nat>)
    requires Keys(cells, nc) && start.Length == nc + 1 && start[..nc] == Cursors(cells, nc, 0)
    ensures fresh(items) && items.Length == |cells| && AllFilled(cells, nc, items[..], |cells|)
  {
    items := new nat[|cells|];
    var cur := new nat[nc](i requires 0 <= i < nc reads start => start[i]);
    assert cur[..] == start[..nc];
    StartFilled(cells, nc, items[..]);
    for i := 0 to |cells|
      modifies items, cur
      invariant cur[..] == Cursors(cells, nc, i)
      invariant AllFilled(cells, nc, items[..], i)
    {
      PlaceOne(cells, nc, items, cur, i);
    }
  }

  /** The first slots of cell c hold its indices below k. */
  ghost predicate Filled(cells: seq<nat>, items: seq<nat>, c: nat, k: nat)
    requires k <= |cells|
  {
    var p, b := Before(cells, c, |cells|), Bucket(cells, c, k);
    p + |b| <= |items| && items[p..p + |b|] == b
  }

  /** Placing index i at the cursor of its cell fills that cell one further and leaves
      the filled part of every other cell alone. */
  lemma FillNext(cells: seq<nat>, items: seq<nat>, e: nat, i: nat)
    requires i < |cells| == |items| && Filled(cells, items, e, i)
    requires Before(cells, cells[i], |cells|) + |Bucket(cells, cells[i], i)| < |cells|
    ensures Filled(cells, items[Before(cells, cells[i], |cells|) + |Bucket(cells, cells[i], i)| := i], e, i + 1)
  {
    var c := cells[i];
    var p, b := Before(cells, e, |cells|), Bucket(cells, e, i);
    var q := Before(cells, c, |cells|) + |Bucket(cells, c, i)|;
    if e == c {
      UpdateAtEnd(items, p, q, i);
    } else {
      CursorElsewhere(cells, c, e, i);
      UpdateOutside(items, p, p + |b|, q, i);
    }
  }

  lemma UpdateAtEnd(items: seq<nat>, p: nat, q: nat, i: nat)
    requires p <= q < |items|
    ensures items[q := i][p..q + 1] == items[p..q] + [i]
  {
  }

  lemma UpdateOutside(items: seq<nat>, p: nat, r: nat, q: nat, i: nat)
    requires p <= r <= |items| && q < |items| && (q < p || r <= q)
    ensures items[q := i][p..r] == items[p..r]
  {
  }

  /** The cursor of cell c is outside what is filled of cell e. */
  lemma CursorElsewhere(cells: seq<nat>, c: nat, e: nat, i: nat)
    requires i < |cells| && c == cells[i] && e != c
    ensures var q := Before(cells, c, |cells|) + |Bucket(cells, c, i)|;
            var p := Before(cells, e, |cells|);
            q < p || p + |Bucket(cells, e, i)| <= q
  {
    var n := |cells|;
    BucketGrows(cells, e, i, n);
    BucketRoom(cells, i);
    if c < e { SlotsOrdered(cells, c, e); } else { SlotsOrdered(cells, e, c); }
  }

  /** A cell has room for an index that is still to be placed. */
  lemma BucketRoom(cells: seq<nat>, i: nat)
    requires i < |cells|
    ensures |Bucket(cells, cells[i], i)| < |Bucket(cells, cells[i], |cells|)|
  {
    BucketGrows(cells, cells[i], i + 1, |cells|);
  }

  lemma CursorInside(cells: seq<nat>, nc: nat, c: nat, i: nat)
    requires Keys(cells, nc) && i < |cells| && c == cells[i]
    ensures Before(cells, c, |cells|) + |Bucket(cells, c, i)| < |cells|
  {
    BucketRoom(cells, i);
    SlotsEnd(cells, c, nc);
  }

  lemma SlotsEnd(cells: seq<nat>, c: nat, nc: nat)
    requires Keys(cells, nc) && c < nc
    ensures Before(cells, c, |cells|) + |Bucket(cells, c, |cells|)| <= |cells|
  {
    SlotsOrdered(cells, c, nc);
    BeforeAll(cells, nc, |cells|);
  }

  ghost function Counts(cells: seq<nat>, nc: nat): (r: seq<nat>)
    ensures |r| == nc
  {
    seq(nc, c requires 0 <= c < nc => |Bucket(cells, c, |cells|)|)
  }

  ghost function Offsets(cells: seq<nat>, nc: nat): (r: seq<nat>)
    ensures |r| == nc + 1
  {
    seq(nc + 1, c requires 0 <= c <= nc => Before(cells, c, |cells|))
  }

  lemma OffsetsAreSums(cells: seq<nat>, nc: nat)
    ensures Offsets(cells, nc)[0] == 0
    ensures forall c :: 0 <= c < nc ==> Offsets(cells, nc)[c + 1] == Offsets(cells, nc)[c] + Counts(cells, nc)[c]
    ensures Offsets(cells, nc)[..nc] == Cursors(cells, nc, 0)
  {
  }

  lemma FilledIsPacked(cells: seq<nat>, nc: nat, items: seq<nat>)
    requires Keys(cells, nc) && |items| == |cells| && AllFilled(cells, nc, items, |cells|)
    ensures Packed(cells, nc, Offsets(cells, nc), items)
  {
    BeforeAll(cells, nc, |cells|);
    forall c | 0 <= c < nc ensures PackedAt(cells, Offsets(cells, nc), items, c) {
      BeforeNext(cells, c, |cells|);
      assert Filled(cells, items, c, |cells|);
    }
  }

  /** Packs the indices of cells bucket by bucket. */
  method Pack(cells: seq<nat>, nc: nat) returns (start: seq<nat>, items: seq<nat>)
    requires Keys(cells, nc)
    ensures Packed(cells, nc, start, items)
  {
    var offsets := Tally(cells, nc);
    OffsetsAreSums(cells, nc);
    Accumulate(offsets, Counts(cells, nc), Offsets(cells, nc));
    var slots := Scatter(cells, nc, offsets);
    FilledIsPacked(cells, nc, slots[..]);
    return offsets[..], slots[..];
  }

  /** Every slot belongs to a cell. */
  lemma {:induction false} SlotOwner(start: seq<nat>, nc: nat, s: nat) returns (c: nat)
    requires nc < |start| && start[0] <= s < start[nc]
    ensures c < nc && start[c] <= s < start[c + 1]
  {
    c := nc - 1;
    while s < start[c]
      invariant 0 <= c < nc && s < start[c + 1]
      decreases c
    {
      c := c - 1;
    }
  }

  /** What a slot of cell c holds: an index with key c, greater than those in earlier slots of c. */
  lemma SlotHolds(cells: seq<nat>, nc: nat, start: seq<nat>, items: seq<nat>, c: nat, s: nat)
    requires Packed(cells, nc, start, items) && c < nc && start[c] <= s < start[c + 1]
    ensures s < |items| && items[s] < |cells| && cells[items[s]] == c
    ensures forall t :: start[c] <= t < s ==> items[t] < items[s]
  {
    assert PackedAt(cells, start, items, c);
    var b := items[start[c]..start[c + 1]];
    BucketContents(cells, c, |cells|);
    assert b[s - start[c]] in b;
    forall t | start[c] <= t < s ensures items[t] < items[s] {
      assert b[t - start[c]] < b[s - start[c]];
    }
  }

  /** The packed items are the indices 0 .. n - 1, each exactly once. */
  lemma PackedOnce(cells: seq<nat>, nc: nat, start: seq<nat>, items: seq<nat>)
    requires Packed(cells, nc, start, items)
    ensures forall i :: 0 <= i < |cells| ==> i in items
    ensures forall s :: 0 <= s < |items| ==> items[s] < |cells|
    ensures forall s, t :: 0 <= s < t < |items| ==> items[s] != items[t]
  {
    forall i | 0 <= i < |cells| ensures i in items {
      var c := cells[i];
      assert PackedAt(cells, start, items, c);
      BucketContents(cells, c, |cells|);
      assert i in items[start[c]..start[c + 1]];
    }
    forall s | 0 <= s < |items| ensures items[s] < |cells| {
      var c := SlotOwner(start, nc, s);
      SlotHolds(cells, nc, start, items, c, s);
    }
    forall s, t | 0 <= s < t < |items| ensures items[s] != items[t] {
      var c := SlotOwner(start, nc, s);
      var e := SlotOwner(start, nc, t);
      SlotHolds(cells, nc, start, items, c, s);
      SlotHolds(cells, nc, start, items, e, t);
    }
  }
}
