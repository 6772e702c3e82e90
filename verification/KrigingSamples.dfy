/**
 The samples of the interpolation: vertices are accumulated per pixel while they are
 appended, with the running total, to a growing buffer; before kriging the entries of
 one pixel are collapsed into their maximum.
 */
module KrigingSamples {

  /** A vertex inside the image, and the weight of its shape. */
  datatype Hit = Hit(x: nat, y: nat, weight: real)

  /** An entry of the buffer. */
  datatype Sample = Sample(x: real, y: real, z: real)

  predicate At(h: Hit, x: real, y: real) { h.x as real == x && h.y as real == y }

  predicate SamePixel(p: Sample, q: Sample) { p.x == q.x && p.y == q.y }

  /** What the vertices at a pixel add up to. */
  function Total(hits: seq<Hit>, x: real, y: real): real {
    if hits == [] then 0.0
    else
      var n := |hits| - 1;
      Total(hits[..n], x, y) + if At(hits[n], x, y) then hits[n].weight else 0.0
  }

  lemma {:induction false} TotalSplit(hits: seq<Hit>, k: nat, x: real, y: real)
    requires k <= |hits|
    ensures Total(hits, x, y) == Total(hits[..k], x, y) + Total(hits[k..], x, y)
    decreases |hits| - k
  {
    if k == |hits| {
      assert hits[..k] == hits;
    } else {
      var n := |hits| - 1;
      assert hits[..n][..k] == hits[..k] && hits[k..][..n - k] == hits[..n][k..];
      TotalSplit(hits[..n], k, x, y);
    }
  }

  /** The entry made for vertex k: the total of its pixel so far. */
  function EntryOf(hits: seq<Hit>, k: nat): Sample
    requires k < |hits|
  {
    var x, y := hits[k].x as real, hits[k].y as real;
    Sample(x, y, Total(hits[..k + 1], x, y))
  }

  function Entries(hits: seq<Hit>): (r: seq<Sample>)
    ensures |r| == |hits|
  {
    seq(|hits|, k requires 0 <= k < |hits| => EntryOf(hits, k))
  }

  // ----- the growing buffer -----

  /** The buffer holds the three numbers of each entry, one after the other. */
  ghost predicate Triples(xyz: seq<real>, entries: seq<Sample>) {
    && |xyz| == 3 * |entries|
    && forall k :: 0 <= k < |entries| ==> xyz[3 * k] == entries[k].x && xyz[3 * k + 1] == entries[k].y
                                          && xyz[3 * k + 2] == entries[k].z
  }

  class SampleBuffer {
    const width: nat
    const height: nat
    const values: array2<real>
    var xyz: array<real>
    var length: nat
    /** The vertices that fell inside the image. */
    ghost var hits: seq<Hit>

    ghost predicate Valid()
      reads this, values, xyz
    {
      && values.Length0 == height && values.Length1 == width && xyz.Length > 0
      && (forall k :: 0 <= k < |hits| ==> hits[k].x < width && hits[k].y < height)
      && (forall y, x :: 0 <= y < height && 0 <= x < width ==> values[y, x] == Total(hits, x as real, y as real))
      && length <= xyz.Length && Triples(xyz[..length], Entries(hits))
    }

    constructor (width: nat, height: nat)
      ensures Valid() && fresh(values) && fresh(xyz) && hits == []
      ensures this.width == width && this.height == height
    {
      this.width, this.height := width, height;
      values := new real[height, width]((y, x) => 0.0);
      var capacity := width * height;
      xyz := new real[if capacity == 0 then 3 else capacity];
      length := 0;
      hits := [];
    }

    /** Makes room for one more triple, keeping what the buffer holds. */
    method Reserve()
      requires 0 < xyz.Length && length <= xyz.Length
      modifies this`xyz
      ensures length + 3 <= xyz.Length && xyz[..length] == old(xyz[..length])
      ensures xyz == old(xyz) || fresh(xyz)
    {
      var capacity := xyz.Length;
      while length + 3 > capacity
        invariant capacity >= xyz.Length
        decreases length + 3 - capacity
      {
        capacity := capacity * 2;
      }
      if capacity > xyz.Length {
        var small := xyz;
        xyz := new real[capacity](i requires 0 <= i < capacity reads small =>
          if i < small.Length then small[i] else 0.0);
      }
    }

    method Append(x: real, y: real, z: real)
      requires length + 3 <= xyz.Length
      modifies this`length, xyz
      ensures length == old(length) + 3 && xyz[..length] == old(xyz[..length]) + [x, y, z]
    {
      xyz[length] := x;
      xyz[length + 1] := y;
      xyz[length + 2] := z;
      length := length + 3;
    }

    /** Adds a vertex, unless it lies outside the image. */
    method Add(x: int, y: int, weight: real)
      requires Valid()
      modifies this, values, xyz
      ensures Valid() && (xyz == old(xyz) || fresh(xyz))
      ensures var inside := 0 <= x < width && 0 <= y < height;
              hits == if inside then old(hits) + [Hit(x, y, weight)] else old(hits)
    {
      if x >= 0 && y >= 0 && x < width && y < height {
        values[y, x] := values[y, x] + weight;
        Reserve();
        Append(x as real, y as real, values[y, x]);
        hits := hits + [Hit(x, y, weight)];
        EntriesGrow(old(hits), Hit(x, y, weight));
        TriplesGrow(old(xyz[..length]), Entries(old(hits)), xyz[..length], Entries(hits));
      }
    }
  }

  /** One more vertex makes one more entry and leaves the earlier entries alone. */
  lemma EntriesGrow(hits: seq<Hit>, h: Hit)
    ensures Entries(hits + [h]) ==
            Entries(hits) + [Sample(h.x as real, h.y as real, Total(hits, h.x as real, h.y as real) + h.weight)]
    ensures forall x, y :: Total(hits + [h], x, y) == Total(hits, x, y) + if At(h, x, y) then h.weight else 0.0
  {
    var more := hits + [h];
    assert more[..|hits|] == hits && more[..|hits| + 1] == more;
    forall k | 0 <= k < |hits| ensures EntryOf(more, k) == EntryOf(hits, k) {
      assert more[..k + 1] == hits[..k + 1];
    }
  }

  lemma TriplesGrow(a: seq<real>, e: seq<Sample>, b: seq<real>, f: seq<Sample>)
    requires Triples(a, e) && |f| == |e| + 1 && f[..|e|] == e
    requires b == a + [f[|e|].x, f[|e|].y, f[|e|].z]
    ensures Triples(b, f)
  {
    forall k | 0 <= k < |f| ensures b[3 * k] == f[k].x && b[3 * k + 1] == f[k].y && b[3 * k + 2] == f[k].z {
      if k < |e| { assert f[k] == e[k] && 3 * k + 2 < |a|; }
    }
  }

  // ----- collapsing coincident samples -----

  function SampleCmp(p: Sample, q: Sample): int {
    if p.y != q.y then (if p.y < q.y then -1 else 1)
    else if p.x != q.x then (if p.x < q.x then -1 else 1)
    else 0
  }

  /** What sorting with SampleCmp leaves; the order within a pixel is not determined. */
  ghost predicate Sorted(pts: seq<Sample>) {
    forall i, j :: 0 <= i < j < |pts| ==> SampleCmp(pts[i], pts[j]) <= 0
  }

  ghost predicate StrictlySorted(pts: seq<Sample>) {
    forall i, j :: 0 <= i < j < |pts| ==> SampleCmp(pts[i], pts[j]) < 0
  }

  /** Reads the entries back from the buffer. */
  method Unpack(xyz: seq<real>, npoints: nat, ghost entries: seq<Sample>) returns (pts: seq<Sample>)
    requires npoints == |entries| && Triples(xyz, entries)
    ensures pts == entries
  {
    pts := [];
    for i := 0 to npoints
      invariant pts == entries[..i]
    {
      pts := pts + [Sample(xyz[i * 3], xyz[i * 3 + 1], xyz[i * 3 + 2])];
    }
  }

  /** o is the greatest entry of its pixel among pts. */
  ghost predicate Peak(o: Sample, pts: seq<Sample>) {
    o in pts && forall p :: p in pts && SamePixel(p, o) ==> p.z <= o.z
  }

  /** The entries of one pixel, from i on. */
  method Group(pts: seq<Sample>, i: nat) returns (j: nat, best: real)
    requires i < |pts| && Sorted(pts)
    ensures i < j <= |pts| && forall k :: i <= k < j ==> SamePixel(pts[k], pts[i]) && pts[k].z <= best
    ensures exists k :: i <= k < j && pts[k].z == best
    ensures j < |pts| ==> SampleCmp(pts[i], pts[j]) < 0
  {
    j, best := i, pts[i].z;
    ghost var top := i;
    while j < |pts| && pts[j].x == pts[i].x && pts[j].y == pts[i].y
      invariant i <= j <= |pts| && (j == i ==> top == i) && (j > i ==> i <= top < j)
      invariant pts[top].z == best
      invariant forall k :: i <= k < j ==> SamePixel(pts[k], pts[i]) && pts[k].z <= best
    {
      if pts[j].z > best {
        best := pts[j].z;
        top := j;
      }
      j := j + 1;
    }
  }

  ghost predicate Covered(p: Sample, out: seq<Sample>) {
    exists o :: o in out && SamePixel(o, p)
  }

  lemma CoveredMore(pts: seq<Sample>, i: nat, j: nat, out: seq<Sample>, o: Sample)
    requires i <= j <= |pts| && forall k :: 0 <= k < i ==> Covered(pts[k], out)
    requires forall k :: i <= k < j ==> SamePixel(pts[k], o)
    ensures forall k :: 0 <= k < j ==> Covered(pts[k], out + [o])
  {
    forall k | 0 <= k < j ensures Covered(pts[k], out + [o]) {
      if k < i {
        var q :| q in out && SamePixel(q, pts[k]);
        assert q in out + [o];
      } else {
        assert o in out + [o];
      }
    }
  }

  /** One sample for each pixel of pts, at its greatest entry. */
  ghost predicate Collapsed(out: seq<Sample>, pts: seq<Sample>) {
    && StrictlySorted(out)
    && (forall o :: o in out ==> Peak(o, pts))
    && (forall p :: p in pts ==> Covered(p, out))
  }

  /** The pixels of the first i entries have been collapsed; pixel i is a new one. */
  ghost predicate CollapsedTo(out: seq<Sample>, pts: seq<Sample>, i: nat) {
    && i <= |pts| && StrictlySorted(out)
    && (forall k :: 0 <= k < |out| ==> Peak(out[k], pts))
    && (forall k :: 0 <= k < i ==> Covered(pts[k], out))
    && (i < |pts| ==> forall k :: 0 <= k < |out| ==> SampleCmp(out[k], pts[i]) < 0)
    && (0 < i < |pts| ==> SampleCmp(pts[i - 1], pts[i]) < 0)
  }

  method Collapse(pts: seq<Sample>) returns (out: seq<Sample>)
    requires Sorted(pts)
    ensures Collapsed(out, pts)
  {
    out := [];
    var i := 0;
    while i < |pts|
      invariant CollapsedTo(out, pts, i)
      decreases |pts| - i
    {
      var j, best := Group(pts, i);
      var o := Sample(pts[i].x, pts[i].y, best);
      GroupPeak(pts, i, j, o);
      CollapseStep(pts, i, j, out, o);
      out := out + [o];
      i := j;
    }
  }

  lemma CollapseStep(pts: seq<Sample>, i: nat, j: nat, out: seq<Sample>, o: Sample)
    requires CollapsedTo(out, pts, i) && i < j <= |pts| && SamePixel(o, pts[i]) && Peak(o, pts)
    requires forall k :: i <= k < j ==> SamePixel(pts[k], pts[i])
    requires j < |pts| ==> SampleCmp(pts[i], pts[j]) < 0
    ensures CollapsedTo(out + [o], pts, j)
  {
    CoveredMore(pts, i, j, out, o);
    InOrder(out, o, pts[i]);
    if j < |pts| { AllBefore(out + [o], pts[i], pts[j]); }
  }

  lemma InOrder(out: seq<Sample>, o: Sample, p: Sample)
    requires StrictlySorted(out) && SamePixel(o, p) && forall k :: 0 <= k < |out| ==> SampleCmp(out[k], p) < 0
    ensures StrictlySorted(out + [o])
    ensures forall k :: 0 <= k <= |out| ==> SampleCmp((out + [o])[k], p) <= 0
  {
  }

  lemma AllBefore(out: seq<Sample>, p: Sample, q: Sample)
    requires SampleCmp(p, q) < 0 && forall k :: 0 <= k < |out| ==> SampleCmp(out[k], p) <= 0
    ensures forall k :: 0 <= k < |out| ==> SampleCmp(out[k], q) < 0
  {
  }

  lemma GroupPeak(pts: seq<Sample>, i: nat, j: nat, o: Sample)
    requires i < j <= |pts| && Sorted(pts) && SamePixel(o, pts[i])
    requires forall k :: i <= k < j ==> SamePixel(pts[k], pts[i]) && pts[k].z <= o.z
    requires exists k :: i <= k < j && pts[k].z == o.z
    requires j < |pts| ==> SampleCmp(pts[i], pts[j]) < 0
    requires i > 0 ==> SampleCmp(pts[i - 1], pts[i]) < 0
    ensures Peak(o, pts)
  {
  }

  // ----- what the collapsed samples are -----

  /** After no vertex of the pixel do the remaining ones take away from its total. */
  ghost predicate NeverFalls(hits: seq<Hit>, x: real, y: real) {
    forall k :: 0 <= k < |hits| && At(hits[k], x, y) ==> Total(hits[k + 1..], x, y) >= 0.0
  }

  /** Some entry of a pixel that was hit holds its final total. */
  lemma {:induction false} LastEntry(hits: seq<Hit>, x: real, y: real, k: nat) returns (last: nat)
    requires k < |hits| && At(hits[k], x, y)
    ensures last < |hits| && At(hits[last], x, y) && EntryOf(hits, last) == Sample(x, y, Total(hits, x, y))
    decreases |hits|
  {
    var n := |hits| - 1;
    assert hits[..n + 1] == hits;
    if At(hits[n], x, y) {
      last := n;
    } else {
      last := LastEntry(hits[..n], x, y, k);
      assert hits[..n][..last + 1] == hits[..last + 1];
    }
  }

  /** An entry exceeds the final total by what the later vertices take away. */
  lemma EntryTotal(hits: seq<Hit>, k: nat)
    requires k < |hits|
    ensures var e := EntryOf(hits, k); Total(hits, e.x, e.y) == e.z + Total(hits[k + 1..], e.x, e.y)
  {
    TotalSplit(hits, k + 1, hits[k].x as real, hits[k].y as real);
  }

  lemma {:induction false} EntryIndex(hits: seq<Hit>, p: Sample) returns (k: nat)
    requires p in Entries(hits)
    ensures k < |hits| && p == EntryOf(hits, k) && At(hits[k], p.x, p.y)
  {
    k :| 0 <= k < |hits| && Entries(hits)[k] == p;
  }

  /** The greatest entry of a pixel is its final total exactly if the total never falls. */
  lemma {:induction false} PeakIsTotal(hits: seq<Hit>, o: Sample)
    requires Peak(o, Entries(hits))
    ensures o.z == Total(hits, o.x, o.y) <==> NeverFalls(hits, o.x, o.y)
  {
    var k := EntryIndex(hits, o);
    var last := LastEntry(hits, o.x, o.y, k);
    assert Entries(hits)[last].z == Total(hits, o.x, o.y);
    EntryTotal(hits, k);
    if o.z == Total(hits, o.x, o.y) {
      forall i | 0 <= i < |hits| && At(hits[i], o.x, o.y) ensures Total(hits[i + 1..], o.x, o.y) >= 0.0 {
        assert SamePixel(Entries(hits)[i], o);
        EntryTotal(hits, i);
      }
    }
  }

  /** One sample for each pixel that was hit, at its final total. */
  ghost predicate Totals(out: seq<Sample>, hits: seq<Hit>) {
    && StrictlySorted(out)
    && (forall o :: o in out ==> HitAt(hits, o.x, o.y) && o.z == Total(hits, o.x, o.y))
    && (forall k :: 0 <= k < |hits| ==> Covered(EntryOf(hits, k), out))
  }

  ghost predicate HitAt(hits: seq<Hit>, x: real, y: real) {
    exists k :: 0 <= k < |hits| && At(hits[k], x, y)
  }

  lemma {:induction false} SameEntries(pts: seq<Sample>, entries: seq<Sample>)
    requires multiset(pts) == multiset(entries)
    ensures forall p :: p in pts <==> p in entries
  {
    forall p ensures p in pts <==> p in entries {
      assert p in pts <==> p in multiset(pts);
    }
  }

  /** In whatever order the sort leaves the entries of a pixel, collapsing them gives one
      sample for each pixel that was hit; the values are the final totals if and only if no
      pixel's total ever falls for good. */
  lemma {:induction false} CollapsedTotals(hits: seq<Hit>, pts: seq<Sample>, out: seq<Sample>)
    requires multiset(pts) == multiset(Entries(hits)) && Collapsed(out, pts)
    ensures Totals(out, hits) <==> forall k :: 0 <= k < |hits| ==> NeverFalls(hits, hits[k].x as real, hits[k].y as real)
  {
    SameEntries(pts, Entries(hits));
    forall o | o in out
      ensures HitAt(hits, o.x, o.y) && (o.z == Total(hits, o.x, o.y) <==> NeverFalls(hits, o.x, o.y))
    {
      PeakIsTotal(hits, o);
      var k := EntryIndex(hits, o);
    }
    forall k | 0 <= k < |hits| ensures Covered(EntryOf(hits, k), out) {
      assert Entries(hits)[k] in pts;
    }
    if Totals(out, hits) {
      forall k | 0 <= k < |hits| ensures NeverFalls(hits, hits[k].x as real, hits[k].y as real) {
        assert Covered(EntryOf(hits, k), out);
        var o :| o in out && SamePixel(o, EntryOf(hits, k));
      }
    }
  }

  lemma {:induction false} TotalNonNegative(hits: seq<Hit>, x: real, y: real)
    requires forall k :: 0 <= k < |hits| ==> hits[k].weight >= 0.0
    ensures Total(hits, x, y) >= 0.0
  {
    if hits != [] { TotalNonNegative(hits[..|hits| - 1], x, y); }
  }

  /** For non-negative weights the samples are the final totals. */
  lemma {:induction false} NonNegativeWeights(hits: seq<Hit>, pts: seq<Sample>, out: seq<Sample>)
    requires forall k :: 0 <= k < |hits| ==> hits[k].weight >= 0.0
    requires multiset(pts) == multiset(Entries(hits)) && Collapsed(out, pts)
    ensures Totals(out, hits)
  {
    forall i | 0 <= i < |hits| ensures NeverFalls(hits, hits[i].x as real, hits[i].y as real) {
      var x, y := hits[i].x as real, hits[i].y as real;
      forall k | 0 <= k < |hits| && At(hits[k], x, y) ensures Total(hits[k + 1..], x, y) >= 0.0 {
        TotalNonNegative(hits[k + 1..], x, y);
      }
    }
    CollapsedTotals(hits, pts, out);
  }

  /** A negative weight can make the sample differ from the total. */
  lemma NegativeWeight(out: seq<Sample>)
    ensures var hits := [Hit(0, 0, 2.0), Hit(0, 0, -1.0)];
            Collapsed(out, Entries(hits)) ==> !Totals(out, hits)
  {
    var hits := [Hit(0, 0, 2.0), Hit(0, 0, -1.0)];
    if Collapsed(out, Entries(hits)) {
      CollapsedTotals(hits, Entries(hits), out);
      assert hits[1..] == [Hit(0, 0, -1.0)] && hits[1..][..0] == [];
      assert Total(hits[1..], 0.0, 0.0) == -1.0;
      assert At(hits[0], 0.0, 0.0);
    }
  }
}
