/**
 The uniform grid over the samples: which cell a coordinate falls in, how far apart
 cells keep their points, and the construction of the packed index.
 */
module KrigingGrid {
  import opened RealMath
  import opened CountingSort

  /** Conversion to an integer, towards zero. */
  function Truncate(r: real): int {
    if r >= 0.0 then r.Floor else -((-r).Floor)
  }

  function Clamp(t: int, n: nat): (c: nat)
    requires n > 0
    ensures c < n
  {
    if t < 0 then 0 else if t >= n then n - 1 else t
  }

  /** The cell of coordinate v along one axis with n cells, clamped to the edge cells. */
  function CellAlong(v: real, min: real, cell: real, n: nat): (c: nat)
    requires cell > 0.0 && n > 0
    ensures c < n
  {
    Clamp(Truncate((v - min) / cell), n)
  }

  /** The coordinate lies where the grid has cells, so that its cell needs no clamping. */
  predicate OnAxis(v: real, min: real, cell: real, n: nat)
    requires cell > 0.0
  {
    v >= min && Truncate((v - min) / cell) < n
  }

  lemma FloorBounds(r: real)
    ensures r.Floor as real <= r < r.Floor as real + 1.0
  {
  }

  lemma Scale(k: int, v: real, cell: real)
    requires cell > 0.0
    ensures k as real <= v / cell ==> k as real * cell <= v
    ensures v / cell < k as real ==> v < k as real * cell
  {
    DivideMultiply(v, cell);
    if k as real <= v / cell { MulMonotone(k as real, v / cell, cell); }
    CancelFactor(k as real, v / cell, cell);
  }

  /** A coordinate at or beyond cell h > 0 is at least h cells away from the origin. */
  lemma AtLeastCell(v: real, min: real, cell: real, n: nat)
    requires cell > 0.0 && n > 0
    ensures var h := CellAlong(v, min, cell, n); h > 0 ==> h as real * cell <= v - min
  {
    var h, t := CellAlong(v, min, cell, n), (v - min) / cell;
    if h > 0 {
      FloorBounds(t);
      FloorBounds(-t);
      Scale(h, v - min, cell);
    }
  }

  /** A coordinate before the last cell is less than h + 1 cells away from the origin. */
  lemma BelowNextCell(v: real, min: real, cell: real, n: nat)
    requires cell > 0.0 && n > 0
    ensures var h := CellAlong(v, min, cell, n); h < n - 1 ==> v - min < (h + 1) as real * cell
  {
    var h, t := CellAlong(v, min, cell, n), (v - min) / cell;
    if h < n - 1 {
      FloorBounds(t);
      FloorBounds(-t);
      Scale(h + 1, v - min, cell);
    }
  }

  /** The cell of a coordinate on the axis is the interval it lies in. */
  lemma CellInterval(v: real, min: real, cell: real, n: nat)
    requires cell > 0.0 && n > 0 && OnAxis(v, min, cell, n)
    ensures var c := CellAlong(v, min, cell, n);
            c as real * cell <= v - min < (c + 1) as real * cell
  {
    var c, t := CellAlong(v, min, cell, n), (v - min) / cell;
    QuotientFacts(v - min, cell);
    FloorBounds(t);
    Scale(c, v - min, cell);
    Scale(c + 1, v - min, cell);
  }

  /** Points whose cells are more than r apart along an axis are at least r cells apart,
      also when the query lies outside the grid and its cell has been clamped. */
  lemma RingGap(q: real, v: real, min: real, cell: real, n: nat, r: nat)
    requires cell > 0.0 && n > 0 && OnAxis(v, min, cell, n)
    requires var c, h := CellAlong(v, min, cell, n), CellAlong(q, min, cell, n); c >= h + r + 1 || h >= c + r + 1
    ensures v - q >= r as real * cell || q - v >= r as real * cell
  {
    if CellAlong(v, min, cell, n) >= CellAlong(q, min, cell, n) + r + 1 {
      GapAbove(q, v, min, cell, n, r);
    } else {
      GapBelow(q, v, min, cell, n, r);
    }
  }

  lemma GapAbove(q: real, v: real, min: real, cell: real, n: nat, r: nat)
    requires cell > 0.0 && n > 0 && OnAxis(v, min, cell, n)
    requires CellAlong(v, min, cell, n) >= CellAlong(q, min, cell, n) + r + 1
    ensures v - q >= r as real * cell
  {
    var c, h := CellAlong(v, min, cell, n), CellAlong(q, min, cell, n);
    CellInterval(v, min, cell, n);
    BelowNextCell(q, min, cell, n);
    GapStep((h + 1) as real, c as real, r as real, cell, q - min, v - min);
  }

  lemma GapBelow(q: real, v: real, min: real, cell: real, n: nat, r: nat)
    requires cell > 0.0 && n > 0 && OnAxis(v, min, cell, n)
    requires CellAlong(q, min, cell, n) >= CellAlong(v, min, cell, n) + r + 1
    ensures q - v >= r as real * cell
  {
    var c, h := CellAlong(v, min, cell, n), CellAlong(q, min, cell, n);
    CellInterval(v, min, cell, n);
    AtLeastCell(q, min, cell, n);
    GapStep((c + 1) as real, h as real, r as real, cell, v - min, q - min);
  }

  lemma GapStep(lo: real, hi: real, r: real, cell: real, x: real, y: real)
    requires lo + r <= hi && cell > 0.0 && x < lo * cell && hi * cell <= y
    ensures y - x >= r * cell
  {
    MulMonotone(lo + r, hi, cell);
    assert (lo + r) * cell == lo * cell + r * cell;
  }

  // ----- building the index -----

  datatype Grid = Grid(nx: nat, ny: nat, minx: real, miny: real, cell: real, start: seq<nat>, items: seq<nat>)

  function CellX(g: Grid, x: real): nat
    requires g.cell > 0.0 && g.nx > 0
  {
    CellAlong(x, g.minx, g.cell, g.nx)
  }

  function CellY(g: Grid, y: real): nat
    requires g.cell > 0.0 && g.ny > 0
  {
    CellAlong(y, g.miny, g.cell, g.ny)
  }

  lemma IndexInRange(nx: nat, ny: nat, cx: nat, cy: nat)
    requires cx < nx && cy < ny
    ensures cy * nx + cx < nx * ny
  {
    assert cy * nx <= (ny - 1) * nx;
    assert (ny - 1) * nx == nx * ny - nx;
  }

  /** Different cells have different indices. */
  lemma IndexUnique(nx: nat, cx: nat, cy: nat, ex: nat, ey: nat)
    requires cx < nx && ex < nx && cy * nx + cx == ey * nx + ex
    ensures cx == ex && cy == ey
  {
    if cy < ey { RowGap(nx, cy, ey); } else if ey < cy { RowGap(nx, ey, cy); }
  }

  lemma RowGap(nx: nat, a: nat, b: nat)
    requires a < b
    ensures a * nx + nx <= b * nx
  {
    assert (a + 1) * nx <= b * nx;
    assert (a + 1) * nx == a * nx + nx;
  }

  /** The index of the cell of every sample. */
  function CellsOf(g: Grid, sx: seq<real>, sy: seq<real>): (c: seq<nat>)
    requires g.cell > 0.0 && g.nx > 0 && g.ny > 0 && |sx| == |sy|
    ensures |c| == |sx|
  {
    seq(|sx|, i requires 0 <= i < |sx| => CellY(g, sy[i]) * g.nx + CellX(g, sx[i]))
  }

  /** The index of the samples: every sample lies on the grid and the cells are packed. */
  ghost predicate IsGrid(g: Grid, sx: seq<real>, sy: seq<real>) {
    && g.cell > 0.0 && g.nx > 0 && g.ny > 0 && |sx| == |sy|
    && (forall k: int :: Peek(k) ==> IndexOf(g, sx, sy))
  }

  ghost predicate IndexOf(g: Grid, sx: seq<real>, sy: seq<real>)
    requires g.cell > 0.0 && g.nx > 0 && g.ny > 0 && |sx| == |sy|
  {
    && (forall i :: 0 <= i < |sx| ==> OnAxis(sx[i], g.minx, g.cell, g.nx) && OnAxis(sy[i], g.miny, g.cell, g.ny))
    && Packed(CellsOf(g, sx, sy), g.nx * g.ny, g.start, g.items)
  }

  /** IsGrid is folded; mentioning Peek opens it. */
  ghost predicate Peek(k: int) { true }

  function MinOf(v: seq<real>): (m: real)
    requires v != []
    ensures m in v && forall i :: 0 <= i < |v| ==> m <= v[i]
  {
    if |v| == 1 then v[0]
    else
      var m, last := MinOf(v[..|v| - 1]), v[|v| - 1];
      if last < m then last else m
  }

  function MaxOf(v: seq<real>): (m: real)
    requires v != []
    ensures m in v && forall i :: 0 <= i < |v| ==> v[i] <= m
  {
    if |v| == 1 then v[0]
    else
      var m, last := MaxOf(v[..|v| - 1]), v[|v| - 1];
      if last > m then last else m
  }

  /** The extent of the samples along an axis; one if they all coincide. */
  function Span(lo: real, hi: real): (w: real)
    ensures w > 0.0
  {
    if hi - lo <= 0.0 then 1.0 else hi - lo
  }

  function SpanOf(v: seq<real>): (w: real)
    requires v != []
    ensures w > 0.0
  {
    Span(MinOf(v), MaxOf(v))
  }

  method Bounds(v: seq<real>) returns (lo: real, hi: real)
    requires v != []
    ensures lo == MinOf(v) && hi == MaxOf(v)
  {
    lo, hi := v[0], v[0];
    for i := 1 to |v|
      invariant lo == MinOf(v[..i]) && hi == MaxOf(v[..i])
    {
      assert v[..i + 1][..i] == v[..i];
      if v[i] < lo { lo := v[i]; }
      if v[i] > hi { hi := v[i]; }
    }
    assert v[..|v|] == v;
  }

  lemma {:induction false} TruncateMonotone(a: real, b: real)
    requires 0.0 <= a <= b
    ensures 0 <= Truncate(a) <= Truncate(b)
  {
    FloorBounds(a);
    FloorBounds(b);
  }

  lemma SampleOnAxis(v: seq<real>, i: nat, cell: real)
    requires i < |v| && cell > 0.0
    ensures Truncate(SpanOf(v) / cell) >= 0
    ensures OnAxis(v[i], MinOf(v), cell, Truncate(SpanOf(v) / cell) + 1)
  {
    OnAxisWithin(v[i], MinOf(v), SpanOf(v), cell);
  }

  lemma OnAxisWithin(x: real, lo: real, w: real, cell: real)
    requires lo <= x <= lo + w && cell > 0.0
    ensures Truncate(w / cell) >= 0 && OnAxis(x, lo, cell, Truncate(w / cell) + 1)
  {
    var a, b := (x - lo) / cell, w / cell;
    QuotientFacts(x - lo, cell);
    QuotientOrder(x - lo, w, cell);
    TruncateMonotone(a, b);
  }

  lemma AllOnAxis(v: seq<real>, cell: real)
    requires v != [] && cell > 0.0
    ensures Truncate(SpanOf(v) / cell) >= 0
    ensures forall i :: 0 <= i < |v| ==> OnAxis(v[i], MinOf(v), cell, Truncate(SpanOf(v) / cell) + 1)
  {
    SampleOnAxis(v, 0, cell);
    forall i | 0 <= i < |v| ensures OnAxis(v[i], MinOf(v), cell, Truncate(SpanOf(v) / cell) + 1) {
      SampleOnAxis(v, i, cell);
    }
  }

  lemma CellKeys(g: Grid, sx: seq<real>, sy: seq<real>)
    requires g.cell > 0.0 && g.nx > 0 && g.ny > 0 && |sx| == |sy|
    ensures Keys(CellsOf(g, sx, sy), g.nx * g.ny)
  {
    forall i | 0 <= i < |sx| ensures CellsOf(g, sx, sy)[i] < g.nx * g.ny {
      IndexInRange(g.nx, g.ny, CellX(g, sx[i]), CellY(g, sy[i]));
    }
  }

  /** Packs the samples of a grid whose origin and cells are known. */
  method Fill(sx: seq<real>, sy: seq<real>, frame: Grid) returns (g: Grid)
    requires frame.cell > 0.0 && frame.nx > 0 && frame.ny > 0 && |sx| == |sy|
    requires forall i :: 0 <= i < |sx| ==>
               OnAxis(sx[i], frame.minx, frame.cell, frame.nx) && OnAxis(sy[i], frame.miny, frame.cell, frame.ny)
    ensures IsGrid(g, sx, sy) && g == frame.(start := g.start, items := g.items)
  {
    CellKeys(frame, sx, sy);
    var start, items := Pack(CellsOf(frame, sx, sy), frame.nx * frame.ny);
    g := frame.(start := start, items := items);
    assert CellsOf(g, sx, sy) == CellsOf(frame, sx, sy);
  }

  lemma QuotientOrder(a: real, b: real, m: real)
    requires a <= b && m > 0.0
    ensures a / m <= b / m
  {
    DivideMultiply(a, m);
    DivideMultiply(b, m);
    CancelFactor(a / m, b / m, m);
  }

  /** The cell area is the mean area per sample: cell is the square root of w h / n. */
  ghost predicate IsCellSize(cell: real, w: real, h: real, n: nat) {
    cell * cell * n as real == w * h
  }

  /** There are hardly more cells than samples. */
  ghost predicate CellsBounded(nx: nat, ny: nat, n: nat, w: real, h: real, cell: real)
    requires cell > 0.0
  {
    (nx * ny) as real <= n as real + (w + h) / cell + 1.0
  }

  /** Builds the index. The cell size is the square root of the mean area per sample. */
  method Build(sx: seq<real>, sy: seq<real>, cell: real) returns (status: int, g: Grid)
    requires |sx| == |sy|
    requires sx != [] ==> cell > 0.0 && IsCellSize(cell, SpanOf(sx), SpanOf(sy), |sx|)
    ensures status == if sx == [] then -1 else 0
    ensures status == 0 ==> IsGrid(g, sx, sy) && g.cell == cell
    ensures status == 0 ==> CellsBounded(g.nx, g.ny, |sx|, SpanOf(sx), SpanOf(sy), cell)
  {
    if sx == [] {
      return -1, Grid(0, 0, 0.0, 0.0, 0.0, [], []);
    }
    var mnx, mxx := Bounds(sx);
    var mny, mxy := Bounds(sy);
    var w, h := Span(mnx, mxx), Span(mny, mxy);
    AllOnAxis(sx, cell);
    AllOnAxis(sy, cell);
    CellCount(w, h, cell, |sx|);
    var nx, ny := Truncate(w / cell) + 1, Truncate(h / cell) + 1;
    g := Fill(sx, sy, Grid(nx, ny, mnx, mny, cell, [], []));
    status := 0;
  }

  /** The number of cells is about the number of samples. */
  lemma CellCount(w: real, h: real, cell: real, n: nat)
    requires w > 0.0 && h > 0.0 && cell > 0.0 && IsCellSize(cell, w, h, n)
    ensures Truncate(w / cell) >= 0 && Truncate(h / cell) >= 0
    ensures CellsBounded(Truncate(w / cell) + 1, Truncate(h / cell) + 1, n, w, h, cell)
  {
    var a, b := w / cell, h / cell;
    QuotientFacts(w, cell);
    QuotientFacts(h, cell);
    FloorBounds(a);
    FloorBounds(b);
    AreaQuotient(w, h, cell, n);
    SumQuotient(w, h, cell);
    CountBound(Truncate(a) + 1, Truncate(b) + 1, a, b, n as real, (w + h) / cell);
  }

  lemma CountBound(p: nat, q: nat, a: real, b: real, n: real, sum: real)
    requires p as real <= a + 1.0 && q as real <= b + 1.0 && a * b == n && a + b == sum
    ensures (p * q) as real <= n + sum + 1.0
  {
    ProductBound(p, q, a + 1.0, b + 1.0);
    assert (a + 1.0) * (b + 1.0) == a * b + a + b + 1.0;
  }

  lemma ProductBound(p: nat, q: nat, a: real, b: real)
    requires p as real <= a && q as real <= b
    ensures (p * q) as real <= a * b
  {
    MulMonotone(p as real, a, q as real);
    MulMonotone(q as real, b, a);
    assert (p * q) as real == p as real * q as real;
    assert q as real * a == a * q as real;
    assert b * a == a * b;
  }

  lemma AreaQuotient(w: real, h: real, cell: real, n: nat)
    requires cell > 0.0 && IsCellSize(cell, w, h, n)
    ensures (w / cell) * (h / cell) == n as real
  {
    var a, b, m := w / cell, h / cell, n as real;
    DivideMultiply(w, cell);
    DivideMultiply(h, cell);
    calc {
      (a * b) * cell * cell;
      (a * cell) * (b * cell);
      w * h;
      m * cell * cell;
    }
    CancelFactor((a * b) * cell, m * cell, cell);
    CancelFactor(a * b, m, cell);
  }

  lemma SumQuotient(w: real, h: real, cell: real)
    requires cell > 0.0
    ensures w / cell + h / cell == (w + h) / cell
  {
    DivideMultiply(w, cell);
    DivideMultiply(h, cell);
    DivideMultiply(w + h, cell);
    assert (w / cell + h / cell) * cell == w + h;
    CancelFactor(w / cell + h / cell, (w + h) / cell, cell);
  }
}
