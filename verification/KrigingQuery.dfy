/**
 The exact nearest-neighbour query: square rings of cells around the query's home cell
 are scanned until no nearer sample can remain outside them.
 */
module KrigingQuery {
  import opened RealMath
  import opened CountingSort
  import opened KrigingKnn
  import opened KrigingGrid

  ghost function DistancesTo(sx: seq<real>, sy: seq<real>, qx: real, qy: real): (d: seq<real>)
    requires |sx| == |sy|
    ensures |d| == |sx|
  {
    seq(|sx|, i requires 0 <= i < |sx| => SquaredDistance(sx[i], sy[i], qx, qy))
  }

  // ----- the order in which cells are visited -----

  function Distance(a: int, b: int): nat { if a < b then b - a else a - b }

  /** The ring of cell (x, y) around cell (hx, hy). */
  function Ring(hx: int, hy: int, x: int, y: int): nat {
    var dx, dy := Distance(hx, x), Distance(hy, y);
    if dx < dy then dy else dx
  }

  /** The cells before (cx, cy) when ring r is scanned row by row, after all smaller rings. */
  predicate Visited(hx: int, hy: int, r: nat, cx: int, cy: int, x: int, y: int) {
    var k := Ring(hx, hy, x, y);
    k < r || (k == r && (y < cy || (y == cy && x < cx)))
  }

  /** The samples in the cells visited so far; column and row of each sample are given. */
  ghost function SeenSamples(cols: seq<nat>, rows: seq<nat>, hx: int, hy: int, r: nat, cx: int, cy: int): set<nat>
    requires |cols| == |rows|
  {
    set s | 0 <= s < |cols| && Visited(hx, hy, r, cx, cy, cols[s], rows[s])
  }

  ghost function SamplesIn(cols: seq<nat>, rows: seq<nat>, x: int, y: int): set<nat>
    requires |cols| == |rows|
  {
    set s | 0 <= s < |cols| && cols[s] == x && rows[s] == y
  }

  ghost function SamplesWithin(cols: seq<nat>, rows: seq<nat>, hx: int, hy: int, r: nat): set<nat>
    requires |cols| == |rows|
  {
    set s | 0 <= s < |cols| && Ring(hx, hy, cols[s], rows[s]) < r
  }

  /** Before the first cell of ring r exactly the smaller rings have been seen. */
  lemma RingStart(cols: seq<nat>, rows: seq<nat>, hx: int, hy: int, r: nat)
    requires |cols| == |rows|
    ensures SeenSamples(cols, rows, hx, hy, r, hx - r, hy - r) == SamplesWithin(cols, rows, hx, hy, r)
  {
  }

  /** After its last row, ring r has been seen as well. */
  lemma RingEnd(cols: seq<nat>, rows: seq<nat>, hx: int, hy: int, r: nat)
    requires |cols| == |rows|
    ensures SeenSamples(cols, rows, hx, hy, r, hx - r, hy + r + 1) == SamplesWithin(cols, rows, hx, hy, r + 1)
  {
  }

  /** The end of one row is the start of the next. */
  lemma RowEnd(cols: seq<nat>, rows: seq<nat>, hx: int, hy: int, r: nat, cy: int)
    requires |cols| == |rows|
    ensures SeenSamples(cols, rows, hx, hy, r, hx + r + 1, cy) == SeenSamples(cols, rows, hx, hy, r, hx - r, cy + 1)
  {
  }

  /** A cell of ring r adds its samples, none of which has been seen before. */
  lemma CellStep(cols: seq<nat>, rows: seq<nat>, hx: int, hy: int, r: nat, cx: int, cy: int)
    requires |cols| == |rows| && Ring(hx, hy, cx, cy) == r
    ensures SeenSamples(cols, rows, hx, hy, r, cx + 1, cy) ==
            SeenSamples(cols, rows, hx, hy, r, cx, cy) + SamplesIn(cols, rows, cx, cy)
    ensures SeenSamples(cols, rows, hx, hy, r, cx, cy) !! SamplesIn(cols, rows, cx, cy)
  {
  }

  /** A cell without samples, or one of a smaller ring, adds nothing. */
  lemma CellSkip(cols: seq<nat>, rows: seq<nat>, hx: int, hy: int, r: nat, cx: int, cy: int)
    requires |cols| == |rows|
    requires Ring(hx, hy, cx, cy) < r || SamplesIn(cols, rows, cx, cy) == {}
    ensures SeenSamples(cols, rows, hx, hy, r, cx + 1, cy) == SeenSamples(cols, rows, hx, hy, r, cx, cy)
  {
    forall s | s in SeenSamples(cols, rows, hx, hy, r, cx + 1, cy)
      ensures s in SeenSamples(cols, rows, hx, hy, r, cx, cy)
    {
      if cols[s] == cx && rows[s] == cy { assert s in SamplesIn(cols, rows, cx, cy); }
    }
  }

  /** So does a whole row outside the grid. */
  lemma RowSkip(cols: seq<nat>, rows: seq<nat>, hx: int, hy: int, r: nat, cy: int)
    requires |cols| == |rows| && forall s :: 0 <= s < |rows| ==> rows[s] != cy
    ensures SeenSamples(cols, rows, hx, hy, r, hx - r, cy) == SeenSamples(cols, rows, hx, hy, r, hx - r, cy + 1)
  {
  }

  // ----- scanning -----

  ghost function ColsOf(g: Grid, sx: seq<real>): (c: seq<nat>)
    requires g.cell > 0.0 && g.nx > 0
    ensures |c| == |sx|
  {
    seq(|sx|, i requires 0 <= i < |sx| => CellX(g, sx[i]))
  }

  ghost function RowsOf(g: Grid, sy: seq<real>): (c: seq<nat>)
    requires g.cell > 0.0 && g.ny > 0
    ensures |c| == |sy|
  {
    seq(|sy|, i requires 0 <= i < |sy| => CellY(g, sy[i]))
  }

  /** The query and the samples as the scan sees them: the column and row of every sample
      and its squared distance. Folded; only the leaves of the scan open it. */
  ghost predicate Located(g: Grid, sx: seq<real>, sy: seq<real>, qx: real, qy: real, v: View) {
    && IsGrid(g, sx, sy)
    && |v.cols| == |v.rows| == |v.dist| == |sx|
    && (forall s :: 0 <= s < |sx| ==> v.cols[s] < g.nx && v.rows[s] < g.ny)
    && (forall k: int :: KrigingGrid.Peek(k) ==> v == ViewOf(g, sx, sy, qx, qy))
  }

  datatype View = View(cols: seq<nat>, rows: seq<nat>, dist: seq<real>)

  ghost function ViewOf(g: Grid, sx: seq<real>, sy: seq<real>, qx: real, qy: real): View
    requires g.cell > 0.0 && g.nx > 0 && g.ny > 0 && |sx| == |sy|
  {
    View(ColsOf(g, sx), RowsOf(g, sy), DistancesTo(sx, sy, qx, qy))
  }

  lemma Locate(g: Grid, sx: seq<real>, sy: seq<real>, qx: real, qy: real) returns (v: View)
    requires IsGrid(g, sx, sy)
    ensures Located(g, sx, sy, qx, qy, v) && v.dist == DistancesTo(sx, sy, qx, qy)
  {
    v := ViewOf(g, sx, sy, qx, qy);
  }

  /** The packed slice of a cell is the list of its samples. */
  lemma CellSlice(g: Grid, sx: seq<real>, sy: seq<real>, qx: real, qy: real, v: View, cx: nat, cy: nat, ci: nat)
    requires Located(g, sx, sy, qx, qy, v) && cx < g.nx && cy < g.ny && ci == cy * g.nx + cx
    ensures ci + 1 < |g.start| && g.start[ci] <= g.start[ci + 1] <= |g.items|
    ensures var b := g.items[g.start[ci]..g.start[ci + 1]];
            && IdSet(b) == SamplesIn(v.cols, v.rows, cx, cy)
            && (forall s, t :: 0 <= s < t < |b| ==> b[s] < b[t])
  {
    var cells := CellsOf(g, sx, sy);
    IndexInRange(g.nx, g.ny, cx, cy);
    assert KrigingGrid.Peek(0);
    assert PackedAt(cells, g.start, g.items, ci);
    BucketContents(cells, ci, |cells|);
    forall i | 0 <= i < |sx|
      ensures cells[i] == ci <==> v.cols[i] == cx && v.rows[i] == cy
    {
      if cells[i] == ci { IndexUnique(g.nx, CellX(g, sx[i]), CellY(g, sy[i]), cx, cy); }
    }
  }

  ghost function IdSet(ids: seq<nat>): set<nat> { set i | i in ids }

  /** Tests every listed sample against the query. */
  method ScanItems(sx: seq<real>, sy: seq<real>, qx: real, qy: real, kn: Accumulator, ids: seq<nat>,
                   ghost seen: set<nat>, ghost dist: seq<real>)
    requires |sx| == |sy| && dist == DistancesTo(sx, sy, qx, qy) && kn.Keeps(seen, dist)
    requires forall i :: 0 <= i < |ids| ==> ids[i] < |sx| && ids[i] !in seen
    requires forall i, j :: 0 <= i < j < |ids| ==> ids[i] < ids[j]
    modifies kn, kn.idx, kn.d2
    ensures kn.Keeps(seen + IdSet(ids), dist)
  {
    ghost var done := seen;
    for t := 0 to |ids|
      invariant done == seen + IdSet(ids[..t])
      invariant kn.Keeps(done, dist)
    {
      var id := ids[t];
      assert id !in done;
      assert ids[..t + 1] == ids[..t] + [id];
      kn.Consider(id, SquaredDistance(sx[id], sy[id], qx, qy), done, dist);
      done := done + {id};
    }
    assert ids[..|ids|] == ids;
  }

  /** Scans one cell. */
  method ScanCell(g: Grid, sx: seq<real>, sy: seq<real>, qx: real, qy: real, kn: Accumulator, cx: nat, cy: nat,
                  ghost seen: set<nat>, ghost v: View)
    requires Located(g, sx, sy, qx, qy, v) && cx < g.nx && cy < g.ny
    requires kn.Keeps(seen, v.dist) && seen !! SamplesIn(v.cols, v.rows, cx, cy)
    modifies kn, kn.idx, kn.d2
    ensures kn.Keeps(seen + SamplesIn(v.cols, v.rows, cx, cy), v.dist)
  {
    var ci := cy * g.nx + cx;
    CellSlice(g, sx, sy, qx, qy, v, cx, cy, ci);
    var ids := g.items[g.start[ci]..g.start[ci + 1]];
    forall i | 0 <= i < |ids| ensures ids[i] < |sx| && ids[i] !in seen {
      assert ids[i] in SamplesIn(v.cols, v.rows, cx, cy) by { assert ids[i] in IdSet(ids); }
    }
    assert v.dist == DistancesTo(sx, sy, qx, qy) by { assert KrigingGrid.Peek(0); }
    ScanItems(sx, sy, qx, qy, kn, ids, seen, v.dist);
  }

  /** The accumulator holds the nearest of the samples seen before cell (cx, cy) of ring r.
      Folded; opened with Glance. */
  ghost predicate Scanned(kn: Accumulator, v: View, hx: int, hy: int, r: nat, cx: int, cy: int)
    reads kn, kn.idx, kn.d2
  {
    && |v.cols| == |v.rows|
    && (forall k: int :: Glance(k) ==> kn.Keeps(SeenSamples(v.cols, v.rows, hx, hy, r, cx, cy), v.dist))
  }

  ghost predicate Glance(k: int) { true }

  /** Scans cell (cx, cy) if it is on the grid and on ring r, and moves to the next column. */
  method VisitCell(g: Grid, sx: seq<real>, sy: seq<real>, qx: real, qy: real, kn: Accumulator,
                   hx: nat, hy: nat, r: nat, cx: int, cy: nat, ghost v: View) returns (next: int)
    requires Located(g, sx, sy, qx, qy, v) && cy < g.ny && hy - r <= cy <= hy + r && hx - r <= cx <= hx + r
    requires Scanned(kn, v, hx, hy, r, cx, cy)
    modifies kn, kn.idx, kn.d2
    ensures next == cx + 1 && Scanned(kn, v, hx, hy, r, next, cy)
  {
    next := cx + 1;
    if cx < 0 || cx >= g.nx {
      assert SamplesIn(v.cols, v.rows, cx, cy) == {};
      CellSkipped(kn, v, hx, hy, r, cx, cy, next);
    } else if r > 0 && cx > hx - r && cx < hx + r && cy > hy - r && cy < hy + r {
      CellSkipped(kn, v, hx, hy, r, cx, cy, next);
    } else {
      ScanOnRing(g, sx, sy, qx, qy, kn, hx, hy, r, cx, cy, next, v);
    }
  }

  lemma CellSkipped(kn: Accumulator, v: View, hx: int, hy: int, r: nat, cx: int, cy: int, next: int)
    requires |v.cols| == |v.rows| && next == cx + 1 && Scanned(kn, v, hx, hy, r, cx, cy)
    requires Ring(hx, hy, cx, cy) < r || SamplesIn(v.cols, v.rows, cx, cy) == {}
    ensures Scanned(kn, v, hx, hy, r, next, cy)
  {
    assert Glance(0);
    CellSkip(v.cols, v.rows, hx, hy, r, cx, cy);
  }

  /** Scans a cell that is on ring r. */
  method ScanOnRing(g: Grid, sx: seq<real>, sy: seq<real>, qx: real, qy: real, kn: Accumulator,
                    hx: nat, hy: nat, r: nat, cx: nat, cy: nat, ghost next: int, ghost v: View)
    requires Located(g, sx, sy, qx, qy, v) && cx < g.nx && cy < g.ny && Ring(hx, hy, cx, cy) == r && next == cx + 1
    requires Scanned(kn, v, hx, hy, r, cx, cy)
    modifies kn, kn.idx, kn.d2
    ensures Scanned(kn, v, hx, hy, r, next, cy)
  {
    assert Glance(0);
    CellStep(v.cols, v.rows, hx, hy, r, cx, cy);
    ScanCell(g, sx, sy, qx, qy, kn, cx, cy, SeenSamples(v.cols, v.rows, hx, hy, r, cx, cy), v);
  }

  /** Scans the cells of ring r in row cy. */
  method ScanRow(g: Grid, sx: seq<real>, sy: seq<real>, qx: real, qy: real, kn: Accumulator,
                 hx: nat, hy: nat, r: nat, cy: nat, ghost v: View)
    requires Located(g, sx, sy, qx, qy, v) && cy < g.ny && hy - r <= cy <= hy + r
    requires Scanned(kn, v, hx, hy, r, hx - r, cy)
    modifies kn, kn.idx, kn.d2
    ensures Scanned(kn, v, hx, hy, r, hx - r, cy + 1)
  {
    var first, end := hx - r, hx + r + 1;
    var cx := first;
    while cx < end
      invariant first <= cx <= end
      invariant Scanned(kn, v, hx, hy, r, cx, cy)
    {
      cx := VisitCell(g, sx, sy, qx, qy, kn, hx, hy, r, cx, cy, v);
    }
    RowDone(kn, v, hx, hy, r, cx, cy);
  }

  lemma RowDone(kn: Accumulator, v: View, hx: int, hy: int, r: nat, end: int, cy: int)
    requires |v.cols| == |v.rows| && end == hx + r + 1 && Scanned(kn, v, hx, hy, r, end, cy)
    ensures Scanned(kn, v, hx, hy, r, hx - r, cy + 1)
  {
    assert Glance(0);
    RowEnd(v.cols, v.rows, hx, hy, r, cy);
  }

  lemma RingBegun(kn: Accumulator, v: View, hx: int, hy: int, r: nat)
    requires |v.cols| == |v.rows| && kn.Keeps(SamplesWithin(v.cols, v.rows, hx, hy, r), v.dist)
    ensures Scanned(kn, v, hx, hy, r, hx - r, hy - r)
  {
    RingStart(v.cols, v.rows, hx, hy, r);
  }

  lemma RingDone(kn: Accumulator, v: View, hx: int, hy: int, r: nat, end: int)
    requires |v.cols| == |v.rows| && end == hy + r + 1 && Scanned(kn, v, hx, hy, r, hx - r, end)
    ensures kn.Keeps(SamplesWithin(v.cols, v.rows, hx, hy, r + 1), v.dist)
  {
    assert Glance(0);
    RingEnd(v.cols, v.rows, hx, hy, r);
  }

  lemma RowSkipped(kn: Accumulator, v: View, hx: int, hy: int, r: nat, cy: int)
    requires |v.cols| == |v.rows| && (forall s :: 0 <= s < |v.rows| ==> v.rows[s] != cy)
    requires Scanned(kn, v, hx, hy, r, hx - r, cy)
    ensures Scanned(kn, v, hx, hy, r, hx - r, cy + 1)
  {
    assert Glance(0);
    RowSkip(v.cols, v.rows, hx, hy, r, cy);
  }

  /** Scans ring r. */
  method ScanRing(g: Grid, sx: seq<real>, sy: seq<real>, qx: real, qy: real, kn: Accumulator,
                  hx: nat, hy: nat, r: nat, ghost v: View)
    requires Located(g, sx, sy, qx, qy, v)
    requires kn.Keeps(SamplesWithin(v.cols, v.rows, hx, hy, r), v.dist)
    modifies kn, kn.idx, kn.d2
    ensures kn.Keeps(SamplesWithin(v.cols, v.rows, hx, hy, r + 1), v.dist)
  {
    RingBegun(kn, v, hx, hy, r);
    var cy := hy - r;
    while cy < hy + r + 1
      invariant hy - r <= cy <= hy + r + 1
      invariant Scanned(kn, v, hx, hy, r, hx - r, cy)
    {
      cy := VisitRow(g, sx, sy, qx, qy, kn, hx, hy, r, cy, v);
    }
    RingDone(kn, v, hx, hy, r, cy);
  }

  /** Scans row cy of ring r if it is on the grid, and moves to the next row. */
  method VisitRow(g: Grid, sx: seq<real>, sy: seq<real>, qx: real, qy: real, kn: Accumulator,
                  hx: nat, hy: nat, r: nat, cy: int, ghost v: View) returns (next: int)
    requires Located(g, sx, sy, qx, qy, v) && hy - r <= cy <= hy + r && Scanned(kn, v, hx, hy, r, hx - r, cy)
    modifies kn, kn.idx, kn.d2
    ensures next == cy + 1 && Scanned(kn, v, hx, hy, r, hx - r, next)
  {
    next := cy + 1;
    if cy < 0 || cy >= g.ny {
      RowSkipped(kn, v, hx, hy, r, cy);
    } else {
      ScanRow(g, sx, sy, qx, qy, kn, hx, hy, r, cy, v);
    }
  }

  // ----- when to stop -----

  /** The two coordinates are at least r cells apart. Folded; opened by Glance. */
  ghost predicate FarBetween(a: real, b: real, r: nat, cell: real) {
    forall k: int :: Glance(k) ==> Square(a - b) >= Square(r as real * cell)
  }

  /** A sample outside the first r + 1 rings is at least r cells away. */
  lemma FarOutside(g: Grid, sx: seq<real>, sy: seq<real>, qx: real, qy: real, v: View, r: nat, s: nat)
    requires Located(g, sx, sy, qx, qy, v) && s < |sx|
    requires Ring(CellX(g, qx), CellY(g, qy), v.cols[s], v.rows[s]) > r
    ensures v.dist[s] >= Square(r as real * g.cell)
  {
    if Distance(CellX(g, qx), v.cols[s]) > r {
      FarColumn(g, sx, sy, qx, qy, v, r, s);
    } else {
      FarRow(g, sx, sy, qx, qy, v, r, s);
    }
    SampleDistance(g, sx, sy, qx, qy, v, r, s);
  }

  lemma FarColumn(g: Grid, sx: seq<real>, sy: seq<real>, qx: real, qy: real, v: View, r: nat, s: nat)
    requires Located(g, sx, sy, qx, qy, v) && s < |sx|
    requires Distance(CellX(g, qx), v.cols[s]) > r
    ensures FarBetween(sx[s], qx, r, g.cell)
  {
    ColumnApart(g, sx, sy, qx, qy, v, r, s);
    FarAlong(qx, sx[s], g.minx, g.cell, g.nx, r);
  }

  lemma FarRow(g: Grid, sx: seq<real>, sy: seq<real>, qx: real, qy: real, v: View, r: nat, s: nat)
    requires Located(g, sx, sy, qx, qy, v) && s < |sx|
    requires Distance(CellY(g, qy), v.rows[s]) > r
    ensures FarBetween(sy[s], qy, r, g.cell)
  {
    RowApart(g, sx, sy, qx, qy, v, r, s);
    FarAlong(qy, sy[s], g.miny, g.cell, g.ny, r);
  }

  lemma SampleDistance(g: Grid, sx: seq<real>, sy: seq<real>, qx: real, qy: real, v: View, r: nat, s: nat)
    requires Located(g, sx, sy, qx, qy, v) && s < |sx|
    requires FarBetween(sx[s], qx, r, g.cell) || FarBetween(sy[s], qy, r, g.cell)
    ensures v.dist[s] >= Square(r as real * g.cell)
  {
    FarDistance(sx[s], sy[s], qx, qy, r, g.cell);
    assert v.dist[s] == SquaredDistance(sx[s], sy[s], qx, qy) by { assert KrigingGrid.Peek(0); }
  }

  lemma FarDistance(x: real, y: real, qx: real, qy: real, r: nat, cell: real)
    requires FarBetween(x, qx, r, cell) || FarBetween(y, qy, r, cell)
    ensures SquaredDistance(x, y, qx, qy) >= Square(r as real * cell)
  {
    assert Glance(0);
  }

  /** The coordinate v lies on the axis, more than r cells away from the cell of q. */
  ghost predicate CellsApart(q: real, v: real, min: real, cell: real, n: nat, r: nat) {
    cell > 0.0 && n > 0 && OnAxis(v, min, cell, n) && Distance(CellAlong(q, min, cell, n), CellAlong(v, min, cell, n)) > r
  }

  lemma ColumnApart(g: Grid, sx: seq<real>, sy: seq<real>, qx: real, qy: real, v: View, r: nat, s: nat)
    requires Located(g, sx, sy, qx, qy, v) && s < |sx| && Distance(CellX(g, qx), v.cols[s]) > r
    ensures CellsApart(qx, sx[s], g.minx, g.cell, g.nx, r)
  {
    assert KrigingGrid.Peek(0);
  }

  lemma RowApart(g: Grid, sx: seq<real>, sy: seq<real>, qx: real, qy: real, v: View, r: nat, s: nat)
    requires Located(g, sx, sy, qx, qy, v) && s < |sx| && Distance(CellY(g, qy), v.rows[s]) > r
    ensures CellsApart(qy, sy[s], g.miny, g.cell, g.ny, r)
  {
    assert KrigingGrid.Peek(0);
  }

  lemma FarAlong(q: real, v: real, min: real, cell: real, n: nat, r: nat)
    requires CellsApart(q, v, min, cell, n, r)
    ensures FarBetween(v, q, r, cell)
  {
    RingGap(q, v, min, cell, n, r);
    MulSign(r as real, cell);
    FarSquared(v - q, r as real * cell);
  }

  lemma FarSquared(u: real, gap: real)
    requires gap >= 0.0 && (u >= gap || -u >= gap)
    ensures Square(u) >= Square(gap)
  {
    if u >= gap { SquareMonotone(gap, u); } else { SquareMonotone(gap, -u); SquareNegate(u); }
  }

  ghost function AllIds(n: nat): (r: set<nat>)
    ensures forall i: nat :: i in r <==> i < n
  {
    if n == 0 then {} else AllIds(n - 1) + {n - 1}
  }

  /** The rings up to nx + ny cover the grid. */
  lemma AllWithin(g: Grid, cols: seq<nat>, rows: seq<nat>, hx: nat, hy: nat)
    requires |cols| == |rows| && hx < g.nx && hy < g.ny
    requires forall s :: 0 <= s < |cols| ==> cols[s] < g.nx && rows[s] < g.ny
    ensures SamplesWithin(cols, rows, hx, hy, g.nx + g.ny + 1) == AllIds(|cols|)
  {
  }

  /** Once the bound of ring r reaches the last distance kept, nothing nearer remains. */
  lemma StopIsExact(g: Grid, sx: seq<real>, sy: seq<real>, qx: real, qy: real, v: View, r: nat,
                    l: seq<Entry>, cap: nat)
    requires Located(g, sx, sy, qx, qy, v) && |l| == cap > 0
    requires Nearest(l, cap, SamplesWithin(v.cols, v.rows, CellX(g, qx), CellY(g, qy), r + 1), v.dist)
    requires Square(r as real * g.cell) >= l[cap - 1].d2
    ensures Nearest(l, cap, AllIds(|sx|), v.dist)
  {
    var seen := SamplesWithin(v.cols, v.rows, CellX(g, qx), CellY(g, qy), r + 1);
    forall s | s in AllIds(|sx|) && s !in seen ensures v.dist[s] >= l[cap - 1].d2 {
      FarOutside(g, sx, sy, qx, qy, v, r, s);
    }
    NearestOfAll(l, cap, seen, AllIds(|sx|), v.dist);
  }

  /** Finds the nearest samples to the query, exactly: in ascending order, without
      repetition, as many as there is room for, and none left out is strictly nearer. */
  method Query(g: Grid, sx: seq<real>, sy: seq<real>, qx: real, qy: real, kn: Accumulator)
    requires IsGrid(g, sx, sy) && kn.Valid() && kn.Cap() > 0
    modifies kn, kn.idx, kn.d2
    ensures kn.Valid() && Nearest(kn.Entries(), kn.Cap(), AllIds(|sx|), DistancesTo(sx, sy, qx, qy))
  {
    ghost var v := Locate(g, sx, sy, qx, qy);
    kn.Reset(v.dist);
    var hx, hy := CellX(g, qx), CellY(g, qy);
    assert SamplesWithin(v.cols, v.rows, hx, hy, 0) == {};
    var maxr := g.nx + g.ny;
    for r := 0 to maxr + 1
      invariant kn.Keeps(SamplesWithin(v.cols, v.rows, hx, hy, r), v.dist)
    {
      ScanRing(g, sx, sy, qx, qy, kn, hx, hy, r, v);
      var stop := Enough(g, sx, sy, qx, qy, kn, r, v);
      if stop { return; }
    }
    AllDone(g, kn, v, hx, hy);
  }

  lemma AllDone(g: Grid, kn: Accumulator, v: View, hx: nat, hy: nat)
    requires |v.cols| == |v.rows| && hx < g.nx && hy < g.ny
    requires forall s :: 0 <= s < |v.cols| ==> v.cols[s] < g.nx && v.rows[s] < g.ny
    requires kn.Keeps(SamplesWithin(v.cols, v.rows, hx, hy, g.nx + g.ny + 1), v.dist)
    ensures Nearest(kn.Entries(), kn.Cap(), AllIds(|v.cols|), v.dist)
  {
    AllWithin(g, v.cols, v.rows, hx, hy);
    kn.Contents(AllIds(|v.cols|), v.dist);
  }

  /** The test after ring r. */
  method Enough(g: Grid, sx: seq<real>, sy: seq<real>, qx: real, qy: real, kn: Accumulator, r: nat, ghost v: View)
    returns (stop: bool)
    requires Located(g, sx, sy, qx, qy, v)
    requires kn.Keeps(SamplesWithin(v.cols, v.rows, CellX(g, qx), CellY(g, qy), r + 1), v.dist)
    ensures stop ==> kn.Valid() && Nearest(kn.Entries(), kn.Cap(), AllIds(|sx|), v.dist)
  {
    if kn.count >= kn.d2.Length {
      var bound := r as real * g.cell;
      if Square(bound) >= kn.d2[kn.count - 1] {
        kn.Contents(SamplesWithin(v.cols, v.rows, CellX(g, qx), CellY(g, qy), r + 1), v.dist);
        StopIsExact(g, sx, sy, qx, qy, v, r, kn.Entries(), kn.Cap());
        return true;
      }
    }
    return false;
  }
}
