/**
 Separable blur: one pass along the rows into a temporary raster, one along its columns
 back into the raster. Together they are the two-dimensional convolution.
 */
module GaussianBlur {
  import opened RealMath

  type Rows = seq<seq<real>>

  predicate IsGrid(rows: Rows, width: nat) { forall y :: 0 <= y < |rows| ==> |rows[y]| == width }

  ghost predicate Holds(a: array2<real>, rows: Rows)
    reads a
  {
    && |rows| == a.Length0 && IsGrid(rows, a.Length1)
    && forall y, x :: 0 <= y < a.Length0 && 0 <= x < a.Length1 ==> a[y, x] == rows[y][x]
  }

  // ----- one dimension -----

  /** Sum of the first n of v[from + i] k[i]. */
  function Window(v: seq<real>, from: nat, k: seq<real>, n: nat): real
    requires n <= |k| && from + n <= |v|
  {
    if n == 0 then 0.0 else Window(v, from, k, n - 1) + Product(v[from + n - 1], k[n - 1])
  }

  function Column(rows: Rows, width: nat, x: nat): (c: seq<real>)
    requires IsGrid(rows, width) && x < width
    ensures |c| == |rows|
  {
    seq(|rows|, y requires 0 <= y < |rows| => rows[y][x])
  }

  predicate Inner(x: int, size: nat, radius: nat) { radius <= x < size - radius }

  /** A row after the first pass: zero near its ends. */
  function RowValue(row: seq<real>, k: seq<real>, radius: nat, x: nat): real
    requires |k| == 2 * radius + 1 && x < |row|
  {
    if Inner(x, |row|, radius) then Window(row, x - radius, k, |k|) else 0.0
  }

  function RowPass(rows: Rows, width: nat, k: seq<real>, radius: nat): (r: Rows)
    requires IsGrid(rows, width) && |k| == 2 * radius + 1
    ensures |r| == |rows| && IsGrid(r, width)
  {
    seq(|rows|, y requires 0 <= y < |rows| => seq(width, x requires 0 <= x < width => RowValue(rows[y], k, radius, x)))
  }

  /** The raster after both passes. */
  function Blurred(rows: Rows, width: nat, k: seq<real>, radius: nat, x: nat, y: nat): real
    requires IsGrid(rows, width) && |k| == 2 * radius + 1 && y < |rows| && x < width
  {
    if Inner(y, |rows|, radius) then Window(Column(RowPass(rows, width, k, radius), width, x), y - radius, k, |k|)
    else rows[y][x]
  }

  // ----- two dimensions -----

  /** Sum over the window of rows[y0 + j][x0 + i] k[j] k[i], for j below n. */
  function Window2(rows: Rows, width: nat, x0: nat, y0: nat, k: seq<real>, n: nat): real
    requires IsGrid(rows, width) && n <= |k| && y0 + n <= |rows| && x0 + |k| <= width
  {
    if n == 0 then 0.0
    else Window2(rows, width, x0, y0, k, n - 1) + WeightedRow(rows[y0 + n - 1], x0, k, k[n - 1], |k|)
  }

  /** Sum of the first n of row[x0 + i] (c k[i]). */
  function WeightedRow(row: seq<real>, x0: nat, k: seq<real>, c: real, n: nat): real
    requires n <= |k| && x0 + n <= |row|
  {
    if n == 0 then 0.0 else WeightedRow(row, x0, k, c, n - 1) + Product(row[x0 + n - 1], Product(c, k[n - 1]))
  }

  lemma ProductSwap(a: real, b: real, c: real)
    ensures Product(Product(a, b), c) == Product(a, Product(c, b))
  {
  }

  lemma ProductSum(a: real, b: real, c: real)
    ensures Product(a + b, c) == Product(a, c) + Product(b, c)
  {
  }

  lemma {:induction false} WeightedRowIsProduct(row: seq<real>, x0: nat, k: seq<real>, c: real, n: nat)
    requires n <= |k| && x0 + n <= |row|
    ensures WeightedRow(row, x0, k, c, n) == Product(Window(row, x0, k, n), c)
  {
    if n > 0 {
      WeightedRowIsProduct(row, x0, k, c, n - 1);
      var w, p := Window(row, x0, k, n - 1), Product(row[x0 + n - 1], k[n - 1]);
      ProductSum(w, p, c);
      ProductSwap(row[x0 + n - 1], k[n - 1], c);
    }
  }

  lemma {:induction false} ColumnOfRows(rows: Rows, width: nat, k: seq<real>, radius: nat, x: nat, y0: nat, n: nat)
    requires IsGrid(rows, width) && |k| == 2 * radius + 1 && Inner(x, width, radius)
    requires n <= |k| && y0 + n <= |rows|
    ensures Window(Column(RowPass(rows, width, k, radius), width, x), y0, k, n) ==
            Window2(rows, width, x - radius, y0, k, n)
  {
    if n > 0 {
      ColumnOfRows(rows, width, k, radius, x, y0, n - 1);
      var row := rows[y0 + n - 1];
      WeightedRowIsProduct(row, x - radius, k, k[n - 1], |k|);
      assert RowPass(rows, width, k, radius)[y0 + n - 1][x] == Window(row, x - radius, k, |k|);
    }
  }

  lemma {:induction false} ZeroColumn(v: seq<real>, from: nat, k: seq<real>, n: nat)
    requires n <= |k| && from + n <= |v| && forall i :: 0 <= i < |v| ==> v[i] == 0.0
    ensures Window(v, from, k, n) == 0.0
  {
    if n > 0 {
      ZeroColumn(v, from, k, n - 1);
      assert Product(0.0, k[n - 1]) == 0.0;
    }
  }

  /** Inside, the blur is the two-dimensional convolution with the product kernel; the left
      and right borders of inner rows become zero; the top and bottom rows stay. */
  lemma BlurIsConvolution(rows: Rows, width: nat, k: seq<real>, radius: nat, x: nat, y: nat)
    requires IsGrid(rows, width) && |k| == 2 * radius + 1 && y < |rows| && x < width
    ensures Blurred(rows, width, k, radius, x, y) ==
            if !Inner(y, |rows|, radius) then rows[y][x]
            else if !Inner(x, width, radius) then 0.0
            else Window2(rows, width, x - radius, y - radius, k, |k|)
  {
    if Inner(y, |rows|, radius) {
      if Inner(x, width, radius) {
        ColumnOfRows(rows, width, k, radius, x, y - radius, |k|);
      } else {
        ZeroColumn(Column(RowPass(rows, width, k, radius), width, x), y - radius, k, |k|);
      }
    }
  }

  // ----- the passes in memory -----

  /** Sums a window of row y of the raster. */
  method AccumulateRow(values: array2<real>, y: nat, from: nat, k: array<real>, ghost rows: Rows) returns (accum: real)
    requires Holds(values, rows) && y < values.Length0 && from + k.Length <= values.Length1
    ensures accum == Window(rows[y], from, k[..], k.Length)
  {
    accum := 0.0;
    for i := 0 to k.Length
      invariant accum == Window(rows[y], from, k[..], i)
    {
      accum := accum + Product(values[y, from + i], k[i]);
    }
  }

  method AccumulateColumn(tmp: array2<real>, x: nat, from: nat, k: array<real>, ghost rows: Rows) returns (accum: real)
    requires Holds(tmp, rows) && x < tmp.Length1 && from + k.Length <= tmp.Length0
    ensures accum == Window(Column(rows, tmp.Length1, x), from, k[..], k.Length)
  {
    accum := 0.0;
    for i := 0 to k.Length
      invariant accum == Window(Column(rows, tmp.Length1, x), from, k[..], i)
    {
      accum := accum + Product(tmp[from + i, x], k[i]);
    }
  }

  /** The first pass, into a temporary raster that starts out as zero. */
  method BlurRows(values: array2<real>, k: array<real>, radius: nat, ghost rows: Rows) returns (tmp: array2<real>)
    requires Holds(values, rows) && k.Length == 2 * radius + 1
    ensures fresh(tmp) && tmp.Length0 == values.Length0 && tmp.Length1 == values.Length1
    ensures Holds(tmp, RowPass(rows, values.Length1, k[..], radius))
  {
    var h, w := values.Length0, values.Length1;
    tmp := new real[h, w]((y, x) => 0.0);
    for y := 0 to h
      invariant forall v, u :: 0 <= v < h && 0 <= u < w ==>
                  tmp[v, u] == if v < y then RowValue(rows[v], k[..], radius, u) else 0.0
    {
      var x := radius;
      while x < w - radius
        invariant radius <= x && (x <= w - radius || x == radius)
        invariant forall v, u :: 0 <= v < h && 0 <= u < w ==>
                    tmp[v, u] == if v < y || (v == y && u < x) then RowValue(rows[v], k[..], radius, u) else 0.0
      {
        tmp[y, x] := AccumulateRow(values, y, x - radius, k, rows);
        x := x + 1;
      }
    }
  }

  /** The second pass, back into the raster. */
  method BlurColumns(values: array2<real>, tmp: array2<real>, k: array<real>, radius: nat, ghost rows: Rows)
    requires Holds(values, rows) && k.Length == 2 * radius + 1 && tmp != values
    requires tmp.Length0 == values.Length0 && tmp.Length1 == values.Length1
    requires Holds(tmp, RowPass(rows, values.Length1, k[..], radius))
    modifies values
    ensures forall y, x :: 0 <= y < values.Length0 && 0 <= x < values.Length1 ==>
              values[y, x] == Blurred(rows, values.Length1, k[..], radius, x, y)
  {
    var h, w := values.Length0, values.Length1;
    ghost var mid := RowPass(rows, w, k[..], radius);
    for x := 0 to w
      invariant forall v, u :: 0 <= v < h && 0 <= u < w ==>
                  values[v, u] == if u < x then Blurred(rows, w, k[..], radius, u, v) else rows[v][u]
    {
      var y := radius;
      while y < h - radius
        invariant radius <= y && (y <= h - radius || y == radius)
        invariant forall v, u :: 0 <= v < h && 0 <= u < w ==>
                    values[v, u] == if u < x || (u == x && v < y) then Blurred(rows, w, k[..], radius, u, v) else rows[v][u]
      {
        values[y, x] := AccumulateColumn(tmp, x, y - radius, k, mid);
        y := y + 1;
      }
    }
  }

  /** Blurs the raster in place. */
  method Blur(values: array2<real>, k: array<real>, radius: nat, ghost rows: Rows)
    requires Holds(values, rows) && k.Length == 2 * radius + 1
    modifies values
    ensures forall y, x :: 0 <= y < values.Length0 && 0 <= x < values.Length1 ==>
              values[y, x] == Blurred(rows, values.Length1, k[..], radius, x, y)
  {
    var tmp := BlurRows(values, k, radius, rows);
    BlurColumns(values, tmp, k, radius, rows);
  }
}
