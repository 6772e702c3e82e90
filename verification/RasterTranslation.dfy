/**
 Translation of a raster in place: every pixel is moved within the one buffer, in an
 order in which no pixel is overwritten before it has been read.
 */
module RasterTranslation {

  datatype Pixel = Pixel(r: nat, g: nat, b: nat, a: nat)

  const ERASED := Pixel(0, 0, 0, 0)

  /** The rows of an image. */
  ghost predicate IsImage(image: array2<Pixel>, rows: seq<seq<Pixel>>)
    reads image
  {
    && |rows| == image.Length0
    && (forall y :: 0 <= y < |rows| ==> |rows[y]| == image.Length1)
    && forall y, x :: 0 <= y < image.Length0 && 0 <= x < image.Length1 ==> image[y, x] == rows[y][x]
  }

  /** The pixel that a shift brings to (x, y): the one from (x - dx, y - dy), or nothing. */
  function ShiftedPixel(rows: seq<seq<Pixel>>, width: nat, dx: int, dy: int, x: int, y: int): Pixel
    requires forall i :: 0 <= i < |rows| ==> |rows[i]| == width
  {
    if 0 <= y - dy < |rows| && 0 <= x - dx < width then rows[y - dy][x - dx] else Pixel(0, 0, 0, 0)
  }

  /** The columns that receive a pixel. */
  predicate Reached(width: nat, dx: int, x: int) { 0 <= x < width && 0 <= x - dx < width }

  /** Moves row sy to row dy, shifted by dx: from the right end if pixels move to the right. */
  method MoveRow(image: array2<Pixel>, sy: nat, dy: nat, dx: int)
    requires sy < image.Length0 && dy < image.Length0 && dx <= image.Length1
    modifies image
    ensures forall y, x :: 0 <= y < image.Length0 && 0 <= x < image.Length1 ==>
              image[y, x] == if y == dy && Reached(image.Length1, dx, x) then old(image[sy, x - dx]) else old(image[y, x])
  {
    var w := image.Length1;
    if dx >= 0 {
      var x, to := w - dx - 1, w - 1;
      while x >= 0
        invariant -1 <= x < w && to == x + dx
        invariant forall v, u :: 0 <= v < image.Length0 && 0 <= u < w ==>
                    image[v, u] == if v == dy && u > to then old(image[sy, u - dx]) else old(image[v, u])
      {
        image[dy, to] := image[sy, x];
        x, to := x - 1, to - 1;
      }
    } else {
      var x, to := -dx, 0;
      while x < w
        invariant 0 <= x && (x <= w || x == -dx) && to == x + dx
        invariant forall v, u :: 0 <= v < image.Length0 && 0 <= u < w ==>
                    image[v, u] == if v == dy && u < to then old(image[sy, u - dx]) else old(image[v, u])
      {
        image[dy, to] := image[sy, x];
        x, to := x + 1, to + 1;
      }
    }
  }

  /** The pixel at (x, y) once everything has been moved and nothing erased. */
  function MovedPixel(rows: seq<seq<Pixel>>, width: nat, dx: int, dy: int, x: nat, y: nat): Pixel
    requires y < |rows| && x < width && forall i :: 0 <= i < |rows| ==> |rows[i]| == width
  {
    if 0 <= y - dy < |rows| && Reached(width, dx, x) then rows[y - dy][x - dx] else rows[y][x]
  }

  /** Moves all rows down, from the bottom. */
  method MoveDown(image: array2<Pixel>, dx: int, dy: int, ghost rows: seq<seq<Pixel>>)
    requires 0 <= dy <= image.Length0 && (dx <= image.Length1 || dy == image.Length0) && IsImage(image, rows)
    modifies image
    ensures forall y, x :: 0 <= y < image.Length0 && 0 <= x < image.Length1 ==>
              image[y, x] == MovedPixel(rows, image.Length1, dx, dy, x, y)
  {
    var h, w := image.Length0, image.Length1;
    var y, to := h - dy - 1, h - 1;
    while y >= 0
      invariant -1 <= y < h && to == y + dy
      invariant forall v, x :: 0 <= v < h && 0 <= x < w ==>
                  image[v, x] == if v > to then MovedPixel(rows, w, dx, dy, x, v) else rows[v][x]
    {
      MoveRow(image, y, to, dx);
      y, to := y - 1, to - 1;
    }
  }

  /** Moves all rows up, from the top. */
  method MoveUp(image: array2<Pixel>, dx: int, dy: int, ghost rows: seq<seq<Pixel>>)
    requires -image.Length0 <= dy < 0 && (dx <= image.Length1 || dy == -image.Length0) && IsImage(image, rows)
    modifies image
    ensures forall y, x :: 0 <= y < image.Length0 && 0 <= x < image.Length1 ==>
              image[y, x] == MovedPixel(rows, image.Length1, dx, dy, x, y)
  {
    var h, w := image.Length0, image.Length1;
    var y, to := -dy, 0;
    while y < h
      invariant 0 <= y <= h && to == y + dy
      invariant forall v, x :: 0 <= v < h && 0 <= x < w ==>
                  image[v, x] == if v < to then MovedPixel(rows, w, dx, dy, x, v) else rows[v][x]
    {
      MoveRow(image, y, to, dx);
      y, to := y + 1, to + 1;
    }
  }

  /** Erases the columns from left to right of the rows from top to bottom. */
  method Erase(image: array2<Pixel>, top: nat, bottom: nat, left: nat, right: nat)
    requires bottom <= image.Length0 && (top < bottom ==> right <= image.Length1)
    modifies image
    ensures forall y, x :: 0 <= y < image.Length0 && 0 <= x < image.Length1 ==>
              image[y, x] == if top <= y < bottom && left <= x < right then ERASED else old(image[y, x])
  {
    var y := top;
    while y < bottom
      invariant top <= y && (y <= bottom || y == top)
      invariant forall v, u :: 0 <= v < image.Length0 && 0 <= u < image.Length1 ==>
                  image[v, u] == if top <= v < y && v < bottom && left <= u < right then ERASED else old(image[v, u])
    {
      var x := left;
      while x < right
        invariant left <= x && (x <= right || x == left)
        invariant forall v, u :: 0 <= v < image.Length0 && 0 <= u < image.Length1 ==>
                    image[v, u] == if (top <= v < y && left <= u < right) || (v == y && left <= u < x && u < right)
                                   then ERASED else old(image[v, u])
      {
        image[y, x] := ERASED;
        x := x + 1;
      }
      y := y + 1;
    }
  }

  /** The offsets for which every access stays inside the buffer. */
  predicate Safe(width: nat, height: nat, dx: int, dy: int) {
    -dy <= height && dy <= height && (dx <= width || dy == height || -dy == height)
  }

  /** An image of which nothing is left. */
  ghost function Blank(width: nat, height: nat): (r: seq<seq<Pixel>>)
    ensures |r| == height && forall y :: 0 <= y < height ==> |r[y]| == width && forall x :: 0 <= x < width ==> r[y][x] == ERASED
  {
    seq(height, y => seq(width, x => ERASED))
  }

  /** Shifts the image by (dx, dy); what is shifted in is erased. An image shifted out
      altogether is erased first, and then moved like any other. */
  method Translate(image: array2<Pixel>, dx: int, dy: int, ghost rows: seq<seq<Pixel>>)
    requires Safe(image.Length1, image.Length0, dx, dy) && IsImage(image, rows)
    modifies image
    ensures forall y, x :: 0 <= y < image.Length0 && 0 <= x < image.Length1 ==>
              image[y, x] == ShiftedPixel(rows, image.Length1, dx, dy, x, y)
  {
    var w, h := image.Length1, image.Length0;
    ghost var now := rows;
    if (if dx < 0 then -dx else dx) >= w || (if dy < 0 then -dy else dy) >= h {
      Erase(image, 0, h, 0, w);
      now := Blank(w, h);
    }
    if dx == 0 && dy == 0 {
      NoShift(rows, w);
      return;
    }
    Shift(image, dx, dy, now);
  }

  /** Moves the pixels, then erases the margins that nothing was moved to. The left edge of
      the right margin is unsigned: beyond the width it wraps around and the margin is empty. */
  method Shift(image: array2<Pixel>, dx: int, dy: int, ghost rows: seq<seq<Pixel>>)
    requires Safe(image.Length1, image.Length0, dx, dy) && IsImage(image, rows)
    requires dx < -image.Length1 ==> rows == Blank(image.Length1, image.Length0)
    modifies image
    ensures forall y, x :: 0 <= y < image.Length0 && 0 <= x < image.Length1 ==>
              image[y, x] == ShiftedPixel(rows, image.Length1, dx, dy, x, y)
  {
    var w, h := image.Length1, image.Length0;
    var margin := if dx < -w then w else w + dx;
    if dy >= 0 {
      MoveDown(image, dx, dy, rows);
      Erase(image, 0, dy, 0, w);
      if dx >= 0 { Erase(image, dy, h, 0, dx); } else { Erase(image, dy, h, margin, w); }
    } else {
      MoveUp(image, dx, dy, rows);
      if dx >= 0 { Erase(image, 0, h + dy, 0, dx); } else { Erase(image, 0, h + dy, margin, w); }
      Erase(image, h + dy, h, 0, w);
    }
  }

  lemma NoShift(rows: seq<seq<Pixel>>, width: nat)
    requires forall i :: 0 <= i < |rows| ==> |rows[i]| == width
    ensures forall y, x :: 0 <= y < |rows| && 0 <= x < width ==> ShiftedPixel(rows, width, 0, 0, x, y) == rows[y][x]
  {
  }

  function Shifted(rows: seq<seq<Pixel>>, width: nat, dx: int, dy: int): (r: seq<seq<Pixel>>)
    requires forall i :: 0 <= i < |rows| ==> |rows[i]| == width
    ensures |r| == |rows| && forall i :: 0 <= i < |r| ==> |r[i]| == width
  {
    seq(|rows|, y requires 0 <= y < |rows| => seq(width, x requires 0 <= x < width => ShiftedPixel(rows, width, dx, dy, x, y)))
  }

  /** Shifting back restores exactly the pixels that stayed inside. */
  lemma ShiftBack(rows: seq<seq<Pixel>>, width: nat, dx: int, dy: int, x: nat, y: nat)
    requires (forall i :: 0 <= i < |rows| ==> |rows[i]| == width) && y < |rows| && x < width
    ensures ShiftedPixel(Shifted(rows, width, dx, dy), width, -dx, -dy, x, y) ==
            if 0 <= y + dy < |rows| && 0 <= x + dx < width then rows[y][x] else Pixel(0, 0, 0, 0)
  {
    var s := Shifted(rows, width, dx, dy);
    if 0 <= y + dy < |rows| && 0 <= x + dx < width {
      assert s[y - -dy][x - -dx] == ShiftedPixel(rows, width, dx, dy, x + dx, y + dy);
    }
  }
}
