/**
 Kriging of a whole raster: samples are collapsed and indexed once, then every pixel is
 predicted from its nearest samples.
 */
module KrigingRaster {
  import opened RealMath
  import opened KrigingSolve
  import opened KrigingSamples
  import opened KrigingKnn
  import opened KrigingGrid
  import opened KrigingQuery
  import opened KrigingPredict

  /** A pixel is left without data where the local system is singular. */
  datatype Pixel = NoData | Value(mean: real, variance: real)

  /** The samples as the three arrays the index and the predictor read. */
  datatype Points = Points(sx: seq<real>, sy: seq<real>, sz: seq<real>) {
    ghost predicate Holds(s: seq<Sample>) {
      && |sx| == |sy| == |sz| == |s|
      && forall i :: 0 <= i < |s| ==> s[i] == Sample(sx[i], sy[i], sz[i])
    }
  }

  function PointsOf(s: seq<Sample>): (p: Points)
    ensures p.Holds(s)
  {
    Points(seq(|s|, i requires 0 <= i < |s| => s[i].x), seq(|s|, i requires 0 <= i < |s| => s[i].y),
           seq(|s|, i requires 0 <= i < |s| => s[i].z))
  }

  /** The model of the field: covariance by squared lag, kind of kriging, sill, nugget. */
  datatype Model = Model(cov: Covariance, ordinary: bool, sigma2: real, nugget: real)

  function IdsOf(l: seq<Entry>): (nb: seq<nat>)
    ensures |nb| == |l|
  {
    seq(|l|, i requires 0 <= i < |l| => l[i].id)
  }

  ghost predicate Neighbours(l: seq<Entry>, p: Points, m: nat, qx: real, qy: real)
    requires |p.sx| == |p.sy|
  {
    Nearest(l, m, AllIds(|p.sx|), DistancesTo(p.sx, p.sy, qx, qy))
  }

  /** What the predictor says of the target from the samples listed in nb. */
  ghost predicate PredictedFrom(pix: Pixel, k: Model, p: Points, nb: seq<nat>, qx: real, qy: real)
    requires |p.sx| == |p.sy| == |p.sz| && forall i :: 0 <= i < |nb| ==> nb[i] < |p.sx|
  {
    var px, py, pz := Select(p.sx, nb), Select(p.sy, nb), Select(p.sz, nb);
    var K, t := CovMatrix(k.cov, k.nugget, px, py), CovTarget(k.cov, px, py, qx, qy);
    match pix
    case NoData => NearlySingular(LocalSystem(k.ordinary, K, t), Unknowns(k.ordinary, |nb|))
    case Value(mean, variance) => exists w :: Predicted(k.ordinary, k.sigma2, K, t, pz, w, mean, variance)
  }

  /** The pixel is predicted from m nearest samples of its centre. Folded; opened by Glimpse. */
  ghost predicate Kriged(pix: Pixel, k: Model, p: Points, m: nat, x: int, y: int) {
    && |p.sx| == |p.sy| == |p.sz|
    && forall i: int :: Glimpse(i) ==> KrigedSomehow(pix, k, p, m, x as real, y as real)
  }

  ghost predicate KrigedSomehow(pix: Pixel, k: Model, p: Points, m: nat, qx: real, qy: real)
    requires |p.sx| == |p.sy| == |p.sz|
  {
    exists l :: KrigedFrom(pix, k, p, m, qx, qy, l)
  }

  ghost predicate KrigedFrom(pix: Pixel, k: Model, p: Points, m: nat, qx: real, qy: real, l: seq<Entry>)
    requires |p.sx| == |p.sy| == |p.sz|
  {
    Neighbours(l, p, m, qx, qy) && PredictedFrom(pix, k, p, IdsOf(l), qx, qy)
  }

  ghost predicate Glimpse(i: int) { true }

  /** Predicts one pixel. */
  method PredictPixel(g: Grid, p: Points, k: Model, kn: Accumulator, px: int, py: int) returns (pix: Pixel)
    requires |p.sx| == |p.sy| == |p.sz| > 0 && IsGrid(g, p.sx, p.sy) && kn.Valid() && kn.Cap() > 0
    modifies kn, kn.idx, kn.d2
    ensures kn.Valid() && Kriged(pix, k, p, kn.Cap(), px, py)
  {
    var qx, qy := px as real, py as real;
    Query(g, p.sx, p.sy, qx, qy, kn);
    var nb := seq(kn.count, i requires 0 <= i < kn.count && kn.Valid() reads kn, kn.idx => kn.idx[i]);
    ghost var l := kn.Entries();
    assert nb == IdsOf(l);
    AllIdsSize(|p.sx|);
    var status, mean, variance, w := Predict(p.sx, p.sy, p.sz, nb, qx, qy, k.cov, k.ordinary, k.sigma2, k.nugget);
    pix := if status != 0 then NoData else Value(mean, variance);
    assert KrigedFrom(pix, k, p, kn.Cap(), qx, qy, l);
  }

  lemma {:induction false} AllIdsSize(n: nat)
    ensures |AllIds(n)| == n
  {
    if n > 0 { AllIdsSize(n - 1); }
  }

  // ----- the sill -----

  ghost function SumOfSquares(z: seq<real>, mean: real, k: nat): (r: real)
    requires k <= |z|
    ensures r >= 0.0
  {
    if k == 0 then 0.0 else SumOfSquares(z, mean, k - 1) + Square(z[k - 1] - mean)
  }

  ghost function SumUpTo(z: seq<real>, k: nat): real
    requires k <= |z|
  {
    if k == 0 then 0.0 else SumUpTo(z, k - 1) + z[k - 1]
  }

  /** s is the sample variance of z. */
  ghost predicate IsVariance(s: real, z: seq<real>)
    requires |z| > 1
  {
    var n := |z|;
    s * (n - 1) as real == SumOfSquares(z, SumUpTo(z, n) / n as real, n)
  }

  /** The sill asked for, or else the sample variance, or else one. */
  ghost predicate IsSill(sigma2: real, asked: real, z: seq<real>) {
    && sigma2 > 0.0
    && (asked > 0.0 ==> sigma2 == asked)
    && (asked <= 0.0 && |z| > 1 ==> IsVariance(sigma2, z) || (sigma2 == 1.0 && IsVariance(0.0, z)))
    && (asked <= 0.0 && |z| == 1 ==> sigma2 == 1.0)
  }

  method Sill(asked: real, z: seq<real>) returns (sigma2: real)
    requires z != []
    ensures IsSill(sigma2, asked, z)
  {
    sigma2 := asked;
    if sigma2 <= 0.0 {
      var n, sum := |z|, 0.0;
      for i := 0 to n
        invariant sum == SumUpTo(z, i)
      {
        sum := sum + z[i];
      }
      var mean := sum / n as real;
      sigma2 := 0.0;
      for i := 0 to n
        invariant sigma2 == SumOfSquares(z, mean, i)
      {
        sigma2 := sigma2 + Square(z[i] - mean);
      }
      var squares := sigma2;
      if n > 1 { DivideMultiply(squares, (n - 1) as real); QuotientFacts(squares, (n - 1) as real); }
      sigma2 := if n > 1 then sigma2 / (n - 1) as real else 1.0;
      if sigma2 <= 0.0 {
        assert sigma2 == 0.0;
        sigma2 := 1.0;
      }
    }
  }

  // ----- the raster -----

  /** What the caller chooses; the covariance takes the sill and the squared lag. */
  datatype Settings = Settings(cov: (real, real) -> real, ordinary: bool, sill: real, nugget: real, neighbours: nat)

  ghost predicate IsCovariance(cov: (real, real) -> real) {
    forall s: real :: cov(s, 0.0) == s
  }

  ghost predicate IsRoot(root: real -> real) {
    forall a: real :: a > 0.0 ==> root(a) > 0.0 && Square(root(a)) == a
  }

  function ModelOf(c: Settings, sigma2: real): Model {
    Model(d => c.cov(sigma2, d), c.ordinary, sigma2, c.nugget)
  }

  /** The model is the one the settings ask for, with the given sill. */
  ghost predicate Configured(k: Model, c: Settings, sigma2: real) {
    && k.sigma2 == sigma2 && k.nugget == c.nugget && k.ordinary == c.ordinary
    && forall d: real :: k.cov(d) == c.cov(sigma2, d)
  }

  ghost predicate IsRaster(image: array2<Pixel>, width: nat, height: nat, k: Model, p: Points, m: nat)
    reads image
  {
    && image.Length0 == height && image.Length1 == width
    && forall y, x :: 0 <= y < height && 0 <= x < width ==> Kriged(image[y, x], k, p, m, x, y)
  }

  ghost predicate RowKriged(row: seq<Pixel>, k: Model, p: Points, m: nat, y: int) {
    forall x :: 0 <= x < |row| ==> Kriged(row[x], k, p, m, x, y)
  }

  lemma RowGrows(row: seq<Pixel>, pix: Pixel, k: Model, p: Points, m: nat, y: int)
    requires RowKriged(row, k, p, m, y) && Kriged(pix, k, p, m, |row|, y)
    ensures RowKriged(row + [pix], k, p, m, y)
  {
    var more := row + [pix];
    forall x | 0 <= x < |more| ensures Kriged(more[x], k, p, m, x, y) {
      if x < |row| { assert more[x] == row[x]; } else { assert more[x] == pix && x == |row|; }
    }
  }

  /** Predicts the pixels of row py. */
  method PredictRow(g: Grid, p: Points, k: Model, kn: Accumulator, image: array2<Pixel>, py: nat)
    returns (ghost row: seq<Pixel>)
    requires |p.sx| == |p.sy| == |p.sz| > 0 && IsGrid(g, p.sx, p.sy) && kn.Valid() && kn.Cap() > 0
    requires py < image.Length0
    modifies kn, kn.idx, kn.d2, image
    ensures kn.Valid()
    ensures forall y, x :: 0 <= y < image.Length0 && 0 <= x < image.Length1 && y != py ==> image[y, x] == old(image[y, x])
    ensures |row| == image.Length1 && RowKriged(row, k, p, kn.Cap(), py)
    ensures forall x :: 0 <= x < image.Length1 ==> image[py, x] == row[x]
  {
    row := [];
    for px := 0 to image.Length1
      invariant kn.Valid() && |row| == px && RowKriged(row, k, p, kn.Cap(), py)
      invariant forall y, x :: 0 <= y < image.Length0 && 0 <= x < image.Length1 && y != py ==> image[y, x] == old(image[y, x])
      invariant forall x :: 0 <= x < px ==> image[py, x] == row[x]
    {
      var pix := PredictPixel(g, p, k, kn, px, py);
      image[py, px] := pix;
      RowGrows(row, pix, k, p, kn.Cap(), py);
      row := row + [pix];
    }
  }

  /** Predicts every pixel. */
  method PredictAll(g: Grid, p: Points, k: Model, m: nat, width: nat, height: nat) returns (image: array2<Pixel>)
    requires |p.sx| == |p.sy| == |p.sz| > 0 && IsGrid(g, p.sx, p.sy) && m > 0
    ensures fresh(image) && IsRaster(image, width, height, k, p, m)
  {
    var kn := new Accumulator(m);
    image := new Pixel[height, width]((y, x) => NoData);
    for py := 0 to height
      invariant kn.Valid()
      invariant forall y, x :: 0 <= y < py && 0 <= x < width ==> Kriged(image[y, x], k, p, m, x, y)
    {
      ghost var row := PredictRow(g, p, k, kn, image, py);
    }
  }

  // ----- at the samples -----

  lemma OnlyAtSample(s: seq<Sample>, p: Points, j: nat, i: nat)
    requires StrictlySorted(s) && p.Holds(s) && j < |s| && i < |s|
    ensures SquaredDistance(p.sx[j], p.sy[j], p.sx[j], p.sy[j]) == 0.0
    ensures i != j ==> SquaredDistance(p.sx[i], p.sy[i], p.sx[j], p.sy[j]) > 0.0
  {
    if i != j {
      assert SampleCmp(s[i], s[j]) != 0;
    }
  }

  /** The sample at the target is among its nearest samples. */
  lemma SampleIsNeighbour(s: seq<Sample>, p: Points, j: nat, l: seq<Entry>, m: nat) returns (t: nat)
    requires StrictlySorted(s) && p.Holds(s) && j < |s| && m > 0
    requires Neighbours(l, p, m, p.sx[j], p.sy[j])
    ensures t < |l| && l[t].id == j
  {
    AllIdsSize(|s|);
    forall i | 0 <= i < |s|
      ensures var d := DistancesTo(p.sx, p.sy, p.sx[j], p.sy[j])[i]; if i == j then d == 0.0 else d > 0.0
    {
      OnlyAtSample(s, p, j, i);
    }
    t := ZeroIsNear(l, m, AllIds(|s|), DistancesTo(p.sx, p.sy, p.sx[j], p.sy[j]), j);
  }

  lemma ZeroIsNear(l: seq<Entry>, m: nat, seen: set<nat>, dist: seq<real>, j: nat) returns (t: nat)
    requires Nearest(l, m, seen, dist) && m > 0 && j in seen && |seen| > 0
    requires forall i :: i in seen ==> if i == j then dist[i] == 0.0 else dist[i] > 0.0
    ensures t < |l| && l[t].id == j
  {
    t :| 0 <= t < |l| && l[t].id == j;
  }

  /** Without a nugget the raster shows every sample exactly, or no data. */
  lemma ExactAtSamples(pix: Pixel, k: Model, s: seq<Sample>, p: Points, m: nat, x: int, y: int, j: nat)
    requires StrictlySorted(s) && p.Holds(s) && j < |s| && m > 0 && s[j].x == x as real && s[j].y == y as real
    requires k.nugget == 0.0 && k.cov(0.0) == k.sigma2
    requires Kriged(pix, k, p, m, x, y)
    ensures pix == NoData || pix == Value(s[j].z, 0.0)
  {
    assert Glimpse(0);
    var l :| KrigedFrom(pix, k, p, m, p.sx[j], p.sy[j], l);
    var t := SampleIsNeighbour(s, p, j, l, m);
    ExactFrom(pix, k, p, IdsOf(l), t);
  }

  lemma ExactFrom(pix: Pixel, k: Model, p: Points, nb: seq<nat>, t: nat)
    requires |p.sx| == |p.sy| == |p.sz| && (forall i :: 0 <= i < |nb| ==> nb[i] < |p.sx|) && t < |nb|
    requires k.nugget == 0.0 && k.cov(0.0) == k.sigma2
    requires PredictedFrom(pix, k, p, nb, p.sx[nb[t]], p.sy[nb[t]])
    ensures pix == NoData || pix == Value(p.sz[nb[t]], 0.0)
  {
    var px, py, pz := Select(p.sx, nb), Select(p.sy, nb), Select(p.sz, nb);
    if pix.Value? {
      var w :| Predicted(k.ordinary, k.sigma2, CovMatrix(k.cov, k.nugget, px, py),
                         CovTarget(k.cov, px, py, px[t], py[t]), pz, w, pix.mean, pix.variance);
      ExactAtSample(k.cov, k.ordinary, k.sigma2, px, py, pz, w, pix.mean, pix.variance, t);
    }
  }

  // ----- from the buffer to the raster -----

  /** A sort by pixel; nothing is said of the order within a pixel. */
  ghost predicate IsSort(sort: seq<Sample> -> seq<Sample>) {
    forall s :: Sorted(sort(s)) && multiset(sort(s)) == multiset(s)
  }

  /** The raster of the samples s, each pixel predicted from its nearest neighbours, as many as
      the settings ask for or all, with the sill asked for or that of the samples. */
  ghost predicate Interpolates(image: array2<Pixel>, width: nat, height: nat, c: Settings, s: seq<Sample>, sigma2: real)
    reads image
  {
    && s != [] && IsSill(sigma2, c.sill, PointsOf(s).sz) && Configured(ModelOf(c, sigma2), c, sigma2)
    && IsRaster(image, width, height, ModelOf(c, sigma2), PointsOf(s),
                if c.neighbours > |s| then |s| else c.neighbours)
  }

  function MeanArea(w: real, h: real, n: nat): real
    requires n > 0
  {
    w * h / n as real
  }

  lemma CellSize(root: real -> real, w: real, h: real, n: nat)
    requires IsRoot(root) && w > 0.0 && h > 0.0 && n > 0
    ensures var cell := root(MeanArea(w, h, n)); cell > 0.0 && IsCellSize(cell, w, h, n)
  {
    var area := w * h;
    MulPositive(w, h);
    DivideMultiply(area, n as real);
    QuotientFacts(area, n as real);
    QuotientPositive(area, n as real);
    var cell := root(area / n as real);
    assert Square(cell) == cell * cell;
  }

  lemma QuotientPositive(a: real, m: real)
    requires a > 0.0 && m > 0.0
    ensures a / m > 0.0
  {
    DivideMultiply(a, m);
    QuotientFacts(a, m);
  }

  /** Reads the buffer and collapses the samples of each pixel. */
  method Prepare(xyz: seq<real>, npoints: nat, sort: seq<Sample> -> seq<Sample>, ghost entries: seq<Sample>)
    returns (s: seq<Sample>)
    requires npoints == |entries| > 0 && Triples(xyz, entries) && IsSort(sort)
    ensures s != [] && Collapsed(s, sort(entries))
  {
    var pts := Unpack(xyz, npoints, entries);
    var sorted := sort(pts);
    assert |multiset(sorted)| == |multiset(pts)|;
    s := Collapse(sorted);
    assert Covered(sorted[0], s);
  }

  /** Indexes the samples. */
  method Index(p: Points, root: real -> real) returns (g: Grid)
    requires |p.sx| == |p.sy| > 0 && IsRoot(root)
    ensures IsGrid(g, p.sx, p.sy)
  {
    CellSize(root, SpanOf(p.sx), SpanOf(p.sy), |p.sx|);
    var cell := root(MeanArea(SpanOf(p.sx), SpanOf(p.sy), |p.sx|));
    var status;
    status, g := Build(p.sx, p.sy, cell);
  }

  /** Interpolates the vertices recorded in the buffer. */
  method Krige(xyz: seq<real>, npoints: nat, width: nat, height: nat, c: Settings,
               root: real -> real, sort: seq<Sample> -> seq<Sample>, ghost entries: seq<Sample>)
    returns (image: array2<Pixel>, ghost s: seq<Sample>, ghost sigma2: real)
    requires npoints == |entries| && Triples(xyz, entries) && IsRoot(root) && IsSort(sort) && c.neighbours >= 1
    ensures fresh(image) && image.Length0 == height && image.Length1 == width
    ensures npoints == 0 ==> forall y, x :: 0 <= y < height && 0 <= x < width ==> image[y, x] == NoData
    ensures npoints > 0 ==> Collapsed(s, sort(entries)) && Interpolates(image, width, height, c, s, sigma2)
  {
    s, sigma2 := [], 0.0;
    if npoints <= 0 {
      image := new Pixel[height, width]((y, x) => NoData);
      return;
    }
    var samples := Prepare(xyz, npoints, sort, entries);
    var p := PointsOf(samples);
    var sill := Sill(c.sill, p.sz);
    var g := Index(p, root);
    var m := if c.neighbours > |samples| then |samples| else c.neighbours;
    image := PredictAll(g, p, ModelOf(c, sill), m, width, height);
    s, sigma2 := samples, sill;
  }

  /** The sample of the pixel of a hit. */
  lemma SampleOf(hits: seq<Hit>, s: seq<Sample>, i: nat) returns (j: nat)
    requires Totals(s, hits) && i < |hits|
    ensures j < |s| && s[j].x == hits[i].x as real && s[j].y == hits[i].y as real
    ensures s[j].z == Total(hits, hits[i].x as real, hits[i].y as real)
  {
    assert Covered(EntryOf(hits, i), s);
    var o :| o in s && SamePixel(o, EntryOf(hits, i));
    j :| 0 <= j < |s| && s[j] == o;
  }

  /** For non-negative weights and no nugget, every pixel hit by a vertex shows the total
      weight of its vertices, with variance zero, or no data. */
  lemma {:induction false} ShowsTotals(hits: seq<Hit>, pts: seq<Sample>, s: seq<Sample>, sigma2: real,
                    image: array2<Pixel>, width: nat, height: nat, c: Settings, i: nat)
    requires forall k :: 0 <= k < |hits| ==> hits[k].weight >= 0.0
    requires multiset(pts) == multiset(Entries(hits)) && Collapsed(s, pts)
    requires Interpolates(image, width, height, c, s, sigma2)
    requires c.neighbours >= 1 && c.nugget == 0.0 && IsCovariance(c.cov)
    requires i < |hits| && hits[i].x < width && hits[i].y < height
    ensures var pix := image[hits[i].y, hits[i].x];
            pix == NoData || pix == Value(Total(hits, hits[i].x as real, hits[i].y as real), 0.0)
  {
    NonNegativeWeights(hits, pts, s);
    var h := hits[i];
    var j := SampleOf(hits, s, i);
    ExactAtSamples(image[h.y, h.x], ModelOf(c, sigma2), s, PointsOf(s),
                   if c.neighbours > |s| then |s| else c.neighbours, h.x, h.y, j);
  }
}
