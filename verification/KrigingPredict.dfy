/**
 The local predictor: fills the (bordered) covariance system of the neighbours, solves
 it in place and forms the predictive mean and variance.
 */
module KrigingPredict {
  import opened RealMath
  import opened LinearAlgebra
  import opened KrigingSolve
  import opened KrigingTheory

  /** A stationary covariance, as a function of the squared lag. */
  type Covariance = real -> real

  function CovEntry(cov: Covariance, nugget: real, px: Vector, py: Vector, i: nat, j: nat): real
    requires i < |px| == |py| && j < |px|
  {
    if i == j then cov(SquaredDistance(px[i], py[i], px[j], py[j])) + nugget
    else cov(SquaredDistance(px[i], py[i], px[j], py[j]))
  }

  ghost function CovMatrix(cov: Covariance, nugget: real, px: Vector, py: Vector): (K: seq<Vector>)
    requires |px| == |py|
    ensures |K| == |px| && forall i :: 0 <= i < |K| ==> |K[i]| == |px|
  {
    seq(|px|, i requires 0 <= i < |px| =>
      seq(|px|, j requires 0 <= j < |px| => CovEntry(cov, nugget, px, py, i, j)))
  }

  ghost function CovTarget(cov: Covariance, px: Vector, py: Vector, qx: real, qy: real): (k0: Vector)
    requires |px| == |py|
    ensures |k0| == |px|
  {
    seq(|px|, i requires 0 <= i < |px| => cov(SquaredDistance(px[i], py[i], qx, qy)))
  }

  lemma DistanceSymmetric(ux: real, uy: real, vx: real, vy: real)
    ensures SquaredDistance(ux, uy, vx, vy) == SquaredDistance(vx, vy, ux, uy)
  {
    SquareNegate(ux - vx);
    SquareNegate(uy - vy);
    assert vx - ux == -(ux - vx) && vy - uy == -(uy - vy);
  }

  lemma CovSymmetric(cov: Covariance, nugget: real, px: Vector, py: Vector)
    requires |px| == |py|
    ensures Symmetric(CovMatrix(cov, nugget, px, py), |px|)
  {
    forall i, j | 0 <= i < |px| && 0 <= j < |px|
      ensures CovEntry(cov, nugget, px, py, i, j) == CovEntry(cov, nugget, px, py, j, i)
    {
      DistanceSymmetric(px[i], py[i], px[j], py[j]);
    }
  }

  /** The system that is solved for the neighbours at (px, py) and the target (qx, qy). */
  ghost function LocalSystem(ordinary: bool, K: seq<Vector>, k0: Vector): (s: System)
    requires |K| == |k0| && forall i :: 0 <= i < |K| ==> |K[i]| == |K|
    ensures s.Square(Unknowns(ordinary, |K|))
  {
    if ordinary then OrdinaryEquations(K, k0, k0, 0.0); OrdinarySystem(K, k0) else SimpleSystem(K, k0)
  }

  function Unknowns(ordinary: bool, m: nat): nat {
    if ordinary then m + 1 else m
  }

  /** The upper left part of A and the first entries of k0 hold K and t. */
  ghost predicate Holds(A: array2<real>, k0: array<real>, K: seq<Vector>, t: Vector)
    requires |K| == |t| && forall i :: 0 <= i < |K| ==> |K[i]| == |K|
    reads A, k0
  {
    && A.Length0 == A.Length1 == k0.Length >= |K|
    && (forall r, c :: 0 <= r < |K| && 0 <= c < |K| ==> A[r, c] == K[r][c])
    && (forall r :: 0 <= r < |K| ==> k0[r] == t[r])
  }

  /** Row i of the covariance matrix, the nugget on the diagonal. */
  method FillRow(A: array2<real>, cov: Covariance, nugget: real, px: Vector, py: Vector, i: nat, ghost row: Vector)
    requires i < |px| == |py| <= A.Length0 == A.Length1 && |row| == |px|
    requires forall c :: 0 <= c < |px| ==> row[c] == CovEntry(cov, nugget, px, py, i, c)
    modifies A
    ensures forall r, c :: 0 <= r < A.Length0 && 0 <= c < A.Length1 && r != i ==> A[r, c] == old(A[r, c])
    ensures forall c :: 0 <= c < |px| ==> A[i, c] == row[c]
  {
    for j := 0 to |px|
      invariant forall r, c :: 0 <= r < A.Length0 && 0 <= c < A.Length1 && r != i ==> A[r, c] == old(A[r, c])
      invariant forall c :: 0 <= c < j ==> A[i, c] == if c == i then row[c] - nugget else row[c]
    {
      A[i, j] := cov(SquaredDistance(px[i], py[i], px[j], py[j]));
    }
    A[i, i] := A[i, i] + nugget;
  }

  method FillCovariances(A: array2<real>, k0: array<real>, cov: Covariance, nugget: real,
                         px: Vector, py: Vector, qx: real, qy: real, ghost K: seq<Vector>, ghost t: Vector)
    requires |px| == |py| <= A.Length0 == A.Length1 == k0.Length
    requires K == CovMatrix(cov, nugget, px, py) && t == CovTarget(cov, px, py, qx, qy)
    modifies A, k0
    ensures Holds(A, k0, K, t)
  {
    for i := 0 to |px|
      invariant forall r, c :: 0 <= r < i && 0 <= c < |px| ==> A[r, c] == K[r][c]
      invariant forall r :: 0 <= r < i ==> k0[r] == t[r]
    {
      FillRow(A, cov, nugget, px, py, i, K[i]);
      k0[i] := cov(SquaredDistance(px[i], py[i], qx, qy));
    }
  }

  /** Borders the matrix with the constraint that the weights sum to one. */
  method FillBorder(A: array2<real>, k0: array<real>, ghost K: seq<Vector>, ghost t: Vector)
    requires |K| == |t| && (forall i :: 0 <= i < |K| ==> |K[i]| == |K|) && k0.Length == |K| + 1
    requires Holds(A, k0, K, t)
    modifies A, k0
    ensures Holds(A, k0, K, t) && k0[|K|] == 1.0 && A[|K|, |K|] == 0.0
    ensures forall r :: 0 <= r < |K| ==> A[r, |K|] == 1.0 && A[|K|, r] == 1.0
  {
    var m := k0.Length - 1;
    for i := 0 to m
      invariant Holds(A, k0, K, t)
      invariant forall r :: 0 <= r < i ==> A[r, m] == 1.0 && A[m, r] == 1.0
    {
      A[i, m] := 1.0;
      A[m, i] := 1.0;
    }
    A[m, m] := 0.0;
    k0[m] := 1.0;
  }

  /** Fills the scratch arrays with the local system. */
  method FillSystem(cov: Covariance, ordinary: bool, nugget: real, px: Vector, py: Vector, qx: real, qy: real,
                    ghost K: seq<Vector>, ghost t: Vector)
    returns (A: array2<real>, k0: array<real>)
    requires |px| == |py|
    requires K == CovMatrix(cov, nugget, px, py) && t == CovTarget(cov, px, py, qx, qy)
    ensures fresh(A) && fresh(k0) && Shape(A, k0, Unknowns(ordinary, |px|))
    ensures Stored(A, k0) == LocalSystem(ordinary, K, t)
  {
    var n := Unknowns(ordinary, |px|);
    A := new real[n, n];
    k0 := new real[n];
    FillCovariances(A, k0, cov, nugget, px, py, qx, qy, K, t);
    if ordinary {
      FillBorder(A, k0, K, t);
    }
    FilledIsLocal(A, k0, ordinary, K, t);
  }

  lemma FilledIsLocal(A: array2<real>, k0: array<real>, ordinary: bool, K: seq<Vector>, t: Vector)
    requires |K| == |t| && (forall i :: 0 <= i < |K| ==> |K[i]| == |K|)
    requires Shape(A, k0, Unknowns(ordinary, |K|)) && Holds(A, k0, K, t)
    requires ordinary ==> k0[|K|] == 1.0 && A[|K|, |K|] == 0.0
    requires ordinary ==> forall r :: 0 <= r < |K| ==> A[r, |K|] == 1.0 && A[|K|, r] == 1.0
    ensures Stored(A, k0) == LocalSystem(ordinary, K, t)
  {
    var s := LocalSystem(ordinary, K, t);
    forall r | 0 <= r < k0.Length ensures Row(A, r) == s.rows[r] {
    }
    assert k0[..] == s.rhs;
    assert Stored(A, k0).rows == s.rows;
  }

  ghost predicate IsSquare(K: seq<Vector>, m: nat) {
    |K| == m && forall i :: 0 <= i < m ==> |K[i]| == m
  }

  /** The variance as computed, before it is clamped at zero. */
  ghost function RawVariance(ordinary: bool, sigma2: real, k0: Vector, w: Vector): real
    requires |w| == Unknowns(ordinary, |k0|)
  {
    sigma2 - Dot(w[..|k0|], k0) - if ordinary then w[|k0|] else 0.0
  }

  /** w is the one solution of the local system with covariances K among the neighbours and
      k0 to the target; mean and variance are formed from it and the sample values pz. */
  ghost predicate Predicted(ordinary: bool, sigma2: real, K: seq<Vector>, k0: Vector, pz: Vector,
                            w: Vector, mean: real, variance: real) {
    && IsSquare(K, |k0|) && |pz| == |k0| && |w| == Unknowns(ordinary, |k0|)
    && Solves(LocalSystem(ordinary, K, k0), w)
    && (forall x: Vector {:trigger Solves(LocalSystem(ordinary, K, k0), x)} ::
          |x| == |w| && Solves(LocalSystem(ordinary, K, k0), x) ==> x == w)
    && mean == Dot(w[..|k0|], pz)
    && variance == (if RawVariance(ordinary, sigma2, k0, w) < 0.0 then 0.0 else RawVariance(ordinary, sigma2, k0, w))
  }

  function Select(v: Vector, nb: seq<nat>): (r: Vector)
    requires forall i :: 0 <= i < |nb| ==> nb[i] < |v|
    ensures |r| == |nb|
  {
    seq(|nb|, i requires 0 <= i < |nb| => v[nb[i]])
  }

  /** Predicts at (qx, qy) from the samples listed in nb. */
  method Predict(sx: Vector, sy: Vector, sz: Vector, nb: seq<nat>, qx: real, qy: real,
                 cov: Covariance, ordinary: bool, sigma2: real, nugget: real)
    returns (status: int, mean: real, variance: real, ghost w: Vector)
    requires |sx| == |sy| == |sz| && forall i :: 0 <= i < |nb| ==> nb[i] < |sx|
    ensures nb == [] ==> status == -1
    ensures status == 0 || status == -1
    ensures nb != [] ==>
              var K := CovMatrix(cov, nugget, Select(sx, nb), Select(sy, nb));
              var k0 := CovTarget(cov, Select(sx, nb), Select(sy, nb), qx, qy);
              && (status == 0 ==> Predicted(ordinary, sigma2, K, k0, Select(sz, nb), w, mean, variance))
              && (status == -1 ==> NearlySingular(LocalSystem(ordinary, K, k0), Unknowns(ordinary, |nb|)))
              && (Singular(LocalSystem(ordinary, K, k0), Unknowns(ordinary, |nb|)) ==> status == -1)
  {
    w := [];
    if nb == [] { return -1, 0.0, 0.0, w; }
    var px, py := Select(sx, nb), Select(sy, nb);
    ghost var K, t := CovMatrix(cov, nugget, px, py), CovTarget(cov, px, py, qx, qy);
    var A, k0 := FillSystem(cov, ordinary, nugget, px, py, qx, qy, K, t);
    var x := new real[k0.Length](i requires 0 <= i < k0.Length reads k0 => k0[i]);
    assert x[..] == k0[..];
    assert Stored(A, x) == Stored(A, k0);
    status := Solve(A, x, x.Length);
    if status != 0 { return -1, 0.0, 0.0, w; }
    w := x[..];
    mean, variance := Combine(k0, x, Select(sz, nb), ordinary, sigma2, t);
  }

  /** The predictor and its variance from the solved weights. */
  method Combine(k0: array<real>, x: array<real>, pz: Vector, ordinary: bool, sigma2: real, ghost t: Vector)
    returns (mean: real, variance: real)
    requires |t| == |pz| && k0.Length == x.Length == Unknowns(ordinary, |pz|)
    requires forall i :: 0 <= i < |pz| ==> k0[i] == t[i]
    ensures mean == Dot(x[..|pz|], pz)
    ensures var raw := sigma2 - Dot(x[..|pz|], t) - (if ordinary then x[|pz|] else 0.0);
            variance == if raw < 0.0 then 0.0 else raw
  {
    mean := 0.0;
    var quad := 0.0;
    ghost var v := x[..|pz|];
    for i := 0 to |pz|
      invariant mean == Dot(v, pz) - DotFrom(v, pz, i)
      invariant quad == Dot(v, t) - DotFrom(v, t, i)
    {
      mean := mean + x[i] * pz[i];
      quad := quad + x[i] * k0[i];
    }
    variance := sigma2 - quad - (if ordinary then x[|pz|] else 0.0);
    if variance < 0.0 {
      variance := 0.0;
    }
  }

  // ----- what a prediction is worth -----

  /** The weights of ordinary kriging sum to one, and before clamping the variance is the
      error variance of the predictor, for either kind of kriging. */
  lemma VarianceIsErrorVariance(ordinary: bool, sigma2: real, K: seq<Vector>, k0: Vector, pz: Vector,
                                w: Vector, mean: real, variance: real)
    requires Predicted(ordinary, sigma2, K, k0, pz, w, mean, variance)
    ensures ordinary ==> SumOf(w[..|pz|]) == 1.0
    ensures RawVariance(ordinary, sigma2, k0, w) == ErrorVariance(sigma2, K, k0, w[..|pz|])
  {
    var v := w[..|pz|];
    if ordinary {
      assert w == v + [w[|pz|]];
      OrdinaryErrorForm(sigma2, K, k0, v, w[|pz|]);
    } else {
      assert w == v;
      SimpleErrorForm(sigma2, K, k0, v);
    }
  }

  /** Adding c to every sample adds c to the ordinary mean and leaves the variance alone. */
  lemma ShiftedPrediction(sigma2: real, K: seq<Vector>, k0: Vector, pz: Vector, c: real,
                          w: Vector, mean: real, variance: real, w': Vector, mean': real, variance': real)
    requires Predicted(true, sigma2, K, k0, pz, w, mean, variance)
    requires Predicted(true, sigma2, K, k0, Plus(pz, c, Ones(|pz|)), w', mean', variance')
    ensures mean' == mean + c && variance' == variance
  {
    assert w' == w;
    VarianceIsErrorVariance(true, sigma2, K, k0, pz, w, mean, variance);
    ShiftedMean(w[..|pz|], pz, c);
  }

  /** If the target has the covariances of sample j, the sample is reproduced. */
  lemma ReproducesSample(ordinary: bool, sigma2: real, K: seq<Vector>, k0: Vector, pz: Vector,
                         w: Vector, mean: real, variance: real, j: nat)
    requires Predicted(ordinary, sigma2, K, k0, pz, w, mean, variance) && Symmetric(K, |k0|)
    requires j < |k0| && k0 == K[j] && k0[j] == sigma2
    ensures mean == pz[j] && variance == 0.0
  {
    var m := |k0|;
    UnitSolves(K, k0, j);
    assert w == if ordinary then Unit(m, j) + [0.0] else Unit(m, j);
    assert w[..m] == Unit(m, j);
    DotSymmetric(Unit(m, j), pz, 0);
    DotUnit(pz, j, 0);
    DotSymmetric(Unit(m, j), k0, 0);
    DotUnit(k0, j, 0);
  }

  /** Without a nugget a prediction at a sample reproduces it, with variance zero. */
  lemma ExactAtSample(cov: Covariance, ordinary: bool, sigma2: real, px: Vector, py: Vector, pz: Vector,
                      w: Vector, mean: real, variance: real, j: nat)
    requires |px| == |py| == |pz| && j < |px| && cov(0.0) == sigma2
    requires Predicted(ordinary, sigma2, CovMatrix(cov, 0.0, px, py), CovTarget(cov, px, py, px[j], py[j]),
                       pz, w, mean, variance)
    ensures mean == pz[j] && variance == 0.0
  {
    var K, k0 := CovMatrix(cov, 0.0, px, py), CovTarget(cov, px, py, px[j], py[j]);
    CovSymmetric(cov, 0.0, px, py);
    TargetIsColumn(cov, px, py, j);
    ReproducesSample(ordinary, sigma2, K, k0, pz, w, mean, variance, j);
  }

  lemma TargetIsColumn(cov: Covariance, px: Vector, py: Vector, j: nat)
    requires |px| == |py| && j < |px|
    ensures CovTarget(cov, px, py, px[j], py[j]) == CovMatrix(cov, 0.0, px, py)[j]
    ensures CovTarget(cov, px, py, px[j], py[j])[j] == cov(0.0)
  {
    forall i | 0 <= i < |px|
      ensures CovTarget(cov, px, py, px[j], py[j])[i] == CovMatrix(cov, 0.0, px, py)[j][i]
    {
      DistanceSymmetric(px[i], py[i], px[j], py[j]);
    }
    assert SquaredDistance(px[j], py[j], px[j], py[j]) == 0.0;
  }
}
