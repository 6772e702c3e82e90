/**
 Kriging with a covariance that is one: if covariance matrices are positive semidefinite,
 no other weights have a smaller error variance, and the variance is never negative.
 */
module KrigingOptimal {
  import opened RealMath
  import opened LinearAlgebra
  import opened KrigingTheory
  import opened KrigingPredict

  /** The quadratic form of K. */
  ghost function Form(K: seq<Vector>, e: Vector): real
    requires IsSquare(K, |e|)
  {
    Dot(e, Apply(K, e))
  }

  ghost predicate PositiveSemidefinite(K: seq<Vector>, m: nat) {
    IsSquare(K, m) && forall e: Vector {:trigger Form(K, e)} :: |e| == m ==> Form(K, e) >= 0.0
  }

  // ----- the nugget -----

  lemma {:induction false} DotSelf(e: Vector, k: nat)
    requires k <= |e|
    ensures DotFrom(e, e, k) >= 0.0
    decreases |e| - k
  {
    if k < |e| {
      DotSelf(e, k + 1);
      assert e[k] * e[k] == Square(e[k]);
    }
  }

  /** A row with the nugget added at position i. */
  lemma {:induction false} DotNugget(a: Vector, b: Vector, e: Vector, i: nat, nugget: real, k: nat)
    requires |a| == |b| == |e| && i < |e| && k <= |e|
    requires forall j :: 0 <= j < |e| ==> b[j] == if j == i then a[j] + nugget else a[j]
    ensures DotFrom(b, e, k) == DotFrom(a, e, k) + if k <= i then nugget * e[i] else 0.0
    decreases |e| - k
  {
    if k < |e| {
      DotNugget(a, b, e, i, nugget, k + 1);
      if k == i { assert (a[k] + nugget) * e[k] == a[k] * e[k] + nugget * e[k]; }
    }
  }

  /** The nugget adds its multiple of the vector. */
  lemma NuggetApply(cov: Covariance, nugget: real, px: Vector, py: Vector, e: Vector)
    requires |px| == |py| == |e|
    ensures Apply(CovMatrix(cov, nugget, px, py), e) == Plus(Apply(CovMatrix(cov, 0.0, px, py), e), nugget, e)
  {
    var K, C := CovMatrix(cov, nugget, px, py), CovMatrix(cov, 0.0, px, py);
    forall i | 0 <= i < |e| ensures Apply(K, e)[i] == Plus(Apply(C, e), nugget, e)[i] {
      DotNugget(C[i], K[i], e, i, nugget, 0);
      assert -(-nugget * e[i]) == nugget * e[i];
    }
  }

  lemma NuggetForm(cov: Covariance, nugget: real, px: Vector, py: Vector, e: Vector)
    requires |px| == |py| == |e| && nugget >= 0.0
    ensures Form(CovMatrix(cov, nugget, px, py), e) >= Form(CovMatrix(cov, 0.0, px, py), e)
  {
    NuggetApply(cov, nugget, px, py, e);
    DotPlus(Apply(CovMatrix(cov, 0.0, px, py), e), nugget, e, e);
    DotSelf(e, 0);
    MulSign(nugget, Dot(e, e));
  }

  lemma {:induction false} NuggetPositive(cov: Covariance, nugget: real, px: Vector, py: Vector)
    requires |px| == |py| && nugget >= 0.0 && PositiveSemidefinite(CovMatrix(cov, 0.0, px, py), |px|)
    ensures PositiveSemidefinite(CovMatrix(cov, nugget, px, py), |px|)
  {
    var K, C := CovMatrix(cov, nugget, px, py), CovMatrix(cov, 0.0, px, py);
    forall e: Vector {:trigger Form(K, e)} | |e| == |px| ensures Form(K, e) >= Form(C, e) {
      NuggetForm(cov, nugget, px, py, e);
    }
    LargerForm(C, K, |px|);
  }

  lemma {:induction false} LargerForm(C: seq<Vector>, K: seq<Vector>, m: nat)
    requires PositiveSemidefinite(C, m) && IsSquare(K, m)
    requires forall e: Vector {:trigger Form(K, e)} :: |e| == m ==> Form(K, e) >= Form(C, e)
    ensures PositiveSemidefinite(K, m)
  {
    forall e: Vector | |e| == m ensures Form(K, e) >= 0.0 {
      assert Form(C, e) >= 0.0;
    }
  }

  // ----- no other weights do better -----

  /** The weights u, as a change of v. */
  lemma Difference(u: Vector, v: Vector) returns (e: Vector)
    requires |u| == |v|
    ensures |e| == |v| && Plus(v, 1.0, e) == u && SumOf(e) == SumOf(u) - SumOf(v)
  {
    e := Plus(u, -1.0, v);
    assert forall i :: 0 <= i < |v| ==> Plus(v, 1.0, e)[i] == u[i];
    DotPlus(u, -1.0, v, Ones(|v|));
  }

  /** No weights (summing to one, for ordinary kriging) have a smaller error variance. */
  lemma BestWeights(ordinary: bool, sigma2: real, K: seq<Vector>, k0: Vector, pz: Vector,
                    w: Vector, mean: real, variance: real, u: Vector)
    requires Predicted(ordinary, sigma2, K, k0, pz, w, mean, variance)
    requires Symmetric(K, |k0|) && PositiveSemidefinite(K, |k0|)
    requires |u| == |k0| && (ordinary ==> SumOf(u) == 1.0)
    ensures ErrorVariance(sigma2, K, k0, u) >= ErrorVariance(sigma2, K, k0, w[..|k0|])
  {
    var v := w[..|k0|];
    VarianceIsErrorVariance(ordinary, sigma2, K, k0, pz, w, mean, variance);
    var e := Difference(u, v);
    WeightsChange(ordinary, sigma2, K, k0, w, v, e);
    assert Form(K, e) >= 0.0;
  }

  /** The weights of a prediction are the best linear ones, unbiased for ordinary kriging,
      if the covariance is positive semidefinite on the neighbours. */
  lemma BestPrediction(cov: Covariance, ordinary: bool, sigma2: real, nugget: real, px: Vector, py: Vector, pz: Vector,
                       qx: real, qy: real, w: Vector, mean: real, variance: real, u: Vector)
    requires |px| == |py| == |pz| == |u| && nugget >= 0.0 && (ordinary ==> SumOf(u) == 1.0)
    requires PositiveSemidefinite(CovMatrix(cov, 0.0, px, py), |px|)
    requires Predicted(ordinary, sigma2, CovMatrix(cov, nugget, px, py), CovTarget(cov, px, py, qx, qy),
                       pz, w, mean, variance)
    ensures var K, k0 := CovMatrix(cov, nugget, px, py), CovTarget(cov, px, py, qx, qy);
            ErrorVariance(sigma2, K, k0, u) >= ErrorVariance(sigma2, K, k0, w[..|px|])
  {
    CovSymmetric(cov, nugget, px, py);
    NuggetPositive(cov, nugget, px, py);
    BestWeights(ordinary, sigma2, CovMatrix(cov, nugget, px, py), CovTarget(cov, px, py, qx, qy),
                pz, w, mean, variance, u);
  }

  lemma WeightsChange(ordinary: bool, sigma2: real, K: seq<Vector>, k0: Vector, w: Vector, v: Vector, e: Vector)
    requires IsSquare(K, |k0|) && Symmetric(K, |k0|) && |w| == Unknowns(ordinary, |k0|) && v == w[..|k0|]
    requires Solves(LocalSystem(ordinary, K, k0), w) && |e| == |k0| && (ordinary ==> SumOf(e) == 0.0)
    ensures ErrorVariance(sigma2, K, k0, Plus(v, 1.0, e)) == ErrorVariance(sigma2, K, k0, v) + Form(K, e)
  {
    if ordinary {
      assert w == v + [w[|k0|]];
      OrdinaryChange(sigma2, K, k0, v, w[|k0|], e);
    } else {
      assert w == v;
      SimpleChange(sigma2, K, k0, v, e);
    }
  }

  // ----- the variance is never negative -----

  /** The covariances among the neighbours and the target, row by row. */
  lemma JointRows(cov: Covariance, px: Vector, py: Vector, qx: real, qy: real)
    requires |px| == |py|
    ensures var J := CovMatrix(cov, 0.0, px + [qx], py + [qy]);
            var C, k0 := CovMatrix(cov, 0.0, px, py), CovTarget(cov, px, py, qx, qy);
            && (forall i :: 0 <= i < |px| ==> J[i] == C[i] + [k0[i]])
            && J[|px|] == k0 + [cov(0.0)]
  {
    var m := |px|;
    var J := CovMatrix(cov, 0.0, px + [qx], py + [qy]);
    var C, k0 := CovMatrix(cov, 0.0, px, py), CovTarget(cov, px, py, qx, qy);
    forall i | 0 <= i < m ensures J[i] == C[i] + [k0[i]] {
      assert |J[i]| == m + 1;
      assert forall j :: 0 <= j < m ==> J[i][j] == C[i][j];
    }
    forall j | 0 <= j < m ensures J[m][j] == k0[j] {
      DistanceSymmetric(qx, qy, px[j], py[j]);
    }
    assert SquaredDistance(qx, qy, qx, qy) == 0.0;
    assert J[m] == k0 + [cov(0.0)];
  }

  /** The error variance is the quadratic form of the weights and minus one. */
  lemma JointForm(sigma2: real, J: seq<Vector>, C: seq<Vector>, k0: Vector, v: Vector)
    requires IsSquare(C, |v|) && |k0| == |v| && IsSquare(J, |v| + 1)
    requires (forall i :: 0 <= i < |v| ==> J[i] == C[i] + [k0[i]]) && J[|v|] == k0 + [sigma2]
    ensures Form(J, v + [-1.0]) == ErrorVariance(sigma2, C, k0, v)
  {
    var f, m := v + [-1.0], |v|;
    var a := Plus(Apply(C, v), -1.0, k0);
    forall i | 0 <= i < m ensures Apply(J, f)[i] == a[i] {
      DotAppend(C[i], k0[i], v, -1.0, 0);
    }
    DotAppend(k0, sigma2, v, -1.0, 0);
    assert Apply(J, f) == a + [Dot(k0, v) - sigma2];
    DotAppend(v, -1.0, a, Dot(k0, v) - sigma2, 0);
    DotPlus(Apply(C, v), -1.0, k0, v);
    DotSymmetric(k0, v, 0);
  }

  /** With a covariance that is positive semidefinite on the neighbours and the target, and
      a nugget that is not negative, the error variance of any weights is not negative. */
  lemma ErrorNonNegative(cov: Covariance, nugget: real, px: Vector, py: Vector, qx: real, qy: real, v: Vector)
    requires |px| == |py| == |v| && nugget >= 0.0
    requires PositiveSemidefinite(CovMatrix(cov, 0.0, px + [qx], py + [qy]), |px| + 1)
    ensures ErrorVariance(cov(0.0), CovMatrix(cov, nugget, px, py), CovTarget(cov, px, py, qx, qy), v) >= 0.0
  {
    var C, k0 := CovMatrix(cov, 0.0, px, py), CovTarget(cov, px, py, qx, qy);
    var J := CovMatrix(cov, 0.0, px + [qx], py + [qy]);
    JointRows(cov, px, py, qx, qy);
    JointForm(cov(0.0), J, C, k0, v);
    assert Form(J, v + [-1.0]) >= 0.0;
    NuggetForm(cov, nugget, px, py, v);
  }

  /** So the clamp at zero never changes an exact variance. */
  lemma ClampIsIdle(cov: Covariance, ordinary: bool, nugget: real, px: Vector, py: Vector, pz: Vector,
                    qx: real, qy: real, w: Vector, mean: real, variance: real)
    requires |px| == |py| == |pz| && nugget >= 0.0
    requires PositiveSemidefinite(CovMatrix(cov, 0.0, px + [qx], py + [qy]), |px| + 1)
    requires Predicted(ordinary, cov(0.0), CovMatrix(cov, nugget, px, py), CovTarget(cov, px, py, qx, qy),
                       pz, w, mean, variance)
    ensures RawVariance(ordinary, cov(0.0), CovTarget(cov, px, py, qx, qy), w) == variance >= 0.0
  {
    VarianceIsErrorVariance(ordinary, cov(0.0), CovMatrix(cov, nugget, px, py), CovTarget(cov, px, py, qx, qy),
                            pz, w, mean, variance);
    ErrorNonNegative(cov, nugget, px, py, qx, qy, w[..|px|]);
  }
}
