/**
 What the weights of a kriging system mean, for any covariance matrix: unbiasedness,
 the two forms of the variance, exact interpolation, and what other weights would cost.
 */
module KrigingTheory {
  import opened LinearAlgebra

  function Ones(m: nat): Vector { seq(m, i => 1.0) }

  function Unit(m: nat, j: nat): Vector { seq(m, i => if i == j then 1.0 else 0.0) }

  ghost function SumOf(v: Vector): real { Dot(Ones(|v|), v) }

  ghost predicate Symmetric(K: seq<Vector>, m: nat) {
    && |K| == m && (forall i :: 0 <= i < m ==> |K[i]| == m)
    && (forall i, j :: 0 <= i < m && 0 <= j < m ==> K[i][j] == K[j][i])
  }

  /** Simple kriging: K w = k0. */
  ghost function SimpleSystem(K: seq<Vector>, k0: Vector): System { System(K, k0) }

  /** Ordinary kriging: K bordered by the constraint that the weights sum to one. */
  ghost function OrdinarySystem(K: seq<Vector>, k0: Vector): System {
    System(seq(|K|, i requires 0 <= i < |K| => K[i] + [1.0]) + [Ones(|K|) + [0.0]], k0 + [1.0])
  }

  // ----- vectors with one more component -----

  lemma {:induction false} DotAppend(a: Vector, p: real, x: Vector, q: real, k: nat)
    requires |a| == |x| && k <= |a|
    ensures DotFrom(a + [p], x + [q], k) == DotFrom(a, x, k) + p * q
    decreases |a| - k
  {
    if k < |a| {
      DotAppend(a, p, x, q, k + 1);
    } else {
      assert DotFrom(a + [p], x + [q], k + 1) == 0.0;
    }
  }

  /** The equations of ordinary kriging, spelled out for weights v and multiplier mu. */
  lemma OrdinaryEquations(K: seq<Vector>, k0: Vector, v: Vector, mu: real)
    requires |K| == |k0| == |v| && forall i :: 0 <= i < |K| ==> |K[i]| == |K|
    ensures OrdinarySystem(K, k0).Square(|v| + 1)
    ensures Solves(OrdinarySystem(K, k0), v + [mu]) <==>
            && (forall i :: 0 <= i < |K| ==> Dot(K[i], v) + mu == k0[i])
            && SumOf(v) == 1.0
  {
    var s, w, m := OrdinarySystem(K, k0), v + [mu], |K|;
    forall i | 0 <= i < m ensures Dot(s.rows[i], w) == Dot(K[i], v) + mu {
      DotAppend(K[i], 1.0, v, mu, 0);
      assert s.rows[i] == K[i] + [1.0];
    }
    DotAppend(Ones(m), 0.0, v, mu, 0);
    assert s.rows[m] == Ones(m) + [0.0];
    assert Dot(s.rows[m], w) == SumOf(v);
    if Solves(s, w) {
      forall i | 0 <= i < m ensures Dot(K[i], v) + mu == k0[i] {
        assert Dot(s.rows[i], w) == s.rhs[i];
      }
      assert Dot(s.rows[m], w) == s.rhs[m];
    }
  }

  // ----- linearity -----

  ghost function Plus(a: Vector, f: real, r: Vector): (d: Vector)
    requires |a| == |r|
    ensures |d| == |a|
  {
    Minus(a, -f, r)
  }

  lemma DotPlus(a: Vector, f: real, r: Vector, x: Vector)
    requires |a| == |r| == |x|
    ensures Dot(Plus(a, f, r), x) == Dot(a, x) + f * Dot(r, x)
    ensures Dot(x, Plus(a, f, r)) == Dot(x, a) + f * Dot(x, r)
  {
    DotMinus(a, -f, r, x, 0);
    assert (-f) * Dot(r, x) == -(f * Dot(r, x));
    DotSymmetric(x, Plus(a, f, r), 0);
    DotSymmetric(x, a, 0);
    DotSymmetric(x, r, 0);
  }

  lemma {:induction false} DotUnit(a: Vector, j: nat, k: nat)
    requires j < |a| && k <= |a|
    ensures DotFrom(a, Unit(|a|, j), k) == if k <= j then a[j] else 0.0
    decreases |a| - k
  {
    if k < |a| { DotUnit(a, j, k + 1); }
  }

  /** K v. */
  ghost function Apply(K: seq<Vector>, v: Vector): (r: Vector)
    requires |K| == |v| && forall i :: 0 <= i < |K| ==> |K[i]| == |v|
    ensures |r| == |v|
  {
    seq(|v|, i requires 0 <= i < |v| => Dot(K[i], v))
  }

  lemma ApplyPlus(K: seq<Vector>, a: Vector, f: real, r: Vector)
    requires |K| == |a| == |r| && forall i :: 0 <= i < |K| ==> |K[i]| == |a|
    ensures Apply(K, Plus(a, f, r)) == Plus(Apply(K, a), f, Apply(K, r))
  {
    forall i | 0 <= i < |a|
      ensures Apply(K, Plus(a, f, r))[i] == Plus(Apply(K, a), f, Apply(K, r))[i]
    {
      DotPlus(a, f, r, K[i]);
      assert (-f) * Dot(K[i], r) == -(f * Dot(K[i], r));
    }
  }

  /** The rows of K from i on, weighted by u and added up. */
  ghost function Combine(K: seq<Vector>, u: Vector, i: nat): (r: Vector)
    requires |K| == |u| && (forall j :: 0 <= j < |K| ==> |K[j]| == |u|) && i <= |u|
    ensures |r| == |u|
    decreases |u| - i
  {
    if i == |u| then seq(|u|, j => 0.0) else Plus(Combine(K, u, i + 1), u[i], K[i])
  }

  lemma {:induction false} CombineDot(K: seq<Vector>, u: Vector, v: Vector, i: nat)
    requires |K| == |u| == |v| && (forall j :: 0 <= j < |K| ==> |K[j]| == |u|) && i <= |u|
    ensures Dot(Combine(K, u, i), v) == DotFrom(u, Apply(K, v), i)
    decreases |u| - i
  {
    if i < |u| {
      CombineDot(K, u, v, i + 1);
      DotPlus(Combine(K, u, i + 1), u[i], K[i], v);
    } else {
      DotSkip(Combine(K, u, i), v, 0, |u|);
    }
  }

  lemma {:induction false} CombineAt(K: seq<Vector>, u: Vector, i: nat, j: nat)
    requires Symmetric(K, |u|) && i <= |u| && j < |u|
    ensures Combine(K, u, i)[j] == DotFrom(K[j], u, i)
    decreases |u| - i
  {
    if i < |u| {
      CombineAt(K, u, i + 1, j);
      var c, k := u[i], K[i][j];
      assert (-c) * k == -(k * c);
    }
  }

  /** A symmetric matrix may change sides in a scalar product. */
  lemma SelfAdjoint(K: seq<Vector>, u: Vector, v: Vector)
    requires |u| == |v| && Symmetric(K, |u|)
    ensures Dot(u, Apply(K, v)) == Dot(Apply(K, u), v)
  {
    CombineDot(K, u, v, 0);
    forall j | 0 <= j < |u| ensures Combine(K, u, 0)[j] == Apply(K, u)[j] {
      CombineAt(K, u, 0, j);
    }
    assert Combine(K, u, 0) == Apply(K, u);
  }

  // ----- mean, variance and optimality -----

  /** The variance of the error made when the target is predicted with weights u. */
  ghost function ErrorVariance(sigma2: real, K: seq<Vector>, k0: Vector, u: Vector): real
    requires |K| == |k0| == |u| && forall i :: 0 <= i < |K| ==> |K[i]| == |u|
  {
    sigma2 - 2.0 * Dot(u, k0) + Dot(u, Apply(K, u))
  }

  /** The solved weights turn K v into the right-hand side less the multiplier. */
  lemma OrdinaryApply(K: seq<Vector>, k0: Vector, v: Vector, mu: real, u: Vector)
    requires |K| == |k0| == |v| == |u| && forall i :: 0 <= i < |K| ==> |K[i]| == |K|
    requires OrdinarySystem(K, k0).Square(|v| + 1) && Solves(OrdinarySystem(K, k0), v + [mu])
    ensures Dot(u, Apply(K, v)) == Dot(u, k0) - mu * SumOf(u)
  {
    OrdinaryEquations(K, k0, v, mu);
    assert Apply(K, v) == Plus(k0, -mu, Ones(|v|)) by {
      forall i | 0 <= i < |v| ensures Apply(K, v)[i] == Plus(k0, -mu, Ones(|v|))[i] {
        assert Dot(K[i], v) + mu == k0[i];
      }
    }
    DotPlus(k0, -mu, Ones(|v|), u);
    DotSymmetric(u, Ones(|v|), 0);
    assert (-mu) * SumOf(u) == -(mu * SumOf(u));
  }

  /** Ordinary kriging is unbiased, and its reported variance is its error variance. */
  lemma OrdinaryErrorForm(sigma2: real, K: seq<Vector>, k0: Vector, v: Vector, mu: real)
    requires |K| == |k0| == |v| && forall i :: 0 <= i < |K| ==> |K[i]| == |K|
    requires OrdinarySystem(K, k0).Square(|v| + 1) && Solves(OrdinarySystem(K, k0), v + [mu])
    ensures SumOf(v) == 1.0
    ensures sigma2 - Dot(v, k0) - mu == ErrorVariance(sigma2, K, k0, v)
  {
    OrdinaryEquations(K, k0, v, mu);
    OrdinaryApply(K, k0, v, mu, v);
  }

  lemma SimpleErrorForm(sigma2: real, K: seq<Vector>, k0: Vector, v: Vector)
    requires |K| == |k0| == |v| && forall i :: 0 <= i < |K| ==> |K[i]| == |K|
    requires SimpleSystem(K, k0).Square(|v|) && Solves(SimpleSystem(K, k0), v)
    ensures sigma2 - Dot(v, k0) == ErrorVariance(sigma2, K, k0, v)
  {
    assert Apply(K, v) == k0;
  }

  /** Moving from weights v to weights u = v + e changes the error variance by the
      quadratic form of e and a term linear in it. */
  lemma ErrorExpansion(sigma2: real, K: seq<Vector>, k0: Vector, v: Vector, e: Vector)
    requires |k0| == |v| == |e| && Symmetric(K, |v|)
    ensures ErrorVariance(sigma2, K, k0, Plus(v, 1.0, e)) ==
            ErrorVariance(sigma2, K, k0, v) + Dot(e, Apply(K, e)) + 2.0 * (Dot(e, Apply(K, v)) - Dot(e, k0))
  {
    var u := Plus(v, 1.0, e);
    DotPlus(v, 1.0, e, k0);
    ApplyPlus(K, v, 1.0, e);
    DotPlus(v, 1.0, e, Apply(K, u));
    DotPlus(Apply(K, v), 1.0, Apply(K, e), v);
    DotPlus(Apply(K, v), 1.0, Apply(K, e), e);
    SelfAdjoint(K, v, e);
    DotSymmetric(Apply(K, v), e, 0);
  }

  /** Other weights that sum to one change the error variance by the quadratic form of
      their difference. */
  lemma OrdinaryChange(sigma2: real, K: seq<Vector>, k0: Vector, v: Vector, mu: real, e: Vector)
    requires |k0| == |v| == |e| && Symmetric(K, |v|) && SumOf(e) == 0.0
    requires OrdinarySystem(K, k0).Square(|v| + 1) && Solves(OrdinarySystem(K, k0), v + [mu])
    ensures SumOf(Plus(v, 1.0, e)) == 1.0
    ensures ErrorVariance(sigma2, K, k0, Plus(v, 1.0, e)) ==
            ErrorVariance(sigma2, K, k0, v) + Dot(e, Apply(K, e))
  {
    OrdinaryErrorForm(sigma2, K, k0, v, mu);
    DotPlus(v, 1.0, e, Ones(|v|));
    ErrorExpansion(sigma2, K, k0, v, e);
    OrdinaryApply(K, k0, v, mu, e);
  }

  /** Other weights change it by the quadratic form of their difference. */
  lemma SimpleChange(sigma2: real, K: seq<Vector>, k0: Vector, v: Vector, e: Vector)
    requires |k0| == |v| == |e| && Symmetric(K, |v|)
    requires SimpleSystem(K, k0).Square(|v|) && Solves(SimpleSystem(K, k0), v)
    ensures ErrorVariance(sigma2, K, k0, Plus(v, 1.0, e)) ==
            ErrorVariance(sigma2, K, k0, v) + Dot(e, Apply(K, e))
  {
    assert Apply(K, v) == k0;
    ErrorExpansion(sigma2, K, k0, v, e);
  }

  /** Adding c to every sample adds c to the prediction of weights that sum to one. */
  lemma ShiftedMean(v: Vector, z: Vector, c: real)
    requires |v| == |z| && SumOf(v) == 1.0
    ensures Dot(v, Plus(z, c, Ones(|z|))) == Dot(v, z) + c
  {
    DotPlus(z, c, Ones(|z|), v);
    DotSymmetric(v, Ones(|z|), 0);
  }

  /** If the right-hand side is column j of K, the unit weights on j solve both systems. */
  lemma UnitSolves(K: seq<Vector>, k0: Vector, j: nat)
    requires Symmetric(K, |k0|) && j < |k0| && k0 == K[j]
    ensures Solves(SimpleSystem(K, k0), Unit(|k0|, j))
    ensures OrdinarySystem(K, k0).Square(|k0| + 1)
    ensures Solves(OrdinarySystem(K, k0), Unit(|k0|, j) + [0.0])
  {
    var m := |k0|;
    forall i | 0 <= i < m ensures Dot(K[i], Unit(m, j)) == k0[i] {
      DotUnit(K[i], j, 0);
    }
    DotUnit(Ones(m), j, 0);
    OrdinaryEquations(K, k0, Unit(m, j), 0.0);
  }
}
