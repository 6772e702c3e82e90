/** Vectors, linear systems and the row operations of Gaussian elimination. */
module LinearAlgebra {
  import opened RealMath

  type Vector = seq<real>

  /** A square system: |rows| equations in as many unknowns. */
  datatype System = System(rows: seq<Vector>, rhs: Vector)
  {
    ghost predicate Square(n: nat) {
      |rows| == n && |rhs| == n && forall i :: 0 <= i < n ==> |rows[i]| == n
    }
  }

  /** The scalar product of a and x from position k on. */
  ghost function DotFrom(a: Vector, x: Vector, k: nat): real
    requires |a| == |x| && k <= |a|
    decreases |a| - k
  {
    if k == |a| then 0.0 else a[k] * x[k] + DotFrom(a, x, k + 1)
  }

  ghost function Dot(a: Vector, x: Vector): real
    requires |a| == |x|
  {
    DotFrom(a, x, 0)
  }

  ghost predicate Solves(s: System, x: Vector)
    requires s.Square(|x|)
  {
    forall i :: 0 <= i < |x| ==> Dot(s.rows[i], x) == s.rhs[i]
  }

  /** What is left of a after f times r has been taken away. */
  function Reduce(a: real, f: real, r: real): real {
    a - f * r
  }

  /** The multiple of the pivot p that a is. */
  function Factor(a: real, p: real): real
    requires p != 0.0
  {
    a / p
  }

  lemma ReduceClears(a: real, p: real)
    requires p != 0.0
    ensures Reduce(a, Factor(a, p), p) == 0.0
  {
    DivideMultiply(a, p);
  }

  lemma ReduceZeros(f: real)
    ensures Reduce(0.0, f, 0.0) == 0.0
  {
  }

  /** a - f r, component by component. */
  ghost function Minus(a: Vector, f: real, r: Vector): (d: Vector)
    requires |a| == |r|
    ensures |d| == |a|
  {
    seq(|a|, j requires 0 <= j < |a| => Reduce(a[j], f, r[j]))
  }

  lemma {:induction false} DotMinus(a: Vector, f: real, r: Vector, x: Vector, k: nat)
    requires |a| == |r| == |x| && k <= |a|
    ensures DotFrom(Minus(a, f, r), x, k) == DotFrom(a, x, k) - f * DotFrom(r, x, k)
    decreases |a| - k
  {
    if k < |a| {
      DotMinus(a, f, r, x, k + 1);
      var p, q, u, v := a[k], r[k], x[k], DotFrom(r, x, k + 1);
      assert (p - f * q) * u == p * u - f * (q * u);
      assert f * (q * u + v) == f * (q * u) + f * v;
    }
  }

  /** Leading zeros contribute nothing. */
  lemma {:induction false} DotSkip(a: Vector, x: Vector, k: nat, m: nat)
    requires |a| == |x| && k <= m <= |a|
    requires forall j :: k <= j < m ==> a[j] == 0.0
    ensures DotFrom(a, x, k) == DotFrom(a, x, m)
    decreases m - k
  {
    if k < m { DotSkip(a, x, k + 1, m); }
  }

  /** Trailing zeros of x contribute nothing either. */
  lemma {:induction false} DotTail(a: Vector, x: Vector, k: nat)
    requires |a| == |x| && k <= |a|
    requires forall j :: k <= j < |a| ==> x[j] == 0.0
    ensures DotFrom(a, x, k) == 0.0
    decreases |a| - k
  {
    if k < |a| { DotTail(a, x, k + 1); }
  }

  /** Only the components from k on matter. */
  lemma {:induction false} DotAgree(a: Vector, x: Vector, y: Vector, k: nat)
    requires |a| == |x| == |y| && k <= |a|
    requires forall j :: k <= j < |a| ==> x[j] == y[j]
    ensures DotFrom(a, x, k) == DotFrom(a, y, k)
    decreases |a| - k
  {
    if k < |a| { DotAgree(a, x, y, k + 1); }
  }

  // ----- row operations -----

  ghost function Exchange(s: System, p: nat, k: nat): System
    requires s.Square(|s.rhs|) && p < |s.rhs| && k < |s.rhs|
  {
    System(s.rows[p := s.rows[k]][k := s.rows[p]], s.rhs[p := s.rhs[k]][k := s.rhs[p]])
  }

  /** Clears column k below the diagonal. */
  ghost function Cleared(s: System, k: nat): System
    requires s.Square(|s.rhs|) && k < |s.rhs| && s.rows[k][k] != 0.0
  {
    var n := |s.rhs|;
    System(
      seq(n, i requires 0 <= i < n =>
        if i <= k then s.rows[i] else Minus(s.rows[i], Factor(s.rows[i][k], s.rows[k][k]), s.rows[k])),
      seq(n, i requires 0 <= i < n =>
        if i <= k then s.rhs[i] else Reduce(s.rhs[i], Factor(s.rows[i][k], s.rows[k][k]), s.rhs[k])))
  }

  /** The two systems have the same solutions. */
  ghost predicate Equivalent(s: System, t: System, n: nat) {
    && s.Square(n) && t.Square(n)
    && forall x: Vector {:trigger Solves(s, x)} {:trigger Solves(t, x)} :: |x| == n ==> (Solves(s, x) <==> Solves(t, x))
  }

  /** x annihilates the first k rows and nearly annihilates the others. */
  ghost predicate Nearly(s: System, k: nat, x: Vector, e: real)
    requires s.Square(|x|) && k <= |x|
  {
    && e > 0.0
    && (forall i :: 0 <= i < k ==> Dot(s.rows[i], x) == 0.0)
    && (forall i :: k <= i < |x| ==> -e < Dot(s.rows[i], x) < e)
  }

  /** Whatever nearly annihilates t (its first k rows exactly) nearly annihilates s. */
  ghost predicate Reflects(s: System, t: System, k: nat, n: nat) {
    && s.Square(n) && t.Square(n) && k <= n
    && forall x: Vector, e: real :: |x| == n && Nearly(t, k, x, e) ==> Nearly(s, 0, x, e)
  }

  lemma ExchangeSolves(s: System, p: nat, k: nat, x: Vector)
    requires s.Square(|x|) && p < |x| && k < |x|
    ensures Exchange(s, p, k).Square(|x|)
    ensures Solves(Exchange(s, p, k), x) <==> Solves(s, x)
  {
    var t := Exchange(s, p, k);
    if Solves(t, x) {
      forall i | 0 <= i < |x| ensures Dot(s.rows[i], x) == s.rhs[i] {
        var j := if i == p then k else if i == k then p else i;
        assert t.rows[j] == s.rows[i] && t.rhs[j] == s.rhs[i];
      }
    }
  }

  lemma ClearedRow(s: System, k: nat, x: Vector, i: nat)
    requires s.Square(|x|) && k < i < |x| && s.rows[k][k] != 0.0
    ensures Cleared(s, k).Square(|x|)
    ensures var f := Factor(s.rows[i][k], s.rows[k][k]);
            && Dot(Cleared(s, k).rows[i], x) == Dot(s.rows[i], x) - f * Dot(s.rows[k], x)
            && Cleared(s, k).rhs[i] == s.rhs[i] - f * s.rhs[k]
  {
    DotMinus(s.rows[i], Factor(s.rows[i][k], s.rows[k][k]), s.rows[k], x, 0);
  }

  /** Given equation k, equation i holds before exactly if it holds after. */
  lemma ClearedEquation(s: System, k: nat, x: Vector, i: nat)
    requires s.Square(|x|) && k < i < |x| && s.rows[k][k] != 0.0 && Cleared(s, k).Square(|x|)
    ensures Dot(s.rows[k], x) == s.rhs[k] ==>
              (Dot(Cleared(s, k).rows[i], x) == Cleared(s, k).rhs[i] <==> Dot(s.rows[i], x) == s.rhs[i])
  {
    ClearedRow(s, k, x, i);
    SameLess(Dot(s.rows[i], x), s.rhs[i], Factor(s.rows[i][k], s.rows[k][k]), Dot(s.rows[k], x), s.rhs[k]);
  }

  lemma SameLess(a: real, b: real, f: real, u: real, v: real)
    ensures u == v ==> (a - f * u == b - f * v <==> a == b)
  {
  }

  lemma ClearedSolves(s: System, k: nat, x: Vector)
    requires s.Square(|x|) && k < |x| && s.rows[k][k] != 0.0
    ensures Cleared(s, k).Square(|x|)
    ensures Solves(Cleared(s, k), x) <==> Solves(s, x)
  {
    var t := Cleared(s, k);
    forall i | k < i < |x| ensures Dot(s.rows[k], x) == s.rhs[k] ==>
        (Dot(t.rows[i], x) == t.rhs[i] <==> Dot(s.rows[i], x) == s.rhs[i])
    {
      ClearedEquation(s, k, x, i);
    }
    if Solves(t, x) {
      assert Dot(t.rows[k], x) == t.rhs[k];
      forall i | 0 <= i < |x| ensures Dot(s.rows[i], x) == s.rhs[i] {
        assert Dot(t.rows[i], x) == t.rhs[i];
      }
    }
  }

  lemma ExchangeNearly(s: System, p: nat, k: nat, x: Vector, e: real)
    requires s.Square(|x|) && k <= p < |x|
    requires Exchange(s, p, k).Square(|x|) && Nearly(Exchange(s, p, k), k, x, e)
    ensures Nearly(s, k, x, e)
  {
    var t := Exchange(s, p, k);
    forall i | k <= i < |x| ensures -e < Dot(s.rows[i], x) < e {
      var j := if i == p then k else if i == k then p else i;
      assert t.rows[j] == s.rows[i];
    }
    forall i | 0 <= i < k ensures Dot(s.rows[i], x) == 0.0 {
      assert t.rows[i] == s.rows[i];
    }
  }

  lemma ClearedNearly(s: System, k: nat, x: Vector, e: real)
    requires s.Square(|x|) && k < |x| && s.rows[k][k] != 0.0
    requires Cleared(s, k).Square(|x|) && Nearly(Cleared(s, k), k + 1, x, e)
    ensures Nearly(s, k, x, e)
  {
    var t := Cleared(s, k);
    forall i | 0 <= i <= k ensures Dot(s.rows[i], x) == 0.0 {
      assert t.rows[i] == s.rows[i];
    }
    forall i | k < i < |x| ensures -e < Dot(s.rows[i], x) < e {
      ClearedRow(s, k, x, i);
      assert -e < Dot(t.rows[i], x) < e;
    }
  }

  // ----- triangular systems -----

  /** The first k columns are zero below the diagonal, and not zero on it. */
  ghost predicate Reduced(s: System, k: nat, n: nat) {
    && s.Square(n) && k <= n
    && (forall i, j :: 0 <= j < k && j < i < n ==> s.rows[i][j] == 0.0)
    && (forall i :: 0 <= i < k ==> s.rows[i][i] != 0.0)
  }

  lemma DotDiagonal(s: System, k: nat, i: nat, x: Vector)
    requires Reduced(s, k, |x|) && i < |x| && i <= k
    ensures Dot(s.rows[i], x) == DotFrom(s.rows[i], x, i)
  {
    DotSkip(s.rows[i], x, 0, i);
  }

  /** A triangular system has at most one solution. */
  lemma {:induction false} TriangularUnique(s: System, x: Vector, y: Vector, i: nat)
    requires Reduced(s, |x|, |x|) && |y| == |x| && i <= |x|
    requires Solves(s, x) && Solves(s, y)
    ensures x[i..] == y[i..]
    decreases |x| - i
  {
    if i < |x| {
      TriangularUnique(s, x, y, i + 1);
      DotDiagonal(s, |x|, i, x);
      DotDiagonal(s, |x|, i, y);
      assert forall j :: i < j < |x| ==> x[j] == x[i + 1..][j - i - 1] && y[j] == y[i + 1..][j - i - 1];
      DotAgree(s.rows[i], x, y, i + 1);
      SameTerm(s.rows[i], x, y, i);
      SameFactor(s.rows[i][i], x[i], y[i]);
    }
  }

  /** Equal products from i on, and from i + 1 on, have equal terms at i. */
  lemma SameTerm(a: Vector, x: Vector, y: Vector, i: nat)
    requires |a| == |x| == |y| && i < |a|
    requires DotFrom(a, x, i) == DotFrom(a, y, i) && DotFrom(a, x, i + 1) == DotFrom(a, y, i + 1)
    ensures a[i] * x[i] == a[i] * y[i]
  {
  }

  lemma SameFactor(d: real, u: real, v: real)
    requires d != 0.0 && d * u == d * v
    ensures u == v
  {
    assert d * (u - v) == 0.0;
  }

  lemma SolveDiagonal(d: real, rest: real, c: real)
    requires d != 0.0
    ensures d * ((c - rest) / d) + rest == c
  {
    DivideMultiply(c - rest, d);
  }

  /** A vector with a one at k and zeros after it that the rows from i up to k annihilate. */
  lemma {:induction false} NullVector(s: System, k: nat, i: nat, n: nat) returns (x: Vector)
    requires Reduced(s, k, n) && i <= k < n
    ensures |x| == n && x[k] == 1.0
    ensures forall j :: k < j < n ==> x[j] == 0.0
    ensures forall r :: i <= r < k ==> DotFrom(s.rows[r], x, r) == 0.0
    decreases k - i
  {
    if i == k {
      x := seq(n, j => if j == k then 1.0 else 0.0);
    } else {
      var y := NullVector(s, k, i + 1, n);
      var rest, d := DotFrom(s.rows[i], y, i + 1), s.rows[i][i];
      x := y[i := (0.0 - rest) / d];
      DotAgree(s.rows[i], x, y, i + 1);
      SolveDiagonal(d, rest, 0.0);
      forall r | i < r < k ensures DotFrom(s.rows[r], x, r) == 0.0 {
        DotAgree(s.rows[r], x, y, r);
      }
    }
  }

  /** If column k has nothing of size e left on or below the diagonal, some vector with a
      component of one is nearly annihilated. */
  lemma NoPivotLeft(s: System, k: nat, n: nat, e: real) returns (x: Vector)
    requires Reduced(s, k, n) && k < n && e > 0.0
    requires forall i :: k <= i < n ==> -e < s.rows[i][k] < e
    ensures |x| == n && x[k] == 1.0 && Nearly(s, k, x, e)
  {
    x := NullVector(s, k, 0, n);
    forall i | 0 <= i < k ensures Dot(s.rows[i], x) == 0.0 {
      DotDiagonal(s, k, i, x);
    }
    forall i | k <= i < n ensures -e < Dot(s.rows[i], x) < e {
      DotSkip(s.rows[i], x, 0, k);
      DotTail(s.rows[i], x, k + 1);
      assert DotFrom(s.rows[i], x, k) == s.rows[i][k] * 1.0 + 0.0;
    }
  }

  lemma ClearedReduced(s: System, k: nat, n: nat)
    requires Reduced(s, k, n) && k < n && s.rows[k][k] != 0.0
    ensures Reduced(Cleared(s, k), k + 1, n)
  {
    var t := Cleared(s, k);
    forall i, j | 0 <= j < k + 1 && j < i < n ensures t.rows[i][j] == 0.0 {
      if i > k {
        ReduceClears(s.rows[i][k], s.rows[k][k]);
        ReduceZeros(Factor(s.rows[i][k], s.rows[k][k]));
      }
    }
  }

  lemma ExchangeReduced(s: System, p: nat, k: nat, n: nat)
    requires Reduced(s, k, n) && k <= p < n
    ensures Reduced(Exchange(s, p, k), k, n)
  {
  }

  // ----- what one elimination step keeps -----

  lemma ExchangeKeeps(s0: System, s: System, p: nat, k: nat, n: nat)
    requires Equivalent(s0, s, n) && Reflects(s0, s, k, n) && k <= p < n
    ensures Equivalent(s0, Exchange(s, p, k), n) && Reflects(s0, Exchange(s, p, k), k, n)
  {
    var t := Exchange(s, p, k);
    assert t.Square(n);
    forall x: Vector | |x| == n ensures Solves(s0, x) <==> Solves(t, x) {
      ExchangeSolves(s, p, k, x);
    }
    forall x: Vector, e: real | |x| == n && Nearly(t, k, x, e) ensures Nearly(s0, 0, x, e) {
      ExchangeNearly(s, p, k, x, e);
    }
  }

  lemma ClearedKeeps(s0: System, s: System, k: nat, n: nat)
    requires Equivalent(s0, s, n) && Reflects(s0, s, k, n) && k < n && s.rows[k][k] != 0.0
    ensures Equivalent(s0, Cleared(s, k), n) && Reflects(s0, Cleared(s, k), k + 1, n)
  {
    var t := Cleared(s, k);
    assert t.Square(n);
    forall x: Vector | |x| == n ensures Solves(s0, x) <==> Solves(t, x) {
      ClearedSolves(s, k, x);
    }
    forall x: Vector, e: real | |x| == n && Nearly(t, k + 1, x, e) ensures Nearly(s0, 0, x, e) {
      ClearedNearly(s, k, x, e);
    }
  }

  // ----- singular systems -----

  /** Some vector other than zero is annihilated by every row. */
  ghost predicate Singular(s: System, n: nat) {
    s.Square(n) && exists z: Vector, k: nat :: |z| == n && k < n && z[k] != 0.0 && Annihilates(s, z)
  }

  ghost predicate Annihilates(s: System, z: Vector)
    requires s.Square(|z|)
  {
    forall i :: 0 <= i < |z| ==> Dot(s.rows[i], z) == 0.0
  }

  lemma {:induction false} DotSymmetric(a: Vector, x: Vector, k: nat)
    requires |a| == |x| && k <= |a|
    ensures DotFrom(a, x, k) == DotFrom(x, a, k)
    decreases |a| - k
  {
    if k < |a| { DotSymmetric(a, x, k + 1); }
  }

  /** A singular system never has exactly one solution. */
  lemma SingularNotUnique(s: System, x: Vector, n: nat) returns (y: Vector)
    requires Singular(s, n) && |x| == n && Solves(s, x)
    ensures |y| == n && y != x && Solves(s, y)
  {
    var z: Vector, k: nat :| |z| == n && k < n && z[k] != 0.0 && Annihilates(s, z);
    y := Minus(x, 1.0, z);
    assert y[k] == x[k] - z[k];
    forall i | 0 <= i < n ensures Dot(s.rows[i], y) == s.rhs[i] {
      DotSymmetric(s.rows[i], y, 0);
      DotMinus(x, 1.0, z, s.rows[i], 0);
      DotSymmetric(s.rows[i], x, 0);
      DotSymmetric(s.rows[i], z, 0);
      assert Dot(s.rows[i], z) == 0.0;
    }
  }
}
