/**
 The dense solver of the kriging core: elimination with partial pivoting on the
 matrix in place, then back substitution into the right-hand side.
 */
module KrigingSolve {
  import opened RealMath
  import opened LinearAlgebra

  /** A pivot smaller than this counts as zero. */
  const PIVOT_FLOOR := 1.0e-300

  ghost predicate Shape(A: array2<real>, b: array<real>, n: nat) {
    A.Length0 == n && A.Length1 == n && b.Length == n
  }

  ghost function Row(A: array2<real>, i: nat): (r: Vector)
    requires i < A.Length0
    reads A
    ensures |r| == A.Length1
  {
    seq(A.Length1, j requires 0 <= j < A.Length1 reads A => A[i, j])
  }

  /** The system stored in the two arrays. */
  ghost function Stored(A: array2<real>, b: array<real>): (s: System)
    requires Shape(A, b, b.Length)
    reads A, b
    ensures s.Square(b.Length)
  {
    System(seq(b.Length, i requires 0 <= i < b.Length reads A => Row(A, i)), b[..])
  }

  /** The largest entry of column k on or below the diagonal. */
  method FindPivot(A: array2<real>, k: nat, n: nat) returns (p: nat, maxv: real)
    requires A.Length0 == n && A.Length1 == n && k < n
    ensures k <= p < n && maxv == Abs(A[p, k])
    ensures forall i :: k <= i < n ==> Abs(A[i, k]) <= maxv
  {
    p, maxv := k, Abs(A[k, k]);
    for i := k + 1 to n
      invariant k <= p < n && maxv == Abs(A[p, k])
      invariant forall r :: k <= r < i ==> Abs(A[r, k]) <= maxv
    {
      var v := Abs(A[i, k]);
      if v > maxv {
        maxv, p := v, i;
      }
    }
  }

  /** Brings the pivot row up. */
  method SwapRows(A: array2<real>, b: array<real>, p: nat, k: nat, n: nat)
    requires Shape(A, b, n) && k < p < n
    modifies A, b
    ensures Stored(A, b) == Exchange(old(Stored(A, b)), p, k)
  {
    for j := 0 to n
      modifies A
      invariant forall r, c :: 0 <= r < n && 0 <= c < n && r != p && r != k ==> A[r, c] == old(A[r, c])
      invariant forall c :: 0 <= c < j ==> A[p, c] == old(A[k, c]) && A[k, c] == old(A[p, c])
      invariant forall c :: j <= c < n ==> A[p, c] == old(A[p, c]) && A[k, c] == old(A[k, c])
    {
      A[p, j], A[k, j] := A[k, j], A[p, j];
    }
    b[p], b[k] := b[k], b[p];
    ghost var was := old(Stored(A, b));
    forall r | 0 <= r < n ensures Row(A, r) == Exchange(was, p, k).rows[r] {
      assert Row(A, r) == was.rows[if r == p then k else if r == k then p else r];
    }
    assert Stored(A, b).rows == Exchange(was, p, k).rows;
    assert b[..] == Exchange(was, p, k).rhs;
  }

  /** Subtracts the multiple of row k that clears column k of row i. */
  method ClearRow(A: array2<real>, b: array<real>, i: nat, k: nat, n: nat)
    requires Shape(A, b, n) && k < i < n && A[k, k] != 0.0
    requires forall c :: 0 <= c < k ==> A[i, c] == 0.0 && A[k, c] == 0.0
    modifies A, b
    ensures forall r, c :: 0 <= r < n && 0 <= c < n && r != i ==> A[r, c] == old(A[r, c])
    ensures forall r :: 0 <= r < n && r != i ==> b[r] == old(b[r])
    ensures Row(A, i) == Minus(old(Row(A, i)), Factor(old(A[i, k]), old(A[k, k])), old(Row(A, k)))
    ensures b[i] == Reduce(old(b[i]), Factor(old(A[i, k]), old(A[k, k])), old(b[k]))
  {
    var piv := A[k, k];
    var f := Factor(A[i, k], piv);
    A[i, k] := 0.0;
    for j := k + 1 to n
      modifies A
      invariant forall r, c :: 0 <= r < n && 0 <= c < n && r != i ==> A[r, c] == old(A[r, c])
      invariant forall c :: 0 <= c < k ==> A[i, c] == old(A[i, c])
      invariant A[i, k] == 0.0
      invariant forall c :: k < c < j ==> A[i, c] == Reduce(old(A[i, c]), f, old(A[k, c]))
      invariant forall c :: j <= c < n ==> A[i, c] == old(A[i, c])
    {
      A[i, j] := Reduce(A[i, j], f, A[k, j]);
    }
    b[i] := Reduce(b[i], f, b[k]);
    ReduceClears(old(A[i, k]), piv);
    ReduceZeros(f);
    ghost var want := Minus(old(Row(A, i)), f, old(Row(A, k)));
    forall c | 0 <= c < n ensures A[i, c] == want[c] {
    }
  }

  /** Clears column k below the diagonal. */
  method ClearColumn(A: array2<real>, b: array<real>, k: nat, n: nat)
    requires Shape(A, b, n) && k < n && A[k, k] != 0.0 && Reduced(Stored(A, b), k, n)
    modifies A, b
    ensures Stored(A, b) == Cleared(old(Stored(A, b)), k)
  {
    ghost var was := Stored(A, b);
    ghost var want := Cleared(was, k);
    for i := k + 1 to n
      invariant forall r :: 0 <= r < i ==> Row(A, r) == want.rows[r] && b[r] == want.rhs[r]
      invariant forall r :: i <= r < n ==> Row(A, r) == was.rows[r] && b[r] == was.rhs[r]
    {
      RowZeros(A, was, i, k, n);
      RowZeros(A, was, k, k, n);
      label Before:
      ClearRow(A, b, i, k, n);
      forall r | 0 <= r < n && r != i ensures Row(A, r) == old@Before(Row(A, r)) {
      }
    }
    assert Stored(A, b).rows == want.rows && b[..] == want.rhs;
  }

  lemma RowZeros(A: array2<real>, s: System, i: nat, k: nat, n: nat)
    requires A.Length0 == n && A.Length1 == n && k <= i < n && k < n
    requires Reduced(s, k, n) && Row(A, i) == s.rows[i]
    ensures forall c :: 0 <= c < k ==> A[i, c] == 0.0
    ensures A[i, k] == s.rows[i][k]
  {
    forall c | 0 <= c < k ensures A[i, c] == 0.0 {
      assert Row(A, i)[c] == s.rows[i][c];
    }
    assert Row(A, i)[k] == A[i, k];
  }

  /** Solves row i for its unknown, those of the later rows being known. */
  method SolveRow(A: array2<real>, b: array<real>, i: nat, n: nat)
    requires Shape(A, b, n) && i < n && A[i, i] != 0.0
    modifies b
    ensures forall r :: 0 <= r < n && r != i ==> b[r] == old(b[r])
    ensures DotFrom(Row(A, i), b[..], i) == old(b[i])
  {
    var t := b[i];
    ghost var row, x := Row(A, i), b[..];
    for j := i + 1 to n
      modifies {}
      invariant t == x[i] - (DotFrom(row, x, i + 1) - DotFrom(row, x, j))
    {
      t := t - A[i, j] * b[j];
    }
    b[i] := t / A[i, i];
    SolveDiagonal(row[i], DotFrom(row, x, i + 1), x[i]);
    DotAgree(row, x, b[..], i + 1);
  }

  /** Solves the triangular system from the last row upward; the solution overwrites b. */
  method BackSubstitute(A: array2<real>, b: array<real>, n: nat)
    requires Shape(A, b, n) && Reduced(Stored(A, b), n, n)
    modifies b
    ensures Solves(old(Stored(A, b)), b[..])
  {
    ghost var s := Stored(A, b);
    for i := n downto 0
      invariant forall r :: 0 <= r < i ==> b[r] == s.rhs[r]
      invariant forall r :: i <= r < n ==> DotFrom(s.rows[r], b[..], r) == s.rhs[r]
    {
      ghost var x := b[..];
      assert s.rows[i] == Row(A, i) && s.rows[i][i] == A[i, i];
      SolveRow(A, b, i, n);
      forall r | i < r < n ensures DotFrom(s.rows[r], b[..], r) == s.rhs[r] {
        DotAgree(s.rows[r], x, b[..], r);
      }
    }
    forall i | 0 <= i < n ensures Dot(s.rows[i], b[..]) == s.rhs[i] {
      DotDiagonal(s, n, i, b[..]);
    }
  }

  /** Nearly singular: some vector with a component of one is mapped to nearly zero. */
  ghost predicate NearlySingular(s: System, n: nat) {
    s.Square(n) && exists x: Vector, k: nat :: |x| == n && k < n && x[k] == 1.0 && Nearly(s, 0, x, 1.0e-300)
  }

  /** The first k columns have been cleared, and nothing about the solutions has changed. */
  ghost predicate Progress(s0: System, s: System, k: nat, n: nat) {
    Equivalent(s0, s, n) && Reflects(s0, s, k, n) && Reduced(s, k, n)
  }

  /** The first k pivots are not small. */
  ghost predicate Pivoted(s: System, k: nat) {
    k <= |s.rows| && forall r :: 0 <= r < k ==> r < |s.rows[r]| && Abs(s.rows[r][r]) >= 1.0e-300
  }

  lemma PivotsKept(s: System, p: nat, k: nat)
    requires s.Square(|s.rhs|) && k <= p < |s.rhs| && Pivoted(s, k)
    ensures Pivoted(Exchange(s, p, k), k) && Exchange(s, p, k).rows[k] == s.rows[p]
    ensures Abs(s.rows[k][k]) >= 1.0e-300 ==> s.rows[k][k] != 0.0 && Pivoted(Cleared(s, k), k + 1)
  {
  }

  /** Brings the pivot row up and clears the column below it. */
  method Eliminate(A: array2<real>, b: array<real>, p: nat, k: nat, n: nat, ghost s0: System)
    requires Shape(A, b, n) && k <= p < n && Abs(A[p, k]) >= 1.0e-300
    requires Progress(s0, Stored(A, b), k, n) && Pivoted(Stored(A, b), k)
    modifies A, b
    ensures Progress(s0, Stored(A, b), k + 1, n) && Pivoted(Stored(A, b), k + 1)
  {
    ghost var s := Stored(A, b);
    assert s.rows[p][k] == A[p, k];
    PivotsKept(s, p, k);
    if p != k {
      ExchangeKeeps(s0, s, p, k, n);
      ExchangeReduced(s, p, k, n);
      SwapRows(A, b, p, k, n);
    }
    ghost var t := Stored(A, b);
    assert t.rows[k][k] == A[k, k];
    PivotsKept(t, k, k);
    ClearedKeeps(s0, t, k, n);
    ClearedReduced(t, k, n);
    ClearColumn(A, b, k, n);
  }

  /** A solution of the triangular system is the one solution of the original. */
  lemma OnlySolution(s0: System, s: System, v: Vector, n: nat)
    requires Equivalent(s0, s, n) && Reduced(s, n, n) && |v| == n && Solves(s, v)
    ensures Solves(s0, v) && !Singular(s0, n)
    ensures forall x: Vector {:trigger Solves(s0, x)} :: |x| == n && Solves(s0, x) ==> x == v
  {
    forall x: Vector {:trigger Solves(s0, x)} | |x| == n && Solves(s0, x) ensures x == v {
      TriangularUnique(s, x, v, 0);
    }
    if Singular(s0, n) {
      var y := SingularNotUnique(s0, v, n);
    }
  }

  /** Solves the system in place. On success (0) b holds its one and only solution, and no
      pivot was below the floor; a system is given up (-1) only if its matrix is nearly
      singular. */
  method Solve(A: array2<real>, b: array<real>, n: nat) returns (status: int)
    requires Shape(A, b, n)
    modifies A, b
    ensures status == 0 || status == -1
    ensures status == 0 ==> Solves(old(Stored(A, b)), b[..])
    ensures status == 0 ==> forall x: Vector :: |x| == n && Solves(old(Stored(A, b)), x) ==> x == b[..]
    ensures status == -1 ==> NearlySingular(old(Stored(A, b)), n)
    ensures Singular(old(Stored(A, b)), n) ==> status == -1
    ensures status == 0 ==> forall i :: 0 <= i < n ==> Abs(A[i, i]) >= 1.0e-300
  {
    ghost var s0 := Stored(A, b);
    for k := 0 to n
      invariant Progress(s0, Stored(A, b), k, n) && Pivoted(Stored(A, b), k)
    {
      var p, maxv := FindPivot(A, k, n);
      if maxv < PIVOT_FLOOR {
        SmallColumn(A, b, k, n, maxv);
        ghost var x := NoPivotLeft(Stored(A, b), k, n, PIVOT_FLOOR);
        return -1;
      }
      Eliminate(A, b, p, k, n, s0);
    }
    ghost var s := Stored(A, b);
    assert forall i :: 0 <= i < n ==> s.rows[i][i] == A[i, i];
    BackSubstitute(A, b, n);
    OnlySolution(s0, s, b[..], n);
    return 0;
  }

  lemma SmallColumn(A: array2<real>, b: array<real>, k: nat, n: nat, maxv: real)
    requires Shape(A, b, n) && k < n && maxv < PIVOT_FLOOR
    requires forall i :: k <= i < n ==> Abs(A[i, k]) <= maxv
    ensures forall i :: k <= i < n ==> -PIVOT_FLOOR < Stored(A, b).rows[i][k] < PIVOT_FLOOR
  {
    forall i | k <= i < n ensures -PIVOT_FLOOR < Stored(A, b).rows[i][k] < PIVOT_FLOOR {
      assert Stored(A, b).rows[i][k] == A[i, k];
    }
  }
}
