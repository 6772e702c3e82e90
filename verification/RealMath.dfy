/** Small facts about products and quotients of reals, kept apart so that the
    modules using them stay linear. */
module RealMath {

  function Product(a: real, b: real): (p: real)
    ensures a > 0.0 && b > 0.0 ==> p > 0.0
    ensures a < 0.0 && b < 0.0 ==> p > 0.0
    ensures a == 0.0 ==> p == 0.0
  {
    a * b
  }

  function Square(a: real): (s: real)
    ensures s >= 0.0
    ensures a != 0.0 ==> s > 0.0
  {
    Product(a, a)
  }

  /** The squared distance of two points. */
  function SquaredDistance(ux: real, uy: real, vx: real, vy: real): real {
    Square(ux - vx) + Square(uy - vy)
  }

  lemma DistanceIsEuclidean(ux: real, uy: real, vx: real, vy: real)
    ensures SquaredDistance(ux, uy, vx, vy) == (ux - vx) * (ux - vx) + (uy - vy) * (uy - vy)
  {
  }

  function Abs(a: real): (r: real)
    ensures r >= 0.0 && (r == a || r == -a)
  {
    if a < 0.0 then -a else a
  }

  lemma MulPositive(a: real, b: real)
    requires a > 0.0 && b > 0.0
    ensures a * b > 0.0
  {
  }

  lemma MulSign(a: real, b: real)
    requires a >= 0.0 && b >= 0.0
    ensures a * b >= 0.0
  {
  }

  lemma MulMonotone(a: real, b: real, m: real)
    requires a <= b && m >= 0.0
    ensures a * m <= b * m
  {
    MulSign(b - a, m);
    assert (b - a) * m == b * m - a * m;
  }

  lemma SquareNegate(a: real)
    ensures Square(-a) == Square(a)
  {
  }

  lemma SquareStrict(a: real, b: real)
    requires 0.0 <= a < b
    ensures Square(a) < Square(b)
  {
    calc {
      Square(a);
      a * a;
    <= { MulMonotone(a, b, a); }
      b * a;
    < { MulPositive(b - a, b); }
      b * b;
      Square(b);
    }
  }

  lemma SquareMonotone(a: real, b: real)
    requires 0.0 <= a <= b
    ensures Square(a) <= Square(b)
  {
    if a < b { SquareStrict(a, b); }
  }

  lemma SquareOrder(u: real, m: real)
    requires m > 0.0 && Square(u) <= Square(m)
    ensures -m <= u <= m
  {
    if u > m {
      SquareStrict(m, u);
    } else if -u > m {
      SquareStrict(m, -u);
      SquareNegate(u);
    }
  }

  lemma CancelFactor(a: real, b: real, m: real)
    requires m > 0.0
    ensures a * m <= b * m ==> a <= b
    ensures a * m == b * m ==> a == b
  {
    if a > b {
      MulPositive(a - b, m);
      assert (a - b) * m == a * m - b * m;
    } else if a < b {
      MulPositive(b - a, m);
      assert (b - a) * m == b * m - a * m;
    }
  }

  lemma DivideMultiply(a: real, m: real)
    requires m != 0.0
    ensures (a / m) * m == a
  {
  }

  /** What the sign and size of a quotient say about its numerator. */
  lemma QuotientFacts(a: real, m: real)
    requires m > 0.0
    ensures a / m >= 0.0 <==> a >= 0.0
    ensures a / m == 0.0 <==> a == 0.0
    ensures a / m <= 1.0 <==> a <= m
  {
    var q := a / m;
    DivideMultiply(a, m);
    CancelFactor(0.0, q, m);
    CancelFactor(q, 0.0, m);
    CancelFactor(q, 1.0, m);
    if q >= 0.0 { MulMonotone(0.0, q, m); }
    if q <= 1.0 { MulMonotone(q, 1.0, m); }
  }
}
