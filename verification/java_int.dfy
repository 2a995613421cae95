/**
  Java integer semantics the tracker depends on.

  Dafny's `/` on `int` is Euclidean, whereas Java's `/` on `int` truncates the
  quotient toward zero (section 15.17.2 of the Java Language Specification), and
  the `(int)` cast of a `double` drops the fractional part, also toward zero
  (section 5.1.3). Both are written out here so that the rest of the model can
  stay bit-exact with the source for negative operands.
 */
module JavaInt {

  const IntMin: int := -0x8000_0000
  const IntMax: int := 0x7FFF_FFFF

  /** True if `x` is a value of Java's 32-bit `int`. */
  predicate IsInt(x: int) {
    IntMin <= x <= IntMax
  }

  function Abs(x: int): nat {
    if x < 0 then -x else x
  }

  /** `q` is a quotient of `a` by `b` rounded toward zero: the remainder left
      over is smaller than the divisor in magnitude and never has the opposite
      sign of the dividend. */
  predicate IsQuotient(a: int, b: int, q: int) {
    && Abs(a - q * b) < Abs(b)
    && (a - q * b == 0 || (a - q * b < 0 <==> a < 0))
  }

  /** Java's `a / b` on `int`: the quotient rounded toward zero. */
  function Div(a: int, b: int): (q: int)
    requires b != 0
    ensures IsQuotient(a, b, q)
  {
    if b > 0 then
      if a >= 0 then
        EuclidRemainder(a, b);
        a / b
      else
        EuclidRemainder(-a, b);
        -((-a) / b)
    else
      if a >= 0 then
        EuclidRemainder(a, -b);
        -(a / (-b))
      else
        EuclidRemainder(-a, -b);
        (-a) / (-b)
  }

  /** Dafny's Euclidean quotient and remainder of non-negative `a` by positive `b`. */
  lemma EuclidRemainder(a: int, b: int)
    requires a >= 0 && b > 0
    ensures 0 <= a - (a / b) * b < b
  {
  }

  /** A positive multiple of a positive number is at least that number. */
  lemma {:induction false} MulAtLeast(x: int, b: int)
    requires x >= 1 && b > 0
    ensures x * b >= b
  {
    if x > 1 {
      MulAtLeast(x - 1, b);
      assert x * b == (x - 1) * b + b;
    }
  }

  /** Negating the divisor negates Java's quotient. */
  lemma DivNegDivisor(a: int, b: int)
    requires b != 0
    ensures Div(a, -b) == -Div(a, b)
  {
  }

  /** Two quotients meeting `IsQuotient` for a positive divisor are equal. */
  lemma {:induction false} QuotientsEqual(a: int, b: int, p: int, q: int)
    requires b > 0 && IsQuotient(a, b, p) && IsQuotient(a, b, q)
    ensures p == q
  {
    var r, s := a - q * b, a - p * b;
    Distrib(p, q, b);
    // both remainders lie on the side of zero that `a` lies on, within b of it
    assert -b < r - s < b;
    if p > q {
      MulAtLeast(p - q, b);
    } else if q > p {
      MulAtLeast(q - p, b);
      Distrib(q, p, b);
    }
  }

  /** For a positive divisor the quotient has the sign of the dividend. */
  lemma QuotientSign(a: int, b: int, q: int)
    requires b > 0 && IsQuotient(a, b, q)
    ensures a >= 0 ==> q >= 0
    ensures a < 0 ==> q <= 0
  {
    if a >= 0 && q < 0 {
      MulAtLeast(-q, b);
    }
    if a < 0 && q > 0 {
      MulAtLeast(q, b);
    }
  }

  /** The quotient is determined by the two properties in the contract of
      `Div` (stated here for a positive divisor). */
  lemma DivUniquePos(a: int, b: int, q: int)
    requires b > 0 && IsQuotient(a, b, q)
    ensures q == Div(a, b)
  {
    QuotientsEqual(a, b, Div(a, b), q);
  }

  /** The quotient is determined by `IsQuotient`, the contract of `Div`. */
  lemma DivUnique(a: int, b: int, q: int)
    requires b != 0 && IsQuotient(a, b, q)
    ensures q == Div(a, b)
  {
    if b > 0 {
      DivUniquePos(a, b, q);
    } else {
      NegTimesNeg(q, b);
      assert IsQuotient(a, -b, -q);
      DivUniquePos(a, -b, -q);
      DivNegDivisor(a, b);
    }
  }

  /** Division of an exact multiple gives back the factor. */
  lemma DivExact(k: int, b: int)
    requires b != 0
    ensures Div(k * b, b) == k
  {
    DivUnique(k * b, b, k);
  }

  /** Truncation is symmetric: negating the dividend negates the quotient. */
  lemma DivNeg(a: int, b: int)
    requires b != 0
    ensures Div(-a, b) == -Div(a, b)
  {
    var q := Div(a, b);
    NegTimes(q, b);
    assert IsQuotient(-a, b, -q);
    DivUnique(-a, b, -q);
  }

  /** Negating both factors leaves the product unchanged. */
  lemma NegTimesNeg(q: int, b: int)
    ensures (-q) * (-b) == q * b
  {
  }

  /** Negating one factor negates the product. */
  lemma NegTimes(q: int, b: int)
    ensures (-q) * b == -(q * b)
  {
  }

  /** For a non-negative dividend and a positive divisor Java's quotient is the
      Euclidean one. */
  lemma DivNonNeg(a: int, b: int)
    requires a >= 0 && b > 0
    ensures Div(a, b) == a / b
  {
  }

  /** Multiplication distributes over a difference. */
  lemma Distrib(x: int, y: int, b: int)
    ensures (x - y) * b == x * b - y * b
  {
  }

  /** Two quotients whose remainders lie within b of zero, on the side of their
      dividends, are ordered like the dividends when the dividends share a side. */
  lemma {:induction false} QuotientsOrdered(a1: int, a2: int, b: int, q1: int, q2: int)
    requires b > 0 && a1 <= a2
    requires (0 <= a1 && 0 <= a2) || (a1 < 0 && a2 < 0)
    requires -b < a1 - q1 * b < b && -b < a2 - q2 * b < b
    requires a1 >= 0 ==> a1 - q1 * b >= 0
    requires a2 < 0 ==> a2 - q2 * b <= 0
    ensures q1 <= q2
  {
    if q1 > q2 {
      var r1, r2 := a1 - q1 * b, a2 - q2 * b;
      assert -b < r1 - r2;
      MulAtLeast(q1 - q2, b);
      Distrib(q1, q2, b);
    }
  }

  /** For a positive divisor the truncated quotient is monotone in the dividend. */
  lemma DivMonotone(a1: int, a2: int, b: int)
    requires b > 0 && a1 <= a2
    ensures Div(a1, b) <= Div(a2, b)
  {
    if a1 < 0 <= a2 {
      QuotientSign(a1, b, Div(a1, b));
      QuotientSign(a2, b, Div(a2, b));
    } else {
      QuotientsOrdered(a1, a2, b, Div(a1, b), Div(a2, b));
    }
  }

  /** A non-negative dividend gives a non-negative quotient, and a dividend of
      magnitude at least the (positive) divisor gives a quotient of magnitude at
      least one. */
  lemma DivSign(a: int, b: int)
    requires b > 0
    ensures a >= 0 ==> Div(a, b) >= 0
    ensures a <= -b ==> Div(a, b) <= -1
    ensures a >= b ==> Div(a, b) >= 1
  {
    if a >= 0 {
      DivMonotone(0, a, b);
      DivExact(0, b);
    }
    if a <= -b {
      DivMonotone(a, -b, b);
      DivExact(-1, b);
    }
    if a >= b {
      DivMonotone(b, a, b);
      DivExact(1, b);
    }
  }

  /** Multiplying by a non-negative number preserves order. */
  lemma {:induction false} MulMonotone(x: int, y: int, c: int)
    requires x <= y && c >= 0
    ensures x * c <= y * c
  {
    if c > 0 {
      MulMonotone(x, y, c - 1);
      assert x * c == x * (c - 1) + x;
      assert y * c == y * (c - 1) + y;
    }
  }

  /** A quotient by a positive divisor is no larger in magnitude than the dividend. */
  lemma DivMagnitude(a: int, b: int)
    requires b > 0
    ensures Abs(Div(a, b)) <= Abs(a)
    decreases if a < 0 then 1 else 0
  {
    if a >= 0 {
      var q := Div(a, b);
      DivSign(a, b);
      if q >= 1 {
        MulAtLeast(q, b);
        assert q * b >= q by { MulMonotone(1, b, q); }
      }
    } else {
      DivNeg(-a, b);
      DivMagnitude(-a, b);
    }
  }

  /** Java's `(int)` cast of a `double` (for values inside the `int` range):
      the fractional part is dropped, rounding toward zero. */
  function Trunc(x: real): (n: int)
    ensures 0.0 <= x ==> 0 <= n && n as real <= x < n as real + 1.0
    ensures x < 0.0 ==> n <= 0 && n as real - 1.0 < x <= n as real
  {
    if x >= 0.0 then x.Floor else -((-x).Floor)
  }

  /** The cast is monotone on non-negative values. */
  lemma TruncMonotone(x: real, y: real)
    requires 0.0 <= x <= y
    ensures Trunc(x) <= Trunc(y)
  {
  }
}
