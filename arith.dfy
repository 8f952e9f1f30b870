/** Small facts about integer multiplication and division shared by the
    grid sweep and the line plotter. */
module Arith {

  function Abs(v: int): (r: nat)
    ensures r == v || r == -v
  {
    if v < 0 then -v else v
  }

  lemma MulNonNeg(a: int, b: int)
    requires a >= 0 && b >= 0
    ensures a * b >= 0
  {
  }

  /** Multiplying by a positive number keeps the sign of the other factor. */
  lemma MulSign(d: int, n: int)
    requires n > 0
    ensures d >= 1 ==> d * n >= n
    ensures d <= -1 ==> d * n <= -n
    ensures d == 0 ==> d * n == 0
  {
    if d >= 1 {
      assert d * n == (d - 1) * n + n;
      MulNonNeg(d - 1, n);
    } else if d <= -1 {
      assert d * n == -((-d - 1) * n) - n;
      MulNonNeg(-d - 1, n);
    }
  }

  /** Multiplication by a non-negative number is monotone. */
  lemma MulMonotone(a: int, b: int, n: int)
    requires a <= b && n >= 0
    ensures a * n <= b * n
  {
    assert b * n - a * n == (b - a) * n;
    MulNonNeg(b - a, n);
  }

  /** Squaring is monotone on non-negative numbers. */
  lemma SquareMonotone(a: int, b: int)
    requires 0 <= a <= b
    ensures a * a <= b * b
  {
    MulMonotone(a, b, a);
    MulMonotone(a, b, b);
  }

  /** Division by a positive number is monotone. */
  lemma DivMonotone(a: int, b: int, d: int)
    requires 0 <= a <= b && d > 0
    ensures a / d <= b / d
  {
    assert (a / d - b / d) * d == (a - a % d) - (b - b % d);
    MulSign(a / d - b / d, d);
  }

  /** Adding at most the divisor raises a quotient by at most one. */
  lemma DivStep(m: int, k: int, d: int)
    requires m >= 0 && 0 <= k <= d && d > 0
    ensures m / d <= (m + k) / d <= m / d + 1
  {
    DivMonotone(m, m + k, d);
    DivMonotone(m + k, m + d, d);
    assert (m + d) / d == m / d + 1 by {
      assert ((m + d) / d - (m / d + 1)) * d == (m % d) - ((m + d) % d);
      MulSign((m + d) / d - (m / d + 1), d);
    }
  }

  /** A square is the square of the magnitude, and positive unless zero. */
  lemma Square(d: int)
    ensures d * d == Abs(d) * Abs(d)
    ensures d == 0 ==> d * d == 0
    ensures d != 0 ==> d * d >= 1
  {
    if d != 0 {
      MulSign(Abs(d), Abs(d));
    }
  }

  /** The quotient times the divisor is within one divisor below the
      dividend. */
  lemma DivBounds(a: int, b: int)
    requires a >= 0 && b > 0
    ensures (a / b) * b <= a < (a / b + 1) * b
  {
    assert (a / b + 1) * b == (a / b) * b + b;
  }

  /** Multiplying and then dividing by the same positive number is exact. */
  lemma MulDiv(a: int, n: int)
    requires a >= 0 && n > 0
    ensures (a * n) / n == a
  {
    var q := (a * n) / n;
    assert (q - a) * n == (a * n) % n * -1 + 0 by {
      assert a * n == q * n + (a * n) % n;
    }
    MulSign(q - a, n);
  }

  /** `a * t / len` lies between 0 and `a` when `t <= len`. */
  lemma ScaledQuotient(a: int, t: int, len: int)
    requires a >= 0 && 0 <= t <= len && len > 0
    ensures 0 <= (a * t) / len <= a
  {
    MulNonNeg(a, t);
    MulMonotone(t, len, a);
    assert t * a == a * t && len * a == a * len;
    DivMonotone(a * t, a * len, len);
    MulDiv(a, len);
  }

  /** Raising `t` by one raises `a * t / len` by at most one when
      `a <= len`. */
  lemma AdjacentQuotients(a: int, t: int, len: int)
    requires 0 <= a <= len && 0 <= t && len > 0
    ensures (a * t) / len <= (a * (t + 1)) / len <= (a * t) / len + 1
  {
    MulNonNeg(a, t);
    assert a * (t + 1) == a * t + a;
    DivStep(a * t, a, len);
  }
}
