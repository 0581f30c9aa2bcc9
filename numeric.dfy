/**
 * Python's numeric conversions, over exact rationals: `int(x)` on a float truncates toward zero.
 * Double-precision rounding is abstracted away; every quotient here is the exact one.
 */
module Numeric {
  /** `int(x)`: the integer part of `x`, rounding toward zero. */
  function Trunc(x: real): (t: int)
    ensures x >= 0.0 ==> 0 <= t && t as real <= x < t as real + 1.0
    ensures x < 0.0 ==> t <= 0 && t as real - 1.0 < x <= t as real
  {
    if x >= 0.0 then x.Floor else -((-x).Floor)
  }

  /** Truncation is the identity on whole numbers. */
  lemma TruncWhole(n: int)
    ensures Trunc(n as real) == n
  {
  }

  /** Truncation never crosses a whole number bound from below. */
  lemma TruncAtMost(x: real, n: int)
    requires x <= n as real && n >= 0
    ensures Trunc(x) <= n
  {
  }

  /** Truncation never crosses a whole number bound from above, for non-negative bounds. */
  lemma TruncAtLeast(x: real, n: int)
    requires n as real <= x && n >= 0
    ensures n <= Trunc(x)
  {
  }

  function MinReal(a: real, b: real): (m: real)
    ensures m <= a && m <= b && (m == a || m == b)
  {
    if a <= b then a else b
  }

  function Max(a: int, b: int): (m: int)
    ensures m >= a && m >= b && (m == a || m == b)
  {
    if a >= b then a else b
  }

  function Min(a: int, b: int): (m: int)
    ensures m <= a && m <= b && (m == a || m == b)
  {
    if a <= b then a else b
  }

  /** Multiplying by a non-negative factor keeps an order. */
  lemma MulMonotone(w: real, x: real, y: real)
    requires w >= 0.0 && x <= y
    ensures w * x <= w * y
  {
  }

  /** A quotient of a smaller by a larger positive number is below one. */
  lemma QuotientBelowOne(a: real, b: real)
    requires 0.0 < b && a < b
    ensures a / b < 1.0
  {
    assert (a / b) * b == a;
    if a / b >= 1.0 {
      MulMonotone(b, 1.0, a / b);
    }
  }

  /** `limit / len` in exact arithmetic. */
  function Ratio(limit: int, len: int): real
    requires len != 0
  {
    limit as real / len as real
  }

  /** `int(len * scale)`. */
  function ScaledLength(len: int, scale: real): int
  {
    Trunc(len as real * scale)
  }

  /** The ratio of non-negative sides is non-negative, below one for a shorter limit, and scales `len` onto `limit`. */
  lemma RatioFacts(len: int, limit: int)
    requires len > 0 && limit >= 0
    ensures Ratio(limit, len) >= 0.0
    ensures limit < len ==> Ratio(limit, len) < 1.0
    ensures len as real * Ratio(limit, len) == limit as real
  {
    if limit < len {
      QuotientBelowOne(limit as real, len as real);
    }
  }

  /** A non-negative number times a positive whole number is at least itself. */
  lemma MulAtLeastOne(a: int, m: int)
    requires a >= 0 && m >= 1
    ensures a * m >= a
  {
    assert a * m == a * (m - 1) + a;
  }

  /** Multiplying a ratio multiplies its numerator. */
  lemma MulRatio(m: int, a: int, b: int)
    requires b > 0
    ensures m as real * Ratio(a, b) == Ratio(m * a, b)
  {
  }

  /** Dividing by a ratio multiplies by its inverse. */
  lemma DivRatio(m: int, a: int, b: int)
    requires a > 0 && b > 0
    ensures m as real / Ratio(a, b) == Ratio(m * b, a)
  {
    var q := Ratio(a, b);
    assert q * b as real == a as real;
    assert Ratio(m * b, a) * q == m as real by {
      assert Ratio(m * b, a) * a as real == (m * b) as real;
    }
  }

  /** Ratios with positive denominators compare as their cross products. */
  lemma CrossRatio(a: int, b: int, c: int, d: int)
    requires b > 0 && d > 0
    ensures Ratio(a, b) > Ratio(c, d) <==> a * d > c * b
  {
    var x := Ratio(a, b);
    var y := Ratio(c, d);
    assert x * b as real == a as real;
    assert y * d as real == c as real;
    assert (a * d) as real == x * (b * d) as real;
    assert (c * b) as real == y * (b * d) as real;
    if x > y {
      MulMonotone((b * d) as real, y, x);
      assert y * (b * d) as real != x * (b * d) as real;
    } else {
      MulMonotone((b * d) as real, x, y);
    }
  }

  /** A ratio bounded by cross multiplication. */
  lemma RatioAtMost(a: int, b: int, n: int)
    requires b > 0 && a <= n * b
    ensures Ratio(a, b) <= n as real
  {
    CrossRatio(a, b, n, 1);
  }

  /** A ratio strictly bounded by cross multiplication. */
  lemma RatioBelow(a: int, b: int, n: int)
    requires b > 0 && a < n * b
    ensures Ratio(a, b) < n as real
  {
    CrossRatio(n, 1, a, b);
  }

  /** A scaled length whose exact product lies in `[0, n]` truncates into `[0, n]`. */
  lemma ScaledLengthWithin(len: int, scale: real, n: int)
    requires 0.0 <= len as real * scale <= n as real && n >= 0
    ensures 0 <= ScaledLength(len, scale) <= n
  {
    TruncAtMost(len as real * scale, n);
  }

  /** Scaling `len` by `limit / len` gives exactly `limit`. */
  lemma ScaledLengthExact(len: int, limit: int)
    requires len > 0
    ensures ScaledLength(len, Ratio(limit, len)) == limit
  {
    assert len as real * Ratio(limit, len) == limit as real;
    TruncWhole(limit);
  }

  /** Scaling by at least one keeps at least the length. */
  lemma ScaledLengthAtLeast(len: int, scale: real)
    requires len >= 0 && scale >= 1.0
    ensures ScaledLength(len, scale) >= len
  {
    var l := len as real;
    MulMonotone(l, 1.0, scale);
    TruncAtLeast(l * scale, len);
  }

  /** Scaling by at most two at most doubles the length. */
  lemma ScaledLengthAtMostDouble(len: int, scale: real)
    requires len >= 0 && 0.0 <= scale <= 2.0
    ensures ScaledLength(len, scale) <= 2 * len
  {
    var l := len as real;
    MulMonotone(l, scale, 2.0);
    assert l * 2.0 == (2 * len) as real;
    TruncAtMost(l * scale, 2 * len);
  }
}
