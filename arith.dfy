/** Facts about real multiplication and division that the constraint bounds are built from.
    Each is stated over plain variables, so that callers can match its terms exactly. */
module RealArith {

  /** A product of two positive values is positive. */
  lemma MulPositive(p: real, n: real)
    requires p > 0.0 && n > 0.0
    ensures p * n > 0.0
  {
  }

  /** A positive value times a negative one is negative. */
  lemma MulNegative(p: real, n: real)
    requires p > 0.0 && n < 0.0
    ensures p * n < 0.0
  {
  }

  /** A product of two non-negative values is non-negative. */
  lemma MulNonNegative(p: real, n: real)
    requires p >= 0.0 && n >= 0.0
    ensures p * n >= 0.0
  {
  }

  /** A non-negative value times a non-positive one is non-positive. */
  lemma MulNonPositive(p: real, n: real)
    requires p >= 0.0 && n <= 0.0
    ensures p * n <= 0.0
  {
  }

  /** A product with a positive factor has the sign of the other factor. */
  lemma {:induction false} NonNegativeFactor(p: real, n: real)
    requires p > 0.0 && p * n >= 0.0
    ensures n >= 0.0
  {
    if n < 0.0 {
      MulNegative(p, n);
    }
  }

  /** A positive product with a positive factor has a positive other factor. */
  lemma {:induction false} PositiveFactor(p: real, n: real)
    requires p > 0.0 && p * n > 0.0
    ensures n > 0.0
  {
    if n <= 0.0 {
      MulNonPositive(p, n);
    }
  }

  /** Multiplying by a non-negative value keeps the order. */
  lemma MulMonotone(w: real, a: real, b: real)
    requires w >= 0.0 && a <= b
    ensures w * a <= w * b
  {
    var d := b - a;
    MulNonNegative(w, d);
    assert w * d == w * b - w * a;
  }

  /** Multiplying by a positive value keeps the strict order. */
  lemma MulStrictMonotone(w: real, a: real, b: real)
    requires w > 0.0 && a < b
    ensures w * a < w * b
  {
    var d := b - a;
    MulPositive(w, d);
    assert w * d == w * b - w * a;
  }

  /** 1 / d is the inverse of a non-zero d. */
  lemma Reciprocal(d: real)
    requires d != 0.0
    ensures (1.0 / d) * d == 1.0
  {
  }

  /** Where x / d lies against 0 and 1 follows from where x lies against 0 and d. */
  lemma {:induction false} DivideByPositive(x: real, d: real)
    requires d > 0.0
    ensures x < 0.0 ==> x / d < 0.0
    ensures x >= 0.0 ==> x / d >= 0.0
    ensures x >= d ==> x / d >= 1.0
    ensures x < d ==> x / d < 1.0
    ensures (x / d) * d == x
  {
    var q := x / d;
    var e := q - 1.0;
    assert q * d == x;
    assert d * e == x - d;
    if q >= 0.0 {
      MulNonNegative(d, q);
    }
    if x >= 0.0 {
      NonNegativeFactor(d, q);
    }
    if e >= 0.0 {
      MulNonNegative(d, e);
    }
    if x >= d {
      NonNegativeFactor(d, e);
    }
  }

  /** beta * thresh >= 1 gives 1 / beta <= thresh. */
  lemma {:induction false} QuotientBelow(beta: real, thresh: real)
    requires beta > 0.0 && beta * thresh >= 1.0
    ensures 1.0 / beta <= thresh
  {
    var q := 1.0 / beta;
    var d := thresh - q;
    assert q * beta == 1.0;
    assert beta * d == beta * thresh - q * beta;
    NonNegativeFactor(beta, d);
  }

  /** 0 < l < b m + 1 gives 0 < l / b < m + 1 / b. */
  lemma {:induction false} QuotientBounds(l: real, b: real, m: real)
    requires b > 0.0 && 0.0 < l < b * m + 1.0
    ensures 0.0 < l / b < m + 1.0 / b
  {
    var q := l / b;
    var r := 1.0 / b;
    var d := m + r - q;
    assert q * b == l;
    assert r * b == 1.0;
    assert b * d == b * m + 1.0 - l;
    NonNegativeFactor(b, q);
    if d <= 0.0 {
      MulNonPositive(b, d);
    }
    if q <= 0.0 {
      MulNonPositive(b, q);
    }
  }

  /** Dividing by a positive value keeps the order. */
  lemma {:induction false} DivMonotone(a: real, b: real, s: real)
    requires s > 0.0 && a <= b
    ensures a / s <= b / s
  {
    var qa, qb := a / s, b / s;
    var d := qb - qa;
    assert qa * s == a && qb * s == b;
    assert s * d == b - a;
    NonNegativeFactor(s, d);
  }

  /** A positive value over a positive one is positive. */
  lemma {:induction false} PositiveQuotient(a: real, b: real)
    requires a > 0.0 && b > 0.0
    ensures a / b > 0.0
  {
    var q := a / b;
    assert q * b == a;
    if q <= 0.0 {
      MulNonPositive(b, q);
    }
  }

  /** A square is never negative. */
  lemma MulSelf(r: real)
    ensures r * r >= 0.0
  {
    if r < 0.0 {
      assert (-r) * (-r) == r * r;
    }
  }

  /** A negated positive value divided by itself is -1. */
  lemma NegatedQuotient(c: real)
    requires c > 0.0
    ensures (-c) / c == -1.0
  {
  }

  /** A non-negative value over a positive one is non-negative. */
  lemma NonNegativeQuotient(a: real, b: real)
    requires a >= 0.0 && b > 0.0
    ensures a / b >= 0.0
  {
    DivideByPositive(a, b);
  }

  /** A positive value divided by itself is 1. */
  lemma SelfQuotient(c: real)
    requires c > 0.0
    ensures c / c == 1.0
  {
  }
}
