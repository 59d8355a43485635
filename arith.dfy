/** Real-number facts behind the tolerance of the simplifier. They are kept
    apart from the model so that each proof sees only the arithmetic it needs. */
module RealArith {

  function Abs(x: real): (r: real)
    ensures r >= 0.0 && (r == x || r == -x)
  {
    if x < 0.0 then -x else x
  }

  lemma AbsScales(x: real, k: real)
    requires k >= 0.0
    ensures Abs(x * k) == Abs(x) * k
  {
    if x < 0.0 {
      assert x * k <= 0.0;
    } else {
      assert x * k >= 0.0;
    }
  }

  lemma LessScales(x: real, y: real, k: real)
    requires x < y && k > 0.0
    ensures x * k < y * k
  {
  }

  lemma AtMostScales(x: real, y: real, k: real)
    requires x <= y && k >= 0.0
    ensures x * k <= y * k
  {
  }

  /** An error below p on v = x/m*d is an error below p*m/d on n/d*m. */
  lemma ProbeErrorScales(x: real, m: real, d: real, n: real, v: real, p: real)
    requires m > 0.0 && d > 0.0 && v == x / m * d && Abs(v - n) < p
    ensures Abs(n / d * m - x) < p * m / d
  {
    var k := m / d;
    assert k > 0.0;
    assert x == v * k;
    assert n / d * m == n * k;
    assert n / d * m - x == (n - v) * k;
    AbsScales(n - v, k);
    LessScales(Abs(n - v), p, k);
    assert p * m / d == p * k;
  }

  /** Putting the sign of x back on an approximation of |x| keeps the error. */
  lemma SignedError(x: real, a: real, s: real)
    requires s == (if x < 0.0 then -1.0 else 1.0)
    ensures Abs(s * a - x) == Abs(a - Abs(x))
  {
  }

  lemma NegatedQuotient(q: real, p: real)
    requires p != 0.0
    ensures -1.0 * q / p == -(1.0 * q / p)
  {
  }

  lemma SignFactor(s: real, n: real, d: real, m: real)
    requires (s == 1.0 || s == -1.0) && d != 0.0
    ensures s * n / d * m == s * (n / d * m)
  {
    if s == -1.0 {
      assert s * n == -n;
      assert -n / d == -(n / d);
      assert -(n / d) * m == -(n / d * m);
    }
  }

  /** The search branch's error: with the sign put back on n/d*m, the error
      stays below p*m/d. */
  lemma SignedProbeError(x: real, m: real, d: real, v: real, n: real, p: real, s: real, coef: real)
    requires d > 0.0 && m > 0.0
    requires v == Abs(x) / m * d && Abs(v - n) < p
    requires s == (if x < 0.0 then -1.0 else 1.0) && coef == s * n / d * m
    ensures Abs(coef - x) < p * m / d
  {
    ProbeErrorScales(Abs(x), m, d, n, v, p);
    var e := n / d * m;
    SignedError(x, e, s);
    SignFactor(s, n, d, m);
  }

  /** Dividing by a power of ten (at least 1) does not increase an error. */
  lemma ScaledBackError(q: real, a: real, p10: real, h: real)
    requires p10 >= 1.0 && Abs(q - a * p10) <= h
    ensures Abs(q / p10 - a) <= h
  {
    assert q / p10 - a == (q - a * p10) / p10;
    var e := q - a * p10;
    assert Abs(e / p10) == Abs(e) / p10 by {
      AbsScales(e, 1.0 / p10);
      assert e / p10 == e * (1.0 / p10);
      assert Abs(e) / p10 == Abs(e) * (1.0 / p10);
    }
    assert Abs(e) / p10 <= Abs(e);
  }

  /** The decimal fallback's error: scaling back down and putting the sign
      back keeps an error of at most h. */
  lemma SignedScaledError(x: real, q: real, y: real, p10: real, h: real, s: real, coef: real)
    requires p10 >= 1.0 && y == Abs(x) * p10 && Abs(q - y) <= h
    requires s == (if x < 0.0 then -1.0 else 1.0) && coef == s * q / p10
    ensures Abs(coef - x) <= h
  {
    ScaledBackError(q, Abs(x), p10, h);
    SignedError(x, q / p10, s);
    assert s * q / p10 == s * (q / p10) by {
      SignFactor(s, q, p10, 1.0);
    }
  }

  /** Rounding y/p to n moves n*p at most half a grid step away from y. */
  lemma QuantiseError(y: real, p: real, n: real)
    requires p > 0.0 && -0.5 <= y / p - n <= 0.5
    ensures Abs(n * p - y) <= p / 2.0
  {
    var t := y / p;
    assert y == t * p;
    assert n * p - y == (n - t) * p;
    AbsScales(n - t, p);
    AtMostScales(Abs(n - t), 0.5, p);
    assert Abs(n * p - y) == Abs((n - t) * p);
    assert 0.5 * p == p / 2.0;
    assert Abs((n - t) * p) == Abs(n - t) * p;
    assert Abs(n - t) * p <= 0.5 * p;
  }

  /** Dividing n/p*m by m and multiplying by p gives n back. */
  lemma QuotientCancels(n: real, p: real, m: real)
    requires p > 0.0 && m > 0.0
    ensures n / p * m / m * p == n
  {
    assert n / p * m / m == n / p;
  }
}
