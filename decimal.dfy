/** Decimal helpers of the simplifier: powers of ten, the least power of ten
    that lifts a magnitude to 1 or more (the `mult10` search of
    perceval/utils/format.py), and the `%d` rendering of that exponent. */
module Decimal {

  function Pow10(n: nat): (p: real)
    ensures p >= 1.0
  {
    if n == 0 then 1.0 else 10.0 * Pow10(n - 1)
  }

  /** For 0 < x < 1 the measure floor(1/x) strictly shrinks when x is scaled
      by ten, which is why the scaling loop ends. */
  lemma ScalingShrinksMeasure(x: real)
    requires 0.0 < x < 1.0
    ensures 0 <= (1.0 / x).Floor
    ensures 0.0 < x * 10.0 < 1.0 ==> (1.0 / (x * 10.0)).Floor < (1.0 / x).Floor
  {
    var y := 1.0 / x;
    assert y * x == 1.0;
    assert y > 1.0;
    if 0.0 < x * 10.0 < 1.0 {
      assert y > 10.0 by {
        assert y * (x * 10.0) == 10.0;
      }
      assert 1.0 / (x * 10.0) == y / 10.0;
      assert y / 10.0 < y - 1.0;
      assert (y / 10.0).Floor as real <= y / 10.0;
      assert y - 1.0 < y.Floor as real;
    }
  }

  /** The number of times `x` must be multiplied by ten before it reaches 1;
      0 for x = 0 (which is never scaled) and for x >= 1. */
  function LeastScale(x: real): nat
    requires x >= 0.0
    decreases if 0.0 < x < 1.0 then (1.0 / x).Floor else 0
  {
    if x == 0.0 || x >= 1.0 then 0
    else
      ScalingShrinksMeasure(x);
      1 + LeastScale(x * 10.0)
  }

  /** x multiplied by ten n times. */
  function Scaled(x: real, n: nat): real {
    x * Pow10(n)
  }

  lemma ScaledStep(x: real, n: nat)
    ensures Scaled(x, n + 1) == Scaled(x * 10.0, n) == Scaled(x, n) * 10.0
  {
  }

  /** LeastScale(x) is the least e with x * 10^e >= 1, for every positive x. */
  lemma {:induction false} LeastScaleIsLeast(x: real)
    requires x > 0.0
    ensures Scaled(x, LeastScale(x)) >= 1.0
    ensures forall k: nat :: k < LeastScale(x) ==> Scaled(x, k) < 1.0
    decreases if 0.0 < x < 1.0 then (1.0 / x).Floor else 0
  {
    if x < 1.0 {
      ScalingShrinksMeasure(x);
      var y := x * 10.0;
      var e := LeastScale(y);
      LeastScaleIsLeast(y);
      ScaledStep(x, e);
      forall k: nat | k < e + 1
        ensures Scaled(x, k) < 1.0
      {
        if k > 0 {
          ScaledStep(x, k - 1);
        }
      }
    }
  }

  /** LeastScale bounds: zero exactly for 0 and for magnitudes of at least 1;
      otherwise at least 1, with x * 10^(e-1) < 1 <= x * 10^e. */
  lemma LeastScaleBounds(x: real)
    requires x >= 0.0
    ensures x == 0.0 || x >= 1.0 <==> LeastScale(x) == 0
    ensures 0.0 < x < 1.0 ==>
      LeastScale(x) >= 1 &&
      Scaled(x, LeastScale(x) - 1) < 1.0 <= Scaled(x, LeastScale(x))
  {
    if 0.0 < x < 1.0 {
      LeastScaleIsLeast(x);
    }
  }

  lemma ScaledMonotonic(x: real, j: nat, k: nat)
    requires x >= 0.0 && j <= k
    ensures Scaled(x, j) <= Scaled(x, k)
    decreases k - j
  {
    if j < k {
      ScaledMonotonic(x, j, k - 1);
      ScaledStep(x, k - 1);
    }
  }

  /** A positive magnitude scaled k times is still below 1 exactly when k
      is below its least scale. */
  lemma ScaledBelowOne(x: real, k: nat)
    requires x > 0.0
    ensures Scaled(x, k) < 1.0 <==> k < LeastScale(x)
  {
    LeastScaleIsLeast(x);
    if k >= LeastScale(x) {
      ScaledMonotonic(x, LeastScale(x), k);
    }
  }

  function DigitChar(d: nat): (c: char)
    requires d < 10
    ensures '0' <= c <= '9' && c as int - '0' as int == d
  {
    "0123456789"[d]
  }

  predicate IsDigits(s: string) {
    forall i :: 0 <= i < |s| ==> '0' <= s[i] <= '9'
  }

  /** Python's "%d" of a natural number: its decimal digits, with no
      leading zero except for zero itself. */
  function NatToDecimal(n: nat): (s: string)
    ensures |s| >= 1 && IsDigits(s)
    ensures s[0] == '0' <==> n == 0
    decreases n
  {
    if n < 10 then [DigitChar(n)] else NatToDecimal(n / 10) + [DigitChar(n % 10)]
  }

  /** The number a string of decimal digits denotes. */
  function DecimalValue(s: string): nat
    requires IsDigits(s)
  {
    if s == [] then 0
    else DecimalValue(s[..|s| - 1]) * 10 + (s[|s| - 1] as int - '0' as int)
  }

  /** Reading back the rendered exponent gives the exponent. */
  lemma {:induction false} DecimalRoundTrip(n: nat)
    ensures DecimalValue(NatToDecimal(n)) == n
  {
    var s := NatToDecimal(n);
    if n >= 10 {
      assert s[..|s| - 1] == NatToDecimal(n / 10);
      DecimalRoundTrip(n / 10);
    }
  }
}
