/** Properties of `simple_float` (perceval/utils/format.py, lines 34-85),
    stated on its specification `ScalarFormat.SimpleFloatValue` and
    `ScalarFormat.SimpleFloatText`. */
module ScalarLaws {
  import opened Wrappers
  import opened Symbolic
  import opened RealArith
  import opened Decimal
  import opened RemarkableSearch
  import opened TrailingZeros
  import opened ScalarFormat

  /** With the search on, zero is matched by the first candidate and comes
      out as the exact zero, printed "0", whatever the multiplier. */
  lemma ZeroRendersAsZero(b: Backend, precision: real, fracmax: int, multiplier: Multiplier, mult10: Option<nat>)
    requires b.RoundsToNearest() && b.PrintsZero() && precision > 0.0 && fracmax > 1
    ensures SimpleFloatValue(b, 0.0, precision, true, fracmax, multiplier, mult10) == Exact(1, 0, 1, One, ImagPower(multiplier))
    ensures SimpleFloatText(b, 0.0, precision, true, fracmax, multiplier, mult10) == "0"
  {
    NearIntegerMatchesFirst(b, 0.0, precision, fracmax, 0);
    RoundOfInteger(b, 0);
    assert Probe(b, 0.0, Candidate(1, 0)) == 0.0;
  }

  /** With the search on, a magnitude within `precision` of an integer is
      rendered as a whole number: denominator 1, no remarkable root. */
  lemma NearIntegerIsWhole(b: Backend, alpha: real, precision: real, fracmax: int,
                           multiplier: Multiplier, mult10: Option<nat>, n: int)
    requires b.RoundsToNearest() && precision > 0.0 && fracmax > 1
    requires Abs(Abs(alpha) - n as real) < precision
    ensures var v := SimpleFloatValue(b, alpha, precision, true, fracmax, multiplier, mult10);
      v.Exact? && v.den == 1 && v.root == One && v.num == b.round(Abs(alpha)) &&
      v.imag == ImagPower(multiplier) && v.sign == SignOf(alpha)
  {
    NearIntegerMatchesFirst(b, Abs(alpha), precision, fracmax, n);
    assert Probe(b, Abs(alpha), Candidate(1, 0)) == Abs(alpha);
  }

  /** With the search on, an input whose magnitude is exactly n/p*m, with p
      below `fracmax` and m a remarkable multiplier, never reaches the decimal
      fallback: it comes out exact, with a denominator of at most p. */
  lemma ClosedFormIsExact(b: Backend, alpha: real, n: nat, p: Denominator, i: nat, precision: real, fracmax: int,
                          multiplier: Multiplier, mult10: Option<nat>, v: Sym)
    requires b.RoundsToNearest() && precision > 0.0
    requires p < fracmax && i < |Remarkables|
    requires Abs(alpha) == n as real / p as real * b.RootValue(Remarkables[i])
    requires v == SimpleFloatValue(b, alpha, precision, true, fracmax, multiplier, mult10)
    ensures v.Exact? && v.den <= p && v.imag == ImagPower(multiplier)
  {
    ClosedFormIsMatched(b, n, p, i, precision, fracmax);
    var c := Search(b, alpha, precision, true, fracmax).value;
    SearchBranchValue(b, alpha, precision, true, fracmax, multiplier, mult10, c);
  }

  /** Closed-form exactness: when (p, m) is the first candidate that passes,
      an input of magnitude n/p*m comes back as exactly sign * n/p * m, whose
      coefficient is the input itself. */
  lemma ClosedFormRoundTrips(b: Backend, alpha: real, n: nat, p: Denominator, i: nat, precision: real, fracmax: int,
                             multiplier: Multiplier, mult10: Option<nat>, v: Sym)
    requires b.RoundsToNearest() && precision > 0.0
    requires p < fracmax && i < |Remarkables|
    requires Abs(alpha) == n as real / p as real * b.RootValue(Remarkables[i])
    requires forall d :: InSearchSpace(d, fracmax) && Before(d, Candidate(p, i)) ==> !Matches(b, Abs(alpha), precision, d)
    requires v == SimpleFloatValue(b, alpha, precision, true, fracmax, multiplier, mult10)
    ensures v == Exact(SignOf(alpha), n, p, Remarkables[i], ImagPower(multiplier))
    ensures b.Coefficient(v) == alpha
  {
    ClosedFormFoundAt(b, n, p, i, precision, fracmax, Abs(alpha));
    SearchBranchValue(b, alpha, precision, true, fracmax, multiplier, mult10, Candidate(p, i));
    SignFactor(SignOf(alpha) as real, n as real, p as real, b.RootValue(Remarkables[i]));
  }

  /** Negating a positive input negates the value; in the decimal fallback
      the string gains a leading '-' and is otherwise the same. */
  lemma SignSymmetry(b: Backend, x: real, precision: real, nsimplify: bool, fracmax: int,
                     multiplier: Multiplier, mult10: Option<nat>)
    requires precision != 0.0 && x > 0.0
    ensures var pos := SimpleFloatValue(b, x, precision, nsimplify, fracmax, multiplier, mult10);
      SimpleFloatValue(b, -x, precision, nsimplify, fracmax, multiplier, mult10) == Negate(pos) &&
      (pos.Float? ==> SimpleFloatText(b, -x, precision, nsimplify, fracmax, multiplier, mult10)
                      == "-" + SimpleFloatText(b, x, precision, nsimplify, fracmax, multiplier, mult10))
  {
    assert Abs(-x) == x;
    assert Search(b, -x, precision, nsimplify, fracmax) == Search(b, x, precision, nsimplify, fracmax);
    if Search(b, x, precision, nsimplify, fracmax).None? {
      FallbackValueNegated(b, x, precision, mult10,
        FallbackValue(b, x, false, precision, mult10), FallbackValue(b, x, true, precision, mult10));
      FallbackTextNegated(b, x, precision, multiplier, mult10,
        FallbackText(b, x, false, precision, multiplier, mult10), FallbackText(b, x, true, precision, multiplier, mult10));
    }
  }

  /** With the search on, a magnitude below both `precision` and 1/2 rounds to
      0 at the first candidate, so the input and its negation both print
      "0": in the search branch the sign does not reach the string. */
  lemma BelowPrecisionPrintsZero(b: Backend, x: real, precision: real, fracmax: int,
                                 multiplier: Multiplier, mult10: Option<nat>)
    requires b.RoundsToNearest() && b.PrintsZero() && precision > 0.0 && fracmax > 1
    requires Abs(x) < precision && Abs(x) < 0.5
    ensures SimpleFloatText(b, x, precision, true, fracmax, multiplier, mult10) == "0"
    ensures SimpleFloatText(b, -x, precision, true, fracmax, multiplier, mult10) == "0"
  {
    assert Abs(-x) == Abs(x);
    var k := b.round(Abs(x));
    assert -0.5 <= Abs(x) - k as real <= 0.5;
    assert k == 0;
    NearIntegerIsWhole(b, x, precision, fracmax, multiplier, mult10, 0);
    NearIntegerIsWhole(b, -x, precision, fracmax, multiplier, mult10, 0);
  }

  /** The fallback value of a negated magnitude is the negated value of the
      magnitude. */
  lemma FallbackValueNegated(b: Backend, a: real, precision: real, mult10: Option<nat>, pos: Sym, neg: Sym)
    requires precision != 0.0 && a >= 0.0
    requires pos == FallbackValue(b, a, false, precision, mult10)
    requires neg == FallbackValue(b, a, true, precision, mult10)
    ensures neg == Negate(pos)
  {
    var e := ShownExponent(a, mult10);
    NegatedQuotient(Quantised(b, Scaled(a, e), precision), Pow10(e));
  }

  /** The fallback string of a negated magnitude is the string of the
      magnitude with a leading '-'. */
  lemma FallbackTextNegated(b: Backend, a: real, precision: real, multiplier: Multiplier, mult10: Option<nat>,
                            pos: string, neg: string)
    requires precision != 0.0 && a >= 0.0
    requires pos == FallbackText(b, a, false, precision, multiplier, mult10)
    requires neg == FallbackText(b, a, true, precision, multiplier, mult10)
    ensures neg == "-" + pos
  {
    var e := ShownExponent(a, mult10);
    var m := MagnitudeText(b, a, precision, e);
    var suffix := ExponentSuffix(e) + MultiplierSuffix(b, multiplier);
    assert pos == m + suffix by {
      assert SignPrefix(false) + m == m;
    }
  }

  /** Without a supplied exponent, a magnitude gets an exponent suffix
      exactly when it is non-zero and below 10^-3; a shown exponent is
      always 0 or above 3. */
  lemma ExponentSuffixThreshold(x: real, mult10: Option<nat>)
    requires x >= 0.0
    ensures ShownExponent(x, None) != 0 <==> x > 0.0 && Scaled(x, 3) < 1.0
    ensures ShownExponent(x, mult10) == 0 || ShownExponent(x, mult10) > 3
  {
    var e := LeastScale(x);
    if x > 0.0 {
      LeastScaleIsLeast(x);
      if e <= 3 {
        ScaledMonotonic(x, e, 3);
      }
    }
  }

  /** The exponent suffix is "e-" followed by digits that read back as the
      exponent, and is empty for exponent 0. */
  lemma ExponentSuffixReadsBack(e: nat)
    ensures e == 0 <==> ExponentSuffix(e) == ""
    ensures e != 0 ==>
      ExponentSuffix(e)[..2] == "e-" && IsDigits(ExponentSuffix(e)[2..]) &&
      DecimalValue(ExponentSuffix(e)[2..]) == e
  {
    if e != 0 {
      assert ExponentSuffix(e)[2..] == NatToDecimal(e);
      DecimalRoundTrip(e);
    }
  }

  /** Quantisation moves a value by at most half a grid step. */
  lemma QuantisedError(b: Backend, y: real, precision: real)
    requires b.RoundsToNearest() && precision > 0.0
    ensures Abs(Quantised(b, y, precision) - y) <= precision / 2.0
  {
    QuantiseError(y, precision, b.round(y / precision) as real);
  }

  /** Tolerance in the search branch: the value is exact, carries the
      multiplier's factor of I, and its coefficient is within
      precision * m / r of the input, for the multiplier m and the
      denominator r found. */
  lemma SearchBranchApproximates(b: Backend, alpha: real, precision: real, nsimplify: bool, fracmax: int,
                                 multiplier: Multiplier, mult10: Option<nat>, v: Sym)
    requires precision != 0.0 && Search(b, alpha, precision, nsimplify, fracmax).Some?
    requires v == SimpleFloatValue(b, alpha, precision, nsimplify, fracmax, multiplier, mult10)
    ensures v.Exact? && v.imag == ImagPower(multiplier)
    ensures Abs(b.Coefficient(v) - alpha) < precision * b.RootValue(v.root) / v.den as real
  {
    var c := Search(b, alpha, precision, nsimplify, fracmax).value;
    SearchBranchValue(b, alpha, precision, nsimplify, fracmax, multiplier, mult10, c);
    RemarkableApproximates(b, alpha, precision, c, multiplier, v);
  }

  lemma SearchBranchValue(b: Backend, alpha: real, precision: real, nsimplify: bool, fracmax: int,
                          multiplier: Multiplier, mult10: Option<nat>, c: Candidate)
    requires precision != 0.0 && Search(b, alpha, precision, nsimplify, fracmax) == Some(c)
    ensures c.index < |Remarkables| && Matches(b, Abs(alpha), precision, c)
    ensures SimpleFloatValue(b, alpha, precision, nsimplify, fracmax, multiplier, mult10)
         == RemarkableValue(b, Abs(alpha), SignOf(alpha), c, multiplier)
  {
  }

  /** Tolerance in the decimal fallback: the value is a decimal without any
      factor of I (even for the imaginary multiplier), within precision/2 of
      the input. */
  lemma FallbackBranchApproximates(b: Backend, alpha: real, precision: real, nsimplify: bool, fracmax: int,
                                   multiplier: Multiplier, mult10: Option<nat>, v: Sym)
    requires b.RoundsToNearest() && precision > 0.0 && Search(b, alpha, precision, nsimplify, fracmax).None?
    requires v == SimpleFloatValue(b, alpha, precision, nsimplify, fracmax, multiplier, mult10)
    ensures v.Float? && v.imag == 0
    ensures Abs(b.Coefficient(v) - alpha) <= precision / 2.0
  {
    FallbackBranchValue(b, alpha, precision, nsimplify, fracmax, multiplier, mult10);
    FallbackAtApproximates(b, alpha, precision, ShownExponent(Abs(alpha), mult10), v);
  }

  lemma FallbackBranchValue(b: Backend, alpha: real, precision: real, nsimplify: bool, fracmax: int,
                            multiplier: Multiplier, mult10: Option<nat>)
    requires precision != 0.0 && Search(b, alpha, precision, nsimplify, fracmax).None?
    ensures SimpleFloatValue(b, alpha, precision, nsimplify, fracmax, multiplier, mult10)
         == FallbackValue(b, Abs(alpha), alpha < 0.0, precision, mult10)
  {
  }

  /** The value of the search branch for a matching candidate is exact,
      carries the multiplier's factor of I, and is within precision * m / r. */
  lemma RemarkableApproximates(b: Backend, alpha: real, precision: real, c: Candidate, multiplier: Multiplier, v: Sym)
    requires precision > 0.0 && c.index < |Remarkables|
    requires Matches(b, Abs(alpha), precision, c)
    requires v == RemarkableValue(b, Abs(alpha), SignOf(alpha), c, multiplier)
    ensures v.Exact? && v.imag == ImagPower(multiplier)
    ensures Abs(b.Coefficient(v) - alpha) < precision * b.RootValue(v.root) / v.den as real
  {
    var p := Probe(b, Abs(alpha), c);
    var n := b.round(p);
    var m := b.RootValue(RootOf(c));
    CoefficientOfRemarkable(b, Abs(alpha), SignOf(alpha), c, multiplier);
    SignedProbeError(alpha, m, c.den as real, p, n as real, precision, SignOf(alpha) as real, b.Coefficient(v));
  }

  lemma CoefficientOfRemarkable(b: Backend, a: real, sg: int, c: Candidate, multiplier: Multiplier)
    requires c.index < |Remarkables|
    ensures b.Coefficient(RemarkableValue(b, a, sg, c, multiplier))
         == sg as real * b.round(Probe(b, a, c)) as real / c.den as real * b.RootValue(RootOf(c))
  {
  }

  /** The fallback's error bound holds whatever the exponent. */
  lemma FallbackAtApproximates(b: Backend, alpha: real, precision: real, e: nat, v: Sym)
    requires b.RoundsToNearest() && precision > 0.0
    requires v == FallbackValueAt(b, Abs(alpha), alpha < 0.0, precision, e)
    ensures v.Float? && v.imag == 0
    ensures Abs(b.Coefficient(v) - alpha) <= precision / 2.0
  {
    var y := Scaled(Abs(alpha), e);
    var q := Quantised(b, y, precision);
    var sign := if alpha < 0.0 then -1.0 else 1.0;
    QuantisedError(b, y, precision);
    SignedScaledError(alpha, q, y, Pow10(e), precision / 2.0, sign, b.Coefficient(v));
  }

  /** The error bound of a single-term value: precision * m / r for the
      search branch (multiplier m, denominator r), precision / 2 for the
      decimal fallback. */
  function Tolerance(b: Backend, v: Sym, precision: real): real {
    match v
    case Exact(_, _, d, rt, _) => precision * b.RootValue(rt) / d as real
    case Float(_, _) => precision / 2.0
    case Sum(_, _) => 0.0
  }

  ghost predicate Approximates(b: Backend, v: Sym, x: real, precision: real) {
    !v.Sum? && Abs(b.Coefficient(v) - x) <= Tolerance(b, v, precision)
  }

  /** Tolerance, whatever the branch: the value is a single term whose
      coefficient is within its branch's bound of the input. */
  lemma SimpleFloatApproximates(b: Backend, alpha: real, precision: real, nsimplify: bool, fracmax: int,
                                multiplier: Multiplier, mult10: Option<nat>, v: Sym)
    requires b.RoundsToNearest() && precision > 0.0
    requires v == SimpleFloatValue(b, alpha, precision, nsimplify, fracmax, multiplier, mult10)
    ensures Approximates(b, v, alpha, precision)
  {
    if Search(b, alpha, precision, nsimplify, fracmax).Some? {
      SearchBranchApproximates(b, alpha, precision, nsimplify, fracmax, multiplier, mult10, v);
    } else {
      FallbackBranchApproximates(b, alpha, precision, nsimplify, fracmax, multiplier, mult10, v);
    }
    WithinTolerance(b, v, alpha, precision);
  }

  lemma WithinTolerance(b: Backend, v: Sym, x: real, precision: real)
    requires v.Exact? || v.Float?
    requires v.Exact? ==> Abs(b.Coefficient(v) - x) < precision * b.RootValue(v.root) / v.den as real
    requires v.Float? ==> Abs(b.Coefficient(v) - x) <= precision / 2.0
    ensures Approximates(b, v, x, precision)
  {
  }
}
