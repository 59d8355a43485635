/** Properties of `simple_complex` (perceval/utils/format.py, lines 88-112),
    and the corrected composition of its imaginary part. */
module ComplexLaws {
  import opened Wrappers
  import opened Symbolic
  import opened RealArith
  import opened Decimal
  import opened RemarkableSearch
  import opened ScalarFormat
  import opened ScalarLaws
  import opened ComplexFormat

  /** A value with no factor of I evaluates on the real axis. */
  lemma EvalRealTerm(b: Backend, s: Sym)
    requires !s.Sum? && s.imag == 0
    ensures b.Eval(s) == Complex(b.Coefficient(s), 0.0)
  {
  }

  /** A value with one factor of I evaluates on the imaginary axis. */
  lemma EvalImaginaryTerm(b: Backend, s: Sym)
    requires !s.Sum? && s.imag == 1
    ensures b.Eval(s) == Complex(0.0, b.Coefficient(s))
  {
  }

  /** A complex number with a zero imaginary part renders as its real part
      alone, without the shared exponent. */
  lemma RealInputRendersAsReal(b: Backend, r: real, precision: real, fracmax: int, out: Rendered)
    requires b.RoundsToNearest() && b.PrintsZero() && b.PrintsNonEmpty() && precision > 0.0 && fracmax > 1
    requires out == SimpleComplexResult(b, Complex(r, 0.0), precision, true, fracmax)
    ensures out.value == SimpleFloatValue(b, r, precision, true, fracmax, UnitFactor, None)
    ensures out.text == SimpleFloatText(b, r, precision, true, fracmax, UnitFactor, None)
  {
    ZeroRendersAsZero(b, precision, fracmax, ImaginaryUnit, None);
  }

  /** A complex number with a zero real part renders as its imaginary part,
      printed with the multiplier I; the value is multiplied by I once more. */
  lemma ImaginaryInputRendersAsImaginary(b: Backend, z: real, precision: real, fracmax: int, out: Rendered)
    requires b.RoundsToNearest() && b.PrintsZero() && b.PrintsNonEmpty() && precision > 0.0 && fracmax > 1
    requires SimpleFloatText(b, z, precision, true, fracmax, ImaginaryUnit, None) != "0"
    requires out == SimpleComplexResult(b, Complex(0.0, z), precision, true, fracmax)
    ensures out.value == TimesI(SimpleFloatValue(b, z, precision, true, fracmax, ImaginaryUnit, None))
    ensures out.text == SimpleFloatText(b, z, precision, true, fracmax, ImaginaryUnit, None)
  {
    ZeroRendersAsZero(b, precision, fracmax, UnitFactor, None);
  }

  /** As written, an imaginary part found by the search already carries I
      (its multiplier), and the composition multiplies it by I again: the
      term lands on the real axis, with the opposite sign. */
  lemma AsWrittenSearchTermIsReal(b: Backend, z: real, precision: real, nsimplify: bool, fracmax: int,
                                  mult10: Option<nat>, spz: Sym)
    requires precision != 0.0 && Search(b, z, precision, nsimplify, fracmax).Some?
    requires spz == SimpleFloatValue(b, z, precision, nsimplify, fracmax, ImaginaryUnit, mult10)
    ensures b.Eval(TimesI(spz)) == Complex(-b.Coefficient(spz), 0.0)
  {
    var c := Search(b, z, precision, nsimplify, fracmax).value;
    SearchBranchValue(b, z, precision, nsimplify, fracmax, ImaginaryUnit, mult10, c);
  }

  /** The input 1+1j: both parts are matched as the integer 1, the imaginary
      one as I, and the value returned has imaginary part 0 whatever the
      strings are. */
  lemma AsWrittenLosesImaginary(b: Backend, precision: real, fracmax: int, out: Rendered)
    requires b.RoundsToNearest() && b.PrintsNonEmpty() && precision > 0.0 && fracmax > 1
    requires out == SimpleComplexResult(b, Complex(1.0, 1.0), precision, true, fracmax)
    ensures b.Eval(out.value).im == 0.0
  {
    assert LeastScale(1.0) == 0;
    var mult10 := SharedScale(1.0, 1.0);
    var cr := SimpleFloatText(b, 1.0, precision, true, fracmax, UnitFactor, mult10);
    var cz := SimpleFloatText(b, 1.0, precision, true, fracmax, ImaginaryUnit, mult10);
    SimpleFloatTextNonEmpty(b, 1.0, precision, true, fracmax, ImaginaryUnit, mult10, cz);
    OneIsMatchedAsOne(b, precision, fracmax, UnitFactor, mult10,
                      SimpleFloatValue(b, 1.0, precision, true, fracmax, UnitFactor, mult10));
    OneIsMatchedAsOne(b, precision, fracmax, ImaginaryUnit, mult10,
                      SimpleFloatValue(b, 1.0, precision, true, fracmax, ImaginaryUnit, mult10));
    ComposeOfOnes(b, cr, cz, out);
  }

  /** With the search on, 1 is returned as the exact integer 1 times the
      multiplier. */
  lemma OneIsMatchedAsOne(b: Backend, precision: real, fracmax: int, multiplier: Multiplier,
                          mult10: Option<nat>, v: Sym)
    requires b.RoundsToNearest() && precision > 0.0 && fracmax > 1
    requires v == SimpleFloatValue(b, 1.0, precision, true, fracmax, multiplier, mult10)
    ensures v == Exact(1, 1, 1, One, ImagPower(multiplier))
  {
    NearIntegerIsWhole(b, 1.0, precision, fracmax, multiplier, mult10, 1);
    RoundOfInteger(b, 1);
  }

  /** The composition of 1 and 1*I, whichever strings they print as, has no
      imaginary part. */
  lemma ComposeOfOnes(b: Backend, cr: string, cz: string, out: Rendered)
    requires cz != "" || cr == "0"
    requires out == Compose(Exact(1, 1, 1, One, 0), cr, Exact(1, 1, 1, One, 1), cz)
    ensures b.Eval(out.value).im == 0.0
  {
    assert TimesI(Exact(1, 1, 1, One, 1)) == Exact(1, 1, 1, One, 2);
  }

  /** The corrected scalar value: the decimal fallback carries the
      multiplier's factor of I, as the string it prints does. */
  function FixedFloatValue(b: Backend, alpha: real, precision: real, nsimplify: bool, fracmax: int,
                           multiplier: Multiplier, mult10: Option<nat>): Sym
    requires precision != 0.0
  {
    match Search(b, alpha, precision, nsimplify, fracmax)
    case Some(c) => RemarkableValue(b, Abs(alpha), SignOf(alpha), c, multiplier)
    case None => Float(FallbackValue(b, Abs(alpha), alpha < 0.0, precision, mult10).value, ImagPower(multiplier))
  }

  /** The corrected value differs from the one returned only in its power of
      I, which is now that of the multiplier in both branches. */
  lemma FixedFloatCarriesMultiplier(b: Backend, alpha: real, precision: real, nsimplify: bool, fracmax: int,
                                    multiplier: Multiplier, mult10: Option<nat>, v: Sym, fixed: Sym)
    requires precision != 0.0
    requires v == SimpleFloatValue(b, alpha, precision, nsimplify, fracmax, multiplier, mult10)
    requires fixed == FixedFloatValue(b, alpha, precision, nsimplify, fracmax, multiplier, mult10)
    ensures !fixed.Sum? && !v.Sum?
    ensures fixed.imag == ImagPower(multiplier)
    ensures b.Coefficient(fixed) == b.Coefficient(v) && Tolerance(b, fixed, precision) == Tolerance(b, v, precision)
  {
    match Search(b, alpha, precision, nsimplify, fracmax)
    case Some(c) =>
      SearchBranchValue(b, alpha, precision, nsimplify, fracmax, multiplier, mult10, c);
    case None =>
      FallbackBranchValue(b, alpha, precision, nsimplify, fracmax, multiplier, mult10);
  }

  /** The corrected composition: the imaginary value is used as it is, since
      it already carries I. */
  function FixedComplexValue(b: Backend, c: Complex, precision: real, nsimplify: bool, fracmax: int): Sym
    requires precision != 0.0
  {
    var mult10 := SharedScale(c.re, c.im);
    var spr := SimpleFloatValue(b, c.re, precision, nsimplify, fracmax, UnitFactor, mult10);
    var spz := FixedFloatValue(b, c.im, precision, nsimplify, fracmax, ImaginaryUnit, mult10);
    var cr := SimpleFloatText(b, c.re, precision, nsimplify, fracmax, UnitFactor, mult10);
    var cz := SimpleFloatText(b, c.im, precision, nsimplify, fracmax, ImaginaryUnit, mult10);
    if cz == "0" then spr
    else if cr == "0" then spz
    else Sum(spr, spz)
  }

  /** Tolerance of the corrected composition: each part it keeps evaluates
      within that part's tolerance of the input's part. */
  lemma FixedComplexApproximates(b: Backend, c: Complex, precision: real, nsimplify: bool, fracmax: int,
                                 spr: Sym, spz: Sym, cr: string, cz: string, v: Sym)
    requires b.RoundsToNearest() && precision > 0.0
    requires spr == SimpleFloatValue(b, c.re, precision, nsimplify, fracmax, UnitFactor, SharedScale(c.re, c.im))
    requires spz == SimpleFloatValue(b, c.im, precision, nsimplify, fracmax, ImaginaryUnit, SharedScale(c.re, c.im))
    requires cr == SimpleFloatText(b, c.re, precision, nsimplify, fracmax, UnitFactor, SharedScale(c.re, c.im))
    requires cz == SimpleFloatText(b, c.im, precision, nsimplify, fracmax, ImaginaryUnit, SharedScale(c.re, c.im))
    requires v == FixedComplexValue(b, c, precision, nsimplify, fracmax)
    ensures cz != "0" ==> Abs(b.Eval(v).im - c.im) <= Tolerance(b, spz, precision)
    ensures cz == "0" || cr != "0" ==> Abs(b.Eval(v).re - c.re) <= Tolerance(b, spr, precision)
  {
    var mult10 := SharedScale(c.re, c.im);
    var fz := FixedFloatValue(b, c.im, precision, nsimplify, fracmax, ImaginaryUnit, mult10);
    SimpleFloatApproximates(b, c.re, precision, nsimplify, fracmax, UnitFactor, mult10, spr);
    SimpleFloatApproximates(b, c.im, precision, nsimplify, fracmax, ImaginaryUnit, mult10, spz);
    FixedFloatCarriesMultiplier(b, c.re, precision, nsimplify, fracmax, UnitFactor, mult10, spr,
                                FixedFloatValue(b, c.re, precision, nsimplify, fracmax, UnitFactor, mult10));
    FixedFloatCarriesMultiplier(b, c.im, precision, nsimplify, fracmax, ImaginaryUnit, mult10, spz, fz);
    RealPartCarriesNoI(b, c.re, precision, nsimplify, fracmax, mult10, spr);
    EvalRealTerm(b, spr);
    EvalImaginaryTerm(b, fz);
  }

  /** The real part, rendered without multiplier, has no factor of I. */
  lemma RealPartCarriesNoI(b: Backend, x: real, precision: real, nsimplify: bool, fracmax: int,
                           mult10: Option<nat>, v: Sym)
    requires precision != 0.0
    requires v == SimpleFloatValue(b, x, precision, nsimplify, fracmax, UnitFactor, mult10)
    ensures !v.Sum? && v.imag == 0
  {
    match Search(b, x, precision, nsimplify, fracmax)
    case Some(c) =>
      SearchBranchValue(b, x, precision, nsimplify, fracmax, UnitFactor, mult10, c);
    case None =>
      FallbackBranchValue(b, x, precision, nsimplify, fracmax, UnitFactor, mult10);
  }

  /** The correction changes nothing when the imaginary part comes from the
      decimal fallback: there the value lacked I and the composition's
      multiplication supplies it. */
  lemma FixedAgreesOnFallback(b: Backend, c: Complex, precision: real, nsimplify: bool, fracmax: int, out: Rendered)
    requires b.PrintsNonEmpty() && precision != 0.0
    requires Search(b, c.im, precision, nsimplify, fracmax).None?
    requires out == SimpleComplexResult(b, c, precision, nsimplify, fracmax)
    ensures out.value == FixedComplexValue(b, c, precision, nsimplify, fracmax)
  {
    FallbackBranchValue(b, c.im, precision, nsimplify, fracmax, ImaginaryUnit, SharedScale(c.re, c.im));
  }
}
