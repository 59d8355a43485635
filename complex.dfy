/** `simple_complex` of perceval/utils/format.py (lines 88-112): a shared
    power-of-ten exponent for the two parts, `simple_float` on each part (the
    imaginary one with the multiplier I), and the composition of the two
    results, which drops a part printed "0". */
module ComplexFormat {
  import opened Wrappers
  import opened Symbolic
  import opened RealArith
  import opened Decimal
  import opened ScalarFormat

  function Min(x: nat, y: nat): nat {
    if x < y then x else y
  }

  /** The exponent both parts are scaled by: none when a part is zero,
      otherwise the number of times both parts can be multiplied by ten
      while they both stay below 1 in magnitude. */
  function SharedScale(r: real, z: real): Option<nat> {
    if r != 0.0 && z != 0.0 then Some(Min(LeastScale(Abs(r)), LeastScale(Abs(z)))) else None
  }

  /** The magnitude of x * 10^k is below 1 exactly while k is below the least
      scale of |x|. */
  lemma ScaledPartBelowOne(x: real, k: nat)
    requires x != 0.0
    ensures Abs(Scaled(x, k)) < 1.0 <==> k < LeastScale(Abs(x))
  {
    AbsScales(x, Pow10(k));
    assert Abs(Scaled(x, k)) == Scaled(Abs(x), k);
    ScaledBelowOne(Abs(x), k);
  }

  /** The shared exponent is the least e at which one of the two scaled parts
      reaches 1 in magnitude. */
  lemma SharedScaleIsLeast(r: real, z: real)
    requires r != 0.0 && z != 0.0
    ensures SharedScale(r, z).Some?
    ensures var e := SharedScale(r, z).value;
      (Abs(Scaled(r, e)) >= 1.0 || Abs(Scaled(z, e)) >= 1.0) &&
      forall k: nat :: k < e ==> Abs(Scaled(r, k)) < 1.0 && Abs(Scaled(z, k)) < 1.0
  {
    var e := SharedScale(r, z).value;
    ScaledPartBelowOne(r, e);
    ScaledPartBelowOne(z, e);
    forall k: nat | k < e
      ensures Abs(Scaled(r, k)) < 1.0 && Abs(Scaled(z, k)) < 1.0
    {
      ScaledPartBelowOne(r, k);
      ScaledPartBelowOne(z, k);
    }
  }

  /** Lines 92-101: the loop that scales both parts together. */
  method SharedExponent(r: real, z: real) returns (mult10: Option<nat>)
    ensures mult10 == SharedScale(r, z)
  {
    mult10 := None;
    if r != 0.0 && z != 0.0 {
      var k: nat := 0;
      var rr := r;
      var zz := z;
      ScaledPartBelowOne(r, 0);
      ScaledPartBelowOne(z, 0);
      while Abs(rr) < 1.0 && Abs(zz) < 1.0
        invariant k <= LeastScale(Abs(r)) && k <= LeastScale(Abs(z))
        invariant rr == Scaled(r, k) && zz == Scaled(z, k)
        invariant Abs(rr) < 1.0 <==> k < LeastScale(Abs(r))
        invariant Abs(zz) < 1.0 <==> k < LeastScale(Abs(z))
        decreases LeastScale(Abs(r)) - k
      {
        ScaledStep(r, k);
        ScaledStep(z, k);
        k := k + 1;
        rr := rr * 10.0;
        zz := zz * 10.0;
        ScaledPartBelowOne(r, k);
        ScaledPartBelowOne(z, k);
      }
      mult10 := Some(k);
    }
  }

  /** A symbolic value with its string. */
  datatype Rendered = Rendered(value: Sym, text: string)

  /** Lines 105-112: a part printed "0" is dropped; otherwise the two are
      added, and a '+' joins the strings unless the imaginary string starts
      with '-'. The imaginary value is multiplied by I here. The source
      indexes the first character of the imaginary string, which fails on
      an empty string when the real string is not "0". */
  function Compose(spr: Sym, cr: string, spz: Sym, cz: string): Rendered
    requires cz != "" || cr == "0"
  {
    if cz == "0" then Rendered(spr, cr)
    else if cr == "0" then Rendered(TimesI(spz), cz)
    else if cz[0] != '-' then Rendered(Sum(spr, TimesI(spz)), cr + "+" + cz)
    else Rendered(Sum(spr, TimesI(spz)), cr + cz)
  }

  /** When both parts are kept, the string is the real string, then a sign
      character, then the imaginary string without its own sign character
      doubled; the value is the sum. */
  lemma ComposeJoinsWithSign(spr: Sym, cr: string, spz: Sym, cz: string, out: Rendered)
    requires cz != "" && cz != "0" && cr != "0"
    requires out == Compose(spr, cr, spz, cz)
    ensures out.value == Sum(spr, TimesI(spz))
    ensures |out.text| > |cr| && out.text[..|cr|] == cr
    ensures out.text[|cr|] == '+' || out.text[|cr|] == '-'
    ensures out.text[|cr| + 1..] == (if cz[0] == '-' then cz[1..] else cz)
  {
    if cz[0] != '-' {
      assert out.text == cr + ("+" + cz);
    } else {
      assert out.text == cr + ([cz[0]] + cz[1..]);
    }
  }

  /** The value and string `simple_complex` returns. */
  function SimpleComplexResult(b: Backend, c: Complex, precision: real, nsimplify: bool, fracmax: int): Rendered
    requires b.PrintsNonEmpty() && precision != 0.0
  {
    var mult10 := SharedScale(c.re, c.im);
    var cz := SimpleFloatText(b, c.im, precision, nsimplify, fracmax, ImaginaryUnit, mult10);
    SimpleFloatTextNonEmpty(b, c.im, precision, nsimplify, fracmax, ImaginaryUnit, mult10, cz);
    Compose(SimpleFloatValue(b, c.re, precision, nsimplify, fracmax, UnitFactor, mult10),
            SimpleFloatText(b, c.re, precision, nsimplify, fracmax, UnitFactor, mult10),
            SimpleFloatValue(b, c.im, precision, nsimplify, fracmax, ImaginaryUnit, mult10),
            cz)
  }

  /** The whole of `simple_complex`. */
  method SimpleComplex(b: Backend, c: Complex, precision: real, nsimplify: bool, fracmax: int)
    returns (value: Sym, text: string)
    requires b.PrintsNonEmpty() && precision != 0.0
    ensures Rendered(value, text) == SimpleComplexResult(b, c, precision, nsimplify, fracmax)
  {
    var r := c.re;
    var z := c.im;
    var mult10 := SharedExponent(r, z);
    var spr, cr := SimpleFloat(b, r, precision, nsimplify, fracmax, UnitFactor, mult10);
    var spz, cz := SimpleFloat(b, z, precision, nsimplify, fracmax, ImaginaryUnit, mult10);
    SimpleFloatTextNonEmpty(b, z, precision, nsimplify, fracmax, ImaginaryUnit, mult10, cz);
    if cz == "0" {
      return spr, cr;
    }
    if cr == "0" {
      return TimesI(spz), cz;
    }
    if cz[0] != '-' {
      return Sum(spr, TimesI(spz)), cr + "+" + cz;
    }
    return Sum(spr, TimesI(spz)), cr + cz;
  }
}
