/** `simple_float` of perceval/utils/format.py (lines 34-85): sign extraction,
    the rational/radical search, and otherwise the decimal fallback (power of
    ten scaling and its undo, quantisation to the precision grid, trimming,
    sign and suffixes). */
module ScalarFormat {
  import opened Wrappers
  import opened Symbolic
  import opened RealArith
  import opened Decimal
  import opened RemarkableSearch
  import opened TrailingZeros

  /** The exponent reached by the scaling step: the least e lifting alpha to
      1 or more when none is supplied, the supplied count otherwise. */
  function ScaleExponent(alpha: real, mult10: Option<nat>): nat
    requires alpha >= 0.0
  {
    match mult10
    case None => LeastScale(alpha)
    case Some(e) => e
  }

  /** The exponent after the undo step: 3 or less is undone (reset to 0). */
  function ShownExponent(alpha: real, mult10: Option<nat>): nat
    requires alpha >= 0.0
  {
    var e := ScaleExponent(alpha, mult10);
    if e <= 3 then 0 else e
  }

  /** Rounding to the grid of multiples of `precision`. */
  function Quantised(b: Backend, x: real, precision: real): real
    requires precision != 0.0
  {
    b.round(x / precision) as real * precision
  }

  /** The sign the source extracts first: -1 for a negative input, 1 otherwise. */
  function SignOf(alpha: real): int {
    if alpha < 0.0 then -1 else 1
  }

  function SignPrefix(negative: bool): string {
    if negative then "-" else ""
  }

  function ExponentSuffix(e: nat): string {
    if e != 0 then "e-" + NatToDecimal(e) else ""
  }

  function MultiplierSuffix(b: Backend, multiplier: Multiplier): string {
    if multiplier != UnitFactor then "*" + b.showImag else ""
  }

  /** The value of the rational/radical branch: sign * (round(v)/r) * multiplier * m. */
  function RemarkableValue(b: Backend, a: real, sign: int, c: Candidate, multiplier: Multiplier): Sym
    requires c.index < |Remarkables|
  {
    Exact(sign, b.round(Probe(b, a, c)), c.den, RootOf(c), ImagPower(multiplier))
  }

  /** The value of the decimal fallback for the magnitude `a` at exponent
      `e`: the quantised scaled magnitude, scaled back and signed. It leaves
      the multiplier out, although the string shows it. */
  function FallbackValueAt(b: Backend, a: real, negative: bool, precision: real, e: nat): Sym
    requires precision != 0.0
  {
    var q := Quantised(b, Scaled(a, e), precision);
    var sign := if negative then -1.0 else 1.0;
    Float(sign * q / Pow10(e), 0)
  }

  /** The trimmed decimal rendering of the quantised magnitude at exponent `e`. */
  function MagnitudeText(b: Backend, a: real, precision: real, e: nat): string
    requires precision != 0.0
  {
    var q := Quantised(b, Scaled(a, e), precision);
    Trimmed(b.showFloat(q))
  }

  function FallbackValue(b: Backend, a: real, negative: bool, precision: real, mult10: Option<nat>): Sym
    requires precision != 0.0 && a >= 0.0
  {
    FallbackValueAt(b, a, negative, precision, ShownExponent(a, mult10))
  }

  function FallbackText(b: Backend, a: real, negative: bool, precision: real, multiplier: Multiplier, mult10: Option<nat>): string
    requires precision != 0.0 && a >= 0.0
  {
    var e := ShownExponent(a, mult10);
    SignPrefix(negative) + MagnitudeText(b, a, precision, e) + ExponentSuffix(e) + MultiplierSuffix(b, multiplier)
  }

  /** The result of the search, when it is on. */
  function Search(b: Backend, alpha: real, precision: real, nsimplify: bool, fracmax: int): (found: Option<Candidate>)
    ensures found.Some? ==> InSearchSpace(found.value, fracmax)
  {
    if nsimplify then FirstMatch(b, Abs(alpha), precision, fracmax) else None
  }

  /** The symbolic value `simple_float` returns. */
  function SimpleFloatValue(b: Backend, alpha: real, precision: real, nsimplify: bool, fracmax: int,
                            multiplier: Multiplier, mult10: Option<nat>): Sym
    requires precision != 0.0
  {
    match Search(b, alpha, precision, nsimplify, fracmax)
    case Some(c) => RemarkableValue(b, Abs(alpha), SignOf(alpha), c, multiplier)
    case None => FallbackValue(b, Abs(alpha), alpha < 0.0, precision, mult10)
  }

  /** The string `simple_float` returns. */
  function SimpleFloatText(b: Backend, alpha: real, precision: real, nsimplify: bool, fracmax: int,
                           multiplier: Multiplier, mult10: Option<nat>): string
    requires precision != 0.0
  {
    match Search(b, alpha, precision, nsimplify, fracmax)
    case Some(c) => b.showSym(RemarkableValue(b, Abs(alpha), SignOf(alpha), c, multiplier))
    case None => FallbackText(b, Abs(alpha), alpha < 0.0, precision, multiplier, mult10)
  }

  /** Lines 54-67: scale up by ten until the magnitude reaches 1 (or exactly
      `mult10` times when it is supplied), then undo an exponent of 3 or less. */
  method Rescale(alpha: real, mult10: Option<nat>) returns (scaled: real, e: nat)
    requires alpha >= 0.0
    ensures e == ShownExponent(alpha, mult10)
    ensures scaled == Scaled(alpha, e)
  {
    var a := alpha;
    var m: nat;
    if mult10.None? {
      m := 0;
      while a != 0.0 && a < 1.0
        invariant a >= 0.0 && a == Scaled(alpha, m)
        invariant m + LeastScale(a) == LeastScale(alpha)
        decreases LeastScale(a)
      {
        ScaledStep(alpha, m);
        m := m + 1;
        a := a * 10.0;
      }
    } else {
      m := mult10.value;
      var changeOrder := m;
      while changeOrder > 0
        invariant 0 <= changeOrder <= m
        invariant a == Scaled(alpha, m - changeOrder)
      {
        ScaledStep(alpha, m - changeOrder);
        a := a * 10.0;
        changeOrder := changeOrder - 1;
      }
    }
    assert m == ScaleExponent(alpha, mult10);
    if m <= 3 {
      while m != 0
        invariant a == Scaled(alpha, m)
      {
        ScaledStep(alpha, m - 1);
        a := a / 10.0;
        m := m - 1;
      }
    }
    scaled, e := a, m;
  }

  /** Lines 54-85: the decimal fallback for the magnitude `alpha`, the sign
      being passed as `negative`. */
  method DecimalFallback(b: Backend, alpha: real, negative: bool, precision: real,
                         multiplier: Multiplier, mult10: Option<nat>) returns (value: Sym, text: string)
    requires precision != 0.0 && alpha >= 0.0
    ensures value == FallbackValue(b, alpha, negative, precision, mult10)
    ensures text == FallbackText(b, alpha, negative, precision, multiplier, mult10)
  {
    var a, e := Rescale(alpha, mult10);
    a := b.round(a / precision) as real * precision;
    var s := b.showFloat(a);
    s := TrimTrailingZeros(s);
    ghost var magnitude := s;
    if negative {
      s := "-" + s;
    }
    assert s == SignPrefix(negative) + magnitude;
    if e != 0 {
      s := s + "e-" + NatToDecimal(e);
    }
    assert s == SignPrefix(negative) + magnitude + ExponentSuffix(e);
    if multiplier != UnitFactor {
      s := s + "*" + b.showImag;
    }
    assert s == SignPrefix(negative) + magnitude + ExponentSuffix(e) + MultiplierSuffix(b, multiplier);
    var sign := if negative then -1.0 else 1.0;
    value := Float(sign * a / Pow10(e), 0);
    text := s;
    assert a == Quantised(b, Scaled(alpha, e), precision);
  }

  /** The whole of `simple_float`. */
  method SimpleFloat(b: Backend, alpha: real, precision: real, nsimplify: bool, fracmax: int,
                     multiplier: Multiplier, mult10: Option<nat>) returns (value: Sym, text: string)
    requires precision != 0.0
    ensures value == SimpleFloatValue(b, alpha, precision, nsimplify, fracmax, multiplier, mult10)
    ensures text == SimpleFloatText(b, alpha, precision, nsimplify, fracmax, multiplier, mult10)
  {
    var sign := 1;
    var a := alpha;
    if a < 0.0 {
      sign := -1;
      a := -a;
    }
    if nsimplify {
      var found := FindRemarkable(b, a, precision, fracmax);
      if found.Some? {
        var c := found.value;
        value := Exact(sign, b.round(Probe(b, a, c)), c.den, RootOf(c), ImagPower(multiplier));
        text := b.showSym(value);
        return;
      }
    }
    value, text := DecimalFallback(b, a, sign < 1, precision, multiplier, mult10);
  }

  /** With printers that never print "", neither branch returns an empty string. */
  lemma SimpleFloatTextNonEmpty(b: Backend, alpha: real, precision: real, nsimplify: bool, fracmax: int,
                                multiplier: Multiplier, mult10: Option<nat>, t: string)
    requires b.PrintsNonEmpty() && precision != 0.0
    requires t == SimpleFloatText(b, alpha, precision, nsimplify, fracmax, multiplier, mult10)
    ensures t != ""
  {
    if Search(b, alpha, precision, nsimplify, fracmax).None? {
      var a := Abs(alpha);
      var e := ShownExponent(a, mult10);
      TrimmedIsPrefix(b.showFloat(Quantised(b, Scaled(a, e), precision)));
      assert |MagnitudeText(b, a, precision, e)| >= 1;
    }
  }
}
