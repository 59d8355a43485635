/** Values produced by the number simplifier of perceval/utils/format.py, and
    the services it borrows from its host: floating-point rounding, the
    constants pi and sqrt(2..6), and the symbolic-algebra package's printer.
    Those services are not modelled; they are the fields of a `Backend`
    value. The constants are positive by their type; `RoundsToNearest`,
    `PrintsZero` and `PrintsNonEmpty` state what the proofs rely on about
    rounding and printing. */
module Symbolic {

  /** The remarkable multipliers, in the order in which the search tries them. */
  datatype Remarkable = One | Pi | Sqrt2 | Sqrt3 | Sqrt5 | Sqrt6

  const Remarkables: seq<Remarkable> := [One, Pi, Sqrt2, Sqrt3, Sqrt5, Sqrt6]

  /** The literal multiplier a caller attaches to a scalar: 1 (the default)
      or the imaginary unit (used for the imaginary part of a complex). */
  datatype Multiplier = UnitFactor | ImaginaryUnit

  /** How many factors of the imaginary unit a multiplier contributes. */
  function ImagPower(m: Multiplier): nat {
    if m == ImaginaryUnit then 1 else 0
  }

  type Denominator = d: int | 1 <= d witness 1

  type Positive = x: real | x > 0.0 witness 1.0

  /** An exact symbolic value:
      - `Exact`: sign * (num/den) * root * I^imag, from the rational/radical search
        (the fraction is kept as built, not reduced);
      - `Float`: a decimal value * I^imag, from the decimal fallback;
      - `Sum`: the real part plus the imaginary part of a complex. */
  datatype Sym =
    | Exact(sign: int, num: int, den: Denominator, root: Remarkable, imag: nat)
    | Float(value: real, imag: nat)
    | Sum(left: Sym, right: Sym)

  /** Multiplication by the imaginary unit, as the symbolic package does it. */
  function TimesI(s: Sym): (r: Sym)
    ensures r.Sum? == s.Sum?
  {
    match s
    case Exact(sg, n, d, rt, k) => Exact(sg, n, d, rt, k + 1)
    case Float(v, k) => Float(v, k + 1)
    case Sum(l, r) => Sum(TimesI(l), TimesI(r))
  }

  /** Negation of a single-term value: the sign flips, nothing else changes. */
  function Negate(s: Sym): Sym {
    match s
    case Exact(sg, n, d, rt, k) => Exact(-sg, n, d, rt, k)
    case Float(v, k) => Float(-v, k)
    case Sum(l, r) => Sum(Negate(l), Negate(r))
  }

  datatype Complex = Complex(re: real, im: real)

  /** i^k. */
  function IPow(k: nat): Complex {
    match k % 4
    case 0 => Complex(1.0, 0.0)
    case 1 => Complex(0.0, 1.0)
    case 2 => Complex(-1.0, 0.0)
    case _ => Complex(0.0, -1.0)
  }

  function Scale(c: Complex, x: real): Complex {
    Complex(c.re * x, c.im * x)
  }

  function Add(a: Complex, b: Complex): Complex {
    Complex(a.re + b.re, a.im + b.im)
  }

  /** The host services. `round` is numpy's rounding to an integer, known only
      through its 1/2 bound; `showFloat` renders a decimal value, `showSym` a
      symbolic value and `showImag` the imaginary unit, as the symbolic
      package prints them. */
  datatype Backend = Backend(
    pi: Positive, sqrt2: Positive, sqrt3: Positive, sqrt5: Positive, sqrt6: Positive,
    round: real -> int,
    showFloat: real -> string,
    showSym: Sym -> string,
    showImag: string)
  {
    /** Rounding to an integer moves a value by at most 1/2. */
    ghost predicate RoundsToNearest() {
      forall x: real :: -0.5 <= x - round(x) as real <= 0.5
    }

    /** The printer prints an exact value with a zero numerator as "0". */
    ghost predicate PrintsZero() {
      forall s: Sym :: s.Exact? && s.num == 0 ==> showSym(s) == "0"
    }

    /** Neither printer ever prints the empty string. */
    ghost predicate PrintsNonEmpty() {
      (forall x: real :: showFloat(x) != []) && (forall s: Sym :: showSym(s) != [])
    }

    function RootValue(m: Remarkable): (v: real)
      ensures 0.0 < v
      ensures m == One ==> v == 1.0
    {
      match m
      case One => 1.0
      case Pi => pi
      case Sqrt2 => sqrt2
      case Sqrt3 => sqrt3
      case Sqrt5 => sqrt5
      case Sqrt6 => sqrt6
    }

    /** The numeric value of a symbolic value. */
    function Eval(s: Sym): Complex
    {
      match s
      case Sum(l, r) => Add(Eval(l), Eval(r))
      case _ => Scale(IPow(s.imag), Coefficient(s))
    }

    /** The real coefficient of a single-term value, i.e. its value without
        the powers of the imaginary unit. */
    function Coefficient(s: Sym): real
      requires !s.Sum?
    {
      match s
      case Exact(sg, n, d, rt, _) => sg as real * n as real / d as real * RootValue(rt)
      case Float(v, _) => v
    }
  }
}
