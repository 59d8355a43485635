/** The rational/radical search of `simple_float` (perceval/utils/format.py,
    lines 46-53): denominators r = 1 .. fracmax-1 in ascending order, and for
    each the remarkable multipliers in their fixed order; the first pair whose
    probe alpha/m*r lies within `precision` of its rounding wins. */
module RemarkableSearch {
  import opened Wrappers
  import opened Symbolic
  import opened RealArith

  /** A point of the search space: a denominator and an index into `Remarkables`. */
  datatype Candidate = Candidate(den: Denominator, index: nat)

  function RootOf(c: Candidate): Remarkable
    requires c.index < |Remarkables|
  {
    Remarkables[c.index]
  }

  predicate InSearchSpace(c: Candidate, fracmax: int) {
    c.den < fracmax && c.index < |Remarkables|
  }

  /** The search order: denominator first, then multiplier. */
  predicate Before(c: Candidate, d: Candidate) {
    c.den < d.den || (c.den == d.den && c.index < d.index)
  }

  /** The number the source tests for closeness to an integer. */
  function Probe(b: Backend, alpha: real, c: Candidate): real
    requires c.index < |Remarkables|
  {
    alpha / b.RootValue(RootOf(c)) * c.den as real
  }

  predicate Matches(b: Backend, alpha: real, precision: real, c: Candidate)
    requires c.index < |Remarkables|
  {
    var v := Probe(b, alpha, c);
    Abs(v - b.round(v) as real) < precision
  }

  /** The closeness test as a value, so that the scan below is stated for
      any test; a candidate outside the multiplier list never passes. */
  function MatchTest(b: Backend, alpha: real, precision: real): Candidate -> bool
  {
    (c: Candidate) => c.index < |Remarkables| && Matches(b, alpha, precision, c)
  }

  /** `found` is what a first-match scan of the whole search space returns:
      the earliest candidate passing `test`, or None when none passes. */
  ghost predicate IsFirstMatch(test: Candidate -> bool, fracmax: int, found: Option<Candidate>) {
    match found
    case Some(c) =>
      InSearchSpace(c, fracmax) && test(c) &&
      forall d :: InSearchSpace(d, fracmax) && Before(d, c) ==> !test(d)
    case None =>
      forall d :: InSearchSpace(d, fracmax) ==> !test(d)
  }

  /** The scan from candidate (r, i) onwards, in search order. */
  function FirstMatchFrom(test: Candidate -> bool, fracmax: int, r: Denominator, i: nat): (found: Option<Candidate>)
    requires i <= |Remarkables|
    ensures found.Some? ==> InSearchSpace(found.value, fracmax) && test(found.value)
    decreases fracmax - r, |Remarkables| - i
  {
    if r >= fracmax then None
    else if i == |Remarkables| then FirstMatchFrom(test, fracmax, r + 1, 0)
    else if test(Candidate(r, i)) then Some(Candidate(r, i))
    else FirstMatchFrom(test, fracmax, r, i + 1)
  }

  function FirstMatch(b: Backend, alpha: real, precision: real, fracmax: int): (found: Option<Candidate>)
    ensures found.Some? ==> InSearchSpace(found.value, fracmax) && Matches(b, alpha, precision, found.value)
  {
    FirstMatchFrom(MatchTest(b, alpha, precision), fracmax, 1, 0)
  }

  /** The scan from (r, i) returns the earliest passing candidate among those
      not before (r, i), and skips none. */
  lemma {:induction false} FirstMatchFromIsFirst(test: Candidate -> bool, fracmax: int, r: Denominator, i: nat)
    requires i <= |Remarkables|
    ensures var found := FirstMatchFrom(test, fracmax, r, i);
      match found
      case Some(c) =>
        InSearchSpace(c, fracmax) && test(c) && !Before(c, Candidate(r, i)) &&
        forall d :: InSearchSpace(d, fracmax) && !Before(d, Candidate(r, i)) && Before(d, c) ==> !test(d)
      case None =>
        forall d :: InSearchSpace(d, fracmax) && !Before(d, Candidate(r, i)) ==> !test(d)
    decreases fracmax - r, |Remarkables| - i
  {
    if r >= fracmax {
    } else if i == |Remarkables| {
      FirstMatchFromIsFirst(test, fracmax, r + 1, 0);
    } else if test(Candidate(r, i)) {
    } else {
      FirstMatchFromIsFirst(test, fracmax, r, i + 1);
    }
  }

  /** Search order and first match: FirstMatch returns the earliest matching
      candidate of the whole space, and None only when nothing matches. */
  lemma FirstMatchIsFirst(b: Backend, alpha: real, precision: real, fracmax: int)
    ensures IsFirstMatch(MatchTest(b, alpha, precision), fracmax, FirstMatch(b, alpha, precision, fracmax))
  {
    FirstMatchFromIsFirst(MatchTest(b, alpha, precision), fracmax, 1, 0);
  }

  /** A candidate of the space that passes the test forces a match, found at
      that candidate or before it. */
  lemma PassingCandidateIsReached(test: Candidate -> bool, fracmax: int, c: Candidate)
    requires InSearchSpace(c, fracmax) && test(c)
    ensures var found := FirstMatchFrom(test, fracmax, 1, 0);
      found.Some? && !Before(c, found.value)
  {
    FirstMatchFromIsFirst(test, fracmax, 1, 0);
    assert !Before(c, Candidate(1, 0));
  }

  /** The nested loops of the source, with the early return on the first match. */
  method FindRemarkable(b: Backend, alpha: real, precision: real, fracmax: int) returns (found: Option<Candidate>)
    ensures found == FirstMatch(b, alpha, precision, fracmax)
    ensures IsFirstMatch(MatchTest(b, alpha, precision), fracmax, found)
  {
    FirstMatchIsFirst(b, alpha, precision, fracmax);
    var test := MatchTest(b, alpha, precision);
    var r: Denominator := 1;
    while r < fracmax
      invariant FirstMatchFrom(test, fracmax, r, 0) == FirstMatch(b, alpha, precision, fracmax)
      decreases fracmax - r
    {
      var i := 0;
      while i < |Remarkables|
        invariant i <= |Remarkables|
        invariant FirstMatchFrom(test, fracmax, r, i) == FirstMatch(b, alpha, precision, fracmax)
      {
        var v := Probe(b, alpha, Candidate(r, i));
        var roundV := b.round(v);
        if Abs(v - roundV as real) < precision {
          return Some(Candidate(r, i));
        }
        i := i + 1;
      }
      r := r + 1;
    }
    return None;
  }

  /** Rounding returns every integer unchanged. */
  lemma RoundOfInteger(b: Backend, n: int)
    requires b.RoundsToNearest()
    ensures b.round(n as real) == n
  {
    var k := b.round(n as real);
    assert -0.5 <= n as real - k as real <= 0.5;
  }

  /** Any magnitude within `precision` of an integer is matched by the very
      first candidate, denominator 1 and multiplier 1. */
  lemma NearIntegerMatchesFirst(b: Backend, alpha: real, precision: real, fracmax: int, n: int)
    requires b.RoundsToNearest() && fracmax > 1
    requires Abs(alpha - n as real) < precision
    ensures FirstMatch(b, alpha, precision, fracmax) == Some(Candidate(1, 0))
  {
    var c := Candidate(1, 0);
    assert Probe(b, alpha, c) == alpha;
    var k := b.round(alpha);
    assert -0.5 <= alpha - k as real <= 0.5;
    if precision <= 0.5 {
      assert -1.0 < n as real - k as real < 1.0;
      assert n == k;
    }
    assert MatchTest(b, alpha, precision)(c);
  }

  /** An exact closed form n/p*m, with p below `fracmax` and m one of the
      remarkable multipliers, is always recognised: the search finds a match,
      at the candidate (p, m) or earlier. */
  lemma ClosedFormIsMatched(b: Backend, n: nat, p: Denominator, i: nat, precision: real, fracmax: int)
    requires b.RoundsToNearest() && precision > 0.0
    requires p < fracmax && i < |Remarkables|
    ensures var found := FirstMatch(b, n as real / p as real * b.RootValue(Remarkables[i]), precision, fracmax);
      found.Some? && !Before(Candidate(p, i), found.value)
  {
    var alpha := n as real / p as real * b.RootValue(Remarkables[i]);
    var c := Candidate(p, i);
    ClosedFormProbe(b, n, p, i, alpha);
    assert MatchTest(b, alpha, precision)(c);
    PassingCandidateIsReached(MatchTest(b, alpha, precision), fracmax, c);
  }

  /** When no earlier candidate passes, the closed form n/p*m is found at
      exactly (p, m), and the probe there rounds to n. */
  lemma ClosedFormFoundAt(b: Backend, n: nat, p: Denominator, i: nat, precision: real, fracmax: int, a: real)
    requires b.RoundsToNearest() && precision > 0.0
    requires p < fracmax && i < |Remarkables|
    requires a == n as real / p as real * b.RootValue(Remarkables[i])
    requires forall d :: InSearchSpace(d, fracmax) && Before(d, Candidate(p, i)) ==> !Matches(b, a, precision, d)
    ensures FirstMatch(b, a, precision, fracmax) == Some(Candidate(p, i))
    ensures b.round(Probe(b, a, Candidate(p, i))) == n
  {
    ClosedFormProbe(b, n, p, i, a);
    assert MatchTest(b, a, precision)(Candidate(p, i));
    PassingCandidateIsReached(MatchTest(b, a, precision), fracmax, Candidate(p, i));
    FirstMatchIsFirst(b, a, precision, fracmax);
  }

  /** At candidate (p, m), the probe of n/p*m is n, and it rounds to n. */
  lemma ClosedFormProbe(b: Backend, n: nat, p: Denominator, i: nat, a: real)
    requires b.RoundsToNearest() && i < |Remarkables|
    requires a == n as real / p as real * b.RootValue(Remarkables[i])
    ensures Probe(b, a, Candidate(p, i)) == n as real
    ensures b.round(Probe(b, a, Candidate(p, i))) == n
  {
    QuotientCancels(n as real, p as real, b.RootValue(Remarkables[i]));
    RoundOfInteger(b, n);
  }
}
