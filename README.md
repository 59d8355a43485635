# Number simplification and formatting (perceval `utils/format.py`)

This project models the number formatter of Perceval, a photonic-circuit
toolkit. The formatter turns a floating-point parameter into two things: a
short exact symbolic value and the string that displays it.

- `simple_float` first searches for a rational multiple `n/r * m`. The
  denominator `r` runs from 1 to `fracmax - 1` and the remarkable multiplier
  `m` runs through 1, pi, sqrt 2, sqrt 3, sqrt 5 and sqrt 6. The first
  candidate whose probe `alpha / m * r` lies within `precision` of an integer
  is returned.
- When no candidate matches, `simple_float` falls back to a decimal. It
  scales the magnitude by powers of ten, undoes an exponent of 3 or less,
  and rounds to the grid of multiples of `precision`. The printed digits
  lose their trailing zeros and any bare trailing `.`. The string then gets,
  in this order, a sign, an `e-<n>` suffix and a `*<multiplier>` suffix.
- `simple_complex` gives both parts of a complex number a shared exponent
  when neither part is zero. It simplifies each part, the imaginary part
  with multiplier I, and then joins the two results. A part printed "0" is
  dropped, and a `+` is inserted unless the imaginary string starts with `-`.
- `format_parameters` renders each parameter as `key=value`, in order. A
  number is rendered by `simple_float` and a string is kept as it is. The
  entries are then joined with a separator.

Modules, one file each:

- `Wrappers` (wrappers.dfy) holds the `Option` type.
- `RealArith` (arith.dfy) holds the real-arithmetic facts.
- `Symbolic` (symbolic.dfy) holds the symbolic values and their evaluation
  to complex numbers. It also defines `Backend`, which bundles the host
  services: rounding, the constants pi and sqrt 2..6, and the
  symbolic-algebra printer.
- `Decimal` (decimal.dfy) holds powers of ten, the least scaling exponent,
  and decimal digits of a natural number.
- `RemarkableSearch` (search.dfy) holds the candidate search.
- `TrailingZeros` (trim.dfy) holds the trim loop.
- `ScalarFormat` (scalar.dfy) holds `simple_float` and the non-emptiness of its string, which `simple_complex` relies on.
- `ScalarLaws` (scalar_laws.dfy) holds the properties of `simple_float`.
- `ComplexFormat` (complex.dfy) holds `simple_complex`.
- `ComplexLaws` (complex_laws.dfy) holds its properties and a corrected
  composition.
- `ParameterFormat` (params.dfy) holds `format_parameters`.

Each loop of the source is a method with a loop. Each method is proved equal
to a specification function:

- `FindRemarkable` is proved against `FirstMatch`.
- `Rescale` is proved against `ShownExponent` and `Scaled`.
- `TrimTrailingZeros` is proved against `Trimmed`.
- `SharedExponent` is proved against `SharedScale`.
- `FormatParameters` is proved against `Join` of `Entries`.

The lemmas state what those functions mean.

The specification functions stay close to the source in three places:

- The decimal fallback's value omits the multiplier.
- `simple_complex` multiplies the imaginary value by I.
- Precision 0 is excluded. It always divides by zero at line 69.

## Model

| member | source | states |
|---|---|---|
| `Symbolic.Backend.RootValue` | perceval/utils/format.py:48 | Each remarkable multiplier is positive, and the first one is exactly 1. |
| `RemarkableSearch.FirstMatch` | perceval/utils/format.py:46-53 | A candidate found lies in the search space (`r < fracmax`, one of the six multipliers) and passes the closeness test. |
| `RemarkableSearch.FirstMatchFromIsFirst` | perceval/utils/format.py:47-53 | The scan from `(r, i)` onward returns the earliest candidate at or after `(r, i)` in search order that passes the test, or None when no such candidate passes. |
| `RemarkableSearch.FirstMatchIsFirst` | perceval/utils/format.py:46-53 | The search result is the earliest matching candidate in (denominator, then multiplier) order. It is None only when no candidate with `r < fracmax` matches, which includes every `fracmax <= 1`. |
| `RemarkableSearch.FindRemarkable` | perceval/utils/format.py:46-53 | The nested loops with early return yield exactly the first match. |
| `RemarkableSearch.RoundOfInteger` | perceval/utils/format.py:50 | Rounding leaves an integer unchanged, given only the 1/2 bound of rounding. |
| `RemarkableSearch.NearIntegerMatchesFirst` | perceval/utils/format.py:47-51 | A magnitude within `precision` of an integer, including 0, is matched by the very first candidate `(r = 1, m = 1)` whenever `fracmax > 1`. |
| `RemarkableSearch.PassingCandidateIsReached` | perceval/utils/format.py:47-53 | Whenever some candidate of the space passes the test, the scan returns a match at that candidate or before it. |
| `RemarkableSearch.ClosedFormIsMatched` | perceval/utils/format.py:47-53 | An exact closed form `n/p * m`, with `p < fracmax` and `m` a remarkable multiplier, is always matched, at candidate `(p, m)` or earlier. |
| `RemarkableSearch.ClosedFormProbe` | perceval/utils/format.py:49-50 | At candidate `(p, m)`, the probe of `n/p * m` is exactly `n`, and it rounds to `n`. |
| `RemarkableSearch.ClosedFormFoundAt` | perceval/utils/format.py:47-53 | When no earlier candidate passes, `n/p * m` is found at exactly `(p, m)`, where the probe rounds to `n`. |
| `RealArith.QuotientCancels` | perceval/utils/format.py:49 | The probe of `n/p * m` at candidate `(p, m)` is exactly `n`. |
| `TrailingZeros.TrimTrailingZeros` | perceval/utils/format.py:71-78 | The character loop computes the trimmed string. |
| `TrailingZeros.TrimmedIsPrefix` | perceval/utils/format.py:71-78 | The trimmed string is a prefix of the input that keeps its first character. A string without `.` is unchanged. |
| `TrailingZeros.TrimmedRemovesZerosThenDot` | perceval/utils/format.py:72-78 | Only `'0'` characters are removed, possibly together with one `.` just before them. When no `.` was removed, the result ends in neither `'0'` nor `'.'`, unless only index 0 is left. |
| `Decimal.ScalingShrinksMeasure` | perceval/utils/format.py:56-58 | Each multiplication by ten that stays below 1 lowers `floor(1/alpha)`, so the scaling loop ends. |
| `Decimal.LeastScaleIsLeast` | perceval/utils/format.py:54-58 | For `alpha > 0`, the computed exponent `e` is the least one with `alpha * 10^e >= 1`. |
| `Decimal.LeastScaleBounds` | perceval/utils/format.py:54-58 | The exponent is 0 exactly for `alpha = 0` or `alpha >= 1`. Otherwise it is at least 1 and brackets `alpha * 10^e` around 1. |
| `Decimal.ScaledBelowOne` | perceval/utils/format.py:56 | `alpha * 10^k < 1` holds exactly when `k` is below the least exponent. |
| `Decimal.NatToDecimal` | perceval/utils/format.py:82 | The decimal digits of a natural number (`%d`) are non-empty digits, with a leading '0' only for 0. |
| `Decimal.DecimalRoundTrip` | perceval/utils/format.py:82 | Reading the digits back gives the number. |
| `ScalarFormat.Search` | perceval/utils/format.py:46-53 | The search is skipped without `nsimplify`, and what it finds lies in the search space. |
| `ScalarFormat.Rescale` | perceval/utils/format.py:54-67 | The scaling loops return the shown exponent and the magnitude scaled by exactly that power of ten. Supplied exponents are applied without a check. Exponents of 3 or less are undone. |
| `ScalarFormat.DecimalFallback` | perceval/utils/format.py:69-85 | The fallback returns the quantised value `sign * q * 10^-e` without the multiplier. Its string is the sign, then the trimmed digits, then `e-<e>`, then `*<multiplier>`. |
| `ScalarFormat.SimpleFloat` | perceval/utils/format.py:34-85 | The whole of `simple_float` returns the search branch's value and string when a candidate matches, and the fallback's otherwise. |
| `ScalarLaws.ZeroRendersAsZero` | perceval/utils/format.py:46-53 | With the search on, 0 gives the exact zero times the multiplier's power of I, printed "0". |
| `ScalarLaws.NearIntegerIsWhole` | perceval/utils/format.py:46-53 | With the search on, an input within `precision` of an integer becomes a whole number with the input's sign, denominator 1, no root and the multiplier's power of I. |
| `ScalarLaws.ClosedFormIsExact` | perceval/utils/format.py:46-53 | With the search on, an input whose magnitude is exactly `n/p * m` (`p < fracmax`) never reaches the decimal fallback. It comes out in the search branch's form, with denominator at most `p` and the multiplier's power of I. |
| `ScalarLaws.ClosedFormRoundTrips` | perceval/utils/format.py:46-53 | Closed-form exactness: when `(p, m)` is the first passing candidate, an input of magnitude `n/p * m` comes back as exactly `sign * n/p * m` (times the multiplier's power of I), whose coefficient equals the input. |
| `ScalarLaws.SignSymmetry` | perceval/utils/format.py:41-44 | Negating a positive input negates the value. In the fallback branch the string gains a leading `-` and is otherwise unchanged. |
| `ScalarLaws.BelowPrecisionPrintsZero` | perceval/utils/format.py:47-53 | With the search on, an input below both `precision` and 1/2 in magnitude prints "0", and so does its negation: in the search branch the sign does not always reach the string. |
| `ScalarLaws.FallbackValueNegated` | perceval/utils/format.py:85 | The fallback value for a negative input is the negation of the value for its magnitude. |
| `ScalarLaws.FallbackTextNegated` | perceval/utils/format.py:79-84 | The fallback string for a negative input is `-` followed by the string for its magnitude. |
| `ScalarLaws.ExponentSuffixThreshold` | perceval/utils/format.py:54-67 | Without a supplied exponent, an `e-` suffix appears exactly when the magnitude is non-zero and below 10^-3. A shown exponent is always 0 or above 3. |
| `ScalarLaws.ExponentSuffixReadsBack` | perceval/utils/format.py:81-82 | The suffix is empty exactly for exponent 0. Otherwise it is `e-` followed by digits that read back as the exponent. |
| `ScalarLaws.QuantisedError` | perceval/utils/format.py:69 | Quantising to the grid moves a value by at most `precision / 2`. |
| `ScalarLaws.RemarkableApproximates` | perceval/utils/format.py:49-52 | A matching candidate's value is exact, carries the multiplier's power of I, and lies within `precision * m / r` of the input. |
| `ScalarLaws.SearchBranchApproximates` | perceval/utils/format.py:46-53 | In the search branch the value is exact, carries the multiplier's power of I, and its coefficient is within `precision * m / r` of the input. |
| `ScalarLaws.FallbackAtApproximates` | perceval/utils/format.py:69-85 | At any exponent, the fallback value is a decimal with no factor of I, within `precision / 2` of the input. |
| `ScalarLaws.FallbackBranchApproximates` | perceval/utils/format.py:54-85 | In the fallback branch the value is a decimal with no factor of I, even for multiplier I. It lies within `precision / 2` of the input. |
| `ScalarLaws.SimpleFloatApproximates` | perceval/utils/format.py:34-85 | Whatever the branch, the value is a single term whose coefficient approximates the input within that branch's tolerance. |
| `ScalarFormat.SimpleFloatTextNonEmpty` | perceval/utils/format.py:70-84 | When the printers never print "", the string returned is never empty. This is what the `cz[0]` index at line 109 relies on. |
| `RealArith.SignedProbeError` | perceval/utils/format.py:49-52 | An error below `precision` on the probe becomes an error below `precision * m / r` on `sign * n / r * m`. |
| `RealArith.SignedScaledError` | perceval/utils/format.py:69-85 | Scaling the quantised magnitude back down by `10^e` and restoring the sign keeps the quantisation error. |
| `RealArith.QuantiseError` | perceval/utils/format.py:69 | `round(y/p) * p` is within `p / 2` of `y`. |
| `ComplexFormat.ScaledPartBelowOne` | perceval/utils/format.py:98 | `|x| * 10^k < 1` holds exactly while `k` is below the least exponent of `|x|`. |
| `ComplexFormat.SharedScaleIsLeast` | perceval/utils/format.py:94-101 | For two non-zero parts, the shared exponent is the least `e` at which one scaled part reaches 1 in magnitude. |
| `ComplexFormat.SharedExponent` | perceval/utils/format.py:92-101 | The loop yields no exponent when a part is zero, and otherwise the least exponent of the two parts. |
| `ComplexFormat.ComposeJoinsWithSign` | perceval/utils/format.py:109-112 | When both parts are kept, the value is their sum with the imaginary value times I. The string is the real string, then one sign character, then the imaginary string without a doubled sign. |
| `ComplexFormat.SimpleComplex` | perceval/utils/format.py:88-112 | The whole of `simple_complex` computes the shared exponent, the two parts and the composition. |
| `ComplexLaws.RealInputRendersAsReal` | perceval/utils/format.py:92-106 | With the search on, a complex number with a zero imaginary part renders as its real part alone, with no shared exponent. |
| `ComplexLaws.ImaginaryInputRendersAsImaginary` | perceval/utils/format.py:103-108 | With the search on, a complex number with a zero real part renders as its imaginary part with multiplier I. The value is multiplied by I once more. |
| `ComplexLaws.OneIsMatchedAsOne` | perceval/utils/format.py:46-53 | With the search on, 1 is returned as the exact integer 1 times the multiplier. |
| `ComplexLaws.ComposeOfOnes` | perceval/utils/format.py:105-112 | Composing 1 with 1*I has no imaginary part, whatever the two strings are. |
| `ComplexLaws.AsWrittenSearchTermIsReal` | perceval/utils/format.py:104-112 | An imaginary part found by the search already carries I, and the composition's extra I puts it on the real axis with its sign flipped. |
| `ComplexLaws.AsWrittenLosesImaginary` | perceval/utils/format.py:103-112 | For 1+1j with the search on, the value returned has imaginary part 0. |
| `ComplexLaws.FixedFloatCarriesMultiplier` | perceval/utils/format.py:52-85 | The corrected scalar value carries the multiplier's power of I in both branches. Otherwise its coefficient and tolerance are those of the value returned. |
| `ComplexLaws.RealPartCarriesNoI` | perceval/utils/format.py:103 | The real part, rendered without a multiplier, is a single term with no factor of I. |
| `ComplexLaws.FixedComplexApproximates` | perceval/utils/format.py:103-112 | With the corrected composition, each part that is kept evaluates within its tolerance of the input's part: the imaginary part unless "0" was printed, and the real part unless it was dropped. |
| `ComplexLaws.FixedAgreesOnFallback` | perceval/utils/format.py:103-112 | When the imaginary part comes from the decimal fallback, the value returned already equals the corrected one. |
| `ParameterFormat.Entries` | perceval/utils/format.py:124-128 | There is one entry per parameter. |
| `ParameterFormat.EntriesAt` | perceval/utils/format.py:125-128 | Entry `i` is `key=value` for parameter `i`, in the mapping's order. |
| `ParameterFormat.FormatParameters` | perceval/utils/format.py:115-129 | The append loop and the final join return the entries joined by the separator. |
| `ParameterFormat.JoinLength` | perceval/utils/format.py:129 | `n` entries are joined with exactly `n - 1` separators. |
| `ParameterFormat.JoinPrefix` | perceval/utils/format.py:129 | The join of the first `k` entries is a prefix of the whole join, followed by the separator when entries remain. |

## Left out

- Floating point. Values and precision are real numbers, so scaling by ten and dividing back is exact. IEEE-754 rounding of `np.float64` is not modelled.
- Rounding. numpy's round-half-to-even is known only by its 1/2 bound (`Backend.RoundsToNearest`).
- Printing. The printers (`str` of a symbolic value, of a decimal and of the imaginary unit) are uninterpreted fields of `Backend`. The proofs assume only `PrintsZero` (an exact zero prints "0") and `PrintsNonEmpty` where those properties are stated.
- Fraction reduction. The fraction `n/r` is kept as built, and the symbolic package's reduction of it is not modelled.
- Constants. pi and sqrt 2..6 are abstract positive constants.
- NaN and infinite inputs are not modelled, since reals have none.
- Zero precision. `precision = 0` is excluded by the requires clauses, because line 69 then always divides by zero.
- Negative precision. The operations accept a negative precision. The tolerance lemmas (`ScalarLaws.SimpleFloatApproximates` and the lemmas it uses) assume `precision > 0`.
- Negative `mult10`. The supplied exponent is a `nat`. A negative one makes `while mult10:` at line 65 loop forever. The only caller, `simple_complex`, never passes one.
- Other multipliers. The multiplier is 1 or I, which are the only ones passed in this file.
- Parameter types. The parameter mapping is a sequence of (key, value) pairs in iteration order, and key uniqueness is not used. A non-string value is a number.
- Re-parsing. Parsing a printed string back is not modelled, so a re-simplification property cannot be stated.
- ScalarLaws.SearchBranchApproximates: the search branch does not stay within `precision` of the input. The code only gives `precision * m / r`, and that is what is proved. A bound of `precision` fails whenever `m / r > 1`, for example pi with denominator 1.
- ScalarLaws.SignSymmetry: the string half holds for the decimal fallback only. In the search branch the string is the printer's, and the sign need not show: a magnitude below `precision` and 1/2 prints "0" for both signs (`ScalarLaws.BelowPrecisionPrintsZero`).
- tests/test_transfer.py is not part of this model. It tests circuit decomposition, which is outside this file.

## Findings

| source | as written | input that shows it | evidently intended | confidence | as-written member | corrected member |
|---|---|---|---|---|---|---|
| perceval/utils/format.py:107-112 | The imaginary value `spz` is multiplied by I again. A value found by the search (line 52) already carries `multiplier = I`, so the term becomes real. | `simple_complex(1+1j)` with the search on and `fracmax > 1`: the value is `1 + 1*I*I`, whose imaginary part is 0. | `1 + I`: the imaginary value should carry I exactly once in both branches. | not executed | `ComplexLaws.AsWrittenLosesImaginary` | `ComplexLaws.FixedComplexApproximates` |
