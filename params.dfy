/** `format_parameters` of perceval/utils/format.py (lines 115-129): one
    "key=value" entry per parameter, in the order of the mapping, numbers
    being rendered by `simple_float` and strings kept as they are, then the
    entries joined with a separator. */
module ParameterFormat {
  import opened Wrappers
  import opened Symbolic
  import opened ScalarFormat

  /** A parameter value: a string, or a number to be simplified. */
  datatype ParamValue = Text(s: string) | Number(x: real)

  /** One item of the parameter mapping, in the mapping's iteration order. */
  datatype Param = Param(key: string, value: ParamValue)

  /** The denominator bound `format_parameters` leaves at its default. */
  const DefaultFracmax := 63

  function ValueText(b: Backend, v: ParamValue, precision: real, nsimplify: bool): string
    requires precision != 0.0
  {
    match v
    case Text(s) => s
    case Number(x) => SimpleFloatText(b, x, precision, nsimplify, DefaultFracmax, UnitFactor, None)
  }

  function Entry(b: Backend, p: Param, precision: real, nsimplify: bool): string
    requires precision != 0.0
  {
    p.key + "=" + ValueText(b, p.value, precision, nsimplify)
  }

  /** The entries, one per parameter, in order. */
  function Entries(b: Backend, params: seq<Param>, precision: real, nsimplify: bool): (entries: seq<string>)
    requires precision != 0.0
    ensures |entries| == |params|
  {
    if params == [] then []
    else Entries(b, params[..|params| - 1], precision, nsimplify) + [Entry(b, params[|params| - 1], precision, nsimplify)]
  }

  /** Entry i is the entry of parameter i. */
  lemma {:induction false} EntriesAt(b: Backend, params: seq<Param>, precision: real, nsimplify: bool, i: nat)
    requires precision != 0.0 && i < |params|
    ensures Entries(b, params, precision, nsimplify)[i] == Entry(b, params[i], precision, nsimplify)
    decreases |params|
  {
    if i < |params| - 1 {
      assert params[..|params| - 1][i] == params[i];
      EntriesAt(b, params[..|params| - 1], precision, nsimplify, i);
    }
  }

  /** Python's `separator.join(parts)`. */
  function Join(separator: string, parts: seq<string>): string {
    if |parts| == 0 then ""
    else if |parts| == 1 then parts[0]
    else Join(separator, parts[..|parts| - 1]) + separator + parts[|parts| - 1]
  }

  /** The whole of `format_parameters`. */
  method FormatParameters(b: Backend, params: seq<Param>, precision: real, nsimplify: bool, separator: string)
    returns (out: string)
    requires precision != 0.0
    ensures out == Join(separator, Entries(b, params, precision, nsimplify))
  {
    var output: seq<string> := [];
    for i := 0 to |params|
      invariant output == Entries(b, params[..i], precision, nsimplify)
    {
      var key := params[i].key;
      var value: string;
      match params[i].value {
        case Text(s) =>
          value := s;
        case Number(x) =>
          var _, t := SimpleFloat(b, x, precision, nsimplify, DefaultFracmax, UnitFactor, None);
          value := t;
      }
      assert params[..i + 1][..i] == params[..i];
      output := output + [key + "=" + value];
    }
    assert params[..|params|] == params;
    out := Join(separator, output);
  }

  /** The joined string is as long as its parts plus one separator between
      each two neighbours. */
  lemma {:induction false} JoinLength(separator: string, parts: seq<string>)
    requires |parts| >= 1
    ensures |Join(separator, parts)| == TotalLength(parts) + (|parts| - 1) * |separator|
  {
    if |parts| > 1 {
      JoinLength(separator, parts[..|parts| - 1]);
      assert TotalLength(parts) == TotalLength(parts[..|parts| - 1]) + |parts[|parts| - 1]|;
    }
  }

  function TotalLength(parts: seq<string>): nat {
    if parts == [] then 0 else TotalLength(parts[..|parts| - 1]) + |parts[|parts| - 1]|
  }

  /** Joining keeps the order: the join of the first k parts is a prefix of
      the join of all of them, followed by the separator when parts remain. */
  lemma {:induction false} JoinPrefix(separator: string, parts: seq<string>, k: nat)
    requires 1 <= k <= |parts|
    ensures k < |parts| ==> Join(separator, parts[..k]) + separator <= Join(separator, parts)
    ensures Join(separator, parts[..k]) <= Join(separator, parts)
    decreases |parts|
  {
    if k < |parts| {
      var init := parts[..|parts| - 1];
      assert init[..k] == parts[..k];
      if k < |init| {
        JoinPrefix(separator, init, k);
      } else {
        assert init == parts[..k];
      }
    } else {
      assert parts[..k] == parts;
    }
  }
}
