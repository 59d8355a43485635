/** Trimming of the decimal rendering in `simple_float`
    (perceval/utils/format.py, lines 71-78): only for a string that contains
    a '.', trailing '0' characters are removed and then at most one trailing
    '.', scanning from the end down to index 1 (index 0 is never removed). */
module TrailingZeros {

  /** Removes trailing '0' characters, keeping the first character. */
  function StripZeros(s: string): string
    decreases |s|
  {
    if |s| > 1 && s[|s| - 1] == '0' then StripZeros(s[..|s| - 1]) else s
  }

  /** Removes one trailing '.', keeping the first character. */
  function DropDot(s: string): string {
    if |s| > 1 && s[|s| - 1] == '.' then s[..|s| - 1] else s
  }

  function Trimmed(s: string): string {
    if '.' in s then DropDot(StripZeros(s)) else s
  }

  /** The source's loop: for i from |s|-1 down to 1, drop a '0' and go on,
      or drop a '.' and stop, or stop. */
  method TrimTrailingZeros(s: string) returns (t: string)
    ensures t == Trimmed(s)
  {
    t := s;
    if '.' in s {
      for i := |s| downto 1
        invariant t == s[..i]
        invariant Trimmed(s) == DropDot(StripZeros(t))
      {
        if t[i] == '0' {
          t := t[..i];
          continue;
        }
        if t[i] == '.' {
          t := t[..i];
        }
        break;
      }
    }
  }

  lemma {:induction false} StripZerosShape(s: string)
    ensures var t := StripZeros(s);
      |t| <= |s| && t == s[..|t|] && (|s| >= 1 ==> |t| >= 1) &&
      (forall j :: |t| <= j < |s| ==> s[j] == '0') &&
      (|t| > 1 ==> t[|t| - 1] != '0')
    decreases |s|
  {
    if |s| > 1 && s[|s| - 1] == '0' {
      StripZerosShape(s[..|s| - 1]);
    }
  }

  /** Trimming only shortens: the result is a prefix of the input that keeps
      its first character, and a string without '.' is left as it is. */
  lemma TrimmedIsPrefix(s: string)
    ensures var t := Trimmed(s);
      |t| <= |s| && t == s[..|t|] && (|s| >= 1 ==> |t| >= 1) &&
      ('.' !in s ==> t == s)
  {
    StripZerosShape(s);
  }

  /** What trimming removes is a run of '0' characters, possibly preceded by
      one '.'; and when no '.' was removed, it stopped on a character that is
      neither '0' nor '.' (unless only the first character is left). */
  lemma TrimmedRemovesZerosThenDot(s: string)
    requires '.' in s
    ensures var t := Trimmed(s);
      |t| <= |s| &&
      (forall j :: |t| <= j < |s| ==> s[j] == '0' || (j == |t| && s[j] == '.')) &&
      (|t| > 1 && (|t| == |s| || s[|t|] != '.') ==> t[|t| - 1] != '0' && t[|t| - 1] != '.')
  {
    StripZerosShape(s);
  }
}
