/** The Foundation string operation the command handlers apply to every
    keyword and value: `trimmingCharacters(in: .whitespaces)`. */
module Text {

  /** Foundation's `.whitespaces` set: the horizontal tab and the Unicode
      space separators (general category Zs). */
  predicate IsWhitespace(c: char)
  {
    c == '\t' || c == ' ' || c == '\U{A0}' || c == '\U{1680}' ||
    ('\U{2000}' <= c <= '\U{200A}') || c == '\U{202F}' || c == '\U{205F}' || c == '\U{3000}'
  }

  predicate AllWhitespace(t: string)
  {
    forall j :: 0 <= j < |t| ==> IsWhitespace(t[j])
  }

  /** Neither end of `t` is whitespace. */
  predicate Tight(t: string)
  {
    t == [] || (!IsWhitespace(t[0]) && !IsWhitespace(t[|t| - 1]))
  }

  /** Whitespace removed from both ends, one character at a time. */
  function Trim(s: string): string
    decreases |s|
  {
    if |s| > 0 && IsWhitespace(s[0]) then Trim(s[1..])
    else if |s| > 0 && IsWhitespace(s[|s| - 1]) then Trim(s[..|s| - 1])
    else s
  }

  /** Neither end of a trimmed string is whitespace. */
  lemma {:induction false} TrimIsTight(s: string)
    ensures Tight(Trim(s))
    decreases |s|
  {
    if |s| > 0 && IsWhitespace(s[0]) {
      TrimIsTight(s[1..]);
    } else if |s| > 0 && IsWhitespace(s[|s| - 1]) {
      TrimIsTight(s[..|s| - 1]);
    }
  }

  /** Trimming only cuts whitespace: the result is a slice of the input with
      nothing but whitespace before and after it. */
  lemma {:induction false} TrimCutsOnlyWhitespace(s: string)
    ensures exists i, k :: (0 <= i <= k <= |s| && Trim(s) == s[i..k] &&
      AllWhitespace(s[..i]) && AllWhitespace(s[k..]))
    decreases |s|
  {
    if |s| > 0 && IsWhitespace(s[0]) {
      TrimCutsOnlyWhitespace(s[1..]);
      var i, k :| 0 <= i <= k <= |s| - 1 && Trim(s[1..]) == s[1..][i..k] &&
        AllWhitespace(s[1..][..i]) && AllWhitespace(s[1..][k..]);
      DropFirst(s, i, k);
    } else if |s| > 0 && IsWhitespace(s[|s| - 1]) {
      TrimCutsOnlyWhitespace(s[..|s| - 1]);
      var i, k :| 0 <= i <= k <= |s| - 1 && Trim(s[..|s| - 1]) == s[..|s| - 1][i..k] &&
        AllWhitespace(s[..|s| - 1][..i]) && AllWhitespace(s[..|s| - 1][k..]);
      DropLast(s, i, k);
    } else {
      assert Trim(s) == s[0..|s|] && s[..0] == [] && s[|s|..] == [];
    }
  }

  /** A cut of the string without its leading whitespace character is a cut
      of the string, one place further on. */
  lemma DropFirst(s: string, i: nat, k: nat)
    requires |s| > 0 && IsWhitespace(s[0]) && i <= k <= |s| - 1
    requires AllWhitespace(s[1..][..i]) && AllWhitespace(s[1..][k..])
    ensures s[1..][i..k] == s[i + 1..k + 1]
    ensures AllWhitespace(s[..i + 1]) && AllWhitespace(s[k + 1..])
  {
    assert s[..i + 1] == [s[0]] + s[1..][..i];
    assert s[k + 1..] == s[1..][k..];
  }

  /** A cut of the string without its trailing whitespace character is a cut
      of the string at the same places. */
  lemma DropLast(s: string, i: nat, k: nat)
    requires |s| > 0 && IsWhitespace(s[|s| - 1]) && i <= k <= |s| - 1
    requires AllWhitespace(s[..|s| - 1][..i]) && AllWhitespace(s[..|s| - 1][k..])
    ensures s[..|s| - 1][i..k] == s[i..k]
    ensures AllWhitespace(s[..i]) && AllWhitespace(s[k..])
  {
    assert s[..i] == s[..|s| - 1][..i];
    assert s[k..] == s[..|s| - 1][k..] + [s[|s| - 1]];
  }

  /** A string with no whitespace at either end is its own trim. */
  lemma TrimOfTight(s: string)
    requires Tight(s)
    ensures Trim(s) == s
  {
  }

  /** Trimming twice is trimming once. */
  lemma TrimIdempotent(s: string)
    ensures Trim(Trim(s)) == Trim(s)
  {
    TrimIsTight(s);
    TrimOfTight(Trim(s));
  }
}
