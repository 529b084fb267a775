/** PDFFindController.normalize: the character replacements applied to page text and query. */
module Normalization {

  function NormalizeChar(c: char): string {
    if '\U{2018}' <= c <= '\U{201B}' then "'"
    else if '\U{201C}' <= c <= '\U{201F}' then "\""
    else if c == '\U{00BC}' then "1/4"
    else if c == '\U{00BD}' then "1/2"
    else if c == '\U{00BE}' then "3/4"
    else [c]
  }

  /** The characters that are replaced. */
  const CHARACTERS_TO_NORMALIZE: map<char, string> := map[
    '\U{2018}' := "'", '\U{2019}' := "'", '\U{201A}' := "'", '\U{201B}' := "'",
    '\U{201C}' := "\"", '\U{201D}' := "\"", '\U{201E}' := "\"", '\U{201F}' := "\"",
    '\U{00BC}' := "1/4", '\U{00BD}' := "1/2", '\U{00BE}' := "3/4"]

  /** The replacements are those of the table, and no others. */
  lemma {:induction false} NormalizeCharTable(c: char)
    ensures NormalizeChar(c) == if c in CHARACTERS_TO_NORMALIZE then CHARACTERS_TO_NORMALIZE[c] else [c]
  {
  }

  /** The three vulgar fractions, the only characters that normalize to more than one. */
  predicate IsFraction(c: char) { '\U{00BC}' <= c <= '\U{00BE}' }

  predicate HasFraction(s: string) { exists i :: 0 <= i < |s| && IsFraction(s[i]) }

  function Normalize(s: string): string {
    if s == "" then "" else NormalizeChar(s[0]) + Normalize(s[1..])
  }

  lemma {:induction false} NormalizeEmpty(s: string)
    ensures Normalize(s) == "" <==> s == ""
  {
    if s != "" {
      assert |NormalizeChar(s[0])| > 0;
    }
  }

  function FractionCount(s: string): nat {
    if s == "" then 0 else (if IsFraction(s[0]) then 1 else 0) + FractionCount(s[1..])
  }

  /** Every fraction makes the normalized text two characters longer. */
  lemma {:induction false} NormalizeLength(s: string)
    ensures |Normalize(s)| == |s| + 2 * FractionCount(s)
  {
    if s != "" {
      NormalizeLength(s[1..]);
    }
  }

  lemma {:induction false} FractionCountZero(s: string)
    ensures FractionCount(s) == 0 <==> !HasFraction(s)
  {
    if s != "" {
      FractionCountZero(s[1..]);
      if HasFraction(s[1..]) {
        var i :| 0 <= i < |s| - 1 && IsFraction(s[1..][i]);
        assert IsFraction(s[i + 1]);
      }
    }
  }

  lemma {:induction false} NormalizeConcat(a: string, b: string)
    ensures Normalize(a + b) == Normalize(a) + Normalize(b)
  {
    if a == "" {
      assert a + b == b;
    } else {
      assert (a + b)[1..] == a[1..] + b;
      NormalizeConcat(a[1..], b);
    }
  }
}
