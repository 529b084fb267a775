/**
 * Matches are found in normalized text, but the highlighter uses their positions, and the length of the
 * query as typed, in the original text.  Here is exactly when that is right.
 */
module RawOffsets {
  import opened Normalization
  import opened PhraseMatch

  /** The matches of a query on a page with this text. */
  function MatchesOf(text: string, query: string): seq<nat>
    requires query != ""
  {
    NormalizeEmpty(query);
    PhraseMatches(Normalize(text), Normalize(query))
  }

  /** The part of the text from `a` to `b` is what the match at position `m` of the normalized text was found in. */
  predicate IsOriginal(text: string, query: string, m: nat, a: nat, b: nat) {
    a <= b <= |text| && |Normalize(text[..a])| == m && |Normalize(text[a..b])| == |Normalize(query)|
  }

  /** The range that is highlighted for the match is that part. */
  predicate HighlightsMatch(text: string, query: string, m: nat) {
    IsOriginal(text, query, m, m, m + |query|)
  }

  /** All matches of the query are highlighted right. */
  ghost predicate HighlightsQuery(text: string, query: string)
    requires query != ""
  {
    forall m :: m in MatchesOf(text, query) ==> HighlightsMatch(text, query, m)
  }

  lemma {:induction false} MatchOccurs(text: string, query: string, m: nat)
    requires query != "" && m in MatchesOf(text, query)
    ensures OccursAt(Normalize(text), Normalize(query), m)
  {
    NormalizeEmpty(query);
    assert MatchesOf(text, query) == MatchesFrom(Normalize(text), Normalize(query), 0);
    MatchesOccur(Normalize(text), Normalize(query), 0, m);
  }

  // ---- One match ------------------------------------------------------------------------------------

  /**
   * For a match found in the text from `a` to `b`: the highlighted range is this one if and only if there is no
   * fraction before it, and it holds as many fractions as the query.
   */
  lemma {:induction false} RangeIsRightIff(text: string, query: string, m: nat, a: nat, b: nat)
    requires IsOriginal(text, query, m, a, b)
    ensures a == m && b == m + |query| <==>
              FractionCount(text[..a]) == 0 && FractionCount(text[a..b]) == FractionCount(query)
  {
    NormalizeLength(text[..a]);
    NormalizeLength(text[a..b]);
    NormalizeLength(query);
  }

  /** The same in terms of the highlighted range, which a caller knows. */
  lemma {:induction false} HighlightsMatchIff(text: string, query: string, m: nat)
    ensures HighlightsMatch(text, query, m) <==>
              && m + |query| <= |text| && !HasFraction(text[..m])
              && FractionCount(text[m..m + |query|]) == FractionCount(query)
  {
    if m + |query| <= |text| {
      NormalizeLength(text[..m]);
      FractionCountZero(text[..m]);
      NormalizeLength(text[m..m + |query|]);
      NormalizeLength(query);
    }
  }

  /** What is highlighted right is an occurrence of what was searched for. */
  lemma {:induction false} HighlightedText(text: string, query: string, m: nat)
    requires OccursAt(Normalize(text), Normalize(query), m) && HighlightsMatch(text, query, m)
    ensures Normalize(text[m..m + |query|]) == Normalize(query)
  {
    NormalizedPart(text, m, m + |query|);
    SamePart(Normalize(text), Normalize(query), m, Normalize(text[m..m + |query|]));
  }

  lemma {:induction false} SamePart(t: string, query: string, m: nat, part: string)
    requires OccursAt(t, query, m) && |part| == |query|
    requires m + |part| <= |t| && t[m..m + |part|] == part
    ensures part == query
  {
  }

  /** Normalizing a part of a text gives a part of the normalized text. */
  lemma {:induction false} NormalizedPart(text: string, a: nat, b: nat)
    requires a <= b <= |text| && |Normalize(text[..a])| == a
    ensures a + |Normalize(text[a..b])| <= |Normalize(text)|
    ensures Normalize(text)[a..a + |Normalize(text[a..b])|] == Normalize(text[a..b])
  {
    assert text == text[..a] + (text[a..b] + text[b..]);
    NormalizeConcat(text[..a], text[a..b] + text[b..]);
    NormalizeConcat(text[a..b], text[b..]);
    MiddlePart(Normalize(text[..a]), Normalize(text[a..b]), Normalize(text[b..]));
  }

  lemma {:induction false} MiddlePart(a: string, b: string, c: string)
    ensures (a + (b + c))[|a|..|a| + |b|] == b
  {
  }

  lemma {:induction false} NormalizedGrows(text: string, a: nat, b: nat)
    requires a <= b <= |text|
    ensures |Normalize(text[..a])| <= |Normalize(text[..b])|
  {
    assert text[..b] == text[..a] + text[a..b];
    NormalizeConcat(text[..a], text[a..b]);
  }

  /**
   * A match that starts inside what a single character expands to, which must then be a fraction, has no original
   * part, so it is never highlighted right.
   */
  lemma {:induction false} InsideFractionNeverRight(text: string, query: string, m: nat, i: nat)
    requires i < |text| && |Normalize(text[..i])| < m < |Normalize(text[..i + 1])|
    ensures IsFraction(text[i])
    ensures forall a: nat, b: nat :: !IsOriginal(text, query, m, a, b)
    ensures !HighlightsMatch(text, query, m)
  {
    assert text[..i + 1] == text[..i] + [text[i]];
    NormalizeConcat(text[..i], [text[i]]);
    NormalizeLength([text[i]]);
    forall a: nat | a <= |text|
      ensures |Normalize(text[..a])| != m
    {
      if a <= i {
        NormalizedGrows(text, a, i);
      } else {
        NormalizedGrows(text, i + 1, a);
      }
    }
  }

  // ---- All matches ------------------------------------------------------------------------------------

  /** For any text and query: every match lies behind no fraction, in a range with as many fractions as the query. */
  lemma {:induction false} HighlightsQueryIff(text: string, query: string)
    requires query != ""
    ensures HighlightsQuery(text, query) <==>
              forall m :: m in MatchesOf(text, query) ==>
                && m + |query| <= |text| && !HasFraction(text[..m])
                && FractionCount(text[m..m + |query|]) == FractionCount(query)
  {
    forall m | m in MatchesOf(text, query)
      ensures HighlightsMatch(text, query, m) <==>
                && m + |query| <= |text| && !HasFraction(text[..m])
                && FractionCount(text[m..m + |query|]) == FractionCount(query)
    {
      HighlightsMatchIff(text, query, m);
    }
  }

  lemma {:induction false} PartsPlain(text: string, a: nat, b: nat)
    requires !HasFraction(text) && a <= b <= |text|
    ensures !HasFraction(text[..a]) && FractionCount(text[a..b]) == 0
  {
    FractionCountZero(text[a..b]);
  }

  lemma {:induction false} PlainLength(s: string)
    requires !HasFraction(s)
    ensures |Normalize(s)| == |s|
  {
    NormalizeLength(s);
    FractionCountZero(s);
  }

  lemma {:induction false} PlainMatch(text: string, query: string, m: nat)
    requires !HasFraction(text) && m + |Normalize(query)| <= |Normalize(text)|
    ensures HighlightsMatch(text, query, m) <==> !HasFraction(query)
  {
    PlainLength(text);
    NormalizeLength(query);
    FractionCountZero(query);
    HighlightsMatchIff(text, query, m);
    PartsPlain(text, m, m + |query|);
  }

  /** In a text without fractions, a query is highlighted right if and only if it is not found or has none. */
  lemma {:induction false} PlainTextHighlights(text: string, query: string)
    requires !HasFraction(text) && query != ""
    ensures HighlightsQuery(text, query) <==> MatchesOf(text, query) == [] || !HasFraction(query)
  {
    var matches := MatchesOf(text, query);
    forall m | m in matches
      ensures HighlightsMatch(text, query, m) <==> !HasFraction(query)
    {
      MatchOccurs(text, query, m);
      PlainMatch(text, query, m);
    }
    if matches != [] {
      assert matches[0] in matches;
    }
  }

  lemma {:induction false} LastCharacterFound(t: string)
    requires t != ""
    ensures |t| - 1 in PhraseMatches(t, [t[|t| - 1]])
  {
    var last, query := |t| - 1, [t[|t| - 1]];
    MatchesFromIsSelection(t, query, 0);
    assert t[last..last + 1] == query;
    assert OccursAt(t, query, last);
    assert Covered(PhraseMatches(t, query), 1, last);
  }

  /** The characters of normalized text are left alone by normalization. */
  lemma {:induction false} NormalizedIsFixed(s: string, i: nat)
    requires i < |Normalize(s)|
    ensures Normalize([Normalize(s)[i]]) == [Normalize(s)[i]] && !IsFraction(Normalize(s)[i])
  {
    var n := |NormalizeChar(s[0])|;
    if i < n {
      assert Normalize(s)[i] == NormalizeChar(s[0])[i];
    } else {
      assert Normalize(s)[i] == Normalize(s[1..])[i - n];
      NormalizedIsFixed(s[1..], i - n);
    }
  }

  /** A fraction in the text pushes the last normalized character beyond the end of the text. */
  lemma {:induction false} LastCharacterMisplaced(text: string) returns (query: string)
    requires HasFraction(text)
    ensures query != "" && !HasFraction(query) && !HighlightsQuery(text, query)
  {
    var t := Normalize(text);
    NormalizeLength(text);
    FractionCountZero(text);
    var last := |t| - 1;
    query := [t[last]];
    NormalizedIsFixed(text, last);
    LastCharacterFound(t);
    assert last in MatchesOf(text, query);
    assert !HighlightsMatch(text, query, last);
  }

  /** All fraction-free queries are highlighted right in a text if and only if the text has no fractions. */
  lemma {:induction false} HighlightsAllQueriesIff(text: string)
    ensures (forall query :: query != "" && !HasFraction(query) ==> HighlightsQuery(text, query)) <==> !HasFraction(text)
  {
    if HasFraction(text) {
      var query := LastCharacterMisplaced(text);
    } else {
      forall query | query != "" && !HasFraction(query)
        ensures HighlightsQuery(text, query)
      {
        PlainTextHighlights(text, query);
      }
    }
  }
}
