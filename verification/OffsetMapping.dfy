/**
 * TextLayerBuilder.convertMatches: from match positions in the text of a page to positions in the
 * text items (one per div) that the text is joined from.
 */
module OffsetMapping {
  import opened PhraseMatch
  import opened Sequences
  import opened WordMatch

  /** Length of the items before item `d`. */
  function PrefixLen(items: seq<string>, d: nat): nat
    requires d <= |items|
  {
    if d == 0 then 0 else PrefixLen(items, d - 1) + |items[d - 1]|
  }

  function Joined(items: seq<string>, d: nat): (r: string)
    requires d <= |items|
    ensures |r| == PrefixLen(items, d)
  {
    if d == 0 then "" else Joined(items, d - 1) + items[d - 1]
  }

  /** The text of the page, as extractText joins it. */
  function PageText(items: seq<string>): string { Joined(items, |items|) }

  datatype Position = Position(divIdx: nat, offset: int)

  datatype Located = Located(begin: Position, end: Position)

  lemma {:induction false} PrefixMonotone(items: seq<string>, a: nat, b: nat)
    requires a <= b <= |items|
    ensures PrefixLen(items, a) <= PrefixLen(items, b)
    decreases b
  {
    if a < b {
      PrefixMonotone(items, a, b - 1);
    }
  }

  // ---- The sweep as a function --------------------------------------------------------

  /** The loop that looks for the item holding position `pos`, from item `i` on. */
  function SkipBegin(items: seq<string>, i: nat, pos: nat): (j: nat)
    requires i < |items|
    ensures i <= j < |items|
    decreases |items| - i
  {
    if i != |items| - 1 && pos >= PrefixLen(items, i) + |items[i]| then SkipBegin(items, i + 1, pos) else i
  }

  /** The loop for an end position, which may lie at the end of an item. */
  function SkipEnd(items: seq<string>, i: nat, pos: nat): (j: nat)
    requires i < |items|
    ensures i <= j < |items|
    decreases |items| - i
  {
    if i != |items| - 1 && pos > PrefixLen(items, i) + |items[i]| then SkipEnd(items, i + 1, pos) else i
  }

  function PositionIn(items: seq<string>, i: nat, pos: nat): Position
    requires i < |items|
  {
    Position(i, pos - PrefixLen(items, i))
  }

  function Locate(items: seq<string>, i: nat, x: Interval): Located
    requires i < |items|
  {
    var b := SkipBegin(items, i, x.start);
    Located(PositionIn(items, b, x.start), PositionIn(items, SkipEnd(items, b, x.End()), x.End()))
  }

  /** The sweep over a list of matches, starting at item `i`. */
  function Convert(items: seq<string>, i: nat, xs: seq<Interval>): (r: seq<Located>)
    requires items != [] && i < |items|
    ensures |r| == |xs|
    ensures forall m :: 0 <= m < |r| ==> r[m].begin.divIdx < |items| && r[m].end.divIdx < |items|
    decreases |xs|
  {
    if xs == [] then []
    else
      var loc := Locate(items, i, xs[0]);
      [loc] + Convert(items, loc.end.divIdx, xs[1..])
  }

  /** The sweep never goes back: item indices increase along the list. */
  ghost predicate Forward(locs: seq<Located>, from: nat) {
    && (forall m :: 0 <= m < |locs| ==> from <= locs[m].begin.divIdx <= locs[m].end.divIdx)
    && (forall l, m :: 0 <= l < m < |locs| ==> locs[l].end.divIdx <= locs[m].begin.divIdx)
  }

  lemma {:induction false} ConvertForward(items: seq<string>, i: nat, xs: seq<Interval>)
    requires items != [] && i < |items|
    ensures Forward(Convert(items, i, xs), i)
    decreases |xs|
  {
    if xs != [] {
      ConvertForward(items, Locate(items, i, xs[0]).end.divIdx, xs[1..]);
    }
  }

  // ---- When the result is right --------------------------------------------------------

  /** Positions `begin` and `end` denote the interval, each inside its item. */
  ghost predicate Exact(items: seq<string>, x: Interval, loc: Located) {
    && loc.begin.divIdx <= loc.end.divIdx < |items|
    && PrefixLen(items, loc.begin.divIdx) + loc.begin.offset == x.start
    && 0 <= loc.begin.offset < |items[loc.begin.divIdx]|
    && PrefixLen(items, loc.end.divIdx) + loc.end.offset == x.End()
    && 0 < loc.end.offset <= |items[loc.end.divIdx]|
  }

  lemma {:induction false} SkipBeginFinds(items: seq<string>, i: nat, pos: nat)
    requires i < |items| && PrefixLen(items, i) <= pos < PrefixLen(items, |items|)
    ensures var j := SkipBegin(items, i, pos); PrefixLen(items, j) <= pos < PrefixLen(items, j + 1)
    decreases |items| - i
  {
    if i != |items| - 1 && pos >= PrefixLen(items, i) + |items[i]| {
      SkipBeginFinds(items, i + 1, pos);
    }
  }

  lemma {:induction false} SkipEndFinds(items: seq<string>, i: nat, pos: nat)
    requires i < |items| && PrefixLen(items, i) < pos <= PrefixLen(items, |items|)
    ensures var j := SkipEnd(items, i, pos); PrefixLen(items, j) < pos <= PrefixLen(items, j + 1)
    decreases |items| - i
  {
    if i != |items| - 1 && pos > PrefixLen(items, i) + |items[i]| {
      SkipEndFinds(items, i + 1, pos);
    }
  }

  /** The item that holds the last character before position `pos`. */
  function EndItem(items: seq<string>, pos: nat): nat
    requires items != []
  {
    SkipEnd(items, 0, pos)
  }

  lemma {:induction false} EndItemUnique(items: seq<string>, pos: nat, j: nat)
    requires j < |items| && PrefixLen(items, j) < pos <= PrefixLen(items, j + 1)
    ensures EndItem(items, pos) == j
  {
    PrefixMonotone(items, j + 1, |items|);
    SkipEndFinds(items, 0, pos);
    var k := EndItem(items, pos);
    if k < j {
      PrefixMonotone(items, k + 1, j);
    } else if j < k {
      PrefixMonotone(items, j + 1, k);
    }
  }

  /** A match of the page text: not empty, and within it. */
  ghost predicate InText(items: seq<string>, x: Interval) {
    0 < x.length && x.End() <= PrefixLen(items, |items|)
  }

  /** No match begins before the item in which the previous one ends. */
  ghost predicate SweepOrder(items: seq<string>, from: nat, xs: seq<Interval>)
    requires from < |items|
  {
    && (xs != [] ==> PrefixLen(items, from) <= xs[0].start)
    && forall m :: 0 <= m < |xs| - 1 ==> PrefixLen(items, EndItem(items, xs[m].End())) <= xs[m + 1].start
  }

  ghost predicate AllExact(items: seq<string>, xs: seq<Interval>, locs: seq<Located>) {
    |xs| == |locs| && forall m :: 0 <= m < |xs| ==> Exact(items, xs[m], locs[m])
  }

  lemma {:induction false} LocateExact(items: seq<string>, i: nat, x: Interval)
    requires i < |items| && InText(items, x)
    ensures Exact(items, x, Locate(items, i, x)) <==> PrefixLen(items, i) <= x.start
    ensures PrefixLen(items, i) <= x.start ==> Locate(items, i, x).end.divIdx == EndItem(items, x.End())
  {
    var loc := Locate(items, i, x);
    PrefixMonotone(items, i, loc.begin.divIdx);
    if PrefixLen(items, i) <= x.start {
      SkipBeginFinds(items, i, x.start);
      SkipEndFinds(items, loc.begin.divIdx, x.End());
      EndItemUnique(items, x.End(), loc.end.divIdx);
    }
  }

  /** The mapping is right for every match if and only if the matches are in sweep order. */
  lemma {:induction false} ConvertExactIff(items: seq<string>, i: nat, xs: seq<Interval>)
    requires i < |items| && forall m :: 0 <= m < |xs| ==> InText(items, xs[m])
    ensures AllExact(items, xs, Convert(items, i, xs)) <==> SweepOrder(items, i, xs)
    decreases |xs|
  {
    if xs != [] {
      var loc, rest := Locate(items, i, xs[0]), Convert(items, Locate(items, i, xs[0]).end.divIdx, xs[1..]);
      LocateExact(items, i, xs[0]);
      ConvertExactIff(items, loc.end.divIdx, xs[1..]);
      assert Convert(items, i, xs) == [loc] + rest;
      assert AllExact(items, xs, [loc] + rest) <==> Exact(items, xs[0], loc) && AllExact(items, xs[1..], rest);
    }
  }

  // ---- Phrase matches ---------------------------------------------------------------------

  ghost predicate NonOverlapping(xs: seq<Interval>) {
    forall l, m :: 0 <= l < m < |xs| ==> xs[l].End() <= xs[m].start
  }

  /** Matches that do not overlap are in sweep order, so they are mapped exactly. */
  lemma {:induction false} NonOverlappingExact(items: seq<string>, xs: seq<Interval>)
    requires items != [] && NonOverlapping(xs) && forall m :: 0 <= m < |xs| ==> InText(items, xs[m])
    ensures AllExact(items, xs, Convert(items, 0, xs))
  {
    forall m | 0 <= m < |xs| - 1
      ensures PrefixLen(items, EndItem(items, xs[m].End())) <= xs[m + 1].start
    {
      SkipEndFinds(items, 0, xs[m].End());
    }
    ConvertExactIff(items, 0, xs);
  }

  lemma {:induction false} ItemInText(items: seq<string>, d: nat, n: nat)
    requires d < n <= |items|
    ensures PrefixLen(items, d + 1) <= PrefixLen(items, n)
    ensures Joined(items, n)[PrefixLen(items, d)..PrefixLen(items, d + 1)] == items[d]
    decreases n
  {
    if d + 1 < n {
      ItemInText(items, d, n - 1);
      assert Joined(items, n)[PrefixLen(items, d)..PrefixLen(items, d + 1)]
          == Joined(items, n - 1)[PrefixLen(items, d)..PrefixLen(items, d + 1)];
    }
  }

  /** The text from offset `o` of item `d` to offset `eo` of item `e`. */
  function Span(items: seq<string>, d: nat, o: nat, e: nat, eo: nat): string
    requires d <= e < |items| && o <= |items[d]| && eo <= |items[e]| && (d == e ==> o <= eo)
    decreases e - d
  {
    if d == e then items[d][o..eo] else items[d][o..] + Span(items, d + 1, 0, e, eo)
  }

  lemma {:induction false} ItemSlice(items: seq<string>, d: nat, o: nat, eo: nat)
    requires d < |items| && o <= eo <= |items[d]|
    ensures PrefixLen(items, d) + eo <= |PageText(items)|
    ensures items[d][o..eo] == PageText(items)[PrefixLen(items, d) + o..PrefixLen(items, d) + eo]
  {
    ItemInText(items, d, |items|);
    SliceOfSlice(PageText(items), PrefixLen(items, d), PrefixLen(items, d + 1), o, eo);
  }

  lemma {:induction false} SpanIsText(items: seq<string>, d: nat, o: nat, e: nat, eo: nat)
    requires d <= e < |items| && o <= |items[d]| && eo <= |items[e]| && (d == e ==> o <= eo)
    ensures PrefixLen(items, d) + o <= PrefixLen(items, e) + eo <= |PageText(items)|
    ensures Span(items, d, o, e, eo) == PageText(items)[PrefixLen(items, d) + o..PrefixLen(items, e) + eo]
    decreases e - d
  {
    if d == e {
      ItemSlice(items, d, o, eo);
    } else {
      var text, p, n, r := PageText(items), PrefixLen(items, d), |items[d]|, PrefixLen(items, e) + eo;
      var first, rest := items[d][o..], Span(items, d + 1, 0, e, eo);
      SpanIsText(items, d + 1, 0, e, eo);
      ItemSlice(items, d, o, n);
      assert PrefixLen(items, d + 1) == p + n;
      TextsJoin(text, first, rest, p + o, p + n, r);
    }
  }

  lemma {:induction false} TextsJoin(text: string, first: string, rest: string, a: nat, b: nat, c: nat)
    requires a <= b <= c <= |text| && first == text[a..b] && rest == text[b..c]
    ensures first + rest == text[a..c]
  {
    SlicesJoin(text, a, b, c);
  }

  lemma {:induction false} SliceOfSlice(s: string, a: nat, b: nat, c: nat, d: nat)
    requires a <= b <= |s| && c <= d <= b - a
    ensures s[a..b][c..d] == s[a + c..a + d]
  {
    assert forall i :: 0 <= i < d - c ==> s[a..b][c..d][i] == s[a..b][c + i] == s[a + c + i];
  }

  /** For an exactly located match, the text between its two positions is the matched text. */
  lemma {:induction false} ExactSpansMatch(items: seq<string>, x: Interval, loc: Located)
    requires InText(items, x) && Exact(items, x, loc)
    ensures loc.begin.divIdx == loc.end.divIdx ==> loc.begin.offset <= loc.end.offset
    ensures Span(items, loc.begin.divIdx, loc.begin.offset, loc.end.divIdx, loc.end.offset)
         == PageText(items)[x.start..x.End()]
  {
    SpanIsText(items, loc.begin.divIdx, loc.begin.offset, loc.end.divIdx, loc.end.offset);
  }

  function PhraseIntervals(items: seq<string>, query: string): seq<Interval>
    requires query != ""
  {
    WithLength(PhraseMatches(PageText(items), query), |query|)
  }

  lemma {:induction false} PhraseIntervalsFit(items: seq<string>, query: string)
    requires query != ""
    ensures var xs := PhraseIntervals(items, query);
            && NonOverlapping(xs)
            && forall m :: 0 <= m < |xs| ==> InText(items, xs[m]) && PageText(items)[xs[m].start..xs[m].End()] == query
  {
    MatchesFromIsSelection(PageText(items), query, 0);
    var matches, xs := PhraseMatches(PageText(items), query), PhraseIntervals(items, query);
    forall m | 0 <= m < |xs|
      ensures InText(items, xs[m]) && PageText(items)[xs[m].start..xs[m].End()] == query
    {
      assert OccursAt(PageText(items), query, matches[m]);
    }
  }

  /** Phrase search followed by the mapping: every match is located exactly and spans the query. */
  lemma {:induction false} PhraseMatchesLocated(items: seq<string>, query: string, m: nat)
    requires items != [] && query != "" && m < |PhraseIntervals(items, query)|
    ensures var xs := PhraseIntervals(items, query);
            var loc := Convert(items, 0, xs)[m];
            && Exact(items, xs[m], loc)
            && (loc.begin.divIdx == loc.end.divIdx ==> loc.begin.offset <= loc.end.offset)
            && Span(items, loc.begin.divIdx, loc.begin.offset, loc.end.divIdx, loc.end.offset) == query
  {
    PhraseIntervalsFit(items, query);
    var xs := PhraseIntervals(items, query);
    NonOverlappingExact(items, xs);
    ExactSpansMatch(items, xs[m], Convert(items, 0, xs)[m]);
  }

  // ---- Word matches that overlap -----------------------------------------------------------

  /** A query of two words with one space between them. */
  lemma {:induction false} TwoWords(query: string, a: Word, b: Word)
    requires query == a + " " + b
    requires (forall i :: 0 <= i < |a| ==> !IsSpace(a[i])) && (forall i :: 0 <= i < |b| ==> !IsSpace(b[i]))
    ensures Words(query) == [a, b]
  {
    OneWord(b);
    assert query[|a|] == ' ' && forall i :: 0 <= i < |a| ==> query[i] == a[i];
    assert RunLength(query) == |a|;
    var rest := query[|a|..];
    assert rest[0] == ' ' && rest[1..] == b;
    assert query[..|a|] == a;
  }

  lemma {:induction false} OneWord(a: Word)
    requires forall i :: 0 <= i < |a| ==> !IsSpace(a[i])
    ensures Words(a) == [a]
  {
    assert RunLength(a) == |a|;
    assert a[..|a|] == a && a[|a|..] == "";
  }

  /** A word that occurs in a text less than twice as long, and not before `k`, is found exactly once. */
  lemma {:induction false} FoundOnce(content: string, word: Word, k: nat)
    requires OccursAt(content, word, k) && |content| < k + 2 * |word|
    requires forall j: nat :: j < k ==> !OccursAt(content, word, j)
    ensures PhraseMatches(content, word) == [k]
  {
    IndexOfIsFirst(content, word, 0);
    assert k in Occurrences(content, word);
    assert IndexOf(content, word, 0) == k;
    assert MatchesFrom(content, word, k + |word|) == [];
  }

  lemma {:induction false} CollectedFromTwo(words: seq<Word>, content: string, x: Interval, y: Interval)
    requires |words| == 2 && PhraseMatches(content, words[0]) == [x.start] && PhraseMatches(content, words[1]) == [y.start]
    requires |words[0]| == x.length && |words[1]| == y.length
    ensures Collected(words, content) == [x, y]
  {
    var front := words[..1];
    assert front[..0] == [] && front[0] == words[0];
    assert Collected(front, content) == [] + WithLength([x.start], x.length);
    assert WithLength([x.start], x.length) == [x] && WithLength([y.start], y.length) == [y];
  }

  /** Two matches of which neither contains the other are both kept. */
  lemma {:induction false} BothKept(x: Interval, y: Interval)
    requires x.start < y.start && x.End() < y.End()
    ensures Prune([x, y]) == [x, y]
  {
    var both := [x, y];
    PruneIsPruned(both);
    assert forall z :: z in both <==> z == x || z == y;
    PrunedUnique(Prune(both), both);
  }

  /** A word search for "abc bcd" in "abcd" finds both words, and neither contains the other. */
  lemma {:induction false} OverlappingWordsFound(query: string, content: string)
    requires query == "abc bcd" && content == "abcd"
    ensures WordMatches(query, content) == [Interval(0, 3), Interval(1, 3)]
  {
    var a: Word, b: Word := query[..3], query[4..];
    TwoWords(query, a, b);
    FoundInExample(content, a, b);
    CollectedFromTwo([a, b], content, Interval(0, 3), Interval(1, 3));
    BothKept(Interval(0, 3), Interval(1, 3));
  }

  lemma {:induction false} FoundInExample(content: string, a: Word, b: Word)
    requires content == "abcd" && a == "abc" && b == "bcd"
    ensures PhraseMatches(content, a) == [0] && PhraseMatches(content, b) == [1]
  {
    assert content[0..3] == a && content[1..4] == b;
    FoundOnce(content, a, 0);
    assert content[0..3][0] != b[0];
    FoundOnce(content, b, 1);
  }

  /**
   * Word matches can overlap, and then the sweep goes wrong: on a page made of the items "ab" and
   * "cd", a word search for "abc bcd" finds both words, but the second one is given the offset -1 in
   * the second item.
   */
  lemma {:induction false} OverlappingWordsMislocated(items: seq<string>, query: string)
    requires items == ["ab", "cd"] && query == "abc bcd"
    ensures var xs := WordMatches(query, PageText(items));
            |xs| == 2 && Convert(items, 0, xs)[1].begin == Position(1, -1)
  {
    assert Joined(items, 1) == Joined(items, 0) + items[0];
    assert PageText(items) == items[0] + items[1];
    OverlappingWordsFound(query, PageText(items));
    SecondLocation(items, Interval(0, 3), Interval(1, 3));
    TwoItems(items);
  }

  lemma {:induction false} TwoItems(items: seq<string>)
    requires |items| == 2 && |items[0]| == 2
    ensures Locate(items, 0, Interval(0, 3)).end.divIdx == 1
    ensures Locate(items, 1, Interval(1, 3)).begin == Position(1, -1)
  {
    assert PrefixLen(items, 1) == PrefixLen(items, 0) + 2 == 2;
    assert SkipBegin(items, 0, 0) == 0;
    assert SkipEnd(items, 0, 3) == SkipEnd(items, 1, 3) == 1;
  }

  lemma {:induction false} SecondLocation(items: seq<string>, x: Interval, y: Interval)
    requires items != []
    ensures Convert(items, 0, [x, y])[1] == Locate(items, Locate(items, 0, x).end.divIdx, y)
  {
    assert [x, y][1..] == [y];
  }

  // ---- convertMatches itself -----------------------------------------------------------------

  /** The matches of a page as intervals: with their own lengths, or with the query's. */
  function AsIntervals(matches: seq<nat>, matchesLength: seq<nat>, multiTerm: bool, queryLen: nat): seq<Interval>
    requires multiTerm ==> |matches| == |matchesLength|
  {
    if multiTerm then Zip(matches, matchesLength) else WithLength(matches, queryLen)
  }

  /** The body of the loop over the matches: moves on from item `i`, which starts at `iIndex`. */
  method LocateMatch(items: seq<string>, i0: nat, iIndex0: nat, match_: nat, length: nat)
    returns (loc: Located, i: nat, iIndex: nat)
    requires i0 < |items| && iIndex0 == PrefixLen(items, i0)
    ensures i < |items| && iIndex == PrefixLen(items, i) && i == loc.end.divIdx
    ensures loc == Locate(items, i0, Interval(match_, length))
  {
    i, iIndex := i0, iIndex0;
    var end := |items| - 1;
    var matchIdx := match_;
    while i != end && matchIdx >= iIndex + |items[i]|
      invariant i < |items| && iIndex == PrefixLen(items, i)
      invariant SkipBegin(items, i, matchIdx) == SkipBegin(items, i0, matchIdx)
    {
      iIndex := iIndex + |items[i]|;
      i := i + 1;
    }
    var begin := Position(i, matchIdx - iIndex);
    ghost var at := i;
    matchIdx := matchIdx + length;
    while i != end && matchIdx > iIndex + |items[i]|
      invariant i < |items| && iIndex == PrefixLen(items, i)
      invariant SkipEnd(items, i, matchIdx) == SkipEnd(items, at, matchIdx)
    {
      iIndex := iIndex + |items[i]|;
      i := i + 1;
    }
    loc := Located(begin, Position(i, matchIdx - iIndex));
  }

  lemma {:induction false} ConvertNext(items: seq<string>, i: nat, xs: seq<Interval>, m: nat, ret: seq<Located>)
    requires i < |items| && m < |xs|
    ensures var loc := Locate(items, i, xs[m]);
            ret + Convert(items, i, xs[m..]) == (ret + [loc]) + Convert(items, loc.end.divIdx, xs[m + 1..])
  {
    assert xs[m..][0] == xs[m] && xs[m..][1..] == xs[m + 1..];
  }

  /** convertMatches, for a page with text items (a page without items has no matches). */
  method ConvertMatches(items: seq<string>, matches: seq<nat>, matchesLength: seq<nat>, multiTerm: bool, queryLen: nat)
    returns (ret: seq<Located>)
    requires items != [] && (multiTerm ==> |matches| == |matchesLength|)
    ensures ret == Convert(items, 0, AsIntervals(matches, matchesLength, multiTerm, queryLen))
  {
    ghost var xs := AsIntervals(matches, matchesLength, multiTerm, queryLen);
    var i: nat, iIndex: nat := 0, 0;
    ret := [];
    assert xs[0..] == xs;
    for m := 0 to |matches|
      invariant |xs| == |matches|
      invariant i < |items| && iIndex == PrefixLen(items, i)
      invariant ret + Convert(items, i, xs[m..]) == Convert(items, 0, xs)
    {
      ConvertNext(items, i, xs, m, ret);
      var length := if multiTerm then matchesLength[m] else queryLen;
      assert xs[m] == Interval(matches[m], length);
      var loc;
      loc, i, iIndex := LocateMatch(items, i, iIndex, matches[m], length);
      ret := ret + [loc];
    }
  }
}
