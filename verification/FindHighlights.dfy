/** The find controller and the text layers together: what a search shows on a page. */
module FindHighlights {
  import opened Options
  import opened PhraseMatch
  import opened WordMatch
  import opened Normalization
  import opened RawOffsets
  import opened OffsetMapping
  import opened Highlight
  import opened FindEngine
  import opened FindRuns
  import opened FindConfluence
  import opened PageSearch
  import opened TextLayer
  import opened HighlightOverlaps

  /** What the text layer of page `i` reads from a controller in state `s`. */
  function ViewFor(s: FindState, i: nat): FindView
    requires s.query.Some?
  {
    var pm := if i in s.pageMatches then s.pageMatches[i] else PageMatches([], None);
    FindView(s.active, pm.starts, if pm.lengths.Some? then pm.lengths.value else [], pm.lengths.Some?,
             |s.query.value.query|, s.query.value.highlightAll, s.selected.pageIdx == i, s.selected.matchIdx)
  }

  /** The matches stored for page `i` are those of the current query. */
  ghost predicate UpToDate(doc: Document, s: FindState, i: nat) {
    i < |doc.pages| && s.query.Some? && i in s.pageMatches
    && FindOnPage(doc, i, s.query.value) == Some(s.pageMatches[i])
  }

  /** The controller's invariant gives the text layer a view it can show, with a selected match that exists. */
  lemma {:induction false} ViewIsValid(doc: Document, s: FindState, i: nat)
    requires Inv(s, |doc.pages|) && UpToDate(doc, s, i)
    ensures ValidView(ViewFor(s, i))
  {
  }

  /** What the search sees of every beginning of this text is as long as that beginning. */
  ghost predicate KeepsLength(doc: Document, q: FindQuery, text: string) {
    forall k :: 0 <= k <= |text| ==> |Fold(doc, q, Normalize(text[..k]))| == k
  }

  /** Where case folding keeps lengths, the texts without fractions are meant. */
  lemma {:induction false} KeepsLengthIff(doc: Document, q: FindQuery, text: string)
    requires forall k :: 0 <= k <= |text| ==> |Fold(doc, q, Normalize(text[..k]))| == |Normalize(text[..k])|
    ensures KeepsLength(doc, q, text) <==> !HasFraction(text)
  {
    forall k | 0 <= k <= |text|
      ensures |Normalize(text[..k])| == k + 2 * FractionCount(text[..k])
      ensures FractionCount(text[..k]) == 0 <==> !HasFraction(text[..k])
    {
      NormalizeLength(text[..k]);
      FractionCountZero(text[..k]);
    }
    assert text[..|text|] == text;
  }

  lemma {:induction false} WholeLength(doc: Document, q: FindQuery, text: string)
    requires KeepsLength(doc, q, text)
    ensures |Fold(doc, q, Normalize(text))| == |text|
  {
    assert text[..|text|] == text;
  }

  /** The hypotheses of exact highlighting: the text the search sees corresponds to the text items. */
  ghost predicate Corresponds(doc: Document, s: FindState, i: nat, items: seq<string>) {
    && UpToDate(doc, s, i) && doc.pages[i] == PageText(items) && KeepsLength(doc, s.query.value, PageText(items))
    && (s.query.value.phraseSearch ==> KeepsLength(doc, s.query.value, s.query.value.query))
  }

  // ---- The matches of either search are listed ---------------------------------------------------

  lemma {:induction false} CollectedFit(words: seq<Word>, content: string, x: Interval)
    requires x in Collected(words, content)
    ensures 0 < x.length && x.End() <= |content|
  {
    var last := words[|words| - 1];
    if x in Collected(words[..|words| - 1], content) {
      CollectedFit(words[..|words| - 1], content, x);
    } else {
      var k :| 0 <= k < |WithLength(PhraseMatches(content, last), |last|)|
               && WithLength(PhraseMatches(content, last), |last|)[k] == x;
      MatchesOccur(content, last, 0, PhraseMatches(content, last)[k]);
    }
  }

  lemma {:induction false} WordMatchesListed(content: string, query: string, items: seq<string>)
    requires |content| == |PageText(items)|
    ensures Listed(items, WordMatches(query, content))
  {
    var input := Collected(Words(query), content);
    PruneIsPruned(input);
    forall m | 0 <= m < |Prune(input)|
      ensures InText(items, Prune(input)[m])
    {
      assert Prune(input)[m] in input;
      CollectedFit(Words(query), content, Prune(input)[m]);
    }
  }

  lemma {:induction false} PhraseMatchesListed(content: string, query: string, items: seq<string>)
    requires query != "" && |content| == |PageText(items)|
    ensures var xs := WithLength(PhraseMatches(content, query), |query|);
            Listed(items, xs) && NonOverlapping(xs)
  {
    MatchesFromIsSelection(content, query, 0);
    var matches := PhraseMatches(content, query);
    forall m | 0 <= m < |matches|
      ensures 0 <= matches[m] && matches[m] + |query| <= |content|
    {
      assert OccursAt(content, query, matches[m]);
    }
  }

  lemma {:induction false} Unzipped(kept: seq<Interval>)
    ensures Zip(Starts(kept), Lengths(kept)) == kept
  {
  }

  /** What the controller stores is a list that the theorems about the text layer apply to. */
  lemma {:induction false} SearchListed(doc: Document, s: FindState, i: nat, items: seq<string>)
    requires Inv(s, |doc.pages|) && Corresponds(doc, s, i, items)
    ensures ValidView(ViewFor(s, i)) && Listed(items, ViewIntervals(ViewFor(s, i)))
    ensures s.query.value.phraseSearch ==> NonOverlapping(ViewIntervals(ViewFor(s, i)))
  {
    var q := s.query.value;
    var content, query := Fold(doc, q, Normalize(doc.pages[i])), Fold(doc, q, Normalize(q.query));
    ViewIsValid(doc, s, i);
    WholeLength(doc, q, doc.pages[i]);
    if q.phraseSearch {
      WholeLength(doc, q, q.query);
      PhraseMatchesListed(content, query, items);
    } else {
      WordMatchesListed(content, query, items);
      Unzipped(WordMatches(query, content));
    }
  }

  /** The matches stored for page `i`: a word search stores their lengths, and a phrase search looks for the query. */
  function StoredMatches(s: FindState, i: nat): (xs: seq<Interval>)
    requires s.query.Some? && i in s.pageMatches
  {
    var pm := s.pageMatches[i];
    seq(|pm.starts|, k requires 0 <= k < |pm.starts| =>
      Interval(pm.starts[k], if pm.lengths.Some? && k < |pm.lengths.value| then pm.lengths.value[k] else |s.query.value.query|))
  }

  predicate Holds(xs: seq<Interval>, k: int, g: nat) { 0 <= k < |xs| && xs[k].start <= g < xs[k].End() }

  /** How a character of page `i` is to be shown: in the selected match, in another one if all are shown, or neither. */
  ghost function SearchMark(s: FindState, i: nat, g: nat): Mark
    requires s.query.Some? && i in s.pageMatches
  {
    if s.selected.pageIdx == i && Holds(StoredMatches(s, i), s.selected.matchIdx, g) then Some(true)
    else if s.query.value.highlightAll && exists k :: Holds(StoredMatches(s, i), k, g) then Some(false)
    else None
  }

  ghost function SearchMarks(s: FindState, i: nat, total: nat): (r: seq<Mark>)
    requires s.query.Some? && i in s.pageMatches
    ensures |r| == total && forall g :: 0 <= g < total ==> r[g] == SearchMark(s, i, g)
  {
    seq(total, g requires 0 <= g => SearchMark(s, i, g))
  }

  /**
   * What a page shows of a search.  The matches of a phrase search are marked exactly.  Those of a word search are,
   * with all of them highlighted, if and only if no two of them overlap; otherwise the page repeats some of its
   * text.  With one match highlighted the text is always there, and the match is marked if and only if it does not
   * begin before the item in which the previous one ends.
   */
  ghost predicate SearchShown(s: FindState, i: nat, items: seq<string>, divs: seq<Div>)
    requires s.query.Some? && i in s.pageMatches
  {
    var xs, q, k := StoredMatches(s, i), s.query.value, s.selected.matchIdx;
    var right := ShowsAll(divs, items, SearchMarks(s, i, PrefixLen(items, |items|)));
    && (q.phraseSearch ==> right)
    && (q.highlightAll ==> (TextIntact(divs, items) <==> NonOverlapping(xs)) && (right <==> NonOverlapping(xs)))
    && (!q.highlightAll ==>
          TextIntact(divs, items)
          && (right <==> (s.selected.pageIdx == i && 0 <= k < |xs| ==> Follows(items, xs, k))))
  }

  /** The view says what the state says. */
  lemma {:induction false} ViewMeans(s: FindState, i: nat)
    requires s.query.Some? && i in s.pageMatches && ValidView(ViewFor(s, i))
    ensures ViewIntervals(ViewFor(s, i)) == StoredMatches(s, i)
    ensures forall g: nat :: MarkIn(ViewFor(s, i), g) == SearchMark(s, i, g)
  {
    var v, xs := ViewFor(s, i), StoredMatches(s, i);
    assert ViewIntervals(v) == xs;
    forall g: nat
      ensures MarkIn(v, g) == SearchMark(s, i, g)
    {
      assert forall k :: InMatch(v, k, g) <==> Holds(xs, k, g);
    }
  }

  /** That is what a text layer shows after any updates, the last of which shows the controller's state. */
  lemma {:induction false} SearchShows(doc: Document, s: FindState, i: nat, items: seq<string>, views: seq<FindView>)
    requires Inv(s, |doc.pages|) && s.active && Corresponds(doc, s, i, items)
    requires ValidViews(items, views) && views != [] && views[|views| - 1] == ViewFor(s, i)
    ensures SearchShown(s, i, items, TextLayer.Run(items, views).divs)
  {
    SearchListed(doc, s, i, items);
    ViewMeans(s, i);
    assert MarksOf(items, ViewFor(s, i)) == SearchMarks(s, i, PrefixLen(items, |items|));
    RunShowsIff(items, views);
    if s.query.value.phraseSearch {
      RunShowsMatches(items, views);
    }
  }

  /**
   * State `t` is that of a controller on a document for which the user has asked in state `s`, when the pages have
   * arrived in some order, with scrolling in between.
   */
  ghost predicate SearchEnds(
    doc: Document, s: FindState, cmd: FindEngine.Command, q: FindQuery, events: seq<Event>, t: FindState) {
    var asked := ExecuteCommand(s, cmd, q);
    && doc.pages != [] && Reachable(doc, s) && cmd != FindAgain && Searchable(doc, q)
    && Scrolling(doc, events) && IsOrder(PagesOf(events), |doc.pages|)
    && Inv(asked, |doc.pages|) && Legal(doc, asked, [NextMatchFires] + events)
    && t == FindRuns.Run(doc, asked, [NextMatchFires] + events)
  }

  /** Then the matches of every page are those of the query. */
  lemma {:induction false} SearchEndsUpToDate(
    doc: Document, s: FindState, cmd: FindEngine.Command, q: FindQuery, events: seq<Event>, t: FindState)
    requires SearchEnds(doc, s, cmd, q, events, t)
    ensures Inv(t, |doc.pages|) && t.query == Some(q) && t.active
    ensures forall i: nat :: i < |doc.pages| ==> UpToDate(doc, t, i)
  {
    ScrollingSearchComputes(doc, s, cmd, q, events);
    forall i: nat | i < |doc.pages|
      ensures UpToDate(doc, t, i)
    {
      StoredUpToDate(doc, t, q, TableOf(doc, q), i);
    }
  }

  lemma {:induction false} StoredUpToDate(doc: Document, t: FindState, q: FindQuery, table: seq<PageMatches>, i: nat)
    requires i < |doc.pages| == |table| && FindOnPage(doc, i, q) == Some(table[i])
    requires t.query == Some(q) && t.pageMatches == AllMatches(table)
    ensures UpToDate(doc, t, i)
  {
  }

  /** These are the matches that the texts of the page and of the query have. */
  lemma {:induction false} SearchEndsRight(
    doc: Document, s: FindState, cmd: FindEngine.Command, q: FindQuery, events: seq<Event>, t: FindState, i: nat)
    requires SearchEnds(doc, s, cmd, q, events, t) && i < |doc.pages|
    ensures i in t.pageMatches && IsPageSearch(doc.pages[i], doc.lower, q, t.pageMatches[i])
  {
    SearchEndsUpToDate(doc, s, cmd, q, events, t);
    assert UpToDate(doc, t, i);
    StoredIsPageSearch(doc, i, q);
  }

  /** So, whatever the order of events, the text layers show the search when they show the state it ends in. */
  lemma {:induction false} SearchEndsShown(
    doc: Document, s: FindState, cmd: FindEngine.Command, q: FindQuery, events: seq<Event>, t: FindState,
    i: nat, items: seq<string>, views: seq<FindView>)
    requires SearchEnds(doc, s, cmd, q, events, t) && i < |doc.pages| && doc.pages[i] == PageText(items)
    requires KeepsLength(doc, q, PageText(items)) && (q.phraseSearch ==> KeepsLength(doc, q, q.query))
    requires t.query.Some? && ValidViews(items, views) && views != [] && views[|views| - 1] == ViewFor(t, i)
    ensures i in t.pageMatches && SearchShown(t, i, items, TextLayer.Run(items, views).divs)
  {
    SearchEndsUpToDate(doc, s, cmd, q, events, t);
    assert UpToDate(doc, t, i);
    SearchShows(doc, t, i, items, views);
  }
}
