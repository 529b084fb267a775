/**
 * Three promises that PDFFindController breaks, each with a run that breaks it and the exact
 * condition under which it is kept.
 */
module FindQuirks {
  import opened Options
  import opened FindEngine
  import opened FindRuns
  import opened FindSearch
  import opened FindConfluence
  import opened PhraseMatch
  import opened Normalization

  // ---- Waiting for a page ---------------------------------------------------------------

  /**
   * It is meant to return while the search waits.  nextMatch leaves a parked search alone if and only if the
   * page waited for is not page 0 (or the counter it would reset happens to be full).
   */
  lemma {:induction false} WaitingIsRespectedIff(s: FindState, n: nat)
    requires Inv(s, n) && s.query.Some? && s.query.value.query != "" && !s.dirtyMatch
    requires s.resumePageIdx.Some?
    ensures NextMatch(s, n) == s.(active := true) <==> s.resumePageIdx != Some(0) || s.offset.pagesToSearch == n
  {
    if s.resumePageIdx == Some(0) {
      ResetState(s, n);
    }
  }

  /** A cursor with another counter. */
  function Recounted(c: Cursor, counter: int): Cursor { c.(pagesToSearch := counter) }

  function Shifted(r: Outcome, more: int): Outcome { r.(at := Recounted(r.at, r.at.pagesToSearch + more)) }

  /** A higher counter changes nothing about a search that does not miss. */
  lemma {:induction false} HigherCounter(pm: map<nat, PageMatches>, n: nat, previous: bool, c: Cursor, counter: int)
    requires 0 <= c.pageIdx < n && c.pagesToSearch <= counter && !Search(pm, n, previous, c).Miss?
    ensures Search(pm, n, previous, Recounted(c, counter)) == Shifted(Search(pm, n, previous, c), counter - c.pagesToSearch)
    decreases !c.wrapped, if c.wrapped then c.pagesToSearch + 1 else PagesAhead(c, n, previous)
  {
    if EmptyPage(pm, c.pageIdx) {
      HigherCounter(pm, n, previous, AdvanceOffsetPage(c, n, previous), counter - 1);
    }
  }

  /**
   * What the reset does to a search that waits for page 0: it brings the whole document within reach.  A match
   * that would have been found is still the one found; "not found" is reported only if there is none, where
   * otherwise it could be reported with matches out of reach (BelievableIff in FindSearch).
   */
  lemma {:induction false} ResetExtendsReach(s: FindState, n: nat, all: map<nat, PageMatches>)
    requires Inv(s, n) && s.query.Some? && s.query.value.query != "" && !s.dirtyMatch
    requires s.resumePageIdx == Some(0) && s.offset.pagesToSearch <= n && AllReady(all, n)
    ensures var c, t := s.offset, NextMatch(s, n);
            && t == s.(active := true, offset := Recounted(c, n)) && Reach(t.offset, n, Previous(s)) == n + 1
            && (Search(all, n, Previous(s), c).Hit? ==>
                  Search(all, n, Previous(s), t.offset) == Shifted(Search(all, n, Previous(s), c), n - c.pagesToSearch))
            && (Search(all, n, Previous(s), t.offset).Miss? <==> forall i: nat :: i < n ==> EmptyPage(all, i))
  {
    ResetState(s, n);
    if Search(all, n, Previous(s), s.offset).Hit? {
      HigherCounter(all, n, Previous(s), s.offset, n);
    }
    NewSearchIsComplete(all, n, Previous(s), Recounted(s.offset, n));
  }

  lemma {:induction false} ResetState(s: FindState, n: nat)
    requires Inv(s, n) && s.query.Some? && s.query.value.query != "" && !s.dirtyMatch
    requires s.resumePageIdx == Some(0)
    ensures NextMatch(s, n) == s.(active := true, offset := Recounted(s.offset, n))
  {
    var counting := s.(active := true, offset := Recounted(s.offset, n));
    assert Moved(s.(active := true), n) == counting.offset;
    assert Search(s.pageMatches, n, Previous(s), counting.offset) == Parked(counting.offset);
  }

  // ---- Concrete documents ---------------------------------------------------------------

  function Look(query: string, previous: bool): FindQuery {
    FindQuery(query, true, true, false, previous)
  }

  /** A document of one-character or empty pages. */
  function Doc(pages: seq<string>): Document { Document(pages, (s: string) => s) }

  lemma {:induction false} LookOnPage(pages: seq<string>, i: nat, query: char, previous: bool)
    requires i < |pages| && |pages[i]| <= 1 && query < '~'
    requires pages[i] == "" || pages[i][0] < '~'
    ensures FindOnPage(Doc(pages), i, Look([query], previous))
         == Some(PageMatches(if pages[i] == [query] then [0] else [], None))
  {
    assert Normalize([query]) == [query];
    var content := pages[i];
    assert Normalize(content) == content;
    if content == [query] {
      assert OccursAt(content, [query], 0);
      assert MatchesFrom(content, [query], 1) == [];
      assert PhraseMatches(content, [query]) == [0];
    } else {
      if |content| == 1 {
        assert content[0..1] == content;
      }
      assert PhraseMatches(content, [query]) == [];
    }
  }

  /** The page waited for turns out empty, and the search moves on to another page not yet computed. */
  lemma {:induction false} EmptyPageMovesOn(s: FindState, n: nat, i: nat)
    requires Inv(s, n) && i in s.pending && s.resumePageIdx == Some(i)
    requires var next := AdvanceOffsetPage(s.offset, n, Previous(s));
             next.pageIdx !in s.pageMatches && next.pageIdx != i && !(next.wrapped && next.pagesToSearch < 0)
    ensures var t, next := PageReady(s, n, i, Some(PageMatches([], None))), AdvanceOffsetPage(s.offset, n, Previous(s));
            && t.offset == next && t.resumePageIdx == Some(next.pageIdx) && t.pending == s.pending - {i}
            && t.pageMatches == s.pageMatches[i := PageMatches([], None)]
            && t.query == s.query && t.dirtyMatch == s.dirtyMatch && t.currentPage == s.currentPage
            && t.reports == s.reports && t.selected == s.selected
  {
    var pm := s.pageMatches[i := PageMatches([], None)];
    var next := AdvanceOffsetPage(s.offset, n, Previous(s));
    assert Search(pm, n, Previous(s), next) == Parked(next);
    assert Search(pm, n, Previous(s), s.offset) == Parked(next);
  }

  /** The callback of an empty page, as an event. */
  lemma {:induction false} EmptyPageArrives(doc: Document, s: FindState, i: nat) returns (t: FindState)
    requires doc.pages != [] && Reachable(doc, s) && Inv(s, |doc.pages|) && s.query.Some?
    requires i in s.pending && s.resumePageIdx == Some(i)
    requires FindOnPage(doc, i, s.query.value) == Some(PageMatches([], None))
    requires var next := AdvanceOffsetPage(s.offset, |doc.pages|, Previous(s));
             next.pageIdx !in s.pageMatches && next.pageIdx != i && !(next.wrapped && next.pagesToSearch < 0)
    ensures Reachable(doc, t) && Inv(t, |doc.pages|)
    ensures var next := AdvanceOffsetPage(s.offset, |doc.pages|, Previous(s));
            && t.offset == next && t.resumePageIdx == Some(next.pageIdx) && t.pending == s.pending - {i}
            && t.pageMatches == s.pageMatches[i := PageMatches([], None)]
            && t.query == s.query && t.dirtyMatch == s.dirtyMatch && t.currentPage == s.currentPage
            && t.reports == s.reports && t.selected == s.selected
  {
    ReachableAfter(doc, s, PageTextReady(i));
    EmptyPageMovesOn(s, |doc.pages|, i);
    t := PageReady(s, |doc.pages|, i, Some(PageMatches([], None)));
    assert t == After(doc, s, PageTextReady(i));
  }

  /** The page waited for has a match. */
  lemma {:induction false} FullPageSelects(s: FindState, n: nat, i: nat, matches: PageMatches)
    requires Inv(s, n) && i in s.pending && s.resumePageIdx == Some(i) && matches.starts != []
    ensures var t := PageReady(s, n, i, Some(matches));
            && t.selected == Selection(i, FirstMatch(matches, Previous(s)))
            && t.reports == s.reports + [Report(if s.offset.wrapped then Wrapped else Found, s.matchCount)]
  {
    var pm := s.pageMatches[i := matches];
    assert Search(pm, n, Previous(s), s.offset)
        == Hit(s.offset.(matchIdx := Some(FirstMatch(matches, Previous(s)))));
  }

  // ---- A stale "wrapped" flag -------------------------------------------------------------

  lemma {:induction false} NextMatchWaits(s: FindState, n: nat)
    requires AsksForSearch(s, n)
    ensures var t := NextMatch(s, n);
            && t.query == s.query && !t.dirtyMatch && t.pending == AllPages(n) && t.pageMatches == map[]
            && t.offset == Cursor(s.currentPage - 1, None, s.offset.wrapped, n)
            && t.resumePageIdx == Some(s.currentPage - 1) && t.currentPage == s.currentPage
            && t.selected == NOTHING_SELECTED
  {
    NewSearchWaits(s, n, seq(n, _ => PageMatches([], None)));
  }

  /** A new command and its nextMatch: a search for one character starts and waits for the current page. */
  lemma {:induction false} NewSearch(doc: Document, s: FindState, q: FindQuery) returns (t: FindState)
    requires doc.pages != [] && Reachable(doc, s) && q.query != ""
    ensures Reachable(doc, t) && Inv(t, |doc.pages|)
    ensures t.query == Some(q) && !t.dirtyMatch && t.pending == AllPages(|doc.pages|) && t.pageMatches == map[]
    ensures t.offset == Cursor(s.currentPage - 1, None, s.offset.wrapped, |doc.pages|)
    ensures t.resumePageIdx == Some(s.currentPage - 1) && t.currentPage == s.currentPage
    ensures t.selected == NOTHING_SELECTED
  {
    var n := |doc.pages|;
    ReachableAfter(doc, s, Command(Find, q));
    var asked := ExecuteCommand(s, Find, q);
    assert asked == After(doc, s, Command(Find, q));
    ReachableAfter(doc, asked, NextMatchFires);
    NextMatchWaits(asked, n);
    t := NextMatch(asked, n);
    assert t == After(doc, asked, NextMatchFires);
  }

  /**
   * A search backwards from page 0 goes round to page 1 and waits there.  A new search for the text of
   * page 0 then finds it at once, without going round, but the flag left behind makes it report
   * "wrapped".  (SearchOutcome in FindConfluence states the exact condition.)
   */
  lemma {:induction false} StaleWrap() returns (s: FindState, t: FindState)
    ensures var doc := Doc(["y", ""]);
            && Reachable(doc, s) && Inv(s, 2) && s.resumePageIdx == Some(0) && 0 in s.pending
            && t == After(doc, s, PageTextReady(0)) && Reachable(doc, t)
            && t.selected == Selection(0, 0) && t.selected.pageIdx == s.currentPage - 1
            && t.reports == s.reports + [Report(Wrapped, s.matchCount)]
  {
    var doc := Doc(["y", ""]);
    InitialReachable(doc);
    var s1 := NewSearch(doc, InitialState(2, 1), Look("x", true));
    LookOnPage(doc.pages, 0, 'x', true);
    var s2 := EmptyPageArrives(doc, s1, 0);
    s := NewSearch(doc, s2, Look("y", false));
    LookOnPage(doc.pages, 0, 'y', false);
    ReachableAfter(doc, s, PageTextReady(0));
    FullPageSelects(s, 2, 0, PageMatches([0], None));
    t := PageReady(s, 2, 0, Some(PageMatches([0], None)));
    assert t == After(doc, s, PageTextReady(0));
  }

  // ---- Waiting for page 0 -------------------------------------------------------------------

  /**
   * A search backwards from page 1, which turns out empty, waits for page 0 with one page left to count.
   * The next nextMatch does not return: it fills the counter up again.
   */
  lemma {:induction false} WaitingIsNotRespected() returns (s: FindState)
    ensures var doc := Doc(["", ""]);
            && Reachable(doc, s) && Inv(s, 2) && s.query == Some(Look("x", true)) && !s.dirtyMatch
            && s.resumePageIdx == Some(0) && s.offset.pagesToSearch == 1
            && NextMatch(s, 2) != s.(active := true)
  {
    var doc := Doc(["", ""]);
    InitialReachable(doc);
    var start := InitialState(2, 1);
    ReachableAfter(doc, start, Scrolled(2));
    var s0 := Scroll(start, 2);
    assert s0 == After(doc, start, Scrolled(2));
    var s1 := NewSearch(doc, s0, Look("x", true));
    LookOnPage(doc.pages, 1, 'x', true);
    s := EmptyPageArrives(doc, s1, 1);
    WaitingIsRespectedIff(s, 2);
  }

  // ---- Turning round while waiting ----------------------------------------------------------

  /** Nothing within reach has a match, so "not found" is reported. */
  lemma {:induction false} PageReadyMisses(s: FindState, n: nat, i: nat)
    requires Inv(s, n) && i in s.pending && s.resumePageIdx == Some(i) && s.selected == NOTHING_SELECTED
    requires Search(s.pageMatches[i := PageMatches([], None)], n, Previous(s), s.offset).Miss?
    ensures var t := PageReady(s, n, i, Some(PageMatches([], None)));
            && t.selected == NOTHING_SELECTED && t.resumePageIdx.None? && t.pending == s.pending - {i}
            && t.pageMatches == s.pageMatches[i := PageMatches([], None)] && t.query == s.query
            && t.reports == s.reports + [Report(NotFound, s.matchCount)]
  {
  }

  /** The query turns round while the search waits for a page other than page 0. */
  lemma {:induction false} TurnRound(doc: Document, s: FindState, q: FindQuery) returns (t: FindState)
    requires doc.pages != [] && Reachable(doc, s) && q.query != ""
    requires Inv(s, |doc.pages|) && s.query.Some? && !s.dirtyMatch && Waiting(s)
    ensures Reachable(doc, t) && Inv(t, |doc.pages|) && t.query == Some(q)
    ensures t.offset == s.offset && t.resumePageIdx == s.resumePageIdx && t.pending == s.pending
    ensures t.pageMatches == s.pageMatches && t.selected == s.selected
  {
    ReachableAfter(doc, s, Command(FindAgain, q));
    var asked := ExecuteCommand(s, FindAgain, q);
    assert asked == After(doc, s, Command(FindAgain, q));
    ReachableAfter(doc, asked, NextMatchFires);
    t := NextMatch(asked, |doc.pages|);
    assert t == After(doc, asked, NextMatchFires);
  }

  /** The search of the example after pages 0 and 1: it waits for page 2. */
  lemma {:induction false} WaitForThirdPage() returns (s: FindState)
    ensures var doc := Doc(["", "", "", "x"]);
            && Reachable(doc, s) && Inv(s, 4) && s.query == Some(Look("x", false)) && !s.dirtyMatch
            && s.offset == Cursor(2, None, false, 2) && s.resumePageIdx == Some(2) && s.pending == {2, 3}
            && s.pageMatches == map[0 := PageMatches([], None), 1 := PageMatches([], None)]
            && s.selected == NOTHING_SELECTED
  {
    var doc := Doc(["", "", "", "x"]);
    InitialReachable(doc);
    var s0 := NewSearch(doc, InitialState(4, 1), Look("x", false));
    LookOnPage(doc.pages, 0, 'x', false);
    var s1 := EmptyPageArrives(doc, s0, 0);
    LookOnPage(doc.pages, 1, 'x', false);
    s := EmptyPageArrives(doc, s1, 1);
  }

  /**
   * A search forwards waits for page 2 when the user asks for the previous match.  Page 2 turns out
   * empty; going back over pages 1 and 0 uses up the counter, and "not found" is reported although
   * page 3 has a match.  (CompleteIffInReach in FindSearch states the exact condition.)
   */
  lemma {:induction false} TurningRoundMissesAMatch() returns (s: FindState, t: FindState)
    ensures var doc := Doc(["", "", "", "x"]);
            && Reachable(doc, s) && Inv(s, 4) && 2 in s.pending && s.query == Some(Look("x", true))
            && Reach(s.offset, 4, true) < 4
            && t == After(doc, s, PageTextReady(2)) && Reachable(doc, t)
            && t.reports == s.reports + [Report(NotFound, s.matchCount)]
            && FindOnPage(doc, 3, Look("x", true)) == Some(PageMatches([0], None))
  {
    var doc := Doc(["", "", "", "x"]);
    var s2 := WaitForThirdPage();
    s := TurnRound(doc, s2, Look("x", true));
    LookOnPage(doc.pages, 2, 'x', true);
    LookOnPage(doc.pages, 3, 'x', true);
    var pm := s.pageMatches[2 := PageMatches([], None)];
    assert Reach(s.offset, 4, true) == 3;
    SearchGivesUp(pm, 4, true, s.offset);
    PageReadyMisses(s, 4, 2);
    ReachableAfter(doc, s, PageTextReady(2));
    t := PageReady(s, 4, 2, Some(PageMatches([], None)));
    assert t == After(doc, s, PageTextReady(2));
  }
}
