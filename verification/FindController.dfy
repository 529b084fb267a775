/**
 * PDFFindController as an object: every method is proved against the transition function of the same
 * name in FindEngine.  The fields pdfViewer.currentPageNumber and the text layers of the pages belong
 * to the viewer; the controller reads and writes them through it.
 */
module FindController {
  import opened Options
  import opened FindEngine
  import opened FindRuns
  import opened PageSearch
  import opened PhraseMatch
  import opened WordMatch
  import opened Normalization

  /** matchesReady on the page under the cursor: the new state, and whether the page search is over. */
  ghost function Ready(s: FindState, n: nat): (r: (FindState, bool))
    requires 0 <= s.offset.pageIdx < n == |s.layers| && -1 <= s.selected.pageIdx < n
    requires s.offset.pageIdx in s.pageMatches
  {
    var matches := s.pageMatches[s.offset.pageIdx];
    var next := AdvanceOffsetPage(s.offset, n, Previous(s));
    if matches.starts != [] then
      (UpdateMatch(s.(offset := s.offset.(matchIdx := Some(FirstMatch(matches, Previous(s))))), true), true)
    else if next.wrapped && next.pagesToSearch < 0 then (UpdateMatch(s.(offset := next), false), true)
    else (s.(offset := next), false)
  }

  /** The measure of the page loop. */
  ghost function TurnsLeft(c: Cursor, n: nat, previous: bool): int {
    if c.wrapped then c.pagesToSearch + 1 else PagesAhead(c, n, previous)
  }

  /** One turn of the page loop, when the page under the cursor has been computed. */
  lemma {:induction false} SearchTurn(s: FindState, n: nat)
    requires 0 <= s.offset.pageIdx < n == |s.layers| && -1 <= s.selected.pageIdx < n
    requires s.offset.pageIdx in s.pageMatches
    ensures var (t, done) := Ready(s, n);
            if done then NextPageMatch(s, n) == t
            else
              && 0 <= t.offset.pageIdx < n && t == s.(offset := t.offset)
              && NextPageMatch(s, n) == NextPageMatch(t, n)
              && (s.offset.wrapped ==> t.offset.wrapped && 0 <= TurnsLeft(t.offset, n, Previous(s)))
              && (s.offset.wrapped == t.offset.wrapped ==>
                    0 <= TurnsLeft(t.offset, n, Previous(s)) < TurnsLeft(s.offset, n, Previous(s)))
  {
  }

  class PDFFindController {
    const document: Document
    var state: Option<FindQuery>
    var dirtyMatch: bool
    var active: bool
    var pageMatches: map<nat, PageMatches>
    var matchCount: int
    var pendingFindMatches: set<nat>
    var selected: Selection
    var offset: Cursor  // together with the field pagesToSearch
    var resumePageIdx: Option<int>
    var currentPageNumber: int
    var layers: seq<LayerView>
    var reports: seq<Report>  // the calls of onUpdateState so far

    ghost function Abs(): FindState
      reads this
    {
      FindState(state, dirtyMatch, active, pageMatches, matchCount, pendingFindMatches, selected, offset,
                resumePageIdx, currentPageNumber, layers, reports)
    }

    function PagesCount(): nat { |document.pages| }

    ghost predicate Valid()
      reads this
    {
      Inv(Abs(), PagesCount())
    }

    constructor (doc: Document)
      requires doc.pages != []
      ensures document == doc && Abs() == InitialState(|doc.pages|, 1)
      ensures Valid()
    {
      document := doc;
      state, dirtyMatch, active := None, false, false;
      pageMatches, matchCount, pendingFindMatches := map[], 0, {};
      selected, offset, resumePageIdx := NOTHING_SELECTED, Cursor(-1, None, false, 0), None;
      currentPageNumber, reports := 1, [];
      layers := seq(|doc.pages|, _ => LayerView(None, -1));
      new;
      InitialInv(|doc.pages|);
    }

    method UpdateUIState(status: Status)
      modifies this
      ensures Abs() == FindEngine.UpdateUIState(old(Abs()), status)
    {
      reports := reports + [Report(status, matchCount)];
    }

    method UpdatePage(index: nat)
      requires index < |layers|
      modifies this
      ensures Abs() == FindEngine.UpdatePage(old(Abs()), index)
    {
      if selected.pageIdx == index {
        currentPageNumber := index + 1;
      }
      layers := layers[index := LayerView(if index in pageMatches then Some(pageMatches[index]) else None,
                                          if selected.pageIdx == index then selected.matchIdx else -1)];
    }

    method AdvanceOffsetPage(previous: bool)
      modifies this
      ensures Abs() == old(Abs()).(offset := FindEngine.AdvanceOffsetPage(old(offset), PagesCount(), previous))
    {
      var numPages: int := PagesCount();
      offset := offset.(pageIdx := if previous then offset.pageIdx - 1 else offset.pageIdx + 1, matchIdx := None);
      offset := offset.(pagesToSearch := offset.pagesToSearch - 1);
      if offset.pageIdx >= numPages || offset.pageIdx < 0 {
        offset := offset.(pageIdx := if previous then numPages - 1 else 0, wrapped := true);
      }
    }

    method UpdateMatch(found: bool)
      requires -1 <= selected.pageIdx < |layers|
      requires found ==> 0 <= offset.pageIdx < |layers| && offset.matchIdx.Some?
      modifies this
      ensures Abs() == FindEngine.UpdateMatch(old(Abs()), found)
    {
      var status := NotFound;
      var wrapped := offset.wrapped;
      offset := offset.(wrapped := false);
      if found {
        var previousPage := selected.pageIdx;
        selected := Selection(offset.pageIdx, offset.matchIdx.value);
        status := if wrapped then Wrapped else Found;
        if previousPage != -1 && previousPage != selected.pageIdx {
          UpdatePage(previousPage);
        }
      }
      UpdateUIState(status);
      if selected.pageIdx != -1 {
        UpdatePage(selected.pageIdx);
      }
    }

    /** matchesReady: takes a match on the page if it has one, else moves on to the next page. */
    method MatchesReady(matches: PageMatches) returns (done: bool)
      requires state.Some? && |layers| == PagesCount() && -1 <= selected.pageIdx < PagesCount()
      requires 0 <= offset.pageIdx < PagesCount()
      requires offset.pageIdx in pageMatches && matches == pageMatches[offset.pageIdx]
      modifies this
      ensures (Abs(), done) == Ready(old(Abs()), PagesCount())
    {
      var numMatches := |matches.starts|;
      var previous := state.value.findPrevious;
      if numMatches != 0 {
        offset := offset.(matchIdx := Some(if previous then numMatches - 1 else 0));
        UpdateMatch(true);
        return true;
      }
      AdvanceOffsetPage(previous);
      if offset.wrapped {
        offset := offset.(matchIdx := None);
        if offset.pagesToSearch < 0 {
          UpdateMatch(false);
          return true;
        }
      }
      return false;
    }

    /** nextPageMatch: the loop over the pages, which parks at a page that has not been computed. */
    method NextPageMatch()
      requires state.Some? && |layers| == PagesCount() && -1 <= selected.pageIdx < PagesCount()
      requires 0 <= offset.pageIdx < PagesCount()
      modifies this
      ensures Abs() == FindEngine.NextPageMatch(old(Abs()), PagesCount())
    {
      var done := false;
      ghost var start, n, previous := Abs(), PagesCount(), Previous(Abs());
      while !done
        invariant !done ==> Abs() == start.(offset := offset) && 0 <= offset.pageIdx < n
        invariant FindEngine.NextPageMatch(start, n) == if done then Abs() else FindEngine.NextPageMatch(Abs(), n)
        decreases !done, !offset.wrapped, TurnsLeft(offset, n, previous)
      {
        var pageIdx := offset.pageIdx;
        if pageIdx !in pageMatches {
          resumePageIdx := Some(pageIdx);
          break;
        }
        SearchTurn(Abs(), n);
        done := MatchesReady(pageMatches[pageIdx]);
      }
    }

    /** The loop of nextMatch over the pages: refresh each one and register its callback once. */
    method RegisterPages()
      requires |layers| == PagesCount() && selected == NOTHING_SELECTED
      requires forall i :: i in pendingFindMatches ==> i < PagesCount()
      modifies this
      ensures Abs() == old(Abs()).(
        pending := AllPages(PagesCount()),
        layers := seq(PagesCount(), i requires 0 <= i => ViewOf(old(Abs()), i)))
    {
      ghost var start := Abs();
      for i := 0 to PagesCount()
        invariant |layers| == PagesCount()
        invariant Abs() == start.(pending := pendingFindMatches, layers := layers)
        invariant forall j :: j in pendingFindMatches ==> j < PagesCount()
        invariant forall j: nat :: j < i ==> j in pendingFindMatches && layers[j] == ViewOf(start, j)
      {
        UpdatePage(i);
        if i !in pendingFindMatches {
          pendingFindMatches := pendingFindMatches + {i};
        }
      }
      assert pendingFindMatches == AllPages(PagesCount());
    }

    /** The dirty branch of nextMatch. */
    method StartOver()
      requires Valid() && state.Some?
      modifies this
      ensures Abs() == FindEngine.StartOver(old(Abs()), PagesCount())
      ensures Valid()
    {
      StartOverKeepsInv(Abs(), PagesCount());
      dirtyMatch := false;
      selected := NOTHING_SELECTED;
      offset := offset.(pageIdx := currentPageNumber - 1, matchIdx := None);
      resumePageIdx := None;
      pageMatches := map[];
      matchCount := 0;
      RegisterPages();
    }

    /** nextMatch steps within the page's matches if it can, and otherwise leaves for the next page. */
    method MoveCursor() returns (onPage: bool)
      requires Valid() && state.Some?
      modifies this
      ensures Abs() == old(Abs()).(offset := Moved(old(Abs()), PagesCount()))
      ensures onPage == offset.matchIdx.Some?
    {
      var previous := state.value.findPrevious;
      offset := offset.(pagesToSearch := PagesCount());
      if offset.matchIdx.None? {
        return false;
      }
      var matchIdx := offset.matchIdx.value;
      var numPageMatches := |pageMatches[offset.pageIdx].starts|;
      if (!previous && matchIdx + 1 < numPageMatches) || (previous && matchIdx > 0) {
        offset := offset.(matchIdx := Some(if previous then matchIdx - 1 else matchIdx + 1));
        return true;
      }
      AdvanceOffsetPage(previous);
      return false;
    }

    /** The rest of nextMatch. */
    method Advance()
      requires Valid() && state.Some? && 0 <= offset.pageIdx
      modifies this
      ensures Abs() == FindEngine.Advance(old(Abs()), PagesCount())
    {
      if state.value.query == "" {
        UpdateUIState(Found);
        return;
      }
      // The truthiness test: waiting for page 0 does not stop the search.
      if resumePageIdx.Some? && resumePageIdx.value != 0 {
        return;
      }
      var onPage := MoveCursor();
      if onPage {
        UpdateMatch(true);
      } else {
        NextPageMatch();
      }
    }

    method NextMatch()
      requires Valid() && state.Some?
      modifies this
      ensures Abs() == FindEngine.NextMatch(old(Abs()), PagesCount())
      ensures Valid()
    {
      NextMatchKeeps(Abs(), PagesCount());
      active := true;
      if dirtyMatch {
        StartOver();
      }
      Advance();
    }

    method ExecuteCommand(cmd: Command, newState: FindQuery)
      requires Valid()
      modifies this
      ensures Abs() == FindEngine.ExecuteCommand(old(Abs()), cmd, newState)
      ensures Valid()
    {
      if state.None? || cmd != FindAgain {
        dirtyMatch := true;
      }
      state := Some(newState);
      UpdateUIState(Pending);
    }

    /** calcFindMatch up to the point where the page's matches are known. */
    method ComputeMatches(pageIndex: nat) returns (r: Option<PageMatches>)
      requires state.Some? && pageIndex < PagesCount()
      ensures r == FindOnPage(document, pageIndex, state.value)
      ensures r.Some? <==> Asks(document.lower, state.value)
      ensures r.Some? ==> IsPageSearch(document.pages[pageIndex], document.lower, state.value, r.value)
    {
      StoredIsPageSearch(document, pageIndex, state.value);
      var pageContent := Normalize(document.pages[pageIndex]);
      var query := Normalize(state.value.query);
      if |query| == 0 {
        return None;
      }
      if !state.value.caseSensitive {
        pageContent := document.lower(pageContent);
        query := document.lower(query);
      }
      if state.value.phraseSearch {
        var matches := CalcFindPhraseMatch(query, pageContent);
        return Some(PageMatches(matches, None));
      }
      if Words(query) == [] {
        return None;
      }
      var matches, matchesLength := CalcFindWordMatch(query, pageContent);
      assert matches == Starts(Zip(matches, matchesLength)) && matchesLength == Lengths(Zip(matches, matchesLength));
      return Some(PageMatches(matches, Some(matchesLength)));
    }

    method StorePage(pageIndex: nat, matches: PageMatches)
      requires pageIndex < |layers|
      modifies this
      ensures Abs() == FindEngine.StorePage(old(Abs()), pageIndex, matches)
    {
      pendingFindMatches := pendingFindMatches - {pageIndex};
      pageMatches := pageMatches[pageIndex := matches];
      UpdatePage(pageIndex);
    }

    /** Resumes the page search if it was parked at this page. */
    method ResumeSearch(pageIndex: nat)
      requires state.Some? && |layers| == PagesCount() && -1 <= selected.pageIdx < PagesCount()
      requires 0 <= offset.pageIdx < PagesCount()
      modifies this
      ensures Abs() == Resume(old(Abs()), PagesCount(), pageIndex)
    {
      if resumePageIdx == Some(pageIndex) {
        resumePageIdx := None;
        NextPageMatch();
      }
    }

    /** calcFindMatch from there on. */
    method PageComputed(pageIndex: nat, matches: PageMatches)
      requires Valid() && state.Some? && pageIndex in pendingFindMatches
      modifies this
      ensures Abs() == PageReady(old(Abs()), PagesCount(), pageIndex, Some(matches))
    {
      StorePageKeeps(Abs(), PagesCount(), pageIndex, matches);
      StorePage(pageIndex, matches);
      ResumeSearch(pageIndex);
      CountMatches(matches);
    }

    method CountMatches(matches: PageMatches)
      modifies this`matchCount
      ensures Abs() == old(Abs()).(matchCount := old(matchCount) + |matches.starts|)
    {
      if |matches.starts| > 0 {
        matchCount := matchCount + |matches.starts|;
      }
    }

    /** The callback registered on the text promise of a page. */
    method PageTextReady(pageIndex: nat)
      requires Valid() && pageIndex in pendingFindMatches
      modifies this
      ensures old(state).Some?
      ensures Abs() == PageReady(old(Abs()), PagesCount(), pageIndex,
                                 FindOnPage(document, pageIndex, old(state.value)))
      ensures Valid()
    {
      var r := ComputeMatches(pageIndex);
      PageReadyKeeps(Abs(), PagesCount(), pageIndex, r);
      if r.Some? {
        PageComputed(pageIndex, r.value);
      } else {
        pendingFindMatches := pendingFindMatches - {pageIndex};
      }
    }
  }
}
