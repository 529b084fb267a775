/**
 * The state of PDFFindController and its transitions as functions.  Page indices count from 0; a
 * page index of -1 stands for null in `offset` and for "nothing selected" in `selected`.
 */
module FindEngine {
  import opened Options
  import opened PhraseMatch
  import opened WordMatch
  import opened Normalization

  datatype FindQuery = FindQuery(
    query: string, phraseSearch: bool, caseSensitive: bool, highlightAll: bool, findPrevious: bool)

  /** 'find', 'findagain', and the commands sent when a search option is toggled. */
  datatype Command = Find | FindAgain | FindOptionChange

  datatype Status = Found | NotFound | Wrapped | Pending

  /** One call of onUpdateState. */
  datatype Report = Report(status: Status, matchCount: int)

  /** pageMatches[i] together with pageMatchesLength[i], which only a word search fills in. */
  datatype PageMatches = PageMatches(starts: seq<nat>, lengths: Option<seq<nat>>)

  datatype Selection = Selection(pageIdx: int, matchIdx: int)

  /** `offset` and the `pagesToSearch` counter: where the search stands. */
  datatype Cursor = Cursor(pageIdx: int, matchIdx: Option<nat>, wrapped: bool, pagesToSearch: int)

  /** What a page's text layer was last told to show: its matches and its selected match, or -1. */
  datatype LayerView = LayerView(matches: Option<PageMatches>, selectedMatch: int)

  datatype FindState = FindState(
    query: Option<FindQuery>,
    dirtyMatch: bool,
    active: bool,
    pageMatches: map<nat, PageMatches>,
    matchCount: int,
    pending: set<nat>,
    selected: Selection,
    offset: Cursor,
    resumePageIdx: Option<int>,
    currentPage: int,
    layers: seq<LayerView>,
    reports: seq<Report>)

  const NOTHING_SELECTED := Selection(-1, -1)

  function InitialState(n: nat, currentPage: int): FindState {
    FindState(None, false, false, map[], 0, {}, NOTHING_SELECTED, Cursor(-1, None, false, 0), None, currentPage,
              seq(n, _ => LayerView(None, -1)), [])
  }

  // ---- Computing the matches of one page ------------------------------------------

  /** The case folding of the platform; it never empties a non-empty string. */
  type CaseFold = f: string -> string | forall s :: s != "" ==> f(s) != "" witness (s: string) => s

  datatype Document = Document(pages: seq<string>, lower: CaseFold)

  function Starts(kept: seq<Interval>): (r: seq<nat>)
    ensures |r| == |kept| && forall i :: 0 <= i < |r| ==> r[i] == kept[i].start
  {
    if kept == [] then [] else [kept[0].start] + Starts(kept[1..])
  }

  function Lengths(kept: seq<Interval>): (r: seq<nat>)
    ensures |r| == |kept| && forall i :: 0 <= i < |r| ==> r[i] == kept[i].length
  {
    if kept == [] then [] else [kept[0].length] + Lengths(kept[1..])
  }

  function Fold(doc: Document, q: FindQuery, text: string): string {
    if q.caseSensitive then text else doc.lower(text)
  }

  /**
   * What calcFindMatch stores for page `i`.  None where it stores nothing: an empty query, and a word
   * search for a query without words, whose null word list makes the callback throw at that point.
   */
  function FindOnPage(doc: Document, i: nat, q: FindQuery): Option<PageMatches>
    requires i < |doc.pages|
  {
    var pageContent := Normalize(doc.pages[i]);
    var query := Normalize(q.query);
    if |query| == 0 then None
    else
      var folded := Fold(doc, q, query);
      assert folded != "";
      if q.phraseSearch then Some(PageMatches(PhraseMatches(Fold(doc, q, pageContent), folded), None))
      else if Words(folded) == [] then None
      else
        var kept := WordMatches(folded, Fold(doc, q, pageContent));
        Some(PageMatches(Starts(kept), Some(Lengths(kept))))
  }

  // ---- The page search --------------------------------------------------------------

  function AdvanceOffsetPage(c: Cursor, n: nat, previous: bool): Cursor {
    var p := if previous then c.pageIdx - 1 else c.pageIdx + 1;
    if p >= n || p < 0 then Cursor(if previous then n - 1 else 0, None, true, c.pagesToSearch - 1)
    else Cursor(p, None, c.wrapped, c.pagesToSearch - 1)
  }

  /** How a page search ends: at a page whose matches are missing, at a match, or with nothing. */
  datatype Outcome = Parked(at: Cursor) | Hit(at: Cursor) | Miss(at: Cursor)

  /** Pages left before the search runs off the document in its direction. */
  function PagesAhead(c: Cursor, n: nat, previous: bool): int {
    if previous then c.pageIdx + 1 else n - c.pageIdx
  }

  function FirstMatch(matches: PageMatches, previous: bool): nat
    requires matches.starts != []
  {
    if previous then |matches.starts| - 1 else 0
  }

  /** The loop of nextPageMatch with matchesReady inlined, up to the final updateMatch. */
  function Search(pm: map<nat, PageMatches>, n: nat, previous: bool, c: Cursor): (r: Outcome)
    requires 0 <= c.pageIdx < n
    ensures 0 <= r.at.pageIdx < n
    decreases !c.wrapped, if c.wrapped then c.pagesToSearch + 1 else PagesAhead(c, n, previous)
  {
    if c.pageIdx !in pm then Parked(c)
    else
      var matches := pm[c.pageIdx];
      if matches.starts != [] then Hit(c.(matchIdx := Some(FirstMatch(matches, previous))))
      else
        var next := AdvanceOffsetPage(c, n, previous);
        if next.wrapped && next.pagesToSearch < 0 then Miss(next)
        else Search(pm, n, previous, next)
  }

  // ---- Transitions ------------------------------------------------------------------

  function ViewOf(s: FindState, i: nat): LayerView {
    LayerView(if i in s.pageMatches then Some(s.pageMatches[i]) else None,
              if s.selected.pageIdx == i then s.selected.matchIdx else -1)
  }

  function UpdateUIState(s: FindState, status: Status): FindState {
    s.(reports := s.reports + [Report(status, s.matchCount)])
  }

  /** updatePage: scrolls to the page if it holds the selection, and refreshes its text layer. */
  function UpdatePage(s: FindState, index: nat): FindState
    requires index < |s.layers|
  {
    s.(currentPage := if s.selected.pageIdx == index then index + 1 else s.currentPage,
       layers := s.layers[index := ViewOf(s, index)])
  }

  function UpdatePageIfAny(s: FindState, index: int): FindState
    requires -1 <= index < |s.layers|
  {
    if index == -1 then s else UpdatePage(s, index)
  }

  function UpdateMatch(s: FindState, found: bool): FindState
    requires -1 <= s.selected.pageIdx < |s.layers|
    requires found ==> 0 <= s.offset.pageIdx < |s.layers| && s.offset.matchIdx.Some?
  {
    var unwrapped := s.(offset := s.offset.(wrapped := false));
    if found then
      var moved := unwrapped.(selected := Selection(s.offset.pageIdx, s.offset.matchIdx.value));
      var cleared := if s.selected.pageIdx == moved.selected.pageIdx then moved
                     else UpdatePageIfAny(moved, s.selected.pageIdx);
      UpdatePageIfAny(UpdateUIState(cleared, if s.offset.wrapped then Wrapped else Found), moved.selected.pageIdx)
    else
      UpdatePageIfAny(UpdateUIState(unwrapped, NotFound), s.selected.pageIdx)
  }

  function Previous(s: FindState): bool {
    s.query.Some? && s.query.value.findPrevious
  }

  function FinishSearch(s: FindState, r: Outcome): FindState
    requires -1 <= s.selected.pageIdx < |s.layers|
    requires r.Hit? ==> 0 <= r.at.pageIdx < |s.layers| && r.at.matchIdx.Some?
  {
    match r
    case Parked(c) => s.(offset := c, resumePageIdx := Some(c.pageIdx))
    case Hit(c) => UpdateMatch(s.(offset := c), true)
    case Miss(c) => UpdateMatch(s.(offset := c), false)
  }

  function NextPageMatch(s: FindState, n: nat): FindState
    requires 0 <= s.offset.pageIdx < n == |s.layers| && -1 <= s.selected.pageIdx < n
  {
    var r := Search(s.pageMatches, n, Previous(s), s.offset);
    SearchHits(s.pageMatches, n, Previous(s), s.offset);
    FinishSearch(s, r)
  }

  /** A hit is the first match, in the search direction, of a page that has one. */
  lemma {:induction false} SearchHits(pm: map<nat, PageMatches>, n: nat, previous: bool, c: Cursor)
    requires 0 <= c.pageIdx < n
    ensures var r := Search(pm, n, previous, c);
            && (r.Parked? ==> r.at.pageIdx !in pm && (r.at == c || r.at.matchIdx == None))
            && (r.Hit? ==> r.at.pageIdx in pm && pm[r.at.pageIdx].starts != []
                           && r.at.matchIdx == Some(FirstMatch(pm[r.at.pageIdx], previous)))
            && (r.Miss? ==> r.at.matchIdx == None && r.at.wrapped && r.at.pagesToSearch < 0)
    decreases !c.wrapped, if c.wrapped then c.pagesToSearch + 1 else PagesAhead(c, n, previous)
  {
    if c.pageIdx in pm && pm[c.pageIdx].starts == [] {
      var next := AdvanceOffsetPage(c, n, previous);
      if !(next.wrapped && next.pagesToSearch < 0) {
        SearchHits(pm, n, previous, next);
      }
    }
  }

  function AllPages(n: nat): (r: set<nat>)
    ensures forall i: nat :: i in r <==> i < n
  {
    if n == 0 then {} else AllPages(n - 1) + {n - 1}
  }

  /** The part of nextMatch that runs when the query or an option has changed. */
  function StartOver(s: FindState, n: nat): FindState {
    var reset := s.(
      dirtyMatch := false,
      selected := NOTHING_SELECTED,
      offset := Cursor(s.currentPage - 1, None, s.offset.wrapped, s.offset.pagesToSearch),
      resumePageIdx := None,
      pageMatches := map[],
      matchCount := 0);
    reset.(pending := AllPages(n), layers := seq(n, i requires 0 <= i => ViewOf(reset, i)))
  }

  /** Is nextMatch held back because a page is being waited for?  Page 0 does not count (truthiness). */
  predicate Waiting(s: FindState) {
    s.resumePageIdx.Some? && s.resumePageIdx.value != 0
  }

  /** Where nextMatch puts the cursor before it selects a match or searches the pages. */
  function Moved(s: FindState, n: nat): Cursor
    requires Inv(s, n)
  {
    var c := s.offset.(pagesToSearch := n);
    match c.matchIdx
    case None => c
    case Some(m) =>
      if !Previous(s) && m + 1 < |s.pageMatches[c.pageIdx].starts| then c.(matchIdx := Some(m + 1))
      else if Previous(s) && m > 0 then c.(matchIdx := Some(m - 1))
      else AdvanceOffsetPage(c, n, Previous(s))
  }

  /** The part of nextMatch after the reset. */
  function Advance(s: FindState, n: nat): FindState
    requires s.query.Some? && Inv(s, n) && 0 <= s.offset.pageIdx
  {
    if s.query.value.query == "" then UpdateUIState(s, Found)
    else if Waiting(s) then s
    else
      var t := s.(offset := Moved(s, n));
      if t.offset.matchIdx.Some? then UpdateMatch(t, true) else NextPageMatch(t, n)
  }

  function NextMatch(s: FindState, n: nat): FindState
    requires s.query.Some? && Inv(s, n)
  {
    var s1 := s.(active := true);
    if s.dirtyMatch then
      StartOverKeepsInv(s1, n);
      Advance(StartOver(s1, n), n)
    else Advance(s1, n)
  }

  /** executeCommand up to the (possibly delayed) call of nextMatch. */
  function ExecuteCommand(s: FindState, cmd: Command, q: FindQuery): FindState {
    UpdateUIState(s.(dirtyMatch := s.dirtyMatch || s.query.None? || cmd != FindAgain, query := Some(q)), Pending)
  }

  /** calcFindMatch resumes the page search if it was parked at this page. */
  function Resume(s: FindState, n: nat, i: nat): FindState
    requires 0 <= s.offset.pageIdx < n == |s.layers| && -1 <= s.selected.pageIdx < n
  {
    if s.resumePageIdx == Some(i) then NextPageMatch(s.(resumePageIdx := None), n) else s
  }

  /** The matches of page `i` have arrived: store them and refresh the page's text layer. */
  function StorePage(s: FindState, i: nat, matches: PageMatches): FindState
    requires i < |s.layers|
  {
    UpdatePage(s.(pending := s.pending - {i}, pageMatches := s.pageMatches[i := matches]), i)
  }

  /** The callback of page `i`'s text promise; `r` is what calcFindMatch computes for the page. */
  function PageReady(s: FindState, n: nat, i: nat, r: Option<PageMatches>): FindState
    requires Inv(s, n) && i in s.pending
  {
    match r
    case None => s.(pending := s.pending - {i})
    case Some(matches) =>
      var t := Resume(StorePage(s, i, matches), n, i);
      t.(matchCount := t.matchCount + |matches.starts|)
  }

  /** The viewer reports another current page, as it does after scrolling. */
  function Scroll(s: FindState, page: int): FindState {
    s.(currentPage := page)
  }

  // ---- The bookkeeping invariant ----------------------------------------------------

  /** Total number of matches on the computed pages below `n`. */
  function MatchTotal(pm: map<nat, PageMatches>, n: nat): nat {
    if n == 0 then 0
    else MatchTotal(pm, n - 1) + (if n - 1 in pm then |pm[n - 1].starts| else 0)
  }

  predicate HasMatch(pm: map<nat, PageMatches>, pageIdx: int, matchIdx: int) {
    pageIdx in pm && 0 <= matchIdx < |pm[pageIdx].starts|
  }

  ghost predicate InSync(s: FindState, n: nat) {
    |s.layers| == n && forall i: nat :: i < n ==> s.layers[i] == ViewOf(s, i)
  }

  /** Everything that holds whenever the controller runs, also while a page is being processed. */
  ghost predicate Consistent(s: FindState, n: nat) {
    && 1 <= s.currentPage <= n
    // Every page is waiting for its callback or has been counted, never both.
    && (forall i :: i in s.pageMatches ==> i < n)
    && (forall i :: i in s.pending ==> i < n && i !in s.pageMatches)
    // The cursor and the selection point at existing matches.
    && -1 <= s.offset.pageIdx < n
    && (s.offset.matchIdx.Some? ==> HasMatch(s.pageMatches, s.offset.pageIdx, s.offset.matchIdx.value))
    && (s.selected == NOTHING_SELECTED || HasMatch(s.pageMatches, s.selected.pageIdx, s.selected.matchIdx))
    // A parked search stands at the page it waits for.
    && (s.resumePageIdx.Some? ==>
          && s.resumePageIdx.value == s.offset.pageIdx
          && 0 <= s.offset.pageIdx && s.offset.pageIdx !in s.pageMatches && s.offset.matchIdx == None)
    // Before the first search there is nothing to resume, and the next nextMatch starts over.
    && (s.offset.pageIdx == -1 ==>
          s.pending == {} && s.pageMatches == map[] && (s.query.Some? ==> s.dirtyMatch))
    && (s.query.None? ==> s.offset.pageIdx == -1)
    // No text layer shows stale matches or a stale selection.
    && InSync(s, n)
  }

  /** The bookkeeping invariant between any two events. */
  ghost predicate Inv(s: FindState, n: nat) {
    Consistent(s, n) && s.matchCount == MatchTotal(s.pageMatches, n)
  }

  lemma {:induction false} StartOverKeepsInv(s: FindState, n: nat)
    requires Inv(s, n) && s.query.Some?
    ensures Inv(StartOver(s, n), n)
  {
    EmptyTotal(n);
  }

  lemma {:induction false} EmptyTotal(n: nat)
    ensures MatchTotal(map[], n) == 0
  {
    if n != 0 {
      EmptyTotal(n - 1);
    }
  }
}
