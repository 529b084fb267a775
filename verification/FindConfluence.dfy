/**
 * A new search and its page callbacks: whatever the order in which the pages become ready, the search
 * ends in the same state, which is the one it would reach at once if all pages were ready beforehand.
 */
module FindConfluence {
  import opened Options
  import opened FindEngine
  import opened FindRuns
  import opened FindSearch
  import opened Normalization
  import opened WordMatch

  /** All match lists of the document, page by page. */
  function AllMatches(table: seq<PageMatches>): (pm: map<nat, PageMatches>)
    ensures forall i: nat :: i in pm <==> i < |table|
    ensures forall i: nat :: i < |table| ==> pm[i] == table[i]
  {
    if table == [] then map[]
    else AllMatches(table[..|table| - 1])[|table| - 1 := table[|table| - 1]]
  }

  /** A search that parks and resumes later ends as one that never had to wait. */
  lemma {:induction false} SearchResumes(
    pm: map<nat, PageMatches>, all: map<nat, PageMatches>, n: nat, previous: bool, c: Cursor)
    requires 0 <= c.pageIdx < n && PartOf(pm, all)
    ensures var r := Search(pm, n, previous, c);
            Search(all, n, previous, c) == if r.Parked? then Search(all, n, previous, r.at) else r
    decreases !c.wrapped, if c.wrapped then c.pagesToSearch + 1 else PagesAhead(c, n, previous)
  {
    if EmptyPage(pm, c.pageIdx) {
      var next := AdvanceOffsetPage(c, n, previous);
      if !(next.wrapped && next.pagesToSearch < 0) {
        SearchResumes(pm, all, n, previous, next);
      }
    }
  }

  /** Every page is computed with its entry of the table, or still pending. */
  ghost predicate Computing(s: FindState, n: nat, table: seq<PageMatches>) {
    && |table| == n
    && PartOf(s.pageMatches, AllMatches(table))
    && forall i: nat :: i < n ==> i in s.pending || i in s.pageMatches
  }

  function StatusOf(goal: Outcome): Status {
    if goal.Miss? then NotFound else if goal.at.wrapped then Wrapped else Found
  }

  /** The page search that began in `base` is over, with outcome `goal`. */
  ghost predicate Settled(s: FindState, base: FindState, goal: Outcome) {
    && !goal.Parked? && s.resumePageIdx.None?
    && s.offset == goal.at.(wrapped := false)
    && s.selected == (if goal.Hit? && goal.at.matchIdx.Some? then Selection(goal.at.pageIdx, goal.at.matchIdx.value)
                      else NOTHING_SELECTED)
    && s.currentPage == (if goal.Hit? then goal.at.pageIdx + 1 else base.currentPage)
    && |s.reports| == |base.reports| + 1 && s.reports[..|base.reports|] == base.reports
    && s.reports[|base.reports|].status == StatusOf(goal)
  }

  /** The page search that began in `base` waits for a page, and is bound for outcome `goal`. */
  ghost predicate Waits(s: FindState, n: nat, base: FindState, goal: Outcome, table: seq<PageMatches>) {
    && s.resumePageIdx.Some? && 0 <= s.offset.pageIdx < n
    && Search(AllMatches(table), n, Previous(s), s.offset) == goal
    && s.selected == NOTHING_SELECTED && s.currentPage == base.currentPage && s.reports == base.reports
  }

  ghost predicate Underway(s: FindState, n: nat, base: FindState, goal: Outcome, table: seq<PageMatches>) {
    && |s.layers| == n && Computing(s, n, table)
    && s.query == base.query && s.active == base.active && s.dirtyMatch == base.dirtyMatch
    && (Settled(s, base, goal) || Waits(s, n, base, goal, table))
  }

  lemma {:induction false} FinishSettles(s: FindState, n: nat, base: FindState, goal: Outcome)
    requires Consistent(s, n) && s.resumePageIdx.None? && s.selected == NOTHING_SELECTED
    requires s.currentPage == base.currentPage && s.reports == base.reports
    requires 0 <= s.offset.pageIdx && goal == Search(s.pageMatches, n, Previous(s), s.offset) && !goal.Parked?
    ensures Settled(NextPageMatch(s, n), base, goal)
  {
    SearchHits(s.pageMatches, n, Previous(s), s.offset);
  }

  lemma {:induction false} ResumeUnderway(s: FindState, n: nat, base: FindState, goal: Outcome, table: seq<PageMatches>)
    requires Consistent(s, n) && s.resumePageIdx.None? && PartOf(s.pageMatches, AllMatches(table))
    requires 0 <= s.offset.pageIdx && Search(AllMatches(table), n, Previous(s), s.offset) == goal
    requires s.selected == NOTHING_SELECTED && s.currentPage == base.currentPage && s.reports == base.reports
    ensures Settled(NextPageMatch(s, n), base, goal) || Waits(NextPageMatch(s, n), n, base, goal, table)
  {
    SearchResumes(s.pageMatches, AllMatches(table), n, Previous(s), s.offset);
    if !Search(s.pageMatches, n, Previous(s), s.offset).Parked? {
      FinishSettles(s, n, base, goal);
    }
  }

  /** Storing a page brings the computation one page further and leaves the search where it was. */
  lemma {:induction false} StoreUnderway(s: FindState, n: nat, base: FindState, goal: Outcome, table: seq<PageMatches>, i: nat)
    requires Inv(s, n) && Underway(s, n, base, goal, table) && i in s.pending
    ensures var t := StorePage(s, i, table[i]);
            && Computing(t, n, table) && (t.resumePageIdx == s.resumePageIdx)
            && (Settled(s, base, goal) ==> Settled(t, base, goal))
            && (Waits(s, n, base, goal, table) ==> Waits(t, n, base, goal, table))
            && Previous(t) == Previous(s)
  {
  }

  lemma {:induction false} UnparkedUnderway(u: FindState, n: nat, base: FindState, goal: Outcome, table: seq<PageMatches>)
    requires Consistent(u, n) && Computing(u, n, table) && u.resumePageIdx.None? && 0 <= u.offset.pageIdx
    requires u.query == base.query && u.active == base.active && u.dirtyMatch == base.dirtyMatch
    requires Waits(u.(resumePageIdx := Some(u.offset.pageIdx)), n, base, goal, table)
    ensures Underway(NextPageMatch(u, n), n, base, goal, table)
  {
    ResumeUnderway(u, n, base, goal, table);
    NextPageMatchFrame(u, n);
    StaysUnderway(u, NextPageMatch(u, n), n, base, goal, table);
  }

  lemma {:induction false} StaysUnderway(u: FindState, t: FindState, n: nat, base: FindState, goal: Outcome, table: seq<PageMatches>)
    requires Computing(u, n, table) && t.pageMatches == u.pageMatches && t.pending == u.pending && |t.layers| == n
    requires t.query == base.query && t.active == base.active && t.dirtyMatch == base.dirtyMatch
    requires Settled(t, base, goal) || Waits(t, n, base, goal, table)
    ensures Underway(t, n, base, goal, table)
  {
  }

  /** Resuming a parked search leaves it underway to the same outcome. */
  lemma {:induction false} ResumeLeavesUnderway(t: FindState, n: nat, base: FindState, goal: Outcome, table: seq<PageMatches>, i: nat)
    requires Underway(t, n, base, goal, table)
    requires Consistent(if t.resumePageIdx == Some(i) then t.(resumePageIdx := None) else t, n)
    requires 0 <= t.offset.pageIdx
    ensures Underway(Resume(t, n, i), n, base, goal, table)
  {
    if t.resumePageIdx == Some(i) {
      UnparkedUnderway(t.(resumePageIdx := None), n, base, goal, table);
    }
  }

  lemma {:induction false} StorePageResumed(s: FindState, n: nat, base: FindState, goal: Outcome, table: seq<PageMatches>, i: nat)
    requires Inv(s, n) && Underway(s, n, base, goal, table) && i in s.pending
    ensures Underway(Resume(StorePage(s, i, table[i]), n, i), n, base, goal, table)
  {
    StorePageKeeps(s, n, i, table[i]);
    StoreUnderway(s, n, base, goal, table, i);
    ResumeLeavesUnderway(StorePage(s, i, table[i]), n, base, goal, table, i);
  }

  lemma {:induction false} CountUnderway(
    t: FindState, n: nat, base: FindState, goal: Outcome, table: seq<PageMatches>, count: int)
    requires Underway(t, n, base, goal, table)
    ensures Underway(t.(matchCount := count), n, base, goal, table)
  {
  }

  /** Every page callback leaves the search underway to the same outcome. */
  lemma {:induction false} PageReadyUnderway(s: FindState, n: nat, base: FindState, goal: Outcome, table: seq<PageMatches>, i: nat)
    requires Inv(s, n) && Underway(s, n, base, goal, table) && i in s.pending
    ensures Underway(PageReady(s, n, i, Some(table[i])), n, base, goal, table)
  {
    StorePageResumed(s, n, base, goal, table, i);
    var u := Resume(StorePage(s, i, table[i]), n, i);
    CountUnderway(u, n, base, goal, table, u.matchCount + |table[i].starts|);
  }

  /** The callbacks of the listed pages fire in that order. */
  ghost function Deliver(s: FindState, n: nat, table: seq<PageMatches>, order: seq<nat>): (t: FindState)
    requires Inv(s, n) && |table| == n
    requires forall k :: 0 <= k < |order| ==> order[k] in s.pending
    requires forall j, k :: 0 <= j < k < |order| ==> order[j] != order[k]
    ensures Inv(t, n)
    decreases |order|
  {
    if order == [] then s
    else
      PageReadyKeeps(s, n, order[0], Some(table[order[0]]));
      PendingShrinks(s, n, order[0], Some(table[order[0]]));
      Deliver(PageReady(s, n, order[0], Some(table[order[0]])), n, table, order[1..])
  }

  lemma {:induction false} PendingShrinks(s: FindState, n: nat, i: nat, r: Option<PageMatches>)
    requires Inv(s, n) && i in s.pending
    ensures PageReady(s, n, i, r).pending == s.pending - {i}
  {
    if r.Some? && s.resumePageIdx == Some(i) {
      NextPageMatchFrame(StorePage(s, i, r.value).(resumePageIdx := None), n);
    }
  }

  lemma {:induction false} DeliverUnderway(
    s: FindState, n: nat, base: FindState, goal: Outcome, table: seq<PageMatches>, order: seq<nat>)
    requires Inv(s, n) && Underway(s, n, base, goal, table)
    requires forall k :: 0 <= k < |order| ==> order[k] in s.pending
    requires forall j, k :: 0 <= j < k < |order| ==> order[j] != order[k]
    ensures var t := Deliver(s, n, table, order);
            Underway(t, n, base, goal, table) && forall i :: i in t.pending ==> i in s.pending && i !in order
    decreases |order|
  {
    if order != [] {
      var next := PageReady(s, n, order[0], Some(table[order[0]]));
      PageReadyKeeps(s, n, order[0], Some(table[order[0]]));
      PageReadyUnderway(s, n, base, goal, table, order[0]);
      PendingShrinks(s, n, order[0], Some(table[order[0]]));
      DeliverUnderway(next, n, base, goal, table, order[1..]);
    }
  }

  // ---- The two ways of running a new search -----------------------------------------

  /** A command has asked for a new search with a non-empty query. */
  ghost predicate AsksForSearch(s: FindState, n: nat) {
    Inv(s, n) && s.dirtyMatch && s.query.Some? && s.query.value.query != ""
  }

  /** The reset state, as it would be with every page's matches already present. */
  ghost function ReadyBeforehand(s: FindState, n: nat, table: seq<PageMatches>): FindState {
    var start := StartOver(s.(active := true), n).(pending := {}, pageMatches := AllMatches(table));
    start.(matchCount := MatchTotal(AllMatches(table), n), layers := seq(n, i requires 0 <= i => ViewOf(start, i)))
  }

  lemma {:induction false} ReadyBeforehandInv(s: FindState, n: nat, table: seq<PageMatches>)
    requires AsksForSearch(s, n) && |table| == n
    ensures Inv(ReadyBeforehand(s, n, table), n)
  {
    StartOverKeepsInv(s.(active := true), n);
  }

  /** Where the new search begins. */
  function SearchStart(s: FindState, n: nat): Cursor {
    Cursor(s.currentPage - 1, None, s.offset.wrapped, n)
  }

  /** nextMatch with nothing computed yet parks at the current page. */
  lemma {:induction false} NewSearchWaits(s: FindState, n: nat, table: seq<PageMatches>)
    requires AsksForSearch(s, n) && |table| == n
    ensures var t := NextMatch(s, n);
            && t == StartOver(s.(active := true), n).(offset := SearchStart(s, n), resumePageIdx := Some(s.currentPage - 1))
            && Inv(t, n) && t.pending == AllPages(n)
            && Underway(t, n, t, Search(AllMatches(table), n, Previous(s), SearchStart(s, n)), table)
  {
    StartOverKeepsInv(s.(active := true), n);
    NextMatchKeeps(s, n);
  }

  /** The same search with everything present settles at once. */
  lemma {:induction false} ImmediateSearchSettles(s: FindState, n: nat, table: seq<PageMatches>)
    requires AsksForSearch(s, n) && |table| == n
    requires Inv(ReadyBeforehand(s, n, table), n)
    ensures Inv(Advance(ReadyBeforehand(s, n, table), n), n)
    ensures Settled(Advance(ReadyBeforehand(s, n, table), n), ReadyBeforehand(s, n, table),
                    Search(AllMatches(table), n, Previous(s), SearchStart(s, n)))
    ensures var t := Advance(ReadyBeforehand(s, n, table), n);
            t.pageMatches == AllMatches(table) && t.query == s.query && t.active && !t.dirtyMatch
  {
    var start := ReadyBeforehand(s, n, table);
    AdvanceKeeps(start, n);
    var moved := start.(offset := SearchStart(s, n));
    NewSearchIsComplete(AllMatches(table), n, Previous(s), SearchStart(s, n));
    FinishSettles(moved, n, start, Search(AllMatches(table), n, Previous(s), SearchStart(s, n)));
    NextPageMatchFrame(moved, n);
    assert Moved(start, n) == SearchStart(s, n);
  }

  /** Equal but for the match counts shown with the reported statuses. */
  ghost predicate SameOutcome(a: FindState, b: FindState) {
    && a.offset == b.offset && a.selected == b.selected && a.resumePageIdx == b.resumePageIdx
    && a.pageMatches == b.pageMatches && a.matchCount == b.matchCount && a.layers == b.layers
    && a.currentPage == b.currentPage && a.query == b.query && a.active == b.active && a.dirtyMatch == b.dirtyMatch
    && |a.reports| == |b.reports|
    && forall k :: 0 <= k < |a.reports| ==> a.reports[k].status == b.reports[k].status
  }

  lemma {:induction false} SettledAgree(a: FindState, b: FindState, n: nat, baseA: FindState, baseB: FindState, goal: Outcome)
    requires Inv(a, n) && Inv(b, n) && Settled(a, baseA, goal) && Settled(b, baseB, goal)
    requires a.pageMatches == b.pageMatches
    requires a.query == b.query && a.active == b.active && a.dirtyMatch == b.dirtyMatch
    requires baseA.reports == baseB.reports && baseA.currentPage == baseB.currentPage
    ensures SameOutcome(a, b)
  {
    assert forall k :: 0 <= k < |baseA.reports| ==> a.reports[k] == a.reports[..|baseA.reports|][k];
    assert forall k :: 0 <= k < |baseA.reports| ==> b.reports[k] == b.reports[..|baseA.reports|][k];
  }

  /** A callback order: every page once. */
  ghost predicate IsOrder(order: seq<nat>, n: nat) {
    && (forall k :: 0 <= k < |order| ==> order[k] < n)
    && (forall j, k :: 0 <= j < k < |order| ==> order[j] != order[k])
    && (forall i: nat :: i < n ==> i in order)
  }

  /** nextMatch, then the page callbacks in the given order. */
  ghost function SearchInOrder(s: FindState, n: nat, table: seq<PageMatches>, order: seq<nat>): FindState
    requires AsksForSearch(s, n) && |table| == n && IsOrder(order, n)
  {
    NewSearchWaits(s, n, table);
    Deliver(NextMatch(s, n), n, table, order)
  }

  /** The rest of nextMatch, run with every page's matches already present. */
  ghost function SearchAtOnce(s: FindState, n: nat, table: seq<PageMatches>): FindState
    requires AsksForSearch(s, n) && |table| == n
  {
    ReadyBeforehandInv(s, n, table);
    Advance(ReadyBeforehand(s, n, table), n)
  }

  /** That state has all match lists, and the query asked for. */
  lemma {:induction false} SearchAtOnceComputes(s: FindState, n: nat, table: seq<PageMatches>)
    requires AsksForSearch(s, n) && |table| == n
    ensures var t := SearchAtOnce(s, n, table); t.pageMatches == AllMatches(table) && t.query == s.query && t.active
  {
    ReadyBeforehandInv(s, n, table);
    ImmediateSearchSettles(s, n, table);
  }

  /**
   * Confluence: in whatever order the pages become ready, the search ends in the state in which it
   * would have ended at once with all pages ready.
   */
  lemma {:induction false} SearchIsConfluent(s: FindState, n: nat, table: seq<PageMatches>, order: seq<nat>)
    requires AsksForSearch(s, n) && |table| == n && IsOrder(order, n)
    ensures SameOutcome(SearchInOrder(s, n, table, order), SearchAtOnce(s, n, table))
    ensures SearchInOrder(s, n, table, order).pending == {}
  {
    var goal := Search(AllMatches(table), n, Previous(s), SearchStart(s, n));
    NewSearchWaits(s, n, table);
    ReadyBeforehandInv(s, n, table);
    var begun := NextMatch(s, n);
    DeliverUnderway(begun, n, begun, goal, table, order);
    var ended := Deliver(begun, n, table, order);
    assert ended.pending == {};
    assert ended.pageMatches == AllMatches(table);
    ImmediateSearchSettles(s, n, table);
    SettledAgree(ended, Advance(ReadyBeforehand(s, n, table), n), n, begun, ReadyBeforehand(s, n, table), goal);
  }

  /** State `t` has selected the first match found, `k` pages from where the search of `s` began. */
  ghost predicate FoundAfter(s: FindState, n: nat, table: seq<PageMatches>, t: FindState, k: nat, status: Status) {
    var pm, start, previous := AllMatches(table), s.currentPage - 1, Previous(s);
    && (forall j: nat :: j < k ==> EmptyPage(pm, PageAt(start, j, n, previous)))
    && t.selected.pageIdx == PageAt(start, k, n, previous) && NonEmptyPage(pm, t.selected.pageIdx)
    && t.selected.matchIdx == FirstMatch(pm[t.selected.pageIdx], previous)
    && status == if s.offset.wrapped || Crosses(start, k, n, previous) then Wrapped else Found
  }

  /** What the new search of `s` over the table has come to in state `t`. */
  ghost predicate HasOutcome(s: FindState, n: nat, table: seq<PageMatches>, t: FindState)
    requires |table| == n
  {
    && |t.reports| == |s.reports| + 1
    && var status := t.reports[|s.reports|].status;
       && (status == NotFound <==> forall i: nat :: i < n ==> table[i].starts == [])
       && (status == NotFound ==> t.selected == NOTHING_SELECTED)
       && (status != NotFound ==> exists k: nat :: k < n && FoundAfter(s, n, table, t, k, status))
  }

  /** A search that settles at the first page with a match has found it. */
  lemma {:induction false} FirstIsFound(s: FindState, n: nat, table: seq<PageMatches>, t: FindState, base: FindState, k: nat)
    requires AsksForSearch(s, n) && |table| == n && k < n && base.reports == s.reports
    requires var pm, start := AllMatches(table), s.currentPage - 1;
             && Settled(t, base, Search(pm, n, Previous(s), SearchStart(s, n)))
             && (forall j: nat :: j < k ==> EmptyPage(pm, PageAt(start, j, n, Previous(s))))
             && NonEmptyPage(pm, PageAt(start, k, n, Previous(s)))
    ensures FoundAfter(s, n, table, t, k, t.reports[|s.reports|].status)
  {
    SearchReaches(AllMatches(table), n, Previous(s), SearchStart(s, n), k);
  }

  lemma {:induction false} SettledOutcome(s: FindState, n: nat, table: seq<PageMatches>, t: FindState, base: FindState)
    requires AsksForSearch(s, n) && |table| == n && base.reports == s.reports
    requires Settled(t, base, Search(AllMatches(table), n, Previous(s), SearchStart(s, n)))
    ensures HasOutcome(s, n, table, t)
  {
    var pm := AllMatches(table);
    NewSearchIsComplete(pm, n, Previous(s), SearchStart(s, n));
    assert forall i: nat :: i < n ==> (EmptyPage(pm, i) <==> table[i].starts == []);
    if i: nat :| i < n && !EmptyPage(pm, i) {
      var k := FirstNonEmpty(pm, n, Previous(s), s.currentPage - 1, i);
      FirstIsFound(s, n, table, t, base, k);
    }
  }

  /**
   * What that state is: the first match of the first page with one, counting round from the current
   * page, or "not found" if and only if no page has a match.  "Wrapped" is reported if and only if
   * the search went round the end of the document or `offset.wrapped` was left over from before.
   */
  lemma {:induction false} SearchOutcome(s: FindState, n: nat, table: seq<PageMatches>)
    requires AsksForSearch(s, n) && |table| == n
    ensures HasOutcome(s, n, table, SearchAtOnce(s, n, table))
  {
    ReadyBeforehandInv(s, n, table);
    ImmediateSearchSettles(s, n, table);
    SettledOutcome(s, n, table, SearchAtOnce(s, n, table), ReadyBeforehand(s, n, table));
  }

  // ---- In terms of the document -------------------------------------------------------

  /** A query for which calcFindMatch stores match lists. */
  predicate Searchable(doc: Document, q: FindQuery) {
    q.query != "" && (q.phraseSearch || Words(Fold(doc, q, Normalize(q.query))) != [])
  }

  function TableOf(doc: Document, q: FindQuery): (table: seq<PageMatches>)
    requires Searchable(doc, q)
    ensures |table| == |doc.pages|
    ensures forall i :: 0 <= i < |table| ==> FindOnPage(doc, i, q) == Some(table[i])
  {
    NormalizeEmpty(q.query);
    seq(|doc.pages|, i requires 0 <= i < |doc.pages| => FindOnPage(doc, i, q).value)
  }

  function Callbacks(order: seq<nat>): seq<Event> {
    if order == [] then [] else [PageTextReady(order[0])] + Callbacks(order[1..])
  }

  /** Delivering the table's entries is running the callbacks, which compute exactly those entries. */
  lemma {:induction false} CallbacksDeliver(doc: Document, s: FindState, q: FindQuery, order: seq<nat>)
    requires Inv(s, |doc.pages|) && s.query == Some(q) && Searchable(doc, q)
    requires forall k :: 0 <= k < |order| ==> order[k] in s.pending
    requires forall j, k :: 0 <= j < k < |order| ==> order[j] != order[k]
    ensures Legal(doc, s, Callbacks(order))
    ensures Run(doc, s, Callbacks(order)) == Deliver(s, |doc.pages|, TableOf(doc, q), order)
    decreases |order|
  {
    if order != [] {
      var i, r := order[0], FindOnPage(doc, order[0], q);
      var next := PageReady(s, |doc.pages|, i, r);
      PageReadyKeeps(s, |doc.pages|, i, r);
      PageReadyQuery(s, |doc.pages|, i, r);
      StillPending(s.pending, order);
      CallbacksDeliver(doc, next, q, order[1..]);
      FirstCallback(doc, s, q, order, next);
    }
  }

  lemma {:induction false} StillPending(pending: set<nat>, order: seq<nat>)
    requires order != [] && forall k :: 0 <= k < |order| ==> order[k] in pending
    requires forall j, k :: 0 <= j < k < |order| ==> order[j] != order[k]
    ensures forall k :: 0 <= k < |order[1..]| ==> order[1..][k] in pending - {order[0]}
    ensures forall j, k :: 0 <= j < k < |order[1..]| ==> order[1..][j] != order[1..][k]
  {
  }

  lemma {:induction false} FirstCallback(doc: Document, s: FindState, q: FindQuery, order: seq<nat>, next: FindState)
    requires Inv(s, |doc.pages|) && s.query == Some(q) && order != [] && order[0] in s.pending
    requires next == PageReady(s, |doc.pages|, order[0], FindOnPage(doc, order[0], q)) && Inv(next, |doc.pages|)
    requires Legal(doc, next, Callbacks(order[1..]))
    ensures Legal(doc, s, Callbacks(order))
    ensures Run(doc, s, Callbacks(order)) == Run(doc, next, Callbacks(order[1..]))
  {
    var events := Callbacks(order);
    assert next == After(doc, s, events[0]);
    assert events[1..] == Callbacks(order[1..]);
  }

  lemma {:induction false} PageReadyQuery(s: FindState, n: nat, i: nat, r: Option<PageMatches>)
    requires Inv(s, n) && i in s.pending
    ensures PageReady(s, n, i, r).query == s.query
    ensures PageReady(s, n, i, r).pending == s.pending - {i}
  {
    PendingShrinks(s, n, i, r);
    if r.Some? && s.resumePageIdx == Some(i) {
      NextPageMatchFrame(StorePage(s, i, r.value).(resumePageIdx := None), n);
    }
  }

  /** Confluence over the events of the controller. */
  lemma {:induction false} DocumentSearchIsConfluent(doc: Document, s: FindState, q: FindQuery, order: seq<nat>)
    requires AsksForSearch(s, |doc.pages|) && s.query == Some(q) && Searchable(doc, q)
    requires IsOrder(order, |doc.pages|)
    ensures Legal(doc, s, [NextMatchFires] + Callbacks(order))
    ensures SameOutcome(Run(doc, s, [NextMatchFires] + Callbacks(order)),
                        SearchAtOnce(s, |doc.pages|, TableOf(doc, q)))
  {
    var n, events := |doc.pages|, [NextMatchFires] + Callbacks(order);
    NewSearchWaits(s, n, TableOf(doc, q));
    assert events[1..] == Callbacks(order);
    assert After(doc, s, events[0]) == NextMatch(s, n);
    CallbacksDeliver(doc, NextMatch(s, n), q, order);
    SearchIsConfluent(s, n, TableOf(doc, q), order);
  }

  /** In every reachable state, every command but 'findagain' starts such a search for a searchable query. */
  lemma {:induction false} EverySearchIsConfluent(doc: Document, s: FindState, cmd: FindEngine.Command, q: FindQuery, order: seq<nat>)
    requires doc.pages != [] && Reachable(doc, s) && cmd != FindAgain && Searchable(doc, q) && IsOrder(order, |doc.pages|)
    ensures var asked, n := ExecuteCommand(s, cmd, q), |doc.pages|;
            && Reachable(doc, asked) && AsksForSearch(asked, n)
            && Legal(doc, asked, [NextMatchFires] + Callbacks(order))
            && SameOutcome(Run(doc, asked, [NextMatchFires] + Callbacks(order)), SearchAtOnce(asked, n, TableOf(doc, q)))
  {
    ReachableAfter(doc, s, Command(cmd, q));
    var asked := ExecuteCommand(s, cmd, q);
    assert asked == After(doc, s, Command(cmd, q));
    DocumentSearchIsConfluent(doc, asked, q, order);
  }

  // ---- Scrolling in between --------------------------------------------------------------

  /** The same but for the page the viewer shows. */
  ghost predicate Elsewhere(a: FindState, b: FindState) { a.(currentPage := 0) == b.(currentPage := 0) }

  lemma {:induction false} UpdateMatchElsewhere(a: FindState, b: FindState, found: bool)
    requires Elsewhere(a, b) && -1 <= a.selected.pageIdx < |a.layers|
    requires found ==> 0 <= a.offset.pageIdx < |a.layers| && a.offset.matchIdx.Some?
    ensures Elsewhere(UpdateMatch(a, found), UpdateMatch(b, found))
  {
    assert b == a.(currentPage := b.currentPage);
  }

  lemma {:induction false} NextPageMatchElsewhere(a: FindState, b: FindState, n: nat)
    requires Elsewhere(a, b) && 0 <= a.offset.pageIdx < n == |a.layers| && -1 <= a.selected.pageIdx < n
    ensures Elsewhere(NextPageMatch(a, n), NextPageMatch(b, n))
  {
    var r := Search(a.pageMatches, n, Previous(a), a.offset);
    SearchHits(a.pageMatches, n, Previous(a), a.offset);
    if !r.Parked? {
      UpdateMatchElsewhere(a.(offset := r.at), b.(offset := r.at), r.Hit?);
    }
  }

  lemma {:induction false} PageReadyElsewhere(a: FindState, b: FindState, n: nat, i: nat, r: Option<PageMatches>)
    requires Elsewhere(a, b) && Inv(a, n) && Inv(b, n) && i in a.pending
    ensures Elsewhere(PageReady(a, n, i, r), PageReady(b, n, i, r))
  {
    if r.Some? && a.resumePageIdx == Some(i) {
      NextPageMatchElsewhere(StorePage(a, i, r.value).(resumePageIdx := None),
                             StorePage(b, i, r.value).(resumePageIdx := None), n);
    }
  }

  /** Callbacks and scrolling. */
  ghost predicate Scrolling(doc: Document, events: seq<Event>) {
    forall k :: 0 <= k < |events| ==>
      events[k].PageTextReady? || (events[k].Scrolled? && 1 <= events[k].pageNumber <= |doc.pages|)
  }

  /** The pages whose callbacks are among the events, in that order. */
  function PagesOf(events: seq<Event>): seq<nat> {
    if events == [] then []
    else (if events[0].PageTextReady? then [events[0].page] else []) + PagesOf(events[1..])
  }

  /** Scrolling in between leaves alone what the callbacks do. */
  lemma {:induction false} ScrollingChangesNothing(doc: Document, a: FindState, b: FindState, events: seq<Event>)
    requires Inv(a, |doc.pages|) && Inv(b, |doc.pages|) && Elsewhere(a, b) && Scrolling(doc, events)
    requires Legal(doc, b, Callbacks(PagesOf(events)))
    ensures Legal(doc, a, events)
    ensures Elsewhere(Run(doc, a, events), Run(doc, b, Callbacks(PagesOf(events))))
    decreases |events|
  {
    if events != [] {
      var e := events[0];
      if e.Scrolled? {
        assert PagesOf(events) == PagesOf(events[1..]);
        EventKeepsInv(doc, a, e);
        ScrollingChangesNothing(doc, After(doc, a, e), b, events[1..]);
      } else {
        CallbackElsewhere(doc, a, b, events);
        ScrollingChangesNothing(doc, After(doc, a, e), After(doc, b, e), events[1..]);
      }
    }
  }

  lemma {:induction false} CallbackElsewhere(doc: Document, a: FindState, b: FindState, events: seq<Event>)
    requires Inv(a, |doc.pages|) && Inv(b, |doc.pages|) && Elsewhere(a, b)
    requires events != [] && events[0].PageTextReady? && Legal(doc, b, Callbacks(PagesOf(events)))
    ensures Enabled(doc, a, events[0]) && Enabled(doc, b, events[0])
    ensures Inv(After(doc, a, events[0]), |doc.pages|) && Inv(After(doc, b, events[0]), |doc.pages|)
    ensures Elsewhere(After(doc, a, events[0]), After(doc, b, events[0]))
    ensures Callbacks(PagesOf(events)) == [events[0]] + Callbacks(PagesOf(events[1..]))
    ensures Legal(doc, After(doc, b, events[0]), Callbacks(PagesOf(events[1..])))
  {
    var i := events[0].page;
    var rest := Callbacks(PagesOf(events[1..]));
    assert PagesOf(events)[0] == i && PagesOf(events)[1..] == PagesOf(events[1..]);
    assert Callbacks(PagesOf(events)) == [events[0]] + rest && ([events[0]] + rest)[1..] == rest;
    PageReadyElsewhere(a, b, |doc.pages|, i, FindOnPage(doc, i, a.query.value));
    EventKeepsInv(doc, a, events[0]);
    EventKeepsInv(doc, b, events[0]);
  }

  /** Equal but for the page shown and the match counts in the reports. */
  ghost predicate SameResult(a: FindState, b: FindState) {
    SameOutcome(a.(currentPage := 0), b.(currentPage := 0))
  }

  /** Confluence also when the user scrolls while the pages arrive. */
  lemma {:induction false} ScrollingSearchIsConfluent(doc: Document, s: FindState, cmd: FindEngine.Command, q: FindQuery, events: seq<Event>)
    requires doc.pages != [] && Reachable(doc, s) && cmd != FindAgain && Searchable(doc, q)
    requires Scrolling(doc, events) && IsOrder(PagesOf(events), |doc.pages|)
    ensures var asked, n := ExecuteCommand(s, cmd, q), |doc.pages|;
            && Reachable(doc, asked) && AsksForSearch(asked, n)
            && Legal(doc, asked, [NextMatchFires] + events)
            && SameResult(Run(doc, asked, [NextMatchFires] + events), SearchAtOnce(asked, n, TableOf(doc, q)))
  {
    var asked, n := ExecuteCommand(s, cmd, q), |doc.pages|;
    EverySearchIsConfluent(doc, s, cmd, q, PagesOf(events));
    AfterNextMatch(doc, asked, Callbacks(PagesOf(events)));
    ScrollingChangesNothing(doc, NextMatch(asked, n), NextMatch(asked, n), events);
    BeforeNextMatch(doc, asked, events);
  }

  /** In any case the matches of all pages are there in the end. */
  lemma {:induction false} ScrollingSearchComputes(doc: Document, s: FindState, cmd: FindEngine.Command, q: FindQuery, events: seq<Event>)
    requires doc.pages != [] && Reachable(doc, s) && cmd != FindAgain && Searchable(doc, q)
    requires Scrolling(doc, events) && IsOrder(PagesOf(events), |doc.pages|)
    ensures var asked, n := ExecuteCommand(s, cmd, q), |doc.pages|;
            && Reachable(doc, asked) && AsksForSearch(asked, n) && Legal(doc, asked, [NextMatchFires] + events)
            && var t := Run(doc, asked, [NextMatchFires] + events);
               t.pageMatches == AllMatches(TableOf(doc, q)) && t.query == Some(q) && t.active
  {
    var asked, n := ExecuteCommand(s, cmd, q), |doc.pages|;
    ScrollingSearchIsConfluent(doc, s, cmd, q, events);
    SearchAtOnceComputes(asked, n, TableOf(doc, q));
  }

  lemma {:induction false} AfterNextMatch(doc: Document, s: FindState, events: seq<Event>)
    requires AsksForSearch(s, |doc.pages|) && Legal(doc, s, [NextMatchFires] + events)
    ensures Inv(NextMatch(s, |doc.pages|), |doc.pages|) && Legal(doc, NextMatch(s, |doc.pages|), events)
    ensures Run(doc, s, [NextMatchFires] + events) == Run(doc, NextMatch(s, |doc.pages|), events)
  {
    NextMatchKeeps(s, |doc.pages|);
    assert ([NextMatchFires] + events)[1..] == events;
  }

  lemma {:induction false} BeforeNextMatch(doc: Document, s: FindState, events: seq<Event>)
    requires AsksForSearch(s, |doc.pages|) && Inv(NextMatch(s, |doc.pages|), |doc.pages|)
    requires Legal(doc, NextMatch(s, |doc.pages|), events)
    ensures Legal(doc, s, [NextMatchFires] + events)
    ensures Run(doc, s, [NextMatchFires] + events) == Run(doc, NextMatch(s, |doc.pages|), events)
  {
    assert ([NextMatchFires] + events)[1..] == events;
  }
}
