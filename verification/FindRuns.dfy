/** The bookkeeping invariant of PDFFindController, over every run of commands and callbacks. */
module FindRuns {
  import opened Options
  import opened FindEngine

  lemma {:induction false} CountPage(pm: map<nat, PageMatches>, n: nat, i: nat, matches: PageMatches)
    requires i !in pm
    ensures MatchTotal(pm[i := matches], n) == MatchTotal(pm, n) + (if i < n then |matches.starts| else 0)
  {
    if n != 0 {
      CountPage(pm, n - 1, i, matches);
    }
  }

  lemma {:induction false} UpdateMatchKeeps(s: FindState, n: nat, found: bool)
    requires Consistent(s, n) && s.resumePageIdx.None? && 0 <= s.offset.pageIdx
    requires found ==> s.offset.matchIdx.Some?
    ensures Consistent(UpdateMatch(s, found), n)
  {
  }

  lemma {:induction false} NextPageMatchKeeps(s: FindState, n: nat)
    requires Consistent(s, n) && s.resumePageIdx.None? && 0 <= s.offset.pageIdx && s.offset.matchIdx.None?
    ensures Consistent(NextPageMatch(s, n), n)
  {
    var r := Search(s.pageMatches, n, Previous(s), s.offset);
    SearchHits(s.pageMatches, n, Previous(s), s.offset);
    if !r.Parked? {
      UpdateMatchKeeps(s.(offset := r.at), n, r.Hit?);
    }
  }

  /** Nothing but the computation of a page changes the match lists or the match count. */
  lemma {:induction false} NextPageMatchFrame(s: FindState, n: nat)
    requires 0 <= s.offset.pageIdx < n == |s.layers| && -1 <= s.selected.pageIdx < n
    ensures var t := NextPageMatch(s, n);
            t.pageMatches == s.pageMatches && t.matchCount == s.matchCount && t.pending == s.pending
            && t.query == s.query && t.active == s.active && t.dirtyMatch == s.dirtyMatch && |t.layers| == n
  {
    SearchHits(s.pageMatches, n, Previous(s), s.offset);
  }

  /** Moving the cursor along without touching anything else. */
  lemma {:induction false} MoveKeeps(s: FindState, n: nat, c: Cursor)
    requires Inv(s, n) && 0 <= s.offset.pageIdx && 0 <= c.pageIdx < n
    requires c.matchIdx.Some? ==> HasMatch(s.pageMatches, c.pageIdx, c.matchIdx.value)
    requires s.resumePageIdx.Some? ==> c.pageIdx == s.offset.pageIdx && c.matchIdx == None
    ensures Inv(s.(offset := c), n)
  {
  }

  lemma {:induction false} SearchFromKeeps(s: FindState, n: nat)
    requires Inv(s, n) && 0 <= s.offset.pageIdx && s.offset.matchIdx.None?
    ensures Inv(NextPageMatch(s, n), n)
  {
    NextPageMatchFrame(s, n);
    if s.resumePageIdx.None? {
      NextPageMatchKeeps(s, n);
    }
  }

  /** Whenever a search reports its end, the viewer shows the page of the selected match, if there is one. */
  lemma {:induction false} SelectionIsShown(s: FindState, found: bool)
    requires -1 <= s.selected.pageIdx < |s.layers|
    requires found ==> 0 <= s.offset.pageIdx < |s.layers| && s.offset.matchIdx.Some?
    ensures var t := UpdateMatch(s, found);
            && (t.selected.pageIdx != -1 ==> t.currentPage == t.selected.pageIdx + 1)
            && (t.selected.pageIdx == -1 ==> t.currentPage == s.currentPage)
  {
  }

  lemma {:induction false} SelectKeeps(s: FindState, n: nat)
    requires Inv(s, n) && s.offset.matchIdx.Some?
    ensures Inv(UpdateMatch(s, true), n)
  {
    UpdateMatchKeeps(s, n, true);
  }

  lemma {:induction false} AdvanceKeeps(s: FindState, n: nat)
    requires Inv(s, n) && s.query.Some? && 0 <= s.offset.pageIdx
    ensures Inv(Advance(s, n), n)
  {
    if s.query.value.query != "" && !Waiting(s) {
      var t := s.(offset := Moved(s, n));
      MoveKeeps(s, n, Moved(s, n));
      if t.offset.matchIdx.Some? {
        SelectKeeps(t, n);
      } else {
        SearchFromKeeps(t, n);
      }
    }
  }

  lemma {:induction false} NextMatchKeeps(s: FindState, n: nat)
    requires Inv(s, n) && s.query.Some?
    ensures Inv(NextMatch(s, n), n)
  {
    var s1 := s.(active := true);
    if s.dirtyMatch {
      StartOverKeepsInv(s1, n);
      AdvanceKeeps(StartOver(s1, n), n);
    } else {
      AdvanceKeeps(s1, n);
    }
  }

  /** Storing a page's matches keeps everything but the claim that the search still waits for it. */
  lemma {:induction false} StorePageKeeps(s: FindState, n: nat, i: nat, matches: PageMatches)
    requires Inv(s, n) && i in s.pending
    ensures var t := StorePage(s, i, matches);
            && Consistent(if t.resumePageIdx == Some(i) then t.(resumePageIdx := None) else t, n)
            && t.offset.matchIdx == s.offset.matchIdx
            && t.matchCount + |matches.starts| == MatchTotal(t.pageMatches, n)
  {
    CountPage(s.pageMatches, n, i, matches);
  }

  lemma {:induction false} ResumeKeeps(s: FindState, n: nat, i: nat)
    requires Consistent(if s.resumePageIdx == Some(i) then s.(resumePageIdx := None) else s, n)
    requires 0 <= s.offset.pageIdx && (s.resumePageIdx == Some(i) ==> s.offset.matchIdx.None?)
    ensures Consistent(Resume(s, n, i), n)
    ensures Resume(s, n, i).pageMatches == s.pageMatches && Resume(s, n, i).matchCount == s.matchCount
  {
    if s.resumePageIdx == Some(i) {
      NextPageMatchFrame(s.(resumePageIdx := None), n);
      NextPageMatchKeeps(s.(resumePageIdx := None), n);
    }
  }

  lemma {:induction false} CountedKeeps(s: FindState, n: nat, more: nat)
    requires Consistent(s, n) && s.matchCount + more == MatchTotal(s.pageMatches, n)
    ensures Inv(s.(matchCount := s.matchCount + more), n)
  {
  }

  lemma {:induction false} PageReadyKeeps(s: FindState, n: nat, i: nat, r: Option<PageMatches>)
    requires Inv(s, n) && i in s.pending
    ensures Inv(PageReady(s, n, i, r), n)
  {
    if r.Some? {
      var stored := StorePage(s, i, r.value);
      StorePageKeeps(s, n, i, r.value);
      ResumeKeeps(stored, n, i);
      CountedKeeps(Resume(stored, n, i), n, |r.value.starts|);
    }
  }

  /** What the invariant says of the text layers: each was last told the matches and the selected match of its page. */
  lemma {:induction false} LayersCurrent(s: FindState, n: nat, i: nat)
    requires Inv(s, n) && i < n
    ensures |s.layers| == n
    ensures s.layers[i].matches == if i in s.pageMatches then Some(s.pageMatches[i]) else None
    ensures s.layers[i].selectedMatch == if s.selected.pageIdx == i then s.selected.matchIdx else -1
  {
  }

  /** A search for nothing ends at once, as found: no match is left on any page, and none is selected. */
  lemma {:induction false} EmptyQuery(s: FindState, n: nat, cmd: FindEngine.Command, q: FindQuery)
    requires Inv(s, n) && cmd != FindAgain && q.query == ""
    ensures var asked := ExecuteCommand(s, cmd, q);
            && Inv(asked, n)
            && var t := NextMatch(asked, n);
               && t.active && t.pageMatches == map[] && t.matchCount == 0 && t.selected == NOTHING_SELECTED
               && t.resumePageIdx.None? && t.currentPage == s.currentPage
               && t.reports == s.reports + [Report(Pending, s.matchCount), Report(Found, 0)]
               && forall i :: 0 <= i < n ==> t.layers[i] == LayerView(None, -1)
  {
    StartOverKeepsInv(ExecuteCommand(s, cmd, q).(active := true), n);
  }

  // ---- Runs ---------------------------------------------------------------------------

  /** What can happen to the controller.  A delayed nextMatch is a separate event from its command. */
  datatype Event =
    | Command(cmd: FindEngine.Command, q: FindQuery)
    | NextMatchFires
    | PageTextReady(page: nat)
    | Scrolled(pageNumber: int)

  predicate Enabled(doc: Document, s: FindState, e: Event) {
    match e
    case Command(_, _) => true
    case NextMatchFires => s.query.Some?
    case PageTextReady(page) => page in s.pending
    case Scrolled(pageNumber) => 1 <= pageNumber <= |doc.pages|
  }

  function After(doc: Document, s: FindState, e: Event): FindState
    requires Inv(s, |doc.pages|) && Enabled(doc, s, e)
  {
    match e
    case Command(cmd, q) => ExecuteCommand(s, cmd, q)
    case NextMatchFires => NextMatch(s, |doc.pages|)
    case PageTextReady(page) => PageReady(s, |doc.pages|, page, FindOnPage(doc, page, s.query.value))
    case Scrolled(pageNumber) => Scroll(s, pageNumber)
  }

  lemma {:induction false} EventKeepsInv(doc: Document, s: FindState, e: Event)
    requires Inv(s, |doc.pages|) && Enabled(doc, s, e)
    ensures Inv(After(doc, s, e), |doc.pages|)
  {
    match e
    case Command(cmd, q) =>
    case NextMatchFires => NextMatchKeeps(s, |doc.pages|);
    case PageTextReady(page) => PageReadyKeeps(s, |doc.pages|, page, FindOnPage(doc, page, s.query.value));
    case Scrolled(pageNumber) =>
  }

  /** The events of a run can happen one after the other from `s`. */
  ghost predicate Legal(doc: Document, s: FindState, events: seq<Event>)
    requires Inv(s, |doc.pages|)
    decreases |events|
  {
    events == [] || (
      && Enabled(doc, s, events[0])
      && (EventKeepsInv(doc, s, events[0]); Legal(doc, After(doc, s, events[0]), events[1..])))
  }

  /** The state after a run. */
  ghost function Run(doc: Document, s: FindState, events: seq<Event>): (t: FindState)
    requires Inv(s, |doc.pages|) && Legal(doc, s, events)
    ensures Inv(t, |doc.pages|)
    decreases |events|
  {
    if events == [] then s
    else
      EventKeepsInv(doc, s, events[0]);
      Run(doc, After(doc, s, events[0]), events[1..])
  }

  lemma {:induction false} InitialInv(n: nat)
    requires n > 0
    ensures Inv(InitialState(n, 1), n)
  {
    EmptyTotal(n);
  }

  /** The states that runs of the controller on a document lead to. */
  ghost predicate Reachable(doc: Document, s: FindState)
    requires doc.pages != []
  {
    InitialInv(|doc.pages|);
    exists events :: Legal(doc, InitialState(|doc.pages|, 1), events)
                     && Run(doc, InitialState(|doc.pages|, 1), events) == s
  }

  lemma {:induction false} RunAppend(doc: Document, s: FindState, events: seq<Event>, e: Event)
    requires Inv(s, |doc.pages|) && Legal(doc, s, events) && Enabled(doc, Run(doc, s, events), e)
    ensures Legal(doc, s, events + [e])
    ensures Run(doc, s, events + [e]) == After(doc, Run(doc, s, events), e)
    decreases |events|
  {
    if events == [] {
      EventKeepsInv(doc, s, e);
      assert ([e])[1..] == [];
    } else {
      EventKeepsInv(doc, s, events[0]);
      RunAppend(doc, After(doc, s, events[0]), events[1..], e);
      assert (events + [e])[1..] == events[1..] + [e];
    }
  }

  /** The invariant holds in every reachable state, and every enabled event leads to another one. */
  lemma {:induction false} ReachableInv(doc: Document, s: FindState)
    requires doc.pages != [] && Reachable(doc, s)
    ensures Inv(s, |doc.pages|)
    ensures forall e :: Enabled(doc, s, e) ==> Reachable(doc, After(doc, s, e))
  {
    InitialInv(|doc.pages|);
    var start := InitialState(|doc.pages|, 1);
    var events :| Legal(doc, start, events) && Run(doc, start, events) == s;
    forall e | Enabled(doc, s, e)
      ensures Reachable(doc, After(doc, s, e))
    {
      RunAppend(doc, start, events, e);
    }
  }

  /** One more event of a run. */
  lemma {:induction false} ReachableAfter(doc: Document, s: FindState, e: Event)
    requires doc.pages != [] && Reachable(doc, s)
    ensures Inv(s, |doc.pages|)
    ensures Enabled(doc, s, e) ==> Reachable(doc, After(doc, s, e)) && Inv(After(doc, s, e), |doc.pages|)
  {
    ReachableInv(doc, s);
    if Enabled(doc, s, e) {
      EventKeepsInv(doc, s, e);
    }
  }

  lemma {:induction false} InitialReachable(doc: Document)
    requires doc.pages != []
    ensures Reachable(doc, InitialState(|doc.pages|, 1))
  {
    InitialInv(|doc.pages|);
    assert Legal(doc, InitialState(|doc.pages|, 1), []);
  }
}
