/** Stepping through the matches of a document whose pages have all been computed. */
module FindNavigation {
  import opened Options
  import opened FindEngine
  import opened FindRuns
  import opened FindSearch

  /** Position of a match in document order, counted over all pages. */
  function Rank(pm: map<nat, PageMatches>, at: Selection): nat
    requires at.pageIdx >= 0 && at.matchIdx >= 0
  {
    MatchTotal(pm, at.pageIdx) + at.matchIdx
  }

  /** A match is selected, every page is computed, and a non-empty query is in force. */
  ghost predicate Navigable(s: FindState, n: nat) {
    && Inv(s, n) && AllReady(s.pageMatches, n)
    && s.query.Some? && s.query.value.query != "" && !s.dirtyMatch
    && s.offset.matchIdx.Some? && !s.offset.wrapped
    && s.selected == Selection(s.offset.pageIdx, s.offset.matchIdx.value)
  }

  function Total(s: FindState, n: nat): nat { MatchTotal(s.pageMatches, n) }

  /** 'findagain' in the given direction, followed by its nextMatch. */
  function FindNext(s: FindState, n: nat, previous: bool): FindState
    requires Inv(s, n) && s.query.Some?
  {
    var q := s.query.value.(findPrevious := previous);
    NextMatch(ExecuteCommand(s, FindAgain, q), n)
  }

  function Successor(r: nat, total: nat): nat { if r + 1 == total then 0 else r + 1 }

  function Predecessor(r: nat, total: nat): int { if r == 0 then total - 1 else r - 1 }

  /** The last match in the search direction, from which a step goes round the end of the document. */
  predicate AtEnd(r: nat, total: nat, previous: bool) { if previous then r == 0 else r + 1 == total }

  function Neighbour(r: nat, total: nat, previous: bool): int {
    if previous then Predecessor(r, total) else Successor(r, total)
  }

  lemma {:induction false} TotalSteps(pm: map<nat, PageMatches>, a: nat, b: nat)
    requires a <= b
    ensures MatchTotal(pm, a) <= MatchTotal(pm, b)
    ensures (forall i: nat :: a <= i < b ==> EmptyPage(pm, i)) ==> MatchTotal(pm, a) == MatchTotal(pm, b)
    decreases b
  {
    if a < b {
      TotalSteps(pm, a, b - 1);
      assert (forall i: nat :: a <= i < b ==> EmptyPage(pm, i)) ==> EmptyPage(pm, b - 1);
    }
  }

  lemma {:induction false} RankInRange(pm: map<nat, PageMatches>, n: nat, at: Selection)
    requires HasMatch(pm, at.pageIdx, at.matchIdx) && at.pageIdx < n
    ensures Rank(pm, at) < MatchTotal(pm, at.pageIdx + 1) <= MatchTotal(pm, n)
  {
    TotalSteps(pm, at.pageIdx + 1, n);
  }

  lemma {:induction false} RankInjective(pm: map<nat, PageMatches>, a: Selection, b: Selection)
    requires HasMatch(pm, a.pageIdx, a.matchIdx) && HasMatch(pm, b.pageIdx, b.matchIdx)
    requires Rank(pm, a) == Rank(pm, b)
    ensures a == b
  {
    if a.pageIdx < b.pageIdx {
      RankInRange(pm, b.pageIdx, a);
    } else if b.pageIdx < a.pageIdx {
      RankInRange(pm, a.pageIdx, b);
    }
  }

  /** Leaving page `p` forwards: the next page with a match holds the successor of p's last match. */
  lemma {:induction false} NextPageRank(pm: map<nat, PageMatches>, n: nat, p: nat, k: nat)
    requires p < n && 1 <= k <= n && NonEmptyPage(pm, p)
    requires forall j: nat :: 1 <= j < k ==> EmptyPage(pm, PageAt(p, j, n, false))
    requires NonEmptyPage(pm, PageAt(p, k, n, false))
    ensures var r := MatchTotal(pm, p + 1) - 1;
            && MatchTotal(pm, PageAt(p, k, n, false)) == Successor(r, MatchTotal(pm, n))
            && (Crosses(p, k, n, false) <==> r + 1 == MatchTotal(pm, n))
  {
    var t := PageAt(p, k, n, false);
    if Crosses(p, k, n, false) {
      forall i: nat | p < i < n || i < t
        ensures EmptyPage(pm, i)
      {
        assert i == PageAt(p, if p < i then i - p else i - p + n, n, false);
      }
      TotalSteps(pm, p + 1, n);
      TotalSteps(pm, 0, t);
    } else {
      forall i: nat | p < i < t
        ensures EmptyPage(pm, i)
      {
        assert i == PageAt(p, i - p, n, false);
      }
      TotalSteps(pm, p + 1, t);
      TotalSteps(pm, t + 1, n);
    }
  }

  /** Leaving page `p` backwards: the page reached ends with the predecessor of p's first match. */
  lemma {:induction false} PreviousPageRank(pm: map<nat, PageMatches>, n: nat, p: nat, k: nat)
    requires p < n && 1 <= k <= n && NonEmptyPage(pm, p)
    requires forall j: nat :: 1 <= j < k ==> EmptyPage(pm, PageAt(p, j, n, true))
    requires NonEmptyPage(pm, PageAt(p, k, n, true))
    ensures MatchTotal(pm, PageAt(p, k, n, true) + 1) - 1 == Predecessor(MatchTotal(pm, p), MatchTotal(pm, n))
    ensures Crosses(p, k, n, true) <==> MatchTotal(pm, p) == 0
  {
    var t := PageAt(p, k, n, true);
    if Crosses(p, k, n, true) {
      forall i: nat | i < p || t < i < n
        ensures EmptyPage(pm, i)
      {
        assert i == PageAt(p, if i < p then p - i else p - i + n, n, true);
      }
      TotalSteps(pm, 0, p);
      TotalSteps(pm, t + 1, n);
    } else {
      forall i: nat | t < i < p
        ensures EmptyPage(pm, i)
      {
        assert i == PageAt(p, p - i, n, true);
      }
      TotalSteps(pm, t + 1, p);
    }
  }

  lemma {:induction false} NextPageAt(p: nat, k: nat, n: nat, previous: bool)
    requires p < n && k <= n
    ensures forall j: nat :: 1 <= j <= k ==> PageAt(p, j, n, previous) == PageAt(PageAt(p, 1, n, previous), j - 1, n, previous)
  {
  }

  /** Where a search that leaves page `p` ends up. */
  lemma {:induction false} LeavePage(pm: map<nat, PageMatches>, n: nat, previous: bool, c: Cursor)
    requires 0 <= c.pageIdx < n && AllReady(pm, n) && NonEmptyPage(pm, c.pageIdx)
    requires c.pagesToSearch == n && !c.wrapped
    requires c.matchIdx == Some(if previous then 0 else |pm[c.pageIdx].starts| - 1)
    ensures var r := Search(pm, n, previous, AdvanceOffsetPage(c, n, previous));
            && r.Hit? && r.at.matchIdx.Some?
            && HasMatch(pm, r.at.pageIdx, r.at.matchIdx.value)
            && var before := Rank(pm, Selection(c.pageIdx, c.matchIdx.value));
               && Rank(pm, Selection(r.at.pageIdx, r.at.matchIdx.value))
                  == Neighbour(before, MatchTotal(pm, n), previous)
               && (r.at.wrapped <==> AtEnd(before, MatchTotal(pm, n), previous))
  {
    var p := c.pageIdx;
    var next := AdvanceOffsetPage(c, n, previous);
    assert next.pageIdx == PageAt(p, 1, n, previous);
    var k := FirstNonEmpty(pm, n, previous, next.pageIdx, p);
    assert Distance(next.pageIdx, p, n, previous) == n - 1;
    SearchReaches(pm, n, previous, next, k);
    NextPageAt(p, k + 1, n, previous);
    if previous {
      PreviousPageRank(pm, n, p, k + 1);
    } else {
      NextPageRank(pm, n, p, k + 1);
    }
  }

  /** The cursor on which a step from the match under `c` lands. */
  function Landing(pm: map<nat, PageMatches>, n: nat, previous: bool, c: Cursor): Cursor
    requires 0 <= c.pageIdx < n && c.matchIdx.Some? && HasMatch(pm, c.pageIdx, c.matchIdx.value)
  {
    var m := c.matchIdx.value;
    if !previous && m + 1 < |pm[c.pageIdx].starts| then c.(matchIdx := Some(m + 1))
    else if previous && m > 0 then c.(matchIdx := Some(m - 1))
    else Search(pm, n, previous, AdvanceOffsetPage(c, n, previous)).at
  }

  lemma {:induction false} LandingRank(pm: map<nat, PageMatches>, n: nat, previous: bool, c: Cursor)
    requires 0 <= c.pageIdx < n && c.matchIdx.Some? && HasMatch(pm, c.pageIdx, c.matchIdx.value)
    requires AllReady(pm, n) && c.pagesToSearch == n && !c.wrapped
    ensures var at, before := Landing(pm, n, previous, c), Rank(pm, Selection(c.pageIdx, c.matchIdx.value));
            && 0 <= at.pageIdx < n && at.matchIdx.Some? && HasMatch(pm, at.pageIdx, at.matchIdx.value)
            && Rank(pm, Selection(at.pageIdx, at.matchIdx.value)) == Neighbour(before, MatchTotal(pm, n), previous)
            && (at.wrapped <==> AtEnd(before, MatchTotal(pm, n), previous))
  {
    RankInRange(pm, n, Selection(c.pageIdx, c.matchIdx.value));
    if c.matchIdx == Some(if previous then 0 else |pm[c.pageIdx].starts| - 1) {
      LeavePage(pm, n, previous, c);
    } else if !previous {
      TotalSteps(pm, c.pageIdx + 1, n);
    }
  }

  /** 'findagain' changes nothing that the step depends on but the direction. */
  function Asked(s: FindState, previous: bool): FindState
    requires s.query.Some?
  {
    ExecuteCommand(s, FindAgain, s.query.value.(findPrevious := previous)).(active := true)
  }

  lemma {:induction false} AdvanceSelects(a: FindState, n: nat)
    requires Inv(a, n) && AllReady(a.pageMatches, n) && a.query.Some? && a.query.value.query != ""
    requires a.offset.matchIdx.Some? && !a.offset.wrapped
    ensures var at := Landing(a.pageMatches, n, Previous(a), a.offset.(pagesToSearch := n));
            && 0 <= at.pageIdx < n && at.matchIdx.Some?
            && Advance(a, n) == UpdateMatch(a.(offset := at), true)
  {
    LandingRank(a.pageMatches, n, Previous(a), a.offset.(pagesToSearch := n));
    if Moved(a, n).matchIdx.None? {
      AdvanceAcross(a, n);
    }
  }

  lemma {:induction false} AdvanceAcross(a: FindState, n: nat)
    requires Inv(a, n) && AllReady(a.pageMatches, n) && a.query.Some? && a.query.value.query != ""
    requires a.offset.matchIdx.Some? && !a.offset.wrapped && Moved(a, n).matchIdx.None?
    ensures var at := Landing(a.pageMatches, n, Previous(a), a.offset.(pagesToSearch := n));
            0 <= at.pageIdx < n && at.matchIdx.Some? && Advance(a, n) == UpdateMatch(a.(offset := at), true)
  {
    LeavePage(a.pageMatches, n, Previous(a), a.offset.(pagesToSearch := n));
  }

  /** With every page computed, a step selects the match it lands on. */
  lemma {:induction false} FindNextSelects(s: FindState, n: nat, previous: bool)
    requires Navigable(s, n)
    ensures var at := Landing(s.pageMatches, n, previous, s.offset.(pagesToSearch := n));
            && 0 <= at.pageIdx < n && at.matchIdx.Some?
            && FindNext(s, n, previous) == UpdateMatch(Asked(s, previous).(offset := at), true)
  {
    AdvanceSelects(Asked(s, previous), n);
  }

  /**
   * A step forward selects the cyclic successor in document order, a step backward the predecessor,
   * and "wrapped" is reported exactly when the step crosses the end of the document.
   */
  lemma {:induction false} FindNextMoves(s: FindState, n: nat, previous: bool)
    requires Navigable(s, n)
    ensures var t := FindNext(s, n, previous);
            && Navigable(t, n) && t.pageMatches == s.pageMatches
            && Rank(t.pageMatches, t.selected) == Neighbour(Rank(s.pageMatches, s.selected), Total(s, n), previous)
            && t.reports == s.reports
               + [Report(Pending, s.matchCount)]
               + [Report(if AtEnd(Rank(s.pageMatches, s.selected), Total(s, n), previous) then Wrapped else Found,
                         s.matchCount)]
  {
    FindNextSelects(s, n, previous);
    LandingRank(s.pageMatches, n, previous, s.offset.(pagesToSearch := n));
    NextMatchKeeps(ExecuteCommand(s, FindAgain, s.query.value.(findPrevious := previous)), n);
  }

  /** A step in one direction is undone by a step in the other. */
  lemma {:induction false} StepsUndo(s: FindState, n: nat, previous: bool)
    requires Navigable(s, n)
    ensures Navigable(FindNext(s, n, previous), n)
    ensures FindNext(FindNext(s, n, previous), n, !previous).selected == s.selected
  {
    FindNextMoves(s, n, previous);
    var t := FindNext(s, n, previous);
    FindNextMoves(t, n, !previous);
    RankInRange(s.pageMatches, n, s.selected);
    RankInjective(s.pageMatches, FindNext(t, n, !previous).selected, s.selected);
  }

  lemma {:induction false} StepForward(s: FindState, n: nat)
    requires Navigable(s, n)
    ensures var next := FindNext(s, n, false);
            && Navigable(next, n) && next.pageMatches == s.pageMatches
            && Rank(s.pageMatches, next.selected) == Successor(Rank(s.pageMatches, s.selected), Total(s, n)) < Total(s, n)
  {
    FindNextMoves(s, n, false);
    RankInRange(s.pageMatches, n, s.selected);
  }

  /** The match `k` steps after the one at rank `r`. */
  predicate StepsOn(r: int, k: nat, total: nat, rank: int) {
    k <= total ==> rank == if r + k < total then r + k else r + k - total
  }

  /** A number of steps forward. */
  ghost function FindNextTimes(s: FindState, n: nat, k: nat): (t: FindState)
    requires Navigable(s, n)
    ensures Navigable(t, n) && t.pageMatches == s.pageMatches
    ensures StepsOn(Rank(s.pageMatches, s.selected), k, Total(s, n), Rank(s.pageMatches, t.selected))
    decreases k
  {
    RankInRange(s.pageMatches, n, s.selected);
    if k == 0 then s
    else
      var t := FindNextTimes(s, n, k - 1);
      StepForward(t, n);
      FindNext(t, n, false)
  }

  /** Over as many steps as there are matches, every match is selected after exactly one of them. */
  lemma {:induction false} RoundTripVisitsEachMatchOnce(s: FindState, n: nat, at: Selection) returns (k: nat)
    requires Navigable(s, n) && HasMatch(s.pageMatches, at.pageIdx, at.matchIdx)
    ensures 1 <= k <= Total(s, n) && FindNextTimes(s, n, k).selected == at
    ensures forall j: nat :: 1 <= j <= Total(s, n) && FindNextTimes(s, n, j).selected == at ==> j == k
  {
    var pm, total := s.pageMatches, Total(s, n);
    var r, goal := Rank(pm, s.selected), Rank(pm, at);
    RankInRange(pm, n, s.selected);
    RankInRange(pm, n, at);
    assert total - r > 0;
    k := if r < goal then goal - r else goal + (total - r);
    RankInjective(pm, FindNextTimes(s, n, k).selected, at);
    forall j: nat | 1 <= j <= total && FindNextTimes(s, n, j).selected == at
      ensures j == k
    {
      assert StepsOn(r, j, total, Rank(pm, FindNextTimes(s, n, j).selected));
    }
  }
}
