/** The page search, when every page has been computed: it stops, and finds what there is to find. */
module FindSearch {
  import opened Options
  import opened FindEngine

  ghost predicate AllReady(pm: map<nat, PageMatches>, n: nat) {
    forall i: nat :: i < n ==> i in pm
  }

  ghost predicate EmptyPage(pm: map<nat, PageMatches>, i: int) {
    i in pm && pm[i].starts == []
  }

  ghost predicate NonEmptyPage(pm: map<nat, PageMatches>, i: int) {
    i in pm && pm[i].starts != []
  }

  /** The page `k` pages after (or before) `start`, counting round the end of the document once. */
  function PageAt(start: int, k: nat, n: nat, previous: bool): int {
    if previous then (if start < k then start - k + n else start - k)
    else (if start + k >= n then start + k - n else start + k)
  }

  /** Do those `k` pages lead past the end (or the beginning) of the document? */
  predicate Crosses(start: int, k: nat, n: nat, previous: bool) {
    if previous then start < k else start + k >= n
  }

  /**
   * How many pages a search from `c` is prepared to look at: it always reaches the end of the document
   * in its direction, and otherwise goes on until the counter has run out.
   */
  function Reach(c: Cursor, n: nat, previous: bool): int {
    var counted := if c.pagesToSearch < 0 then 1 else c.pagesToSearch + 1;
    if !c.wrapped && counted < PagesAhead(c, n, previous) then PagesAhead(c, n, previous) else counted
  }

  /** The first page with a match, if it is within reach, is where the search stops. */
  lemma {:induction false} SearchReaches(pm: map<nat, PageMatches>, n: nat, previous: bool, c: Cursor, k: nat)
    requires 0 <= c.pageIdx < n && k <= n && k < Reach(c, n, previous)
    requires forall j: nat :: j < k ==> EmptyPage(pm, PageAt(c.pageIdx, j, n, previous))
    requires NonEmptyPage(pm, PageAt(c.pageIdx, k, n, previous))
    ensures var p := PageAt(c.pageIdx, k, n, previous);
            Search(pm, n, previous, c)
            == Hit(Cursor(p, Some(FirstMatch(pm[p], previous)), c.wrapped || Crosses(c.pageIdx, k, n, previous),
                          c.pagesToSearch - k))
    decreases k
  {
    if k != 0 {
      assert EmptyPage(pm, PageAt(c.pageIdx, 0, n, previous));
      var next := AdvanceOffsetPage(c, n, previous);
      forall j: nat | j < k
        ensures PageAt(next.pageIdx, j, n, previous) == PageAt(c.pageIdx, j + 1, n, previous)
      {
      }
      SearchReaches(pm, n, previous, next, k - 1);
    }
  }

  /** If every page within reach is empty, the search misses. */
  lemma {:induction false} SearchGivesUp(pm: map<nat, PageMatches>, n: nat, previous: bool, c: Cursor)
    requires 0 <= c.pageIdx < n
    requires forall k: nat :: k < n && k < Reach(c, n, previous) ==> EmptyPage(pm, PageAt(c.pageIdx, k, n, previous))
    ensures Search(pm, n, previous, c).Miss?
    decreases !c.wrapped, if c.wrapped then c.pagesToSearch + 1 else PagesAhead(c, n, previous)
  {
    assert EmptyPage(pm, PageAt(c.pageIdx, 0, n, previous));
    var next := AdvanceOffsetPage(c, n, previous);
    if !(next.wrapped && next.pagesToSearch < 0) {
      forall k: nat | k < n && k < Reach(next, n, previous)
        ensures EmptyPage(pm, PageAt(next.pageIdx, k, n, previous))
      {
        if k + 1 < n {
          assert PageAt(next.pageIdx, k, n, previous) == PageAt(c.pageIdx, k + 1, n, previous);
        } else {
          assert PageAt(next.pageIdx, k, n, previous) == PageAt(c.pageIdx, 0, n, previous);
        }
      }
      SearchGivesUp(pm, n, previous, next);
    }
  }

  /** How many pages the search looks at. */
  function PagesInspected(pm: map<nat, PageMatches>, n: nat, previous: bool, c: Cursor): nat
    requires 0 <= c.pageIdx < n
    decreases !c.wrapped, if c.wrapped then c.pagesToSearch + 1 else PagesAhead(c, n, previous)
  {
    if !(c.pageIdx in pm) || pm[c.pageIdx].starts != [] then 1
    else
      var next := AdvanceOffsetPage(c, n, previous);
      if next.wrapped && next.pagesToSearch < 0 then 1 else 1 + PagesInspected(pm, n, previous, next)
  }

  /** From any state at all the search stops, having looked at no more pages than are within reach. */
  lemma {:induction false} InspectionBound(pm: map<nat, PageMatches>, n: nat, previous: bool, c: Cursor)
    requires 0 <= c.pageIdx < n
    ensures PagesInspected(pm, n, previous, c) <= Reach(c, n, previous)
    ensures Search(pm, n, previous, c).Miss? ==> PagesInspected(pm, n, previous, c) == Reach(c, n, previous)
    decreases !c.wrapped, if c.wrapped then c.pagesToSearch + 1 else PagesAhead(c, n, previous)
  {
    if EmptyPage(pm, c.pageIdx) {
      var next := AdvanceOffsetPage(c, n, previous);
      if !(next.wrapped && next.pagesToSearch < 0) {
        InspectionBound(pm, n, previous, next);
      }
    }
  }

  /** The distance to the first page with a match, going round from `start`. */
  lemma {:induction false} FirstNonEmpty(pm: map<nat, PageMatches>, n: nat, previous: bool, start: int, i: nat) returns (k: nat)
    requires 0 <= start < n && i < n && AllReady(pm, n) && NonEmptyPage(pm, i)
    ensures k < n && NonEmptyPage(pm, PageAt(start, k, n, previous))
    ensures forall j: nat :: j < k ==> EmptyPage(pm, PageAt(start, j, n, previous))
    ensures k <= Distance(start, i, n, previous)
  {
    var d := Distance(start, i, n, previous);
    k := 0;
    while EmptyPage(pm, PageAt(start, k, n, previous))
      invariant k <= d
      invariant forall j: nat :: j < k ==> EmptyPage(pm, PageAt(start, j, n, previous))
      decreases d - k
    {
      assert k != d;
      k := k + 1;
    }
  }

  /** How far page `i` lies ahead of `start` in the search direction. */
  function Distance(start: int, i: int, n: nat, previous: bool): (d: nat)
    requires 0 <= start < n && 0 <= i < n
    ensures d < n && PageAt(start, d, n, previous) == i
  {
    if previous then (if i <= start then start - i else start - i + n)
    else (if start <= i then i - start else i - start + n)
  }

  /** With enough pages in reach, a search misses only if there is nothing to find. */
  lemma {:induction false} LongSearchIsComplete(pm: map<nat, PageMatches>, n: nat, previous: bool, c: Cursor)
    requires 0 <= c.pageIdx < n && AllReady(pm, n) && n <= Reach(c, n, previous)
    ensures !Search(pm, n, previous, c).Parked?
    ensures Search(pm, n, previous, c).Miss? <==> forall i: nat :: i < n ==> EmptyPage(pm, i)
  {
    if forall i: nat :: i < n ==> EmptyPage(pm, i) {
      SearchGivesUp(pm, n, previous, c);
    } else {
      var i: nat :| i < n && !EmptyPage(pm, i);
      var k := FirstNonEmpty(pm, n, previous, c.pageIdx, i);
      SearchReaches(pm, n, previous, c, k);
    }
  }

  /** A search that has just started stops after at most n + 1 pages, and misses only if there is nothing. */
  lemma {:induction false} NewSearchIsComplete(pm: map<nat, PageMatches>, n: nat, previous: bool, c: Cursor)
    requires 0 <= c.pageIdx < n && AllReady(pm, n) && c.pagesToSearch == n
    ensures !Search(pm, n, previous, c).Parked?
    ensures Search(pm, n, previous, c).Miss? <==> forall i: nat :: i < n ==> EmptyPage(pm, i)
    ensures PagesInspected(pm, n, previous, c) <= n + 1
  {
    InspectionBound(pm, n, previous, c);
    LongSearchIsComplete(pm, n, previous, c);
  }

  // ---- When "not found" can be believed ---------------------------------------------------

  ghost predicate PartOf(pm: map<nat, PageMatches>, all: map<nat, PageMatches>) {
    forall i :: i in pm ==> i in all && pm[i] == all[i]
  }

  /** Whatever the pages not yet computed hold, a search that misses has missed nothing. */
  ghost predicate MissIsBelievable(pm: map<nat, PageMatches>, n: nat, previous: bool, c: Cursor)
    requires 0 <= c.pageIdx < n
  {
    forall all :: PartOf(pm, all) && AllReady(all, n) && Search(all, n, previous, c).Miss? ==>
      forall i: nat :: i < n ==> EmptyPage(all, i)
  }

  /** The pages computed so far, and all others empty but for one match on page `p`. */
  function OneMore(pm: map<nat, PageMatches>, n: nat, p: int): (all: map<nat, PageMatches>)
    ensures forall i: nat :: i < n || i in pm ==> i in all
    ensures forall i: nat :: i in all ==>
              if i in pm then all[i] == pm[i] else i < n && all[i] == PageMatches(if i == p then [0] else [], None)
  {
    if n == 0 then pm
    else
      var most := OneMore(pm, n - 1, p);
      if n - 1 in pm then most else most[n - 1 := PageMatches(if n - 1 == p then [0] else [], None)]
  }

  /** A page within reach that is known to have a match, so that the search cannot miss. */
  ghost predicate SureToHit(pm: map<nat, PageMatches>, n: nat, previous: bool, c: Cursor) {
    exists k: nat :: k < n && k < Reach(c, n, previous) && NonEmptyPage(pm, PageAt(c.pageIdx, k, n, previous))
  }

  /** Every page out of reach is already known to be empty. */
  ghost predicate RestEmpty(pm: map<nat, PageMatches>, n: nat, previous: bool, c: Cursor) {
    forall k: nat :: k < n && k >= Reach(c, n, previous) ==> EmptyPage(pm, PageAt(c.pageIdx, k, n, previous))
  }

  /** A page out of reach that is not known to be empty may hold the only match. */
  lemma {:induction false} OverlookedMatch(pm: map<nat, PageMatches>, n: nat, previous: bool, c: Cursor, k: nat)
    requires 0 <= c.pageIdx < n && !SureToHit(pm, n, previous, c)
    requires k < n && k >= Reach(c, n, previous) && !EmptyPage(pm, PageAt(c.pageIdx, k, n, previous))
    ensures !MissIsBelievable(pm, n, previous, c)
  {
    var p := PageAt(c.pageIdx, k, n, previous);
    var all := OneMore(pm, n, p);
    forall j: nat | j < n && j < Reach(c, n, previous)
      ensures EmptyPage(all, PageAt(c.pageIdx, j, n, previous))
    {
      var q: nat := PageAt(c.pageIdx, j, n, previous);
      assert q != p && q in all;
    }
    SearchGivesUp(all, n, previous, c);
    assert p in all && !EmptyPage(all, p);
    assert PartOf(pm, all);
  }

  /** Going round far enough, a match on any page within reach is found. */
  lemma {:induction false} MissedNothing(all: map<nat, PageMatches>, n: nat, previous: bool, c: Cursor, i: nat)
    requires 0 <= c.pageIdx < n && AllReady(all, n) && Search(all, n, previous, c).Miss?
    requires i < n && Distance(c.pageIdx, i, n, previous) < Reach(c, n, previous)
    ensures EmptyPage(all, i)
  {
    if !EmptyPage(all, i) {
      var k := FirstNonEmpty(all, n, previous, c.pageIdx, i);
      SearchReaches(all, n, previous, c, k);
    }
  }

  /**
   * Exactly when "not found" can be believed, given the pages computed so far: if and only if every page
   * out of reach is already known to be empty (or the search is sure to hit a match within reach).
   */
  lemma {:induction false} BelievableIff(pm: map<nat, PageMatches>, n: nat, previous: bool, c: Cursor)
    requires 0 <= c.pageIdx < n
    ensures MissIsBelievable(pm, n, previous, c) <==> SureToHit(pm, n, previous, c) || RestEmpty(pm, n, previous, c)
  {
    if SureToHit(pm, n, previous, c) {
      var k: nat :| k < n && k < Reach(c, n, previous) && NonEmptyPage(pm, PageAt(c.pageIdx, k, n, previous));
      forall all | PartOf(pm, all) && AllReady(all, n)
        ensures !Search(all, n, previous, c).Miss?
      {
        if Search(all, n, previous, c).Miss? {
          DistanceOf(c.pageIdx, k, n, previous);
          MissedNothing(all, n, previous, c, PageAt(c.pageIdx, k, n, previous));
        }
      }
    } else if RestEmpty(pm, n, previous, c) {
      forall all | PartOf(pm, all) && AllReady(all, n) && Search(all, n, previous, c).Miss?
        ensures forall i: nat :: i < n ==> EmptyPage(all, i)
      {
        forall i: nat | i < n
          ensures EmptyPage(all, i)
        {
          if Distance(c.pageIdx, i, n, previous) < Reach(c, n, previous) {
            MissedNothing(all, n, previous, c, i);
          }
        }
      }
    } else {
      var k: nat :| k < n && k >= Reach(c, n, previous) && !EmptyPage(pm, PageAt(c.pageIdx, k, n, previous));
      OverlookedMatch(pm, n, previous, c, k);
    }
  }

  lemma {:induction false} DistanceOf(start: int, k: nat, n: nat, previous: bool)
    requires 0 <= start < n && k < n
    ensures 0 <= PageAt(start, k, n, previous) < n && Distance(start, PageAt(start, k, n, previous), n, previous) == k
  {
  }

  /** Before any page is computed: if and only if the whole document is within reach. */
  lemma {:induction false} CompleteIffInReach(n: nat, previous: bool, c: Cursor)
    requires 0 <= c.pageIdx < n
    ensures MissIsBelievable(map[], n, previous, c) <==> n <= Reach(c, n, previous)
  {
    BelievableIff(map[], n, previous, c);
    if Reach(c, n, previous) < n {
      assert !EmptyPage(map[], PageAt(c.pageIdx, Reach(c, n, previous), n, previous));
    }
  }
}
