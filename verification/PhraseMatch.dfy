/** Phrase search on the text of one page: PDFFindController.calcFindPhraseMatch. */
module PhraseMatch {

  predicate OccursAt(content: string, query: string, k: int) {
    0 <= k && k + |query| <= |content| && content[k..k + |query|] == query
  }

  /** All positions at which `query` occurs, overlapping ones included. */
  ghost function Occurrences(content: string, query: string): set<nat> {
    set k: nat | k <= |content| && OccursAt(content, query, k)
  }

  /** String.prototype.indexOf with a non-negative start position. */
  function IndexOf(content: string, query: string, from: nat): (k: int)
    ensures k == -1 || from <= k <= |content| - |query|
    decreases |content| - from
  {
    if |content| < from + |query| then -1
    else if OccursAt(content, query, from) then from
    else if from == |content| then -1
    else IndexOf(content, query, from + 1)
  }

  /** The first occurrence from the start position on, or -1 if there is none. */
  lemma {:induction false} IndexOfIsFirst(content: string, query: string, from: nat)
    ensures var occ, k := Occurrences(content, query), IndexOf(content, query, from);
            && (k == -1 || (from <= k && k in occ))
            && (forall j :: j in occ && from <= j && (k == -1 || j < k) ==> false)
    decreases |content| - from
  {
    if from + |query| <= |content| && !OccursAt(content, query, from) && from < |content| {
      IndexOfIsFirst(content, query, from + 1);
    }
  }

  /** The matches found by repeating indexOf from the end of the previous match. */
  function MatchesFrom(content: string, query: string, from: nat): seq<nat>
    requires query != ""
    decreases |content| - from
  {
    var k := IndexOf(content, query, from);
    if k == -1 then [] else [k as nat] + MatchesFrom(content, query, k + |query|)
  }

  /** One turn of the search loop moves a match from the pending list to the found one. */
  lemma {:induction false} MatchesFromStep(content: string, query: string, from: nat, found: seq<nat>, k: int)
    requires query != "" && k == IndexOf(content, query, from)
    ensures k == -1 ==> found + MatchesFrom(content, query, from) == found
    ensures k != -1 ==> found + MatchesFrom(content, query, from) == (found + [k]) + MatchesFrom(content, query, k + |query|)
  {
  }

  function PhraseMatches(content: string, query: string): seq<nat>
    requires query != ""
  {
    MatchesFrom(content, query, 0)
  }

  /** Occurrence `k` starts inside one of the matches. */
  predicate Covered(matches: seq<nat>, length: nat, k: int) {
    exists i :: 0 <= i < |matches| && matches[i] <= k < matches[i] + length
  }

  /** Consecutive matches do not overlap (so the list is strictly increasing). */
  predicate Disjoint(matches: seq<nat>, length: nat) {
    forall i, j :: 0 <= i < j < |matches| ==> matches[i] + length <= matches[j]
  }

  /**
   * What a phrase search promises: from position `from` on it reports genuine, increasing,
   * non-overlapping occurrences, and every occurrence starts inside a reported one.
   */
  ghost predicate IsSelection(occ: set<nat>, length: nat, matches: seq<nat>, from: nat) {
    && (forall i :: 0 <= i < |matches| ==> from <= matches[i] && matches[i] in occ)
    && Disjoint(matches, length)
    && (forall k {:trigger Covered(matches, length, k)} :: k in occ && from <= k ==> Covered(matches, length, k))
  }

  lemma {:induction false} PrependSelection(occ: set<nat>, length: nat, k: nat, rest: seq<nat>, from: nat)
    requires length > 0 && from <= k && k in occ
    requires forall j :: j in occ && from <= j < k ==> false
    requires IsSelection(occ, length, rest, k + length)
    ensures IsSelection(occ, length, [k] + rest, from)
  {
    var all := [k] + rest;
    forall j | j in occ && from <= j
      ensures Covered(all, length, j)
    {
      if j < k + length {
        assert all[0] <= j < all[0] + length;
      } else {
        assert Covered(rest, length, j);
        var i :| 0 <= i < |rest| && rest[i] <= j < rest[i] + length;
        assert all[i + 1] == rest[i];
      }
    }
  }

  lemma {:induction false} MatchesFromIsSelection(content: string, query: string, from: nat)
    requires query != ""
    ensures IsSelection(Occurrences(content, query), |query|, MatchesFrom(content, query, from), from)
    decreases |content| - from
  {
    IndexOfIsFirst(content, query, from);
    var k := IndexOf(content, query, from);
    if k != -1 {
      MatchesFromIsSelection(content, query, k + |query|);
      PrependSelection(Occurrences(content, query), |query|, k, MatchesFrom(content, query, k + |query|), from);
    }
  }

  lemma {:induction false} MatchesOccur(content: string, query: string, from: nat, m: nat)
    requires query != "" && m in MatchesFrom(content, query, from)
    ensures OccursAt(content, query, m)
    decreases |content| - from
  {
    var k := IndexOf(content, query, from);
    IndexOfIsFirst(content, query, from);
    if m != k {
      MatchesOccur(content, query, k + |query|, m);
    }
  }

  /** The promise determines the answer: two lists that meet it are equal. */
  lemma {:induction false} SelectionUnique(occ: set<nat>, length: nat, a: seq<nat>, b: seq<nat>, from: nat)
    requires length > 0
    requires IsSelection(occ, length, a, from) && IsSelection(occ, length, b, from)
    ensures a == b
    decreases |a|
  {
    if a == [] || b == [] {
      assert a != [] ==> !Covered(b, length, a[0]);
      assert b != [] ==> !Covered(a, length, b[0]);
    } else {
      assert Covered(b, length, a[0]) && Covered(a, length, b[0]);
      assert a[0] == b[0];
      TailIsSelection(occ, length, a, from);
      TailIsSelection(occ, length, b, from);
      SelectionUnique(occ, length, a[1..], b[1..], a[0] + length);
    }
  }

  lemma {:induction false} TailIsSelection(occ: set<nat>, length: nat, a: seq<nat>, from: nat)
    requires length > 0 && a != [] && IsSelection(occ, length, a, from)
    ensures IsSelection(occ, length, a[1..], a[0] + length)
  {
    assert from <= a[0];
    forall k | k in occ && a[0] + length <= k
      ensures Covered(a[1..], length, k)
    {
      assert Covered(a, length, k);
      var i :| 0 <= i < |a| && a[i] <= k < a[i] + length;
      assert a[1..][i - 1] == a[i];
    }
  }

  /** A set of occurrences no two of which overlap. */
  ghost predicate IsPacking(occ: set<nat>, length: nat, s: set<nat>) {
    s <= occ && (forall j, k :: j in s && k in s && j < k ==> j + length <= k)
  }

  /** Outside the last match, coverage comes from the earlier ones. */
  lemma {:induction false} CoveredByFront(matches: seq<nat>, length: nat, j: int)
    requires matches != [] && Covered(matches, length, j)
    requires !(matches[|matches| - 1] <= j < matches[|matches| - 1] + length)
    ensures Covered(matches[..|matches| - 1], length, j)
  {
    var i :| 0 <= i < |matches| && matches[i] <= j < matches[i] + length;
    assert matches[..|matches| - 1][i] == matches[i];
  }

  /** No set of non-overlapping occurrences is larger than the reported one. */
  lemma {:induction false} SelectionIsLargest(length: nat, matches: seq<nat>, s: set<nat>)
    requires forall k :: k in s ==> Covered(matches, length, k)
    requires forall j, k :: j in s && k in s && j < k ==> j + length <= k
    ensures |s| <= |matches|
    decreases |matches|
  {
    if s != {} {
      var some :| some in s;
      assert Covered(matches, length, some);
      var last := matches[|matches| - 1];
      var others := s;
      if k :| k in s && last <= k < last + length {
        // The only member of the packing that can start inside the last match.
        others := s - {k};
      }
      forall j | j in others
        ensures Covered(matches[..|matches| - 1], length, j)
      {
        CoveredByFront(matches, length, j);
      }
      SelectionIsLargest(length, matches[..|matches| - 1], others);
    }
  }

  /** The reported list: a selection, and no packing of occurrences is larger. */
  ghost predicate IsOptimal(content: string, query: string, matches: seq<nat>) {
    var occ := Occurrences(content, query);
    && IsSelection(occ, |query|, matches, 0)
    && forall s :: IsPacking(occ, |query|, s) ==> |s| <= |matches|
  }

  lemma {:induction false} PhraseMatchesOptimal(content: string, query: string)
    requires query != ""
    ensures IsOptimal(content, query, PhraseMatches(content, query))
  {
    MatchesFromIsSelection(content, query, 0);
    var matches := PhraseMatches(content, query);
    forall s | IsPacking(Occurrences(content, query), |query|, s)
      ensures |s| <= |matches|
    {
      assert forall k :: k in s ==> Covered(matches, |query|, k);
      SelectionIsLargest(|query|, matches, s);
    }
  }

  /** calcFindPhraseMatch: the loop over indexOf, for a non-empty query. */
  method CalcFindPhraseMatch(query: string, pageContent: string) returns (matches: seq<nat>)
    requires query != ""
    ensures matches == PhraseMatches(pageContent, query)
    ensures IsOptimal(pageContent, query, matches)
  {
    matches := [];
    var queryLen := |query|;
    var matchIdx := -queryLen;
    while true
      invariant -queryLen <= matchIdx <= |pageContent|
      invariant matches + MatchesFrom(pageContent, query, matchIdx + queryLen) == PhraseMatches(pageContent, query)
      decreases |pageContent| - matchIdx
    {
      var next := IndexOf(pageContent, query, matchIdx + queryLen);
      MatchesFromStep(pageContent, query, matchIdx + queryLen, matches, next);
      if next == -1 {
        break;
      }
      matchIdx, matches := next, matches + [next];
    }
    PhraseMatchesOptimal(pageContent, query);
  }
}
