/** Multi-term search on one page: calcFindWordMatch and the pruning in _prepareMatches. */
module WordMatch {
  import opened PhraseMatch
  import opened Sorting

  /** A match: its start on the page and its length. */
  datatype Interval = Interval(start: nat, length: nat) {
    function End(): nat { start + length }
  }

  predicate Inside(x: Interval, y: Interval) {
    y.start <= x.start && x.End() <= y.End()
  }

  /** An element of the working array; `skipped` is set when the element is pruned. */
  datatype Entry = Entry(interval: Interval, skipped: bool)

  function IntervalKey(x: Interval): (int, int) { (x.start, x.length) }

  ghost predicate Sorted(s: seq<Interval>) {
    forall i, j :: 0 <= i < j < |s| ==> Precedes(IntervalKey(s[i]), IntervalKey(s[j]))
  }

  // ---- What the pruning promises -------------------------------------------------

  /** No other input interval contains `x`. */
  ghost predicate Maximal(input: seq<Interval>, x: Interval) {
    forall y :: y in input && Inside(x, y) ==> y == x
  }

  ghost predicate StrictlyIncreasing(kept: seq<Interval>) {
    forall i, j :: 0 <= i < j < |kept| ==> kept[i].start < kept[j].start && kept[i].End() < kept[j].End()
  }

  ghost predicate IsPruned(input: seq<Interval>, kept: seq<Interval>) {
    && StrictlyIncreasing(kept)
    && (forall x :: x in kept <==> x in input && Maximal(input, x))
    && (forall x :: x in input ==> exists y :: y in kept && Inside(x, y))
  }

  // ---- The naive reference: keep an index unless another one dominates it ---------

  /** Index `k` makes index `c` redundant: a larger interval, or a later copy of the same one. */
  predicate Dominates(s: seq<Interval>, k: nat, c: nat)
    requires k < |s| && c < |s|
  {
    Inside(s[c], s[k]) && (s[k] == s[c] ==> c < k)
  }

  predicate Dominated(s: seq<Interval>, c: nat)
    requires c < |s|
  {
    exists k: nat :: k < |s| && Dominates(s, k, c)
  }

  /** The undominated elements among the first `n`. */
  function Undominated(s: seq<Interval>, n: nat): seq<Interval>
    requires n <= |s|
  {
    if n == 0 then []
    else Undominated(s, n - 1) + (if Dominated(s, n - 1) then [] else [s[n - 1]])
  }

  /** Following dominators upwards always ends at an undominated element. */
  lemma {:induction false} UndominatedAbove(s: seq<Interval>, c: nat) returns (k: nat)
    requires c < |s|
    ensures k < |s| && !Dominated(s, k) && Inside(s[c], s[k])
    ensures k != c ==> Dominates(s, k, c)
    decreases set j: nat | j < |s| && Dominates(s, j, c)
  {
    k := c;
    if Dominated(s, c) {
      var d: nat :| d < |s| && Dominates(s, d, c);
      var here := set j: nat | j < |s| && Dominates(s, j, c);
      var above := set j: nat | j < |s| && Dominates(s, j, d);
      assert above <= here;
      assert d in here && d !in above;
      k := UndominatedAbove(s, d);
    }
  }

  /** Undominated indices have strictly increasing starts and ends. */
  lemma {:induction false} UndominatedIncrease(s: seq<Interval>, i: nat, j: nat)
    requires Sorted(s) && i < j < |s| && !Dominated(s, i) && !Dominated(s, j)
    ensures s[i].start < s[j].start && s[i].End() < s[j].End()
  {
    assert !Dominates(s, j, i) && !Dominates(s, i, j);
    assert Precedes(IntervalKey(s[i]), IntervalKey(s[j]));
  }

  /** The test made by isSubTerm decides domination: look one step ahead, then at kept ones behind. */
  lemma {:induction false} SubTermTest(s: seq<Interval>, c: nat)
    requires Sorted(s) && c < |s|
    ensures Dominated(s, c)
       <==> (c + 1 < |s| && s[c].start == s[c + 1].start)
            || (exists j: nat :: j < c && !Dominated(s, j) && s[c].End() <= s[j].End())
  {
    if c + 1 < |s| && s[c].start == s[c + 1].start {
      assert Precedes(IntervalKey(s[c]), IntervalKey(s[c + 1]));
      assert Dominates(s, c + 1, c);
    } else if j: nat :| j < c && !Dominated(s, j) && s[c].End() <= s[j].End() {
      assert Precedes(IntervalKey(s[j]), IntervalKey(s[c]));
      assert !Dominates(s, c, j);
      assert Dominates(s, j, c);
    } else if Dominated(s, c) {
      var k := UndominatedAbove(s, c);
      assert false;
    }
  }

  /** The kept elements are exactly the undominated ones. */
  lemma {:induction false} UndominatedMembers(s: seq<Interval>, n: nat, x: Interval)
    requires n <= |s|
    ensures x in Undominated(s, n) <==> exists i: nat :: i < n && !Dominated(s, i) && s[i] == x
  {
    if n != 0 {
      UndominatedMembers(s, n - 1, x);
    }
  }

  lemma {:induction false} UndominatedStrictlyIncreasing(s: seq<Interval>, n: nat)
    requires Sorted(s) && n <= |s|
    ensures StrictlyIncreasing(Undominated(s, n))
  {
    if n != 0 {
      UndominatedStrictlyIncreasing(s, n - 1);
      var front := Undominated(s, n - 1);
      if !Dominated(s, n - 1) {
        forall k | 0 <= k < |front|
          ensures front[k].start < s[n - 1].start && front[k].End() < s[n - 1].End()
        {
          UndominatedMembers(s, n - 1, front[k]);
          var i: nat :| i < n - 1 && !Dominated(s, i) && s[i] == front[k];
          UndominatedIncrease(s, i, n - 1);
        }
      }
    }
  }

  lemma {:induction false} KeptIsMaximal(s: seq<Interval>, x: Interval)
    requires x in Undominated(s, |s|)
    ensures x in s && Maximal(s, x)
  {
    UndominatedMembers(s, |s|, x);
    var i: nat :| i < |s| && !Dominated(s, i) && s[i] == x;
    forall y | y in s && Inside(x, y)
      ensures y == x
    {
      var j: nat :| j < |s| && s[j] == y;
      assert !Dominates(s, j, i);
    }
  }

  lemma {:induction false} KeptCovers(s: seq<Interval>, x: Interval) returns (y: Interval)
    requires x in s
    ensures y in Undominated(s, |s|) && y in s && Inside(x, y)
  {
    var c: nat :| c < |s| && s[c] == x;
    var k := UndominatedAbove(s, c);
    y := s[k];
    UndominatedMembers(s, |s|, y);
  }

  lemma {:induction false} UndominatedIsPruned(s: seq<Interval>)
    requires Sorted(s)
    ensures IsPruned(s, Undominated(s, |s|))
  {
    var kept := Undominated(s, |s|);
    UndominatedStrictlyIncreasing(s, |s|);
    forall x | x in kept
      ensures x in s && Maximal(s, x)
    {
      KeptIsMaximal(s, x);
    }
    forall x | x in s
      ensures exists y :: y in kept && Inside(x, y)
      ensures Maximal(s, x) ==> x in kept
    {
      var y := KeptCovers(s, x);
    }
  }

  // ---- The working array ----------------------------------------------------------

  /** The array holds the sorted intervals `s`, with the first `n` flags decided and the rest clear. */
  ghost predicate Flagged(a: seq<Entry>, s: seq<Interval>, n: nat) {
    && |a| == |s|
    && (forall i: nat :: i < |s| ==> a[i].interval == s[i])
    && (forall i: nat :: i < n && i < |s| ==> a[i].skipped == Dominated(s, i))
    && (forall i: nat :: n <= i < |s| ==> !a[i].skipped)
  }

  /** A kept element that ends before `c` starts rules out every kept element before it. */
  lemma {:induction false} BreakIsSafe(s: seq<Interval>, i: nat, c: nat)
    requires Sorted(s) && i < c < |s| && !Dominated(s, i) && s[i].End() < s[c].start
    ensures forall j: nat :: j <= i && !Dominated(s, j) ==> s[j].End() < s[c].End()
  {
    forall j: nat | j < i && !Dominated(s, j)
      ensures s[j].End() < s[c].End()
    {
      UndominatedIncrease(s, j, i);
    }
  }

  lemma {:induction false} FlagRedundant(a: seq<Entry>, s: seq<Interval>, c: nat)
    requires c < |a| && Flagged(a, s, c) && Dominated(s, c)
    ensures Flagged(a[c := Entry(a[c].interval, true)], s, c + 1)
  {
  }

  /** isSubTerm: decides whether the element at `currentIndex` is redundant and flags it. */
  method IsSubTerm(a: array<Entry>, currentIndex: nat, ghost s: seq<Interval>) returns (sub: bool)
    requires Sorted(s) && currentIndex < a.Length && Flagged(a[..], s, currentIndex)
    modifies a
    ensures sub == Dominated(s, currentIndex)
    ensures Flagged(a[..], s, currentIndex + 1)
  {
    SubTermTest(s, currentIndex);
    ghost var before := a[..];
    if Dominated(s, currentIndex) {
      FlagRedundant(before, s, currentIndex);
    }
    var currentElem := a[currentIndex].interval;
    if currentIndex < a.Length - 1 && currentElem.start == a[currentIndex + 1].interval.start {
      a[currentIndex] := Entry(currentElem, true);
      assert a[..] == before[currentIndex := Entry(currentElem, true)];
      return true;
    }
    var i := currentIndex - 1;
    while i >= 0
      invariant -1 <= i < currentIndex
      invariant forall j: nat :: i < j < currentIndex && !Dominated(s, j) ==> s[j].End() < currentElem.End()
    {
      var prevElem := a[i];
      assert prevElem == a[..][i];
      if !prevElem.skipped {
        if prevElem.interval.End() < currentElem.start {
          BreakIsSafe(s, i, currentIndex);
          break;
        }
        if prevElem.interval.End() >= currentElem.End() {
          a[currentIndex] := Entry(currentElem, true);
          assert a[..] == before[currentIndex := Entry(currentElem, true)];
          return true;
        }
      }
      i := i - 1;
    }
    return false;
  }

  function Intervals(a: seq<Entry>): (r: seq<Interval>)
    ensures |r| == |a| && forall i :: 0 <= i < |a| ==> r[i] == a[i].interval
  {
    if a == [] then [] else [a[0].interval] + Intervals(a[1..])
  }

  /** Pairs the two result arrays up again. */
  function Zip(matches: seq<nat>, matchesLength: seq<nat>): (r: seq<Interval>)
    requires |matches| == |matchesLength|
    ensures |r| == |matches| && forall i :: 0 <= i < |r| ==> r[i] == Interval(matches[i], matchesLength[i])
  {
    if matches == [] then [] else [Interval(matches[0], matchesLength[0])] + Zip(matches[1..], matchesLength[1..])
  }

  /** Emitting element `i` when it is not flagged extends the output to the next undominated prefix. */
  lemma {:induction false} EmitNext(s: seq<Interval>, i: nat, matches: seq<nat>, matchesLength: seq<nat>)
    requires i < |s| && |matches| == |matchesLength| && Zip(matches, matchesLength) == Undominated(s, i)
    ensures Dominated(s, i) ==> Zip(matches, matchesLength) == Undominated(s, i + 1)
    ensures !Dominated(s, i) ==>
              Zip(matches + [s[i].start], matchesLength + [s[i].length]) == Undominated(s, i + 1)
  {
    assert Zip(matches + [s[i].start], matchesLength + [s[i].length]) == Zip(matches, matchesLength) + [s[i]];
  }

  function SortIntervals(input: seq<Interval>): seq<Interval> { Sort(input, IntervalKey) }

  /** The list the pruning produces, as a function of the collected matches. */
  function Prune(input: seq<Interval>): seq<Interval> {
    Undominated(SortIntervals(input), |SortIntervals(input)|)
  }

  lemma {:induction false} SortsIntervals(input: seq<Interval>)
    ensures Sorted(SortIntervals(input)) && |SortIntervals(input)| == |input|
  {
    SortSorts(input, IntervalKey);
  }

  lemma {:induction false} PruneIsPruned(input: seq<Interval>)
    ensures IsPruned(input, Prune(input))
  {
    var s := SortIntervals(input);
    SortSorts(input, IntervalKey);
    UndominatedIsPruned(s);
    forall x
      ensures Maximal(s, x) <==> Maximal(input, x)
    {
    }
  }

  /** The pruned list does not depend on the order in which the matches were collected. */
  lemma {:induction false} PrunedUnique(a: seq<Interval>, b: seq<Interval>)
    requires StrictlyIncreasing(a) && StrictlyIncreasing(b)
    requires forall x :: x in a <==> x in b
    ensures a == b
    decreases |a|
  {
    assert a != [] ==> a[0] in a;
    assert b != [] ==> b[0] in b;
    if a != [] && b != [] {
      assert a[0] in b && b[0] in a;
      assert a[0] == b[0];
      forall x
        ensures x in a[1..] <==> x in b[1..]
      {
        assert x in a <==> x == a[0] || x in a[1..];
        assert x in b <==> x == b[0] || x in b[1..];
      }
      PrunedUnique(a[1..], b[1..]);
    }
  }

  method SortInPlace(a: array<Entry>)
    requires forall i :: 0 <= i < a.Length ==> !a[i].skipped
    modifies a
    ensures Flagged(a[..], SortIntervals(Intervals(old(a[..]))), 0)
  {
    var s := SortIntervals(Intervals(a[..]));
    SortsIntervals(Intervals(a[..]));
    forall i | 0 <= i < a.Length {
      a[i] := Entry(s[i], false);
    }
  }

  /** _prepareMatches: sorts and flags the working array in place and emits what is left unflagged. */
  method PrepareMatches(matchesWithLength: array<Entry>) returns (matches: seq<nat>, matchesLength: seq<nat>)
    requires forall i :: 0 <= i < matchesWithLength.Length ==> !matchesWithLength[i].skipped
    modifies matchesWithLength
    ensures |matches| == |matchesLength|
    ensures Zip(matches, matchesLength) == Prune(Intervals(old(matchesWithLength[..])))
    ensures IsPruned(Intervals(old(matchesWithLength[..])), Zip(matches, matchesLength))
  {
    ghost var input := Intervals(matchesWithLength[..]);
    ghost var s := SortIntervals(input);
    SortsIntervals(input);
    SortInPlace(matchesWithLength);
    matches, matchesLength := [], [];
    for i := 0 to matchesWithLength.Length
      invariant Flagged(matchesWithLength[..], s, i)
      invariant |matches| == |matchesLength| && Zip(matches, matchesLength) == Undominated(s, i)
    {
      EmitNext(s, i, matches, matchesLength);
      var skip := IsSubTerm(matchesWithLength, i, s);
      if !skip {
        var elem := matchesWithLength[i].interval;
        assert elem == matchesWithLength[..][i].interval == s[i];
        matches, matchesLength := matches + [elem.start], matchesLength + [elem.length];
      }
    }
    PruneIsPruned(input);
  }

  // ---- Splitting the query and collecting the matches ------------------------------

  /** The characters matched by the regular expression class \s. */
  predicate IsSpace(c: char) {
    c in {' ', '\t', '\n', '\r', '\U{000B}', '\U{000C}', '\U{00A0}', '\U{1680}', '\U{2028}', '\U{2029}',
          '\U{202F}', '\U{205F}', '\U{3000}', '\U{FEFF}'}
    || '\U{2000}' <= c <= '\U{200A}'
  }

  type Word = w: string | w != "" witness "a"

  /** Length of the run of non-space characters at the front of `s`. */
  function RunLength(s: string): (n: nat)
    ensures n <= |s|
    ensures forall i :: 0 <= i < n ==> !IsSpace(s[i])
    ensures n < |s| ==> IsSpace(s[n])
  {
    if s == "" || IsSpace(s[0]) then 0 else 1 + RunLength(s[1..])
  }

  /** query.match(/\S+/g), with the empty list where the regular expression finds nothing. */
  function Words(query: string): (words: seq<Word>)
    ensures forall w :: w in words ==> forall i :: 0 <= i < |w| ==> !IsSpace(w[i])
    ensures words == [] <==> forall i :: 0 <= i < |query| ==> IsSpace(query[i])
  {
    if query == "" then []
    else if IsSpace(query[0]) then
      var rest := Words(query[1..]);
      assert query == [query[0]] + query[1..];
      rest
    else
      var n := RunLength(query);
      [query[..n]] + Words(query[n..])
  }

  lemma {:induction false} UnflaggedIntervals(a: seq<Entry>, collected: seq<Interval>)
    requires |a| == |collected| && forall i :: 0 <= i < |a| ==> a[i] == Entry(collected[i], false)
    ensures Intervals(a) == collected
  {
  }

  function WithLength(matches: seq<nat>, length: nat): (r: seq<Interval>)
    ensures |r| == |matches| && forall i :: 0 <= i < |r| ==> r[i] == Interval(matches[i], length)
  {
    if matches == [] then [] else [Interval(matches[0], length)] + WithLength(matches[1..], length)
  }

  /** The matches of every word, in the order of the words. */
  function Collected(words: seq<Word>, content: string): seq<Interval>
  {
    if words == [] then []
    else
      var last := words[|words| - 1];
      Collected(words[..|words| - 1], content) + WithLength(PhraseMatches(content, last), |last|)
  }

  function WordMatches(query: string, content: string): seq<Interval> {
    Prune(Collected(Words(query), content))
  }

  lemma {:induction false} CollectNext(words: seq<Word>, i: nat, content: string)
    requires i < |words|
    ensures Collected(words[..i + 1], content)
         == Collected(words[..i], content) + WithLength(PhraseMatches(content, words[i]), |words[i]|)
  {
    assert words[..i + 1][..i] == words[..i];
  }

  /** calcFindWordMatch, for a query that contains at least one word. */
  method CalcFindWordMatch(query: string, pageContent: string) returns (matches: seq<nat>, matchesLength: seq<nat>)
    requires Words(query) != []
    ensures |matches| == |matchesLength|
    ensures Zip(matches, matchesLength) == WordMatches(query, pageContent)
    ensures IsPruned(Collected(Words(query), pageContent), Zip(matches, matchesLength))
  {
    var queryArray := Words(query);
    var collected: seq<Interval> := [];
    for i := 0 to |queryArray|
      invariant collected == Collected(queryArray[..i], pageContent)
    {
      CollectNext(queryArray, i, pageContent);
      var subquery := queryArray[i];
      var found := CalcFindPhraseMatch(subquery, pageContent);
      collected := collected + WithLength(found, |subquery|);
    }
    assert queryArray[..|queryArray|] == queryArray;
    var matchesWithLength := new Entry[|collected|](i requires 0 <= i < |collected| => Entry(collected[i], false));
    UnflaggedIntervals(matchesWithLength[..], collected);
    matches, matchesLength := PrepareMatches(matchesWithLength);
  }
}
