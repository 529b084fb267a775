/** What a word search is about: all words of the query, and the matches of all of them. */
module QueryWords {
  import opened PhraseMatch
  import opened WordMatch

  // ---- The words of a query ----------------------------------------------------------------------

  /** A word of the query by its position: non-space characters between spaces or ends of the query. */
  predicate IsWordAt(query: string, x: Interval) {
    && 0 < x.length && x.End() <= |query| && (forall i :: x.start <= i < x.End() ==> !IsSpace(query[i]))
    && (x.start == 0 || IsSpace(query[x.start - 1])) && (x.End() == |query| || IsSpace(query[x.End()]))
  }

  /** All words from position `from` on, in order and once each. */
  ghost predicate AreWordsFrom(query: string, from: nat, runs: seq<Interval>) {
    && (forall k :: 0 <= k < |runs| ==> from <= runs[k].start && IsWordAt(query, runs[k]))
    && (forall j, k :: 0 <= j < k < |runs| ==> runs[j].End() < runs[k].start)
    && (forall x :: IsWordAt(query, x) && from <= x.start ==> x in runs)
  }

  function WordAt(query: string, x: Interval): Word
    requires IsWordAt(query, x)
  {
    query[x.start..x.End()]
  }

  /** The words of `query` are those at these positions. */
  ghost predicate Spells(words: seq<Word>, query: string, runs: seq<Interval>) {
    |words| == |runs| && forall k :: 0 <= k < |runs| ==> IsWordAt(query, runs[k]) && words[k] == WordAt(query, runs[k])
  }

  lemma {:induction false} SameWord(query: string, x: Interval, y: Interval)
    requires IsWordAt(query, x) && IsWordAt(query, y) && x.start <= y.start < x.End()
    ensures x == y
  {
  }

  /** A word and the words behind it. */
  lemma {:induction false} FirstWord(query: string, first: Interval, rest: seq<Interval>)
    requires IsWordAt(query, first) && AreWordsFrom(query, first.End(), rest)
    ensures AreWordsFrom(query, first.start, [first] + rest)
  {
    var runs := [first] + rest;
    forall j, k | 0 <= j < k < |runs|
      ensures runs[j].End() < runs[k].start
    {
      assert runs[k] == rest[k - 1] && IsWordAt(query, rest[k - 1]);
    }
    forall x | IsWordAt(query, x) && first.start <= x.start
      ensures x in runs
    {
      if x.start < first.End() {
        SameWord(query, first, x);
      }
    }
  }

  lemma {:induction false} SkipSpace(query: string, from: nat, runs: seq<Interval>)
    requires from < |query| && IsSpace(query[from]) && AreWordsFrom(query, from + 1, runs)
    ensures AreWordsFrom(query, from, runs) && Words(query[from..]) == Words(query[from + 1..])
  {
    assert query[from..][1..] == query[from + 1..];
  }

  lemma {:induction false} RunIsWord(query: string, from: nat, n: nat)
    requires from < |query| && !IsSpace(query[from]) && (from == 0 || IsSpace(query[from - 1]))
    requires n == RunLength(query[from..])
    ensures IsWordAt(query, Interval(from, n))
  {
    var s := query[from..];
    assert forall i :: from <= i < |query| ==> query[i] == s[i - from];
    assert !IsSpace(s[0]);
  }

  /** The run of non-space characters at position `from`, where no other begins before it. */
  lemma {:induction false} RunHere(query: string, from: nat) returns (first: Interval)
    requires from < |query| && !IsSpace(query[from]) && (from == 0 || IsSpace(query[from - 1]))
    ensures IsWordAt(query, first) && first.start == from
    ensures Words(query[from..]) == [WordAt(query, first)] + Words(query[first.End()..])
  {
    var n := RunLength(query[from..]);
    RunIsWord(query, from, n);
    first := Interval(from, n);
    SuffixParts(query, from, n);
    WordsBegin(query[from..], WordAt(query, first), query[first.End()..]);
  }

  lemma {:induction false} WordsBegin(s: string, w: Word, rest: string)
    requires s != "" && !IsSpace(s[0]) && w == s[..RunLength(s)] && rest == s[RunLength(s)..]
    ensures Words(s) == [w] + Words(rest)
  {
  }

  lemma {:induction false} SuffixParts(s: string, from: nat, n: nat)
    requires from + n <= |s|
    ensures s[from..][..n] == s[from..from + n] && s[from..][n..] == s[from + n..]
  {
  }

  lemma {:induction false} SpellsMore(words: seq<Word>, query: string, first: Interval, rest: seq<Interval>)
    requires IsWordAt(query, first) && Spells(words, query, rest)
    ensures Spells([WordAt(query, first)] + words, query, [first] + rest)
  {
  }

  lemma {:induction false} WordsFrom(query: string, from: nat) returns (runs: seq<Interval>)
    requires from <= |query|
    requires from == 0 || from == |query| || IsSpace(query[from - 1]) || IsSpace(query[from])
    ensures AreWordsFrom(query, from, runs) && Spells(Words(query[from..]), query, runs)
    decreases |query| - from, 1
  {
    if from == |query| {
      runs := [];
    } else if IsSpace(query[from]) {
      runs := WordsFrom(query, from + 1);
      SkipSpace(query, from, runs);
    } else {
      runs := WordsFromWord(query, from);
    }
  }

  lemma {:induction false} WordsFromWord(query: string, from: nat) returns (runs: seq<Interval>)
    requires from < |query| && !IsSpace(query[from]) && (from == 0 || IsSpace(query[from - 1]))
    ensures AreWordsFrom(query, from, runs) && Spells(Words(query[from..]), query, runs)
    decreases |query| - from, 0
  {
    var first := RunHere(query, from);
    var rest := WordsFrom(query, first.End());
    FirstWord(query, first, rest);
    SpellsMore(Words(query[first.End()..]), query, first, rest);
    runs := [first] + rest;
  }

  /** The words of a query are its maximal runs of non-space characters, in order and once each. */
  lemma {:induction false} WordsAreRuns(query: string) returns (runs: seq<Interval>)
    ensures AreWordsFrom(query, 0, runs) && Spells(Words(query), query, runs)
  {
    assert query[0..] == query;
    runs := WordsFrom(query, 0);
  }

  // ---- The matches of a word search ----------------------------------------------------------------

  /** `x` is a match of the phrase search for the word at `r`. */
  ghost predicate MatchesWordAt(query: string, content: string, r: Interval, x: Interval) {
    IsWordAt(query, r) && x.length == r.length && x.start in PhraseMatches(content, WordAt(query, r))
  }

  ghost predicate IsWordMatch(query: string, content: string, x: Interval) {
    exists r :: MatchesWordAt(query, content, r, x)
  }

  /**
   * What a word search promises: of the matches of all words exactly those that lie inside no other, in strict
   * order, and every match lies inside one of them.
   */
  ghost predicate IsWordSearch(query: string, content: string, kept: seq<Interval>) {
    && StrictlyIncreasing(kept)
    && (forall x :: x in kept <==>
          && IsWordMatch(query, content, x)
          && forall y :: IsWordMatch(query, content, y) && Inside(x, y) ==> y == x)
    && (forall x :: IsWordMatch(query, content, x) ==> exists y :: y in kept && Inside(x, y))
  }

  /** `x` is a match of the `k`-th word. */
  ghost predicate MatchesWord(words: seq<Word>, content: string, k: nat, x: Interval) {
    k < |words| && x.length == |words[k]| && x.start in PhraseMatches(content, words[k])
  }

  lemma {:induction false} WithLengthMember(found: seq<nat>, length: nat, x: Interval)
    ensures x in WithLength(found, length) <==> x.start in found && x.length == length
  {
    if x.start in found && x.length == length {
      var i :| 0 <= i < |found| && found[i] == x.start;
      assert WithLength(found, length)[i] == x;
    }
  }

  lemma {:induction false} CollectedMember(words: seq<Word>, content: string, x: Interval)
    ensures x in Collected(words, content) <==> exists k: nat :: MatchesWord(words, content, k, x)
  {
    if words != [] {
      var front, last := words[..|words| - 1], words[|words| - 1];
      CollectedMember(front, content, x);
      WithLengthMember(PhraseMatches(content, last), |last|, x);
      MatchesSplit(words, content, x);
    }
  }

  lemma {:induction false} MatchesSplit(words: seq<Word>, content: string, x: Interval)
    requires words != []
    ensures var front := words[..|words| - 1];
            (exists k: nat :: MatchesWord(words, content, k, x)) <==>
              (exists k: nat :: MatchesWord(front, content, k, x)) || MatchesWord(words, content, |words| - 1, x)
  {
    var front := words[..|words| - 1];
    assert forall k: nat :: k < |front| ==> front[k] == words[k];
    if k: nat :| MatchesWord(words, content, k, x) && k < |front| {
      assert MatchesWord(front, content, k, x);
    }
    if k: nat :| MatchesWord(front, content, k, x) {
      assert MatchesWord(words, content, k, x);
    }
  }

  lemma {:induction false} CollectedIsWordMatch(query: string, content: string, x: Interval)
    ensures x in Collected(Words(query), content) <==> IsWordMatch(query, content, x)
  {
    var runs := WordsAreRuns(query);
    CollectedMember(Words(query), content, x);
    WordAndRun(Words(query), query, content, runs, x);
  }

  lemma {:induction false} WordAndRun(words: seq<Word>, query: string, content: string, runs: seq<Interval>, x: Interval)
    requires AreWordsFrom(query, 0, runs) && Spells(words, query, runs)
    ensures (exists k: nat :: MatchesWord(words, content, k, x)) <==> IsWordMatch(query, content, x)
  {
    forall k: nat | k < |runs|
      ensures MatchesWord(words, content, k, x) <==> MatchesWordAt(query, content, runs[k], x)
    {
    }
    if k: nat :| MatchesWord(words, content, k, x) {
      assert MatchesWordAt(query, content, runs[k], x);
    }
    if r :| MatchesWordAt(query, content, r, x) {
      var k :| 0 <= k < |runs| && runs[k] == r;
      assert MatchesWord(words, content, k, x);
    }
  }

  /** The matches of a word search are what it promises. */
  lemma {:induction false} WordMatchesAreWordSearch(query: string, content: string)
    ensures IsWordSearch(query, content, WordMatches(query, content))
  {
    var input := Collected(Words(query), content);
    PruneIsPruned(input);
    forall x
      ensures x in input <==> IsWordMatch(query, content, x)
    {
      CollectedIsWordMatch(query, content, x);
    }
  }

  /** The promise determines the matches. */
  lemma {:induction false} WordSearchUnique(query: string, content: string, a: seq<Interval>, b: seq<Interval>)
    requires IsWordSearch(query, content, a) && IsWordSearch(query, content, b)
    ensures a == b
  {
    PrunedUnique(a, b);
  }
}
