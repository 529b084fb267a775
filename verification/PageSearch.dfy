/** What calcFindMatch stores for a page, in terms of the texts of the page and of the query. */
module PageSearch {
  import opened Options
  import opened PhraseMatch
  import opened WordMatch
  import opened QueryWords
  import opened Normalization
  import opened FindEngine
  import opened FindRuns

  /** The matches of these two texts, after normalization and folding. */
  ghost predicate AreMatches(content: string, query: string, phraseSearch: bool, m: PageMatches) {
    if phraseSearch then m.lengths.None? && IsOptimal(content, query, m.starts)
    else m.lengths.Some? && |m.lengths.value| == |m.starts| && IsWordSearch(query, content, Zip(m.starts, m.lengths.value))
  }

  /**
   * The matches of query `q` on a page with this text: those of the normalized texts if case matters, and of their
   * lower-case forms if it does not.
   */
  ghost predicate IsPageSearch(page: string, lower: CaseFold, q: FindQuery, m: PageMatches) {
    && (q.caseSensitive ==> AreMatches(Normalize(page), Normalize(q.query), q.phraseSearch, m))
    && (!q.caseSensitive ==> AreMatches(lower(Normalize(page)), lower(Normalize(q.query)), q.phraseSearch, m))
  }

  ghost predicate HasWord(query: string) { exists x :: IsWordAt(query, x) }

  /** There is something to search for: a query, and in a word search one with a word in it. */
  ghost predicate Asks(lower: CaseFold, q: FindQuery) {
    && q.query != ""
    && (q.phraseSearch || HasWord(if q.caseSensitive then Normalize(q.query) else lower(Normalize(q.query))))
  }

  lemma {:induction false} HasWords(query: string)
    ensures Words(query) != [] <==> HasWord(query)
  {
    var runs := WordsAreRuns(query);
    if Words(query) != [] {
      assert IsWordAt(query, runs[0]);
    }
  }

  lemma {:induction false} Rezipped(kept: seq<Interval>)
    ensures Zip(Starts(kept), Lengths(kept)) == kept
  {
  }

  /** What is stored for a page, if anything. */
  lemma {:induction false} StoredIsPageSearch(doc: Document, i: nat, q: FindQuery)
    requires i < |doc.pages|
    ensures FindOnPage(doc, i, q).Some? <==> Asks(doc.lower, q)
    ensures FindOnPage(doc, i, q).Some? ==> IsPageSearch(doc.pages[i], doc.lower, q, FindOnPage(doc, i, q).value)
  {
    var content, query := Normalize(doc.pages[i]), Normalize(q.query);
    if !q.caseSensitive {
      content, query := doc.lower(content), doc.lower(query);
    }
    NormalizeEmpty(q.query);
    HasWords(query);
    if q.query != "" {
      if q.phraseSearch {
        PhraseMatchesOptimal(content, query);
      } else {
        WordMatchesAreWordSearch(query, content);
        Rezipped(WordMatches(query, content));
      }
    }
  }

  /** Nothing else meets that description. */
  lemma {:induction false} PageSearchUnique(page: string, lower: CaseFold, q: FindQuery, a: PageMatches, b: PageMatches)
    requires Asks(lower, q) && IsPageSearch(page, lower, q, a) && IsPageSearch(page, lower, q, b)
    ensures a == b
  {
    var content, query := Normalize(page), Normalize(q.query);
    if !q.caseSensitive {
      content, query := lower(content), lower(query);
    }
    NormalizeEmpty(q.query);
    if q.phraseSearch {
      SelectionUnique(Occurrences(content, query), |query|, a.starts, b.starts, 0);
    } else {
      WordSearchUnique(query, content, Zip(a.starts, a.lengths.value), Zip(b.starts, b.lengths.value));
      ZipInjective(a.starts, a.lengths.value, b.starts, b.lengths.value);
    }
  }

  lemma {:induction false} ZipInjective(a: seq<nat>, la: seq<nat>, b: seq<nat>, lb: seq<nat>)
    requires |a| == |la| && |b| == |lb| && Zip(a, la) == Zip(b, lb)
    ensures a == b && la == lb
  {
    assert |a| == |Zip(a, la)| == |b|;
    forall k | 0 <= k < |a|
      ensures a[k] == b[k] && la[k] == lb[k]
    {
      assert Zip(a, la)[k] == Interval(a[k], la[k]) && Zip(b, lb)[k] == Interval(b[k], lb[k]);
    }
  }

  /** If case does not matter, queries with the same lower-case form find the same. */
  lemma {:induction false} SameLowerCase(doc: Document, i: nat, a: FindQuery, b: FindQuery)
    requires i < |doc.pages| && !a.caseSensitive && !b.caseSensitive && a.phraseSearch == b.phraseSearch
    requires a.query != "" && b.query != "" && doc.lower(Normalize(a.query)) == doc.lower(Normalize(b.query))
    ensures FindOnPage(doc, i, a) == FindOnPage(doc, i, b)
  {
    StoredIsPageSearch(doc, i, a);
    StoredIsPageSearch(doc, i, b);
    if Asks(doc.lower, a) {
      assert IsPageSearch(doc.pages[i], doc.lower, a, FindOnPage(doc, i, b).value);
      PageSearchUnique(doc.pages[i], doc.lower, a, FindOnPage(doc, i, a).value, FindOnPage(doc, i, b).value);
    }
  }

  /** So that is what the callback of a page stores, for the query in force. */
  lemma {:induction false} CallbackStores(doc: Document, s: FindState, i: nat)
    requires Inv(s, |doc.pages|) && i in s.pending
    ensures Enabled(doc, s, PageTextReady(i)) && s.query.Some?
    ensures var t, q := After(doc, s, PageTextReady(i)), s.query.value;
            && t.pending == s.pending - {i}
            && (i in t.pageMatches <==> Asks(doc.lower, q))
            && (i in t.pageMatches ==> IsPageSearch(doc.pages[i], doc.lower, q, t.pageMatches[i]))
  {
    var q := s.query.value;
    var r := FindOnPage(doc, i, q);
    StoredIsPageSearch(doc, i, q);
    if r.Some? && s.resumePageIdx == Some(i) {
      StorePageKeeps(s, |doc.pages|, i, r.value);
      NextPageMatchFrame(StorePage(s, i, r.value).(resumePageIdx := None), |doc.pages|);
    }
  }
}
