# A verified model of the PDF viewer's algorithms and of two batch updates

The repository carries a copy of the PDF.js viewer. Most of the viewer is user interface, but under it
lie a search engine that works on pages whose texts arrive one at a time, a highlighter that has to undo
what it did before, a cooperative render scheduler, a page cache and some arithmetic on fractions. This
project models those parts, together with the base64 polyfills and two resumable database updates of the
Metatag module, and proves what they are there to guarantee.

## How the model is built

Code that changes state is modelled twice. A datatype holds the state and a function describes each
transition; next to it, a class (or a method on an array) does what the source does, field by field and
loop by loop, and is proved to compute exactly that function. Properties over whole runs are proved about
the functions, and hold for the objects because of the methods' contracts.

Events that the browser orders (page texts arriving, timeouts, promises, chunks being drawn) are steps of
a run. A run is any sequence of enabled steps, so theorems about runs hold for every order of events.

Every induction is written out. All lemmas carry `{:induction false}`, so that no proof uses an induction hypothesis
that it does not state.

| Files | What they model |
|---|---|
| `PhraseMatch`, `WordMatch`, `QueryWords`, `Sorting`, `Normalization`, `PageSearch` | the matches of one page |
| `FindEngine`, `FindRuns`, `FindController` | the find controller: states, runs, and the object |
| `FindSearch`, `FindNavigation`, `FindConfluence`, `FindQuirks` | what the controller achieves, and where it fails |
| `OffsetMapping`, `Highlight`, `TextLayer`, `HighlightClasses`, `HighlightOverlaps` | the text layer: locating matches, highlighting, undoing, class names, overlapping matches |
| `RawOffsets`, `FindHighlights` | controller and text layer together |
| `Fractions`, `CanvasScaling` | nearest fractions and canvas sizes |
| `VisibleViews`, `PageViewBuffer` | visible pages, current page, page cache |
| `RenderingQueue`, `RenderingRuns` | the render scheduler |
| `Base64` | `btoa` and `atob` |
| `MetatagAuthor`, `MetatagJson`, `MetatagJsonKeys`, `MetatagBatch` | the two batch updates |
| `Options`, `Sequences` | the option type, and facts about sequences |

## Main results

* **Confluence.** A new search ends in the same state in whatever order the pages become ready, and that
  state is the one it would reach at once with all pages present (`FindConfluence.EverySearchIsConfluent`,
  `FindConfluence.SearchOutcome`). Scrolling in between changes nothing but the page shown
  (`FindConfluence.ScrollingSearchIsConfluent`).
* **Navigation.** "Next" and "previous" are the successor and the predecessor in the cyclic document
  order of all matches; they undo each other, a round visits every match once, and "wrapped" is reported
  exactly at the end of the document (`FindNavigation`).
* **Highlighting.** After any sequence of updates, a page on which the matches of a phrase search are shown
  has every character of its text, highlighted exactly if it lies in a match that is to be shown. For a word
  search with all matches shown this holds if and only if no two matches overlap; with one match shown the text
  is always there, and highlighted right if and only if that match does not begin before the item in which the
  previous one ends (`HighlightOverlaps.RunShowsIff`, `FindHighlights.SearchShows`). With find switched off nothing
  is left of any highlighting (`TextLayer.RunDependsOnLastView`). The text that the search sees must be as long as the text
  itself, position by position, which normalization and case folding do not always keep. Confluence and
  highlighting meet in `FindHighlights.SearchEndsShown`: in whatever order the pages arrive, the text layers that
  show the state in which a search ends show exactly that search.
* **Phrase and word search** store the unique list that meets a declarative specification of the texts of the page
  and of the query, with and without case (`PageSearch.StoredIsPageSearch`, `PageSearch.PageSearchUnique`).
* **Fractions.** The Farey search returns a nearest fraction with denominator up to 8, in lowest terms,
  so canvas and CSS sizes are exactly proportional for every scale p/q with p, q up to 8
  (`Fractions.ApproximateFraction`, `CanvasScaling.SizeCanvas`).
* **Scheduling.** Runs of the scheduler are finite, and one that cannot go on has rendered every visible
  page and their neighbour (`RenderingRuns.UpdateDrains`).
* **Batch updates.** The author update visits every record once, in exactly the number of calls that its
  batches need (`MetatagAuthor.RunUpdate`). The JSON update ends after a bounded number of calls, and it is known
  for all tables when it runs off its list of fields (`MetatagJson.RunUpdate`,
  `MetatagJsonKeys.FailsIffKeysStraddle`). If all rows unserialize nothing is left to convert, and every row is
  converted right if and only if rows that share a key hold the same (`MetatagJsonKeys.CompletedConvertsIff`).

## Where the source falls short of its promises

Some promises are false of the code. The model keeps the code as it is; each time there is a concrete run
or input that breaks the promise, and the exact condition under which it is kept.

* nextMatch is meant to return while the search waits for a page, but tests the page index for
  truthiness, so waiting for page 0 does not count (`FindQuirks.WaitingIsNotRespected`,
  `FindQuirks.WaitingIsRespectedIff`). It then fills the page counter up, which brings the whole document within
  reach but changes no match that would have been found (`FindQuirks.ResetExtendsReach`).
* A new search does not clear the "wrapped" flag of an abandoned one and then reports "wrapped" for a
  match found without going round (`FindQuirks.StaleWrap`); `FindConfluence.SearchOutcome` says when.
* If the direction is turned while the search waits for a page, "not found" can be reported although
  there is a match (`FindQuirks.TurningRoundMissesAMatch`); `FindSearch.BelievableIff` says when a
  "not found" can be believed.
* Matches are found in normalized text but highlighted in the original one. Vulgar fractions normalize to
  three characters, so they displace the highlighting (`RawOffsets.LastCharacterMisplaced`); a match is
  highlighted right if and only if there is no fraction before it and it holds as many as the query
  (`RawOffsets.HighlightsMatchIff`).
* Matches of different words may overlap. With all of them highlighted, the page then repeats some of its text:
  "abcd" becomes "abcbcbcd" in a search for "abc bcd" (`HighlightOverlaps.OverlapExample`). The exact
  condition is in `HighlightOverlaps.AllShownIff`.
* Overlapping matches may also be given negative offsets by the forward sweep of the text layer
  (`OffsetMapping.OverlappingWordsMislocated`); the sweep is exact if and only if no match begins before the item
  in which the previous match ends (`OffsetMapping.ConvertExactIff`).
* The JSON update selects the rows to write by their key, so rows that share a key all end up with the array of one
  of them: of the last that unserializes among those that the first batch to reach the key has found. Of two values
  of one field one is lost (`MetatagJsonKeys.SharedKeyLoses`). When all rows unserialize, every row is converted
  right if and only if rows that share a key agree (`MetatagJsonKeys.CompletedConvertsIff`).
* If rows that share a key are found by different batches they are not all counted, and the update looks for a
  field that does not exist, although every row is converted by then (`MetatagJsonKeys.SharedKeyFails`). When no row
  that unserializes shares its key with one that does not, this happens if and only if all matching rows unserialize
  and some in different hundreds share a key (`MetatagJsonKeys.FailsIffKeysStraddle`). With distinct keys it never does (`MetatagJsonKeys.DistinctNeverFails`).
* A row that does not unserialize to an array blocks the JSON update for good, unless a row with the same key does: the
  fields after its own are never converted (`MetatagJsonKeys.BrokenRowExample`, `MetatagJsonKeys.BrokenRowBlocks`).
* The author update writes all rows of a key with the tags of one record (`MetatagAuthor.SharedKeyLoses`), so several
  values of one field are converted right if and only if they convert to the same tags
  (`MetatagAuthor.CompletedConvertsIff`).
* For a non-integer above 16 the "fraction" returned has denominator 0, and the CSS size is NaN
  (`CanvasScaling.ScaleWithoutSize` for 16.5, `Fractions.ApproximateFraction`, `CanvasScaling.SizeCanvas`).

## Model

| member | source | states |
|---|---|---|
| `PhraseMatch.IndexOfIsFirst` | libraries/_pdf.js/web/viewer.js:2976 | indexOf from a position gives the first occurrence from there on, or -1 when there is none |
| `PhraseMatch.MatchesFromIsSelection` | libraries/_pdf.js/web/viewer.js:2970-2983 | from any position on, the matches are genuine, increasing and non-overlapping, and every occurrence starts inside one of them |
| `PhraseMatch.SelectionUnique` | libraries/_pdf.js/web/viewer.js:2970-2983 | that description determines the list of matches |
| `PhraseMatch.SelectionIsLargest` | libraries/_pdf.js/web/viewer.js:2970-2983 | no set of pairwise non-overlapping occurrences covered by the matches has more members than there are matches |
| `PhraseMatch.PhraseMatchesOptimal` | libraries/_pdf.js/web/viewer.js:2970-2983 | the matches of a non-empty query are such a selection, and no set of non-overlapping occurrences is larger |
| `PhraseMatch.CalcFindPhraseMatch` | libraries/_pdf.js/web/viewer.js:2970-2983 | the loop computes those matches |
| `Normalization.NormalizeLength` | libraries/_pdf.js/web/viewer.js:2850-2862 | normalized text is longer than the text by two characters for every vulgar fraction in it |
| `Normalization.NormalizeConcat` | libraries/_pdf.js/web/viewer.js:2911-2915 | normalizing distributes over concatenation |
| `Normalization.NormalizeCharTable` | libraries/_pdf.js/web/viewer.js:2850-2862 | the characters replaced and their replacements are those of the table |
| `WordMatch.SubTermTest` | libraries/_pdf.js/web/viewer.js:2926-2952 | in the sorted list, an element is redundant if and only if the next one has the same start or a kept earlier one ends no earlier |
| `WordMatch.BreakIsSafe` | libraries/_pdf.js/web/viewer.js:2942-2944 | once a kept element ends before the current one starts, no kept element before it can contain the current one |
| `WordMatch.IsSubTerm` | libraries/_pdf.js/web/viewer.js:2926-2952 | the backward scan with its early exit decides redundancy against all elements, and flags the element accordingly |
| `WordMatch.UndominatedIsPruned` | libraries/_pdf.js/web/viewer.js:2917-2922 | the kept elements are the containment-maximal ones, once each, with strictly increasing starts and ends, and every element lies inside a kept one |
| `WordMatch.PruneIsPruned` | libraries/_pdf.js/web/viewer.js:2923-2968 | sorting and pruning any list of intervals gives exactly its maximal intervals |
| `WordMatch.PrunedUnique` | libraries/_pdf.js/web/viewer.js:2923-2968 | there is only one such list, so the order in which matches were collected does not matter |
| `WordMatch.PrepareMatches` | libraries/_pdf.js/web/viewer.js:2954-2968 | the in-place sort, the flags and the two output arrays give the pruned list |
| `QueryWords.WordsAreRuns` | libraries/_pdf.js/web/viewer.js:2989 | the words searched for are all maximal runs of non-space characters of the query, in order and once each |
| `WordMatch.CalcFindWordMatch` | libraries/_pdf.js/web/viewer.js:2985-3018 | the loops collect the matches of all words and prune them |
| `QueryWords.WordMatchesAreWordSearch` | libraries/_pdf.js/web/viewer.js:2985-3018 | what they compute: an interval is kept if and only if it is a phrase match of one of those runs and lies inside no other such match; strictly ordered |
| `QueryWords.WordSearchUnique` | libraries/_pdf.js/web/viewer.js:2985-3018 | that determines the list |
| `PageSearch.StoredIsPageSearch` | libraries/_pdf.js/web/viewer.js:3020-3041 | what is stored for a page: the phrase or word matches of the normalized page and query, of their lower-case forms if case does not matter; nothing exactly for an empty query or, in a word search, one without words |
| `PageSearch.PageSearchUnique` | libraries/_pdf.js/web/viewer.js:3020-3041 | that determines what is stored |
| `PageSearch.SameLowerCase` | libraries/_pdf.js/web/viewer.js:3030-3033 | if case does not matter, queries with the same lower-case normal form find the same |
| `PageSearch.CallbackStores` | libraries/_pdf.js/web/viewer.js:3020-3043 | so a page callback stores exactly that, for the query in force |
| `FindEngine.Search` | libraries/_pdf.js/web/viewer.js:3250-3278 | the page loop ends from every cursor, at a page of the document |
| `FindEngine.SearchHits` | libraries/_pdf.js/web/viewer.js:3200-3227 | it parks only at a page without matches yet, hits the first or last match of a page according to direction, and misses only after wrapping with the counter used up |
| `FindEngine.StartOverKeepsInv` | libraries/_pdf.js/web/viewer.js:3136-3162 | the dirty reset keeps the bookkeeping invariant |
| `FindRuns.UpdateMatchKeeps` | libraries/_pdf.js/web/viewer.js:3280-3300 | selecting or giving up keeps cursor, selection and text layers consistent |
| `FindRuns.SelectionIsShown` | libraries/_pdf.js/web/viewer.js:3115-3300 | when a search reports its end the viewer shows the page of the selected match, if there is one |
| `FindRuns.EmptyQuery` | libraries/_pdf.js/web/viewer.js:3164-3168 | a search for nothing ends at once as found, with no match left, none selected and all text layers told so |
| `FindRuns.NextMatchKeeps` | libraries/_pdf.js/web/viewer.js:3129-3198 | nextMatch keeps the bookkeeping invariant |
| `FindRuns.PageReadyKeeps` | libraries/_pdf.js/web/viewer.js:3020-3054 | so does a page callback, which resumes the search before it counts the page's matches |
| `FindRuns.EventKeepsInv` | libraries/_pdf.js/web/viewer.js:3095-3162 | so does every command, timeout, callback and scroll |
| `FindRuns.Run` | libraries/_pdf.js/web/viewer.js:2868-3316 | after any run the match count is the sum over the computed pages, each counted once; cursor and selection point at existing matches; a parked search stands at a page not yet computed; every text layer was last refreshed with the page's current matches and selected match |
| `FindRuns.ReachableInv` | libraries/_pdf.js/web/viewer.js:2868-3316 | the invariant holds in every reachable state, and enabled events lead to reachable states |
| `FindRuns.LayersCurrent` | libraries/_pdf.js/web/viewer.js:3115-3127 | in every such state each text layer was last told the matches and the selected match of its page |
| `FindRuns.InitialReachable` | libraries/_pdf.js/web/viewer.js:2883-2909 | the state of a new controller is reachable |
| `FindController.SearchTurn` | libraries/_pdf.js/web/viewer.js:3200-3264 | one turn of the page loop leaves the outcome of the search as it was and lowers the measure |
| `FindController.PDFFindController.constructor` | libraries/_pdf.js/web/viewer.js:2869-2909 | the object starts in the initial state, which satisfies the invariant |
| `FindController.PDFFindController.UpdatePage` | libraries/_pdf.js/web/viewer.js:3115-3127 | scrolls to the page if it holds the selection, and refreshes its text layer |
| `FindController.PDFFindController.AdvanceOffsetPage` | libraries/_pdf.js/web/viewer.js:3266-3278 | next or previous page, round the ends of the document with the flag set, and one page less to search |
| `FindController.PDFFindController.UpdateMatch` | libraries/_pdf.js/web/viewer.js:3280-3300 | clears the flag, moves the selection, reports, and refreshes the page left and the page entered |
| `FindController.PDFFindController.MatchesReady` | libraries/_pdf.js/web/viewer.js:3200-3227 | takes a match of the page, gives up, or moves on |
| `FindController.PDFFindController.NextPageMatch` | libraries/_pdf.js/web/viewer.js:3250-3264 | the loop of state changes has exactly the effect of the functional search |
| `FindController.PDFFindController.RegisterPages` | libraries/_pdf.js/web/viewer.js:3149-3161 | every page is refreshed and is pending exactly once, whether or not it was pending before |
| `FindController.PDFFindController.StartOver` | libraries/_pdf.js/web/viewer.js:3136-3162 | the whole state after the dirty reset, with the wrapped flag left as it was |
| `FindController.PDFFindController.MoveCursor` | libraries/_pdf.js/web/viewer.js:3175-3195 | steps within the page if it can and otherwise leaves the page |
| `FindController.PDFFindController.Advance` | libraries/_pdf.js/web/viewer.js:3164-3198 | empty query, waiting, stepping and searching, each with its whole effect |
| `FindController.PDFFindController.NextMatch` | libraries/_pdf.js/web/viewer.js:3129-3198 | nextMatch has the effect of the transition function and keeps the invariant |
| `FindController.PDFFindController.ExecuteCommand` | libraries/_pdf.js/web/viewer.js:3095-3100 | stores the query, marks the matches dirty unless it is a 'findagain' of an existing search, reports "pending" |
| `FindController.PDFFindController.ComputeMatches` | libraries/_pdf.js/web/viewer.js:3021-3041 | normalization, case folding and the choice of search give the matches described by `PageSearch` |
| `FindController.PDFFindController.StorePage` | libraries/_pdf.js/web/viewer.js:3037-3043 | stores the page's matches and refreshes its text layer |
| `FindController.PDFFindController.ResumeSearch` | libraries/_pdf.js/web/viewer.js:3044-3047 | resumes the page search if and only if it was parked at this page |
| `FindController.PDFFindController.PageComputed` | libraries/_pdf.js/web/viewer.js:3037-3054 | the effect of a callback whose matches are known |
| `FindController.PDFFindController.PageTextReady` | libraries/_pdf.js/web/viewer.js:3156-3159 | the effect of a page's callback, with the query then in force |
| `FindSearch.SearchReaches` | libraries/_pdf.js/web/viewer.js:3250-3278 | the first page with a match, if within reach, is where the search stops; with match, flag and counter spelled out |
| `FindSearch.SearchGivesUp` | libraries/_pdf.js/web/viewer.js:3212-3222 | if all pages within reach are empty, the search misses |
| `FindSearch.InspectionBound` | libraries/_pdf.js/web/viewer.js:3175-3177 | from any state the search looks at no more pages than are within reach, and at all of those when it misses |
| `FindSearch.NewSearchIsComplete` | libraries/_pdf.js/web/viewer.js:3175-3198 | with all pages ready a new search looks at no more than n + 1 pages and misses if and only if no page has a match |
| `FindSearch.LongSearchIsComplete` | libraries/_pdf.js/web/viewer.js:3212-3222 | the same from any cursor that has the whole document within reach |
| `FindSearch.BelievableIff` | libraries/_pdf.js/web/viewer.js:3212-3222 | given the pages computed so far, "not found" can be believed if and only if every page out of reach is known to be empty, or the search is sure to hit |
| `FindSearch.CompleteIffInReach` | libraries/_pdf.js/web/viewer.js:3212-3222 | before any page is computed, that is: if and only if the whole document is within reach |
| `FindNavigation.LeavePage` | libraries/_pdf.js/web/viewer.js:3192-3197 | leaving a page leads to the cyclic neighbour of its last (or first) match |
| `FindNavigation.LandingRank` | libraries/_pdf.js/web/viewer.js:3180-3197 | so does any step, within a page or across pages |
| `FindNavigation.FindNextMoves` | libraries/_pdf.js/web/viewer.js:3129-3300 | "next" selects the cyclic successor in document order, "previous" the predecessor, and "wrapped" is reported exactly at the end of the document |
| `FindNavigation.StepsUndo` | libraries/_pdf.js/web/viewer.js:3129-3300 | a step in one direction is undone by a step in the other |
| `FindNavigation.FindNextTimes` | libraries/_pdf.js/web/viewer.js:3129-3300 | k steps forward, up to the number of matches, lead to the k-th match after the selected one, counting round |
| `FindNavigation.RoundTripVisitsEachMatchOnce` | libraries/_pdf.js/web/viewer.js:3129-3300 | as many steps as there are matches select every match after exactly one of them |
| `FindConfluence.SearchResumes` | libraries/_pdf.js/web/viewer.js:3044-3047 | a search that parks and resumes with more pages computed ends as if it had never parked |
| `FindConfluence.PageReadyUnderway` | libraries/_pdf.js/web/viewer.js:3020-3054 | every page callback leaves the search bound for the same outcome |
| `FindConfluence.NewSearchWaits` | libraries/_pdf.js/web/viewer.js:3129-3198 | a new search parks at the current page with every page pending; the whole state is spelled out |
| `FindConfluence.SearchIsConfluent` | libraries/_pdf.js/web/viewer.js:3020-3054 | for every order of callbacks the final cursor, selection, page, match lists, count, text layers and reported statuses are those of the search with all pages present |
| `FindConfluence.SearchOutcome` | libraries/_pdf.js/web/viewer.js:3129-3300 | that outcome is the first match counting round from the current page, "not found" if and only if no page has a match, and "wrapped" if and only if the search went round or the flag was left over |
| `FindConfluence.CallbacksDeliver` | libraries/_pdf.js/web/viewer.js:3156-3159 | the callbacks of a run compute and deliver exactly the match lists of the query in force |
| `FindConfluence.DocumentSearchIsConfluent` | libraries/_pdf.js/web/viewer.js:3020-3054 | confluence over runs of the controller on a document |
| `FindConfluence.EverySearchIsConfluent` | libraries/_pdf.js/web/viewer.js:3095-3300 | so in every reachable state any command but 'findagain' with such a query, its nextMatch and the callbacks in any order end as if all pages had been ready |
| `FindConfluence.ScrollingSearchIsConfluent` | libraries/_pdf.js/web/viewer.js:3020-3054 | the same with the user scrolling in between, but for the page that is shown at the end |
| `FindQuirks.WaitingIsRespectedIff` | libraries/_pdf.js/web/viewer.js:3170-3173 | nextMatch leaves a parked search alone if and only if it does not wait for page 0, or the counter it would reset is full |
| `FindQuirks.WaitingIsNotRespected` | libraries/_pdf.js/web/viewer.js:3170-3177 | a run in which a search waits for page 0 and nextMatch does not return but resets the counter |
| `FindQuirks.ResetExtendsReach` | libraries/_pdf.js/web/viewer.js:3175-3177 | that reset keeps every match that would have been found, and makes "not found" mean that there is none |
| `FindQuirks.StaleWrap` | libraries/_pdf.js/web/viewer.js:3136-3147 | a run in which a search reports "wrapped" for a match on the current page |
| `FindQuirks.TurningRoundMissesAMatch` | libraries/_pdf.js/web/viewer.js:3212-3222 | a run in which "not found" is reported although page 3 has a match |
| `OffsetMapping.LocateExact` | libraries/_pdf.js/web/viewer.js:6288-6326 | a match is located exactly if and only if it does not begin before the item the sweep has reached |
| `OffsetMapping.ConvertExactIff` | libraries/_pdf.js/web/viewer.js:6276-6331 | all matches are located exactly if and only if none begins before the item in which the previous one ends |
| `OffsetMapping.NonOverlappingExact` | libraries/_pdf.js/web/viewer.js:6276-6331 | non-overlapping matches are located exactly, empty items included |
| `OffsetMapping.ExactSpansMatch` | libraries/_pdf.js/web/viewer.js:6302-6326 | the text between the two positions of an exactly located match is the matched text |
| `OffsetMapping.PhraseMatchesLocated` | libraries/_pdf.js/web/viewer.js:6276-6331 | every phrase match of the joined items is located exactly, and the text it spans is the query |
| `OffsetMapping.OverlappingWordsFound` | libraries/_pdf.js/web/viewer.js:2985-3018 | a word search for "abc bcd" in "abcd" keeps both overlapping matches |
| `OffsetMapping.OverlappingWordsMislocated` | libraries/_pdf.js/web/viewer.js:6309-6314 | on the items "ab", "cd" the second of them is given the offset -1 |
| `OffsetMapping.ConvertForward` | libraries/_pdf.js/web/viewer.js:6276-6331 | item indices never decrease along the list, whatever the matches |
| `OffsetMapping.LocateMatch` | libraries/_pdf.js/web/viewer.js:6292-6326 | the two inner loops find the items of the start and of the end |
| `OffsetMapping.ConvertMatches` | libraries/_pdf.js/web/viewer.js:6276-6331 | the sweep with its running item and offset computes the specified positions |
| `Highlight.OpenFrontier` | libraries/_pdf.js/web/viewer.js:6395-6405 | the plain text between two matches is added once, in whichever div it lies |
| `Highlight.FillFrontier` | libraries/_pdf.js/web/viewer.js:6407-6417 | the text of a match is added once and marked, within a div or across divs |
| `Highlight.RenderShows` | libraries/_pdf.js/web/viewer.js:6333-6424 | for matches that do not overlap and are located exactly: from pristine divs, every div shows exactly the text of its item, marked exactly where the shown matches are |
| `TextLayer.ClearUndoes` | libraries/_pdf.js/web/viewer.js:6432-6448 | the clearing loop makes every div pristine if those outside the stored ranges are |
| `TextLayer.UpdateUndoable` | libraries/_pdf.js/web/viewer.js:6426-6465 | every update leaves the divs outside the stored ranges pristine, even for mislocated matches |
| `TextLayer.RunDependsOnLastView` | libraries/_pdf.js/web/viewer.js:6426-6465 | after any sequence of updates nothing is left of the earlier ones, and with find inactive all divs are as they were |
| `TextLayer.MarksAgree` | libraries/_pdf.js/web/viewer.js:6374-6388 | the marks worked towards are: as selected in the selected match of the selected page, as highlighted in the other matches if all are shown, plain elsewhere |
| `TextLayer.RunShowsMatches` | libraries/_pdf.js/web/viewer.js:6426-6465 | after any sequence of updates, the last one with matches that do not overlap, the page shows its text with exactly these marks |
| `HighlightClasses.RunDresses` | libraries/_pdf.js/web/viewer.js:6387-6418 | after any sequence of updates, wherever the matches have been located, a span or div has the class name of a part (whole, begin, middle, end) if and only if a match to be shown has that part there, with the suffix if and only if it is the selected match of the selected page |
| `HighlightOverlaps.EndLocated` | libraries/_pdf.js/web/viewer.js:6316-6326 | the end of a match is located in the item that holds its last character, even if its start is not located right |
| `HighlightOverlaps.OverlapLocated` | libraries/_pdf.js/web/viewer.js:6292-6307 | a match that overlaps the previous one is located in the item where that one ends, before its end |
| `HighlightOverlaps.ExactIffFollows` | libraries/_pdf.js/web/viewer.js:6276-6331 | in a list with increasing starts and ends a match is located exactly if and only if it does not begin before the item in which the previous one ends, whatever becomes of the others |
| `HighlightOverlaps.TurnFills` | libraries/_pdf.js/web/viewer.js:6395-6418 | every turn of the loop leaves at least the text before its end in the div where it ends |
| `HighlightOverlaps.OverlapOverfills` | libraries/_pdf.js/web/viewer.js:6395-6418 | an overlapping match puts more text into a div than belongs there |
| `HighlightOverlaps.RenderStaysOverfull` | libraries/_pdf.js/web/viewer.js:6383-6423 | the rest of the loop never takes it away |
| `HighlightOverlaps.AllShownIff` | libraries/_pdf.js/web/viewer.js:6333-6424 | for any list with increasing starts and ends, all of it highlighted: every div has the text of its item if and only if no two matches overlap, and the page is marked right if and only if no two overlap |
| `HighlightOverlaps.OneShownIff` | libraries/_pdf.js/web/viewer.js:6374-6381 | with one match of such a list highlighted, every div has the text of its item, and the page is marked right if and only if the match does not begin before the item in which the previous one ends |
| `HighlightOverlaps.RunShowsIff` | libraries/_pdf.js/web/viewer.js:6426-6465 | the same after any sequence of updates, for all matches and for the selected one |
| `HighlightOverlaps.OverlapExample` | libraries/_pdf.js/web/viewer.js:6403-6409 | a word search for "abc bcd" on the item "abcd" locates both matches exactly and leaves the text "abcbcbcd" |
| `TextLayer.TextLayerBuilder.constructor` | libraries/_pdf.js/web/viewer.js:6201-6215 | no matches are stored, rendering is not done, and the divs will hold the text of their items |
| `TextLayer.TextLayerBuilder.AppendTextToDiv` | libraries/_pdf.js/web/viewer.js:6360-6372 | appends a plain or styled piece to one div |
| `TextLayer.TextLayerBuilder.ShowMatch` | libraries/_pdf.js/web/viewer.js:6383-6419 | one turn of the loop takes the divs one match nearer to the result, which `HighlightClasses.RunDresses` and `TextLayer.RunShowsMatches` describe |
| `TextLayer.TextLayerBuilder.RenderRange` | libraries/_pdf.js/web/viewer.js:6383-6423 | the loop over a range of matches, with the text after the last one, gives the specified divs |
| `TextLayer.TextLayerBuilder.RenderMatches` | libraries/_pdf.js/web/viewer.js:6333-6424 | nothing to render, nothing to show, all matches or the selected one: the divs are as specified |
| `TextLayer.TextLayerBuilder.ClearMatches` | libraries/_pdf.js/web/viewer.js:6432-6448 | the loop over the stored matches restores the divs as specified |
| `TextLayer.TextLayerBuilder.UpdateMatches` | libraries/_pdf.js/web/viewer.js:6426-6465 | does nothing before rendering is done; then clears, converts and renders, and can be undone again |
| `RawOffsets.RangeIsRightIff` | libraries/_pdf.js/web/viewer.js:6282-6314 | the range highlighted for a match found in text[a..b] is that range if and only if there is no fraction before it and it holds as many fractions as the query |
| `RawOffsets.HighlightsMatchIff` | libraries/_pdf.js/web/viewer.js:6282-6314 | the same in terms of the highlighted range, for any text, query and match |
| `RawOffsets.HighlightsQueryIff` | libraries/_pdf.js/web/viewer.js:6282-6314 | for any text and query: all matches are highlighted right if and only if that holds of each of them |
| `RawOffsets.HighlightedText` | libraries/_pdf.js/web/viewer.js:6282-6314 | what is highlighted right normalizes to the normalized query |
| `RawOffsets.InsideFractionNeverRight` | libraries/_pdf.js/web/viewer.js:3021-3022 | a match that starts strictly inside what a character of the text expands to is never highlighted right; that character is a fraction |
| `RawOffsets.PlainTextHighlights` | libraries/_pdf.js/web/viewer.js:6282-6314 | in a text without fractions a query is highlighted right if and only if it is not found or has no fraction |
| `RawOffsets.LastCharacterMisplaced` | libraries/_pdf.js/web/viewer.js:3021-3022 | in a text with a fraction there is a fraction-free query that is highlighted wrong |
| `RawOffsets.HighlightsAllQueriesIff` | libraries/_pdf.js/web/viewer.js:6282-6314 | all fraction-free queries are highlighted right in a text if and only if it has no fraction |
| `FindHighlights.ViewIsValid` | libraries/_pdf.js/web/viewer.js:6456-6461 | the controller's invariant gives the text layer a selected match that exists, and lengths for all matches |
| `FindHighlights.ViewMeans` | libraries/_pdf.js/web/viewer.js:6343-6348 | what the text layer reads are the stored matches, and the marks it is to show are those of the controller's selection |
| `FindHighlights.KeepsLengthIff` | libraries/_pdf.js/web/viewer.js:3021-3035 | where case folding keeps lengths, the text the search sees is as long as the text, position by position, if and only if it has no fraction |
| `FindHighlights.SearchListed` | libraries/_pdf.js/web/viewer.js:6456-6463 | where the text the search sees is as long as the text, both searches store lists of non-empty matches within the text with increasing starts and ends, without overlaps for a phrase search |
| `FindHighlights.SearchShows` | libraries/_pdf.js/web/viewer.js:6426-6465 | so after any updates a phrase search is marked exactly, and a word search with all matches shown if and only if none overlap; with one match shown the text is intact, and that match marked right if and only if it does not begin before the item in which the previous one ends |
| `FindHighlights.SearchEndsUpToDate` | libraries/_pdf.js/web/viewer.js:3020-3054 | in every reachable state, after any command but 'findagain', its nextMatch and the callbacks in any order with scrolling in between, the matches of every page are those of the query |
| `FindHighlights.SearchEndsRight` | libraries/_pdf.js/web/viewer.js:3020-3054 | that is: those of the texts of the page and of the query |
| `FindHighlights.SearchEndsShown` | libraries/_pdf.js/web/viewer.js:3020-3300 | so the text layers show the search as above when their last update shows that state |
| `Fractions.NothingBetween` | libraries/_pdf.js/web/viewer.js:2072-2086 | no fraction with a denominator below b + d lies strictly between neighbours a/b and c/d |
| `Fractions.MediantNeighbours` | libraries/_pdf.js/web/viewer.js:2076-2085 | replacing either end by the next term keeps bc - ad = 1 and the target in between |
| `Fractions.NearerNeighbour` | libraries/_pdf.js/web/viewer.js:2087-2092 | when the next term exceeds the limit, the nearer neighbour is nearest of all |
| `Fractions.SearchFarey` | libraries/_pdf.js/web/viewer.js:2071-2093 | the loop ends with a nearest fraction in lowest terms, turned over for x > 1; its denominator is positive if and only if x <= 16 |
| `Fractions.ApproximateFraction` | libraries/_pdf.js/web/viewer.js:2058-2093 | for every positive x the pair is in lowest terms; from 1/8 on it is a nearest fraction to the smaller of x and 1/x; below it is 1/8; the denominator is positive if and only if x is an integer or at most 16 |
| `CanvasScaling.RoundsUp` | libraries/_pdf.js/web/viewer.js:2095-2098 | the result is the divisor times the quotient rounded up |
| `CanvasScaling.LeastMultiple` | libraries/_pdf.js/web/viewer.js:2095-2098 | roundToDivide gives the least multiple of the divisor that is not below its argument |
| `CanvasScaling.RecoversFraction` | libraries/_pdf.js/web/viewer.js:5750-5751 | a scale p/q with p and q from 1 to 8 is recovered exactly |
| `CanvasScaling.ExactScaling` | libraries/_pdf.js/web/viewer.js:5750-5755 | for such a scale canvas width times q equals CSS width times p, whatever the width of the page |
| `CanvasScaling.SizeCanvas` | libraries/_pdf.js/web/viewer.js:5750-5755 | the lines of draw give the least multiples of numerator and denominator that are large enough, and sizes in the ratio p to q for such a scale; the CSS size is NaN if and only if the scale is above 16 and not an integer |
| `CanvasScaling.ScaleWithoutSize` | libraries/_pdf.js/web/viewer.js:5750-5755 | for the scale 16.5 the fraction is 1/0 and the CSS size is NaN |
| `VisibleViews.BinarySearchFirstItem` | libraries/_pdf.js/web/viewer.js:2028-2049 | splits the items: the condition fails before the result and holds from it on |
| `VisibleViews.CollectVisible` | libraries/_pdf.js/web/viewer.js:2120-2146 | the loop with its early exit finds what a full scan from the same view finds |
| `VisibleViews.ScanMembers` | libraries/_pdf.js/web/viewer.js:2120-2146 | a full scan lists exactly the views that satisfy the visibility test |
| `VisibleViews.ScanInOrder` | libraries/_pdf.js/web/viewer.js:2120-2146 | in document order, each once |
| `VisibleViews.VisibleIff` | libraries/_pdf.js/web/viewer.js:2106-2134 | a page satisfies the test if and only if the pane shows a point of it |
| `VisibleViews.GetVisibleElements` | libraries/_pdf.js/web/viewer.js:2103-2161 | binary search and early exit give exactly the full scan, with its first and last view, sorted on request |
| `VisibleViews.PercentMeaning` | libraries/_pdf.js/web/viewer.js:2135-2137 | the percentage is from 0 to 100, and 100 if and only if the whole height is in the pane |
| `VisibleViews.PercentIsShare` | libraries/_pdf.js/web/viewer.js:2135-2137 | the percentage is the visible share of the height, rounded down |
| `VisibleViews.PercentOrder` | libraries/_pdf.js/web/viewer.js:2135-2137 | a page with the larger share of its height visible never has the smaller percentage |
| `VisibleViews.KeyOrder` | libraries/_pdf.js/web/viewer.js:2152-2158 | views are sorted by percentage downwards, then by id upwards |
| `VisibleViews.BestIsMostVisible` | libraries/_pdf.js/web/viewer.js:2152-2158 | the best-ranked page is one of which none shows more, and with a lower id none as much |
| `VisibleViews.CurrentPage` | libraries/_pdf.js/web/viewer.js:7369-7384 | the loop keeps the current page if and only if it is among the views with 100 percent, else takes the first view |
| `VisibleViews.FullyVisibleMeaning` | libraries/_pdf.js/web/viewer.js:7373-7379 | that is: if and only if the page is wholly shown |
| `VisibleViews.Update` | libraries/_pdf.js/web/viewer.js:7353-7388 | the current page stays if and only if it is wholly shown or already best-ranked; else the most visible page with the lowest id follows it |
| `PageViewBuffer.WithoutMembers` | libraries/_pdf.js/web/viewer.js:6741-6744 | taking a view out leaves exactly the others in their order |
| `PageViewBuffer.ApplyKeeps` | libraries/_pdf.js/web/viewer.js:6738-6756 | push and resize keep the buffer duplicate-free, no longer than its size, and the most recent part of the views by latest push |
| `PageViewBuffer.ApplyFills` | libraries/_pdf.js/web/viewer.js:6740-6755 | a push keeps the pushed view and as many others as the size allows, a resize as many as the new size allows; nothing is destroyed without need |
| `PageViewBuffer.ConstantSize` | libraries/_pdf.js/web/viewer.js:6740-6749 | with one size throughout the buffer holds as many of the distinct views pushed as it has room for |
| `PageViewBuffer.RunKeeps` | libraries/_pdf.js/web/viewer.js:6738-6756 | so after any calls; a view is in the buffer if and only if it has not been destroyed since its latest push |
| `PageViewBuffer.PDFPageViewBuffer.MoveToEnd` | libraries/_pdf.js/web/viewer.js:6741-6745 | moves the view to the end |
| `PageViewBuffer.PDFPageViewBuffer.Push` | libraries/_pdf.js/web/viewer.js:6740-6749 | the object does what the function says, and its length is the smaller of the size and the number of distinct views |
| `PageViewBuffer.PDFPageViewBuffer.Resize` | libraries/_pdf.js/web/viewer.js:6750-6755 | the loop destroys the oldest views until the rest fits |
| `RenderingQueue.FirstUnfinishedIff` | libraries/_pdf.js/web/viewer.js:614-619 | the view found is the first unfinished one in the order of visibility |
| `RenderingQueue.PickIff` | libraries/_pdf.js/web/viewer.js:600-638 | the view picked is that one; once all visible views are finished, the page behind the last or before the first of them, if it exists and is unfinished |
| `RenderingQueue.PickInRange` | libraries/_pdf.js/web/viewer.js:600-638 | the view picked exists and is not finished |
| `RenderingQueue.EventKeepsInv` | libraries/_pdf.js/web/viewer.js:5788-5863 | in every event views keep their states coherent: a paused view has its resume callback, a running view has a task, a finished one has drawn everything |
| `RenderingRuns.NoGrant` | libraries/_pdf.js/web/viewer.js:5849-5863 | without the highest priority before and after an event a view is granted no chunk by it |
| `RenderingRuns.GrantIff` | libraries/_pdf.js/web/viewer.js:5849-5863 | a view is granted a chunk if and only if it asks with the highest priority or is resumed where it had parked |
| `RenderingRuns.AtMostOneMoreChunk` | libraries/_pdf.js/web/viewer.js:5849-5857 | as long as a view does not have the highest priority it draws at most the chunk already granted |
| `RenderingRuns.RenderedMeans` | libraries/_pdf.js/web/viewer.js:600-638 | nothing is picked if and only if every visible view and the neighbour in the scroll direction are finished |
| `RenderingRuns.QuietKeepsLive` | libraries/_pdf.js/web/viewer.js:654-675 | as long as something is left to render, something is on its way to rendering it |
| `RenderingRuns.CancelKeepsLive` | libraries/_pdf.js/web/viewer.js:5506-5511 | nor does cancelling a drawing leave the scheduler asleep |
| `RenderingRuns.StuckIsRendered` | libraries/_pdf.js/web/viewer.js:7464-7476 | the scheduler comes to rest only when nothing is left |
| `RenderingRuns.QuietSpends` | libraries/_pdf.js/web/viewer.js:654-675 | every event of the scheduler lowers a bound on the events to come |
| `RenderingRuns.Drains` | libraries/_pdf.js/web/viewer.js:600-675 | runs with fixed visible views and no resets are of bounded length and end with nothing left |
| `RenderingRuns.UpdateDrains` | libraries/_pdf.js/web/viewer.js:572-581 | after the viewer's update a run that cannot go on has finished every visible view and the neighbour |
| `RenderingRuns.PDFRenderingQueue.GetHighestPriority` | libraries/_pdf.js/web/viewer.js:600-638 | the loop and the neighbour tests pick exactly that view |
| `RenderingRuns.PDFRenderingQueue.ForceRendering` | libraries/_pdf.js/web/viewer.js:7464-7476 | asks for the picked view's page, and returns false if and only if everything is rendered |
| `RenderingRuns.PDFRenderingQueue.RenderView` | libraries/_pdf.js/web/viewer.js:654-675 | the effect in each state; draw is called only in the initial state and resume only when it is there |
| `RenderingRuns.PDFRenderingQueue.PageLoaded` | libraries/_pdf.js/web/viewer.js:7470-7472 | renderView once the page has arrived |
| `RenderingRuns.PDFRenderingQueue.RenderContinueCallback` | libraries/_pdf.js/web/viewer.js:5849-5863 | goes on with the highest priority and parks otherwise |
| `RenderingRuns.PDFRenderingQueue.DrawChunk` | libraries/_pdf.js/web/viewer.js:5788-5845 | the last chunk finishes the view and wakes the queue |
| `RenderingRuns.PDFRenderingQueue.Reset` | libraries/_pdf.js/web/viewer.js:5506-5511 | cancels the drawing and takes the view back to the initial state without a resume callback |
| `Base64.DigitRoundTrip` | libraries/_pdf.js/web/compatibility.js:249-250 | looking up the character of a digit gives the digit back |
| `Base64.DigitTable` | libraries/_pdf.js/web/compatibility.js:221-222 | the digits are those of the table, in its order |
| `Base64.GroupValue` | libraries/_pdf.js/web/compatibility.js:227-236 | the four digits of a group, as a number to the base 64, are its three bytes as a number to the base 256 |
| `Base64.ShortGroupValue` | libraries/_pdf.js/web/compatibility.js:227-236 | an incomplete group is encoded as if zeros followed, without the digits that only they give |
| `Base64.GroupsRoundTrip` | libraries/_pdf.js/web/compatibility.js:227-236 | decoding the digits of a byte string group by group (section 4 of RFC 4648) gives the bytes back, incomplete groups included |
| `Base64.DigitCount` | libraries/_pdf.js/web/compatibility.js:227-236 | digits and padding together are 4 * ceil(n/3) characters |
| `Base64.ChunkEncoded` | libraries/_pdf.js/web/compatibility.js:228-235 | the four characters of one turn are the encoding of that group |
| `Base64.Btoa` | libraries/_pdf.js/web/compatibility.js:224-238 | the loop gives the encoding of the low bytes of the code units, padding included |
| `Base64.ShiftedByte` | libraries/_pdf.js/web/compatibility.js:263-266 | the byte shifted out of the accumulator is the one that the digit completes in its group |
| `Base64.StreamFrom` | libraries/_pdf.js/web/compatibility.js:256-270 | from the middle of any group the stream puts out what group-by-group decoding still owes |
| `Base64.StreamRefinesGroups` | libraries/_pdf.js/web/compatibility.js:256-270 | the accumulator loop decodes the digits group by group and skips all other characters |
| `Base64.Atob` | libraries/_pdf.js/web/compatibility.js:251-272 | rejects a stripped length of 1 modulo 4, and otherwise decodes |
| `Base64.RoundTrip` | libraries/_pdf.js/web/compatibility.js:251-272 | decoding the digits of a byte string with any number of padding characters gives it back |
| `Base64.BtoaThenAtob` | libraries/_pdf.js/web/compatibility.js:224-272 | btoa gives 4 * ceil(n/3) characters; atob, also with padding dropped, gives the low bytes back, and the string itself if and only if it holds only bytes |
| `MetatagAuthor.CollectFields` | modules/contrib/metatag/metatag.post_update.php:145-173 | the tables with records, in order, and the number of their records |
| `MetatagAuthor.NonEmptyInOrder` | modules/contrib/metatag/metatag.post_update.php:145-173 | the tables keep their order |
| `MetatagAuthor.BatchProgress` | modules/contrib/metatag/metatag.post_update.php:180-234 | every batch brings the update nearer to its end by exactly one call, with the progress below 1 until the last |
| `MetatagAuthor.BatchVisits` | modules/contrib/metatag/metatag.post_update.php:192-213 | a batch processes exactly the records from where the last one stopped |
| `MetatagAuthor.VisitsInOrder` | modules/contrib/metatag/metatag.post_update.php:192-213 | one after the other |
| `MetatagAuthor.WritesConvert` | modules/contrib/metatag/metatag.post_update.php:198-210 | all rows with a key end up with the converted tags of the last record written to them, and other rows are left alone |
| `MetatagAuthor.CompletedVisits` | modules/contrib/metatag/metatag.post_update.php:147-173 | a completed update has visited a record if and only if it is a record of a listed table |
| `MetatagAuthor.CompletedConvertsIff` | modules/contrib/metatag/metatag.post_update.php:192-213 | in the database every row with a key has its own author moved and its other tags as before if and only if none has the old tag or all convert to the same tags |
| `MetatagAuthor.SingleRowConverted` | modules/contrib/metatag/metatag.post_update.php:192-213 | so a row that is alone with its key is converted right |
| `MetatagAuthor.SharedKeyLoses` | modules/contrib/metatag/metatag.post_update.php:198-210 | of two values of one field with different authors the first ends up with the author of the second |
| `MetatagAuthor.BatchUpdate.Initialize` | modules/contrib/metatag/metatag.post_update.php:136-174 | the first call fills the sandbox and later ones leave it alone |
| `MetatagAuthor.BatchUpdate.ProcessRecords` | modules/contrib/metatag/metatag.post_update.php:192-213 | the loop processes up to 100 records of the field |
| `MetatagAuthor.BatchUpdate.ProcessBatch` | modules/contrib/metatag/metatag.post_update.php:176-234 | one batch, with its effect on the whole sandbox |
| `MetatagAuthor.BatchUpdate.ConvertAuthorData` | modules/contrib/metatag/metatag.post_update.php:132-244 | one invocation |
| `MetatagAuthor.RunUpdate` | modules/contrib/metatag/metatag.post_update.php:132-244 | repeated invocations end after the sum of ceil(n/100) over the tables (or one call), with every record visited exactly once and in order |
| `MetatagJson.WriteAllAt` | modules/contrib/metatag/metatag.post_update.php:441-464 | after the loop over a segment a row holds the JSON of the last record with its key that unserializes, or what it held |
| `MetatagJson.BatchMatching` | modules/contrib/metatag/metatag.post_update.php:429-464 | a batch leaves to be matched exactly the matching rows whose keys it has not written to |
| `MetatagJson.BatchWinner` | modules/contrib/metatag/metatag.post_update.php:429-464 | a batch that writes to a key settles it; for other keys the tags to come stay the same |
| `MetatagJson.BatchKeeps` | modules/contrib/metatag/metatag.post_update.php:440-464 | a batch leaves a row alone until its key is settled, and gives it the JSON of the winner then: the last record with the key that unserializes, in the first batch with one |
| `MetatagJson.RowsKeptMeans` | modules/contrib/metatag/metatag.post_update.php:440-464 | a row that has changed holds the JSON of a row with its key that unserialized, as do all rows with that key |
| `MetatagJson.BatchProgress` | modules/contrib/metatag/metatag.post_update.php:419-479 | every batch keeps the accounts and finishes the update or lowers a bound on the calls to come, for any rows |
| `MetatagJson.OutOfFields` | modules/contrib/metatag/metatag.post_update.php:424-427 | an unfinished update without a current field is one whose fields drain with too few records counted |
| `MetatagJson.CompletedInRange` | modules/contrib/metatag/metatag.post_update.php:471-474 | a finished update is one for which that is not so |
| `MetatagJson.OutOfRows` | modules/contrib/metatag/metatag.post_update.php:424-469 | an update that has run off its fields has converted every matching row |
| `MetatagJson.ConvertSegment` | modules/contrib/metatag/metatag.post_update.php:429-464 | the query and its loop, with an update by key for every record that unserializes |
| `MetatagJson.CollectFields` | modules/contrib/metatag/metatag.post_update.php:391-412 | the loop over the tables lists those with matching rows and counts the rows |
| `MetatagJson.BatchUpdate.Initialize` | modules/contrib/metatag/metatag.post_update.php:383-413 | the first call fills the sandbox by that loop |
| `MetatagJson.BatchUpdate.ProcessBatch` | modules/contrib/metatag/metatag.post_update.php:415-479 | one batch, with its effect on the sandbox and the tables |
| `MetatagJson.BatchUpdate.ChangeFieldsToJson` | modules/contrib/metatag/metatag.post_update.php:379-490 | one invocation, which fails exactly if it needs a field that does not exist |
| `MetatagJson.RunUpdate` | modules/contrib/metatag/metatag.post_update.php:379-490 | repeated invocations end within one call per matching row and per field; they fail if and only if every field drains with fewer records counted than there are matching rows, and then no matching row is left; every row is as it was or holds the JSON of the winner of its key |
| `MetatagJsonKeys.SerializedDrain` | modules/contrib/metatag/metatag.post_update.php:429-469 | rows that all unserialize drain, and all are counted if and only if rows with the same key are in the same hundred |
| `MetatagJsonKeys.FailsIffKeysStraddle` | modules/contrib/metatag/metatag.post_update.php:415-479 | when no row that unserializes shares its key with one that does not, the update runs off its fields if and only if all matching rows unserialize and some table has rows with the same key in different hundreds |
| `MetatagJsonKeys.StuckNeverFails` | modules/contrib/metatag/metatag.post_update.php:452-469 | for any tables it does not if some row that does not unserialize shares its key with none that does |
| `MetatagJsonKeys.SharedKeyFails` | modules/contrib/metatag/metatag.post_update.php:454-467 | one table of 101 rows, the last two with the same key, makes it fail |
| `MetatagJsonKeys.ApartDrains` | modules/contrib/metatag/metatag.post_update.php:452-469 | when no row that unserializes shares its key with one that does not, a table drains if and only if all its matching rows unserialize |
| `MetatagJsonKeys.DistinctNeverFails` | modules/contrib/metatag/metatag.post_update.php:424-427 | with distinct keys the update never runs off its fields |
| `MetatagJsonKeys.DistinctInRange` | modules/contrib/metatag/metatag.post_update.php:424-427 | so an unfinished update has a current field |
| `MetatagJsonKeys.NothingLeft` | modules/contrib/metatag/metatag.post_update.php:440-479 | when all matching rows unserialize, a finished update has left none of them, whatever the keys |
| `MetatagJsonKeys.NothingLeftIff` | modules/contrib/metatag/metatag.post_update.php:440-479 | when none shares its key with one that does not, a finished update has left no matching row if and only if all of them unserialize |
| `MetatagJsonKeys.SettledContents` | modules/contrib/metatag/metatag.post_update.php:440-464 | once no matching row is left, a row holds the JSON of the winner of its key, or what it held if no row with its key unserialized |
| `MetatagJsonKeys.CompletedConvertsIff` | modules/contrib/metatag/metatag.post_update.php:440-479 | when all matching rows unserialize, a finished update has made every row found its own JSON and left all others alone if and only if rows that share a key agree |
| `MetatagJsonKeys.SingleRowConverted` | modules/contrib/metatag/metatag.post_update.php:440-464 | so a row that is alone with its key is converted right |
| `MetatagJsonKeys.SharedKeyLoses` | modules/contrib/metatag/metatag.post_update.php:452-461 | of two values of one field the first is overwritten with the second, and so is any other value of that field |
| `MetatagJsonKeys.UndrainedHoldsUp` | modules/contrib/metatag/metatag.post_update.php:465-477 | the first field that does not drain is the current one when the update is finished; the fields before it are done with, and the tables of those after it are as they were |
| `MetatagJsonKeys.BrokenRowBlocks` | modules/contrib/metatag/metatag.post_update.php:452-467 | the first field with a row that does not unserialize and shares its key with none that does is never left: the fields before it are done with, and the tables of those after it are as they were |
| `MetatagJsonKeys.BrokenRowExample` | modules/contrib/metatag/metatag.post_update.php:452-477 | two tables of one row, the first of which does not unserialize: the update finishes and has changed nothing |

## Left out

- FindController.PDFFindController.NextPageMatch: does not model the console message about a second pending page, which does not change the state.
- FindController.PDFFindController.PageTextReady: a word search for white space only makes the source throw after the page has left the pending set; the model stores nothing for that page, which is the state it leaves.
- FindConfluence.DocumentSearchIsConfluent: is about queries for which match lists are stored; for the other queries the callbacks store nothing and the search stays parked.
- WordMatch.PrepareMatches: `Array.prototype.sort` is modelled by its contract (sorted by start and length, same elements), not by an algorithm.
- WordMatch.CalcFindWordMatch: its inner loop is the phrase loop and is modelled by a call of it.
- FindHighlights.SearchShows: lower-casing is a parameter of a document; that the text the search sees is as long as the text, position by position, is a hypothesis, because fractions and some case foldings change lengths (see `RawOffsets.HighlightsMatchIff` for fractions).
- MetatagJsonKeys.FailsIffKeysStraddle: where a row that does not unserialize shares its key with one that does, the condition is that of `MetatagJson.RunUpdate`, which follows the batches.
- FindRuns.Run: a text layer also reads highlightAll, the active flag and the query length, which a command changes before nextMatch refreshes any layer; the invariant is about the matches and the selected match.
- FindConfluence.ScrollingSearchIsConfluent: further commands between the callbacks start another search, so they are not admitted.
- CanvasScaling.SizeCanvas: arithmetic is over exact reals, so rounding of floating-point numbers is not modelled.
- VisibleViews.Update: resizing the buffer and asking for rendering are modelled in their own modules; presentation mode and the location update are not modelled.
- VisibleViews.GetVisibleElements: requires views laid out downwards (tops and bottoms never go back up, positive heights), which is what the binary search needs and what the viewer's single column provides.
- RenderingRuns.UpdateDrains: pages draw a number of chunks that is an input; drawings that fail with an error, thumbnails, printing and the idle timer are not modelled.
- PageViewBuffer.PDFPageViewBuffer.Push: destroying a view is an entry in a log; what it frees is not modelled.
- MetatagAuthor.RunUpdate: the list of tables and the rows the first query finds are inputs.
- MetatagJson.RunUpdate: the query is taken to return matching rows in table order, with their values at that time, and to match case-sensitively, so the branch that throws for other rows is never taken.
- Resetting the controller, closing the document and documents without pages.
- Text extraction, which delivers pages in order in the source; here the callbacks may come in every order.
- The count callback onUpdateResultsCount, the write-only field hadMatch and scrolling to a match.
- The browser history of the viewer, password and print dialogs, presentation mode, preferences, toolbars and all other user interface.
- Calls of the PDF library (rendering, text content, viewports), whose results are inputs.
- The other updates of the Metatag module and the other modules of the repository.
