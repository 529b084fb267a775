/** TextLayerBuilder.updateMatches: undoing the previous highlighting and showing the current matches. */
module TextLayer {
  import opened Options
  import opened WordMatch
  import opened OffsetMapping
  import opened Highlight

  /** What updateMatches reads from the find controller; inactive also stands for no controller. */
  datatype FindView = FindView(
    active: bool,
    matches: seq<nat>,         // pageMatches of this page, empty if there are none yet
    matchesLength: seq<nat>,   // pageMatchesLength of this page, in a word search
    multiTerm: bool,
    queryLen: nat,
    highlightAll: bool,
    isSelectedPage: bool,
    selectedMatchIdx: int)

  /** What the controller guarantees: lengths for all matches, and a selected match that exists. */
  predicate ValidView(v: FindView) {
    && (v.multiTerm ==> |v.matches| == |v.matchesLength|)
    && (v.isSelectedPage ==> 0 <= v.selectedMatchIdx)
    && (v.isSelectedPage && v.matches != [] ==> v.selectedMatchIdx < |v.matches|)
  }

  function ViewIntervals(v: FindView): (xs: seq<Interval>)
    requires ValidView(v)
    ensures |xs| == |v.matches|
  {
    AsIntervals(v.matches, v.matchesLength, v.multiTerm, v.queryLen)
  }

  // ---- The functions ---------------------------------------------------------------------------

  /** The range of matches that renderMatches highlights. */
  function FirstShown(v: FindView): (r: nat)
    requires ValidView(v)
    ensures r <= EndShown(v)
  {
    if v.matches == [] || v.highlightAll || !v.isSelectedPage then 0 else v.selectedMatchIdx
  }

  function EndShown(v: FindView): (r: nat)
    requires ValidView(v)
    ensures r <= |v.matches|
  {
    if v.matches == [] then 0
    else if v.highlightAll then |v.matches|
    else if v.isSelectedPage then v.selectedMatchIdx + 1
    else 0
  }

  function SelectedShown(v: FindView): int { if v.isSelectedPage then v.selectedMatchIdx else -1 }

  /** renderMatches. */
  function Rendered(divs: seq<Div>, items: seq<string>, locs: seq<Located>, v: FindView): (r: seq<Div>)
    requires |divs| == |items| && ValidView(v) && |locs| == |v.matches|
    requires forall m :: 0 <= m < |locs| ==> InDivs(locs[m], |divs|)
    ensures |r| == |divs|
  {
    Render(divs, items, locs, FirstShown(v), EndShown(v), SelectedShown(v), None)
  }

  /** Restores the divs from `lo` to `hi`, both included. */
  function Restore(divs: seq<Div>, items: seq<string>, lo: nat, hi: int): (r: seq<Div>)
    requires |divs| == |items| && hi < |divs|
    ensures |r| == |divs|
    ensures forall d: nat {:trigger r[d]} :: d < |divs| ==> r[d] == if lo <= d <= hi then Pristine(items[d]) else divs[d]
    decreases hi - lo
  {
    if lo > hi then divs else Restore(divs[lo := Pristine(items[lo])], items, lo + 1, hi)
  }

  /** The loop that clears the ranges of the stored matches, those from `m` on. */
  function Clear(divs: seq<Div>, items: seq<string>, locs: seq<Located>, m: nat, clearedUntil: int): (r: seq<Div>)
    requires |divs| == |items| && m <= |locs|
    requires forall k :: 0 <= k < |locs| ==> InDivs(locs[k], |divs|)
    ensures |r| == |divs|
    decreases |locs| - m
  {
    if m == |locs| then divs
    else
      assert InDivs(locs[m], |divs|);
      var begin := if clearedUntil > locs[m].begin.divIdx then clearedUntil else locs[m].begin.divIdx;
      Clear(Restore(divs, items, begin, locs[m].end.divIdx), items, locs, m + 1, locs[m].end.divIdx + 1)
  }

  /** The state of a text layer: the stored matches and the divs. */
  datatype Layer = Layer(matches: seq<Located>, divs: seq<Div>)

  ghost predicate Fits(s: Layer, items: seq<string>) {
    |s.divs| == |items| && forall m :: 0 <= m < |s.matches| ==> InDivs(s.matches[m], |items|)
  }

  /** A layer whose divs have just been filled with the text of their items. */
  function FreshLayer(items: seq<string>): (s: Layer)
    ensures |s.divs| == |items| && forall d :: 0 <= d < |items| ==> s.divs[d] == Pristine(items[d])
  {
    Layer([], seq(|items|, d requires 0 <= d < |items| => Pristine(items[d])))
  }

  /** A page without text items has no matches. */
  function LocsOf(items: seq<string>, v: FindView): (locs: seq<Located>)
    requires ValidView(v) && (items == [] ==> v.matches == [])
    ensures |locs| == |v.matches|
    ensures forall m :: 0 <= m < |locs| ==> InDivs(locs[m], |items|)
  {
    if v.matches == [] then [] else Convert(items, 0, ViewIntervals(v))
  }

  /** updateMatches, once rendering is done. */
  function Update(s: Layer, items: seq<string>, v: FindView): (t: Layer)
    requires Fits(s, items) && ValidView(v) && (items == [] ==> v.matches == [])
    ensures Fits(t, items)
  {
    var cleared := Clear(s.divs, items, s.matches, 0, -1);
    if !v.active then Layer(s.matches, cleared)
    else Layer(LocsOf(items, v), Rendered(cleared, items, LocsOf(items, v), v))
  }

  // ---- The undo invariant --------------------------------------------------------------------------

  ghost predicate InRange(locs: seq<Located>, d: nat) {
    exists m :: 0 <= m < |locs| && locs[m].begin.divIdx <= d <= locs[m].end.divIdx
  }

  /** The stored matches come from a sweep, and every div outside their ranges is pristine. */
  ghost predicate Undoable(s: Layer, items: seq<string>) {
    && Fits(s, items) && Forward(s.matches, 0)
    && forall d: nat {:trigger s.divs[d]} :: d < |s.divs| && !InRange(s.matches, d) ==> s.divs[d] == Pristine(items[d])
  }

  /** Clearing from match `m` on restores every div in the ranges of these matches, and no other. */
  lemma {:induction false} ClearRestores(divs: seq<Div>, items: seq<string>, locs: seq<Located>, m: nat, clearedUntil: int, d: nat)
    requires |divs| == |items| && m <= |locs| && d < |divs| && Forward(locs, 0)
    requires forall k :: 0 <= k < |locs| ==> InDivs(locs[k], |divs|)
    requires clearedUntil == if m == 0 then -1 else locs[m - 1].end.divIdx + 1
    requires m > 0 && d == locs[m - 1].end.divIdx ==> divs[d] == Pristine(items[d])
    ensures var r := Clear(divs, items, locs, m, clearedUntil);
            r[d] == if InRange(locs[m..], d) then Pristine(items[d]) else divs[d]
    decreases |locs| - m
  {
    if m < |locs| {
      assert InDivs(locs[m], |divs|);
      var begin := if clearedUntil > locs[m].begin.divIdx then clearedUntil else locs[m].begin.divIdx;
      var next := Restore(divs, items, begin, locs[m].end.divIdx);
      ClearRestores(next, items, locs, m + 1, locs[m].end.divIdx + 1, d);
      RangeSplit(locs, m, d);
    }
  }

  lemma {:induction false} RangeSplit(locs: seq<Located>, m: nat, d: nat)
    requires m < |locs|
    ensures InRange(locs[m..], d) <==> (locs[m].begin.divIdx <= d <= locs[m].end.divIdx || InRange(locs[m + 1..], d))
  {
    var rest := locs[m..];
    if InRange(rest, d) && !(locs[m].begin.divIdx <= d <= locs[m].end.divIdx) {
      var k :| 0 <= k < |rest| && rest[k].begin.divIdx <= d <= rest[k].end.divIdx;
      assert locs[m + 1..][k - 1] == rest[k];
    }
    if InRange(locs[m + 1..], d) {
      var k :| 0 <= k < |locs| - m - 1 && locs[m + 1..][k].begin.divIdx <= d <= locs[m + 1..][k].end.divIdx;
      assert rest[k + 1] == locs[m + 1..][k];
    }
    if locs[m].begin.divIdx <= d <= locs[m].end.divIdx {
      assert rest[0] == locs[m];
    }
  }

  /** Clearing an undoable layer makes every div pristine again. */
  lemma {:induction false} ClearUndoes(s: Layer, items: seq<string>)
    requires Undoable(s, items)
    ensures Clear(s.divs, items, s.matches, 0, -1) == FreshLayer(items).divs
  {
    var r := Clear(s.divs, items, s.matches, 0, -1);
    forall d: nat | d < |items|
      ensures r[d] == Pristine(items[d])
    {
      ClearRestores(s.divs, items, s.matches, 0, -1, d);
      assert s.matches[0..] == s.matches;
    }
  }

  // ---- Rendering stays inside the ranges --------------------------------------------------------------

  lemma {:induction false} OpenTouches(divs: seq<Div>, items: seq<string>, prevEnd: Option<Position>, begin: Position, d: nat)
    requires |divs| == |items| && begin.divIdx < |divs| && (prevEnd.Some? ==> prevEnd.value.divIdx < |divs|)
    requires d < |divs| && d != begin.divIdx && (prevEnd.Some? ==> d != prevEnd.value.divIdx)
    ensures OpenMatch(divs, items, prevEnd, begin)[d] == divs[d]
  {
  }

  lemma {:induction false} FillTouches(divs: seq<Div>, items: seq<string>, loc: Located, selected: bool, d: nat)
    requires |divs| == |items| && InDivs(loc, |divs|) && loc.begin.divIdx <= loc.end.divIdx
    requires d < |divs| && !(loc.begin.divIdx <= d <= loc.end.divIdx)
    ensures FillMatch(divs, items, loc, selected)[d] == divs[d]
  {
  }

  lemma {:induction false} TurnTouches(divs: seq<Div>, next: seq<Div>, items: seq<string>, loc: Located, selected: bool,
                                       prevEnd: Option<Position>, d: nat)
    requires |divs| == |items| && InDivs(loc, |divs|) && loc.begin.divIdx <= loc.end.divIdx
    requires prevEnd.Some? ==> prevEnd.value.divIdx < |divs| && d != prevEnd.value.divIdx
    requires d < |divs| && !(loc.begin.divIdx <= d <= loc.end.divIdx)
    requires next == FillMatch(OpenMatch(divs, items, prevEnd, loc.begin), items, loc, selected)
    ensures next[d] == divs[d]
  {
    OpenTouches(divs, items, prevEnd, loc.begin, d);
    FillTouches(OpenMatch(divs, items, prevEnd, loc.begin), items, loc, selected, d);
  }

  lemma {:induction false} TurnLeads(divs: seq<Div>, items: seq<string>, locs: seq<Located>, i: nat, i1: nat, selected: int,
                  prevEnd: Option<Position>, goal: seq<Div>, d: nat) returns (next: seq<Div>)
    requires i < i1 && LeadsTo(divs, items, locs, i, i1, selected, prevEnd, goal)
    requires locs[i].begin.divIdx <= locs[i].end.divIdx && !(locs[i].begin.divIdx <= d <= locs[i].end.divIdx)
    requires d < |divs| && (prevEnd.Some? ==> d != prevEnd.value.divIdx)
    ensures |next| == |divs| && next[d] == divs[d]
    ensures LeadsTo(next, items, locs, i + 1, i1, selected, Some(locs[i].end), goal)
  {
    next := FillMatch(OpenMatch(divs, items, prevEnd, locs[i].begin), items, locs[i], i == selected);
    TurnTouches(divs, next, items, locs[i], i == selected, prevEnd, d);
    LeadsOn(divs, next, items, locs, i, i1, selected, prevEnd, goal);
  }

  /** A div outside the ranges of the matches from `i` on (and of the previous one) is left alone. */
  lemma {:induction false} RenderTouches(divs: seq<Div>, items: seq<string>, locs: seq<Located>, i: nat, i1: nat,
                                         selected: int, prevEnd: Option<Position>, goal: seq<Div>, d: nat)
    requires LeadsTo(divs, items, locs, i, i1, selected, prevEnd, goal)
    requires Forward(locs, 0) && d < |divs| && !InRange(locs, d) && (prevEnd.Some? ==> d != prevEnd.value.divIdx)
    ensures goal[d] == divs[d]
    decreases i1 - i
  {
    if i < i1 {
      assert !(locs[i].begin.divIdx <= d <= locs[i].end.divIdx);
      var next := TurnLeads(divs, items, locs, i, i1, selected, prevEnd, goal, d);
      RenderTouches(next, items, locs, i + 1, i1, selected, Some(locs[i].end), goal, d);
    } else {
      LeadsToEnd(divs, items, locs, i, i1, selected, prevEnd, goal);
    }
  }

  /** What updateMatches does to a layer that can be undone does not depend on what it shows. */
  lemma {:induction false} UpdateForgets(s: Layer, items: seq<string>, v: FindView)
    requires Undoable(s, items) && ValidView(v) && (items == [] ==> v.matches == [])
    ensures Update(s, items, v).divs == if v.active then Update(FreshLayer(items), items, v).divs else FreshLayer(items).divs
    ensures Update(s, items, v).matches == if v.active then LocsOf(items, v) else s.matches
  {
    ClearUndoes(s, items);
  }

  lemma {:induction false} UpdateUndoable(s: Layer, items: seq<string>, v: FindView)
    requires Undoable(s, items) && ValidView(v) && (items == [] ==> v.matches == [])
    ensures Undoable(Update(s, items, v), items)
  {
    ClearUndoes(s, items);
    if v.active {
      var cleared, locs, t := FreshLayer(items).divs, LocsOf(items, v), Update(s, items, v);
      if v.matches != [] {
        ConvertForward(items, 0, ViewIntervals(v));
      }
      forall d: nat | d < |items| && !InRange(locs, d)
        ensures t.divs[d] == Pristine(items[d])
      {
        RenderTouches(cleared, items, locs, FirstShown(v), EndShown(v), SelectedShown(v), None, t.divs, d);
      }
    }
  }

  // ---- Runs -----------------------------------------------------------------------------------------------

  ghost predicate ValidViews(items: seq<string>, views: seq<FindView>) {
    forall k :: 0 <= k < |views| ==> ValidView(views[k]) && (items == [] ==> views[k].matches == [])
  }

  /** The layer after a sequence of updates, starting from fresh divs. */
  ghost function Run(items: seq<string>, views: seq<FindView>): (s: Layer)
    requires ValidViews(items, views)
    ensures Undoable(s, items)
  {
    if views == [] then FreshLayer(items)
    else
      var last := views[|views| - 1];
      var before := Run(items, views[..|views| - 1]);
      UpdateUndoable(before, items, last);
      Update(before, items, last)
  }

  /**
   * After any sequence of updates the divs are those of a single update of a fresh layer with the last
   * view: nothing of the earlier highlighting is left, and nothing else is.  With find inactive every
   * div has its original text and no class name.
   */
  lemma {:induction false} RunDependsOnLastView(items: seq<string>, views: seq<FindView>)
    requires ValidViews(items, views) && views != []
    ensures var v := views[|views| - 1];
            Run(items, views).divs == if v.active then Update(FreshLayer(items), items, v).divs else FreshLayer(items).divs
  {
    UpdateForgets(Run(items, views[..|views| - 1]), items, views[|views| - 1]);
  }

  /** The views under which the sweep is exact: matches inside the page text that do not overlap. */
  ghost predicate ExactView(items: seq<string>, v: FindView) {
    && ValidView(v) && (items == [] ==> v.matches == [])
    && NonOverlapping(ViewIntervals(v))
    && forall m :: 0 <= m < |ViewIntervals(v)| ==> InText(items, ViewIntervals(v)[m])
  }

  /** Position `g` lies in match `k` of the view. */
  ghost predicate InMatch(v: FindView, k: int, g: nat)
    requires ValidView(v)
  {
    0 <= k < |v.matches| && ViewIntervals(v)[k].start <= g < ViewIntervals(v)[k].End()
  }

  /**
   * How a character is to be shown: as selected if it lies in the selected match of the selected page; as
   * highlighted if all matches are and it lies in another one; as plain text otherwise.
   */
  ghost function MarkIn(v: FindView, g: nat): Mark
    requires ValidView(v)
  {
    if v.isSelectedPage && InMatch(v, v.selectedMatchIdx, g) then Some(true)
    else if v.highlightAll && exists k :: InMatch(v, k, g) then Some(false)
    else None
  }

  ghost function MarksOf(items: seq<string>, v: FindView): (r: seq<Mark>)
    requires ValidView(v)
    ensures |r| == PrefixLen(items, |items|) && forall g :: 0 <= g < |r| ==> r[g] == MarkIn(v, g)
  {
    seq(PrefixLen(items, |items|), g requires 0 <= g => MarkIn(v, g))
  }

  lemma {:induction false} MarkAtMeans(xs: seq<Interval>, i0: nat, i1: nat, selected: int, g: nat)
    requires i1 <= |xs|
    ensures var mark := MarkAt(xs, i0, i1, selected, g);
            if mark.None? then forall m :: i0 <= m < i1 ==> !(xs[m].start <= g < xs[m].End())
            else exists m :: i0 <= m < i1 && xs[m].start <= g < xs[m].End() && mark == Some(m == selected)
    decreases i1
  {
    if i0 < i1 && !(xs[i1 - 1].start <= g < xs[i1 - 1].End()) {
      MarkAtMeans(xs, i0, i1 - 1, selected, g);
    }
  }

  /** These are the marks that renderMatches works towards, unless matches overlap. */
  lemma {:induction false} MarksAgree(items: seq<string>, v: FindView)
    requires ValidView(v) && (NonOverlapping(ViewIntervals(v)) || !v.highlightAll)
    ensures MarksOf(items, v)
         == MarkSeq(ViewIntervals(v), FirstShown(v), EndShown(v), SelectedShown(v), PrefixLen(items, |items|))
  {
    forall g: nat | g < PrefixLen(items, |items|)
      ensures MarkIn(v, g) == MarkAt(ViewIntervals(v), FirstShown(v), EndShown(v), SelectedShown(v), g)
    {
      MarkAgrees(v, g);
    }
  }

  lemma {:induction false} MarkAgrees(v: FindView, g: nat)
    requires ValidView(v) && (NonOverlapping(ViewIntervals(v)) || !v.highlightAll)
    ensures MarkIn(v, g) == MarkAt(ViewIntervals(v), FirstShown(v), EndShown(v), SelectedShown(v), g)
  {
    var xs, i0, i1 := ViewIntervals(v), FirstShown(v), EndShown(v);
    var mark := MarkAt(xs, i0, i1, SelectedShown(v), g);
    MarkAtMeans(xs, i0, i1, SelectedShown(v), g);
    if mark.Some? {
      var m :| i0 <= m < i1 && xs[m].start <= g < xs[m].End() && mark == Some(m == SelectedShown(v));
      MarkOfMatch(v, g, m);
    } else {
      NoMark(v, g);
    }
  }

  /** A match shown at `g` is the only one there that counts. */
  lemma {:induction false} MarkOfMatch(v: FindView, g: nat, m: nat)
    requires ValidView(v) && (NonOverlapping(ViewIntervals(v)) || !v.highlightAll)
    requires FirstShown(v) <= m < EndShown(v) && InMatch(v, m, g)
    ensures MarkIn(v, g) == Some(m == SelectedShown(v))
  {
    if v.isSelectedPage && InMatch(v, v.selectedMatchIdx, g) {
      assert m == v.selectedMatchIdx;
    }
  }

  lemma {:induction false} NoMark(v: FindView, g: nat)
    requires ValidView(v) && forall m :: FirstShown(v) <= m < EndShown(v) ==> !InMatch(v, m, g)
    ensures MarkIn(v, g) == None
  {
  }

  /** What a run leaves on the page: every div shows the text of its item, marked as the last view asks for. */
  lemma {:induction false} RunShowsMatches(items: seq<string>, views: seq<FindView>)
    requires ValidViews(items, views) && views != []
    requires views[|views| - 1].active && ExactView(items, views[|views| - 1])
    ensures ShowsAll(Run(items, views).divs, items, MarksOf(items, views[|views| - 1]))
  {
    var v := views[|views| - 1];
    var xs, pristine := ViewIntervals(v), FreshLayer(items);
    RunDependsOnLastView(items, views);
    MarksAgree(items, v);
    assert Clear(pristine.divs, items, pristine.matches, 0, -1) == pristine.divs;
    if v.matches == [] {
      assert LocsOf(items, v) == [] && xs == [];
      GapUniform(xs, 0, 0, SelectedShown(v), PrefixLen(items, |items|), 0, 0, PrefixLen(items, |items|));
      UntouchedShowsAll(pristine.divs, items, MarkSeq(xs, 0, 0, SelectedShown(v), PrefixLen(items, |items|)));
    } else {
      NonOverlappingExact(items, xs);
      RenderShows(pristine.divs, items, xs, LocsOf(items, v), FirstShown(v), EndShown(v), SelectedShown(v));
    }
  }

  // ---- The object ---------------------------------------------------------------------------------------------

  class TextLayerBuilder {
    const items: seq<string>     // textContent.items
    const textDivs: array<Div>
    var matches: seq<Located>
    var renderingDone: bool

    ghost function Abs(): Layer
      reads this, textDivs
    {
      Layer(matches, textDivs[..])
    }

    ghost predicate Valid()
      reads this, textDivs
    {
      Undoable(Abs(), items)
    }

    /** The layer as it is when the text has been laid out. */
    constructor (items: seq<string>)
      ensures this.items == items && Abs() == FreshLayer(items) && !renderingDone && Valid()
      ensures fresh(textDivs)
    {
      this.items := items;
      textDivs := new Div[|items|](d requires 0 <= d < |items| => Pristine(items[d]));
      matches, renderingDone := [], false;
      new;
      assert textDivs[..] == FreshLayer(items).divs;
    }

    method AppendTextToDiv(divIdx: nat, fromOffset: int, toOffset: int, style: Option<Style>)
      requires divIdx < textDivs.Length == |items|
      modifies textDivs
      ensures textDivs[..] == AppendText(old(textDivs[..]), items, divIdx, fromOffset, toOffset, style)
    {
      var content := Substring(items[divIdx], fromOffset, toOffset);
      textDivs[divIdx] := textDivs[divIdx].(pieces := textDivs[divIdx].pieces + [Piece(content, style)]);
    }

    method BeginText(begin: Position, style: Option<Style>)
      requires begin.divIdx < textDivs.Length == |items|
      modifies textDivs
      ensures textDivs[..] == Highlight.BeginText(old(textDivs[..]), items, begin, style)
    {
      textDivs[begin.divIdx] := textDivs[begin.divIdx].(pieces := []);
      AppendTextToDiv(begin.divIdx, 0, begin.offset, style);
    }

    method OpenMatch(prevEnd: Option<Position>, begin: Position)
      requires begin.divIdx < textDivs.Length == |items|
      requires prevEnd.Some? ==> prevEnd.value.divIdx < textDivs.Length
      modifies textDivs
      ensures textDivs[..] == Highlight.OpenMatch(old(textDivs[..]), items, prevEnd, begin)
    {
      if prevEnd.None? || begin.divIdx != prevEnd.value.divIdx {
        if prevEnd.Some? {
          AppendTextToDiv(prevEnd.value.divIdx, prevEnd.value.offset, |items[prevEnd.value.divIdx]|, None);
        }
        BeginText(begin, None);
      } else {
        AppendTextToDiv(prevEnd.value.divIdx, prevEnd.value.offset, begin.offset, None);
      }
    }

    method StyleDivs(lo: nat, hi: nat, style: Option<Style>)
      requires hi <= textDivs.Length
      modifies textDivs
      ensures textDivs[..] == SetStyle(old(textDivs[..]), lo, hi, style)
    {
      var n0 := lo;
      while n0 < hi
        invariant lo <= n0 && (n0 <= hi || n0 == lo)
        invariant forall d :: 0 <= d < textDivs.Length ==>
                    textDivs[d] == if lo <= d < n0 then old(textDivs[d]).(style := style) else old(textDivs[d])
      {
        textDivs[n0] := textDivs[n0].(style := style);
        n0 := n0 + 1;
      }
    }

    method FillMatch(loc: Located, selected: bool)
      requires textDivs.Length == |items| && InDivs(loc, |items|)
      modifies textDivs
      ensures textDivs[..] == Highlight.FillMatch(old(textDivs[..]), items, loc, selected)
    {
      var begin, end := loc.begin, loc.end;
      if begin.divIdx == end.divIdx {
        AppendTextToDiv(begin.divIdx, begin.offset, end.offset, Some(Style(Whole, selected)));
      } else {
        AppendTextToDiv(begin.divIdx, begin.offset, |items[begin.divIdx]|, Some(Style(Begin, selected)));
        StyleDivs(begin.divIdx + 1, end.divIdx, Some(Style(Middle, selected)));
        BeginText(end, Some(Style(End, selected)));
      }
    }

    /** The body of the loop over the matches. */
    method ShowMatch(locs: seq<Located>, i: nat, ghost i1: nat, v: FindView, prevEnd: Option<Position>, ghost goal: seq<Div>)
      returns (end: Option<Position>)
      requires textDivs.Length == |items| && i < i1 <= |locs|
      requires LeadsTo(textDivs[..], items, locs, i, i1, SelectedShown(v), prevEnd, goal)
      modifies textDivs
      ensures LeadsTo(textDivs[..], items, locs, i + 1, i1, SelectedShown(v), end, goal)
    {
      assert InDivs(locs[i], |items|);
      ghost var before := textDivs[..];
      var isSelected := v.isSelectedPage && i == v.selectedMatchIdx;
      OpenMatch(prevEnd, locs[i].begin);
      FillMatch(locs[i], isSelected);
      LeadsOn(before, textDivs[..], items, locs, i, i1, SelectedShown(v), prevEnd, goal);
      end := Some(locs[i].end);
    }

    method RenderMatches(locs: seq<Located>, v: FindView)
      requires textDivs.Length == |items| && ValidView(v) && |locs| == |v.matches|
      requires forall m :: 0 <= m < |locs| ==> InDivs(locs[m], |items|)
      modifies textDivs
      ensures textDivs[..] == Rendered(old(textDivs[..]), items, locs, v)
    {
      if |locs| == 0 {
        return;
      }
      var i0, i1 := v.selectedMatchIdx, v.selectedMatchIdx + 1;
      if v.highlightAll {
        i0, i1 := 0, |locs|;
      } else if !v.isSelectedPage {
        return;
      }
      RenderRange(locs, i0, i1, v, Rendered(textDivs[..], items, locs, v));
    }

    /** The loop over the matches to be shown. */
    method RenderRange(locs: seq<Located>, i0: nat, i1: nat, v: FindView, ghost goal: seq<Div>)
      requires textDivs.Length == |items| && i0 <= i1 <= |locs|
      requires LeadsTo(textDivs[..], items, locs, i0, i1, SelectedShown(v), None, goal)
      modifies textDivs
      ensures textDivs[..] == goal
    {
      var prevEnd: Option<Position> := None;
      var i := i0;
      while i < i1
        invariant i0 <= i <= i1
        invariant var leads := LeadsTo(textDivs[..], items, locs, i, i1, SelectedShown(v), prevEnd, goal); leads
      {
        prevEnd := ShowMatch(locs, i, i1, v, prevEnd, goal);
        i := i + 1;
      }
      CloseLast(locs, i1, v, prevEnd, goal);
    }

    /** The text after the last match shown. */
    method CloseLast(ghost locs: seq<Located>, ghost i1: nat, ghost v: FindView, prevEnd: Option<Position>,
                     ghost goal: seq<Div>)
      requires textDivs.Length == |items|
      requires LeadsTo(textDivs[..], items, locs, i1, i1, SelectedShown(v), prevEnd, goal)
      modifies textDivs
      ensures textDivs[..] == goal
    {
      LeadsToEnd(textDivs[..], items, locs, i1, i1, SelectedShown(v), prevEnd, goal);
      if prevEnd.Some? {
        AppendTextToDiv(prevEnd.value.divIdx, prevEnd.value.offset, |items[prevEnd.value.divIdx]|, None);
      }
    }

    method RestoreDivs(lo: nat, hi: int)
      requires textDivs.Length == |items| && hi < |items|
      modifies textDivs
      ensures textDivs[..] == Restore(old(textDivs[..]), items, lo, hi)
    {
      var n := lo;
      while n <= hi
        invariant lo <= n && (n <= hi + 1 || n == lo)
        invariant forall d :: 0 <= d < textDivs.Length ==>
                    textDivs[d] == if lo <= d < n then Pristine(items[d]) else old(textDivs[d])
      {
        textDivs[n] := Pristine(items[n]);
        n := n + 1;
      }
    }

    /** The loop of updateMatches that clears all current matches. */
    method ClearMatches()
      requires Fits(Abs(), items)
      modifies textDivs
      ensures textDivs[..] == Clear(old(textDivs[..]), items, matches, 0, -1)
    {
      var clearedUntilDivIdx := -1;
      for i := 0 to |matches|
        invariant Clear(textDivs[..], items, matches, i, clearedUntilDivIdx)
               == Clear(old(textDivs[..]), items, matches, 0, -1)
      {
        var loc := matches[i];
        assert InDivs(loc, |items|);
        RestoreDivs(if clearedUntilDivIdx > loc.begin.divIdx then clearedUntilDivIdx else loc.begin.divIdx,
                    loc.end.divIdx);
        clearedUntilDivIdx := loc.end.divIdx + 1;
      }
    }

    method UpdateMatches(v: FindView)
      requires Valid() && ValidView(v) && (items == [] ==> v.matches == [])
      modifies this, textDivs
      ensures Valid()
      ensures renderingDone == old(renderingDone)
      ensures Abs() == if renderingDone then Update(old(Abs()), items, v) else old(Abs())
    {
      // Before that there are no divs to highlight in.
      if !renderingDone {
        return;
      }
      UpdateUndoable(Abs(), items, v);
      ClearMatches();
      if !v.active {
        return;
      }
      if |v.matches| == 0 {
        matches := [];
      } else {
        matches := ConvertMatches(items, v.matches, v.matchesLength, v.multiTerm, v.queryLen);
      }
      RenderMatches(matches, v);
    }
  }
}
