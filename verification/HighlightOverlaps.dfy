/**
 * What the text layer does with the matches of a word search, which may overlap: exactly when the text of
 * the page survives, and exactly when it is marked right.
 */
module HighlightOverlaps {
  import opened Options
  import opened PhraseMatch
  import opened WordMatch
  import opened OffsetMapping
  import opened Highlight
  import opened TextLayer
  import opened Sequences

  /** Matches of the page's text, in the order that both searches report them. */
  ghost predicate Listed(items: seq<string>, xs: seq<Interval>) {
    StrictlyIncreasing(xs) && forall m :: 0 <= m < |xs| ==> InText(items, xs[m])
  }

  // ---- Where overlapping matches are located -------------------------------------------------------

  /** Whatever comes before, the end of a match is located in the item that holds its last character. */
  lemma {:induction false} EndLocated(items: seq<string>, i: nat, xs: seq<Interval>, m: nat)
    requires i < |items| && Listed(items, xs) && m < |xs| && PrefixLen(items, i) < xs[0].End()
    ensures var p := Convert(items, i, xs)[m].end;
            && PrefixLen(items, p.divIdx) < xs[m].End() <= PrefixLen(items, p.divIdx + 1)
            && PrefixLen(items, p.divIdx) + p.offset == xs[m].End()
    decreases m
  {
    var loc := Locate(items, i, xs[0]);
    BeginBefore(items, i, xs[0].start, xs[0].End());
    SkipEndFinds(items, loc.begin.divIdx, xs[0].End());
    if m > 0 {
      EndLocated(items, loc.end.divIdx, xs[1..], m - 1);
    }
  }

  lemma {:induction false} BeginBefore(items: seq<string>, i: nat, start: nat, end: nat)
    requires i < |items| && start < end && PrefixLen(items, i) < end
    ensures PrefixLen(items, SkipBegin(items, i, start)) < end
    decreases |items| - i
  {
    if i != |items| - 1 && start >= PrefixLen(items, i) + |items[i]| {
      BeginBefore(items, i + 1, start, end);
    }
  }

  /** A match that overlaps the previous one is located in the item where that one ends, before its end. */
  lemma {:induction false} OverlapLocated(items: seq<string>, i: nat, xs: seq<Interval>, m: nat)
    requires i < |items| && Listed(items, xs) && m + 1 < |xs| && PrefixLen(items, i) < xs[0].End()
    requires xs[m + 1].start < xs[m].End()
    ensures var locs := Convert(items, i, xs);
            locs[m + 1].begin.divIdx == locs[m].end.divIdx && locs[m + 1].begin.offset < locs[m].end.offset
    decreases m
  {
    var loc := Locate(items, i, xs[0]);
    EndLocated(items, i, xs, 0);
    assert Convert(items, i, xs)[0] == loc;
    if m > 0 {
      OverlapLocated(items, loc.end.divIdx, xs[1..], m - 1);
    } else {
      assert Convert(items, i, xs)[1] == Convert(items, loc.end.divIdx, xs[1..])[0];
      assert SkipBegin(items, loc.end.divIdx, xs[1].start) == loc.end.divIdx;
    }
  }

  /** The match does not begin before the item in which the previous match ends. */
  ghost predicate Follows(items: seq<string>, xs: seq<Interval>, k: nat)
    requires k < |xs|
  {
    k == 0 || (items != [] && PrefixLen(items, EndItem(items, xs[k - 1].End())) <= xs[k].start)
  }

  lemma {:induction false} LocatedFrom(items: seq<string>, i: nat, xs: seq<Interval>, m: nat)
    requires i < |items| && m + 1 < |xs|
    ensures var locs := Convert(items, i, xs); locs[m + 1] == Locate(items, locs[m].end.divIdx, xs[m + 1])
    decreases m
  {
    var loc := Locate(items, i, xs[0]);
    var rest := Convert(items, loc.end.divIdx, xs[1..]);
    assert Convert(items, i, xs) == [loc] + rest;
    if m > 0 {
      LocatedFrom(items, loc.end.divIdx, xs[1..], m - 1);
    }
  }

  /** That is what it takes for a match to be located right, whatever happens to the matches before it. */
  lemma {:induction false} ExactIffFollows(items: seq<string>, xs: seq<Interval>, k: nat)
    requires Listed(items, xs) && items != [] && k < |xs|
    ensures Exact(items, xs[k], Convert(items, 0, xs)[k]) <==> Follows(items, xs, k)
  {
    if k == 0 {
      LocateExact(items, 0, xs[0]);
    } else {
      var locs := Convert(items, 0, xs);
      EndLocated(items, 0, xs, k - 1);
      EndItemUnique(items, xs[k - 1].End(), locs[k - 1].end.divIdx);
      LocatedFrom(items, 0, xs, k - 1);
      LocateExact(items, locs[k - 1].end.divIdx, xs[k]);
    }
  }

  // ---- How the text of a div grows --------------------------------------------------------------------

  function Length(divs: seq<Div>, d: nat): nat
    requires d < |divs|
  {
    |Text(divs[d].pieces)|
  }

  /** A position inside its item, at either end or in between. */
  predicate InItem(items: seq<string>, p: Position) { p.divIdx < |items| && 0 <= p.offset <= |items[p.divIdx]| }

  function Distance(a: int, b: int): nat { if a <= b then b - a else a - b }

  lemma {:induction false} AppendLength(divs: seq<Div>, items: seq<string>, d: nat, from: int, to: int, style: Option<Style>)
    requires d < |divs| == |items|
    ensures var n := |items[d]|;
            Length(AppendText(divs, items, d, from, to, style), d) == Length(divs, d) + Distance(Clamp(from, n), Clamp(to, n))
    ensures forall e: nat :: e < |divs| && e != d ==> AppendText(divs, items, d, from, to, style)[e] == divs[e]
  {
    AppendPiece(divs[d], Piece(Substring(items[d], from, to), style));
  }

  lemma {:induction false} BeginLength(divs: seq<Div>, items: seq<string>, begin: Position, style: Option<Style>)
    requires begin.divIdx < |divs| == |items|
    ensures Length(BeginText(divs, items, begin, style), begin.divIdx) == Clamp(begin.offset, |items[begin.divIdx]|)
    ensures forall e: nat :: e < |divs| && e != begin.divIdx ==> BeginText(divs, items, begin, style)[e] == divs[e]
  {
    var cleared := divs[begin.divIdx := divs[begin.divIdx].(pieces := [])];
    AppendLength(cleared, items, begin.divIdx, 0, begin.offset, style);
  }

  /** The text of a match: in the div where it begins, and in the one where it ends. */
  lemma {:induction false} FillLength(divs: seq<Div>, items: seq<string>, loc: Located, selected: bool)
    requires |divs| == |items| && InDivs(loc, |divs|) && loc.begin.divIdx <= loc.end.divIdx && InItem(items, loc.end)
    ensures var next, b, n := FillMatch(divs, items, loc, selected), loc.begin.divIdx, |items[loc.begin.divIdx]|;
            && (forall e: nat :: e < b ==> next[e] == divs[e])
            && Length(next, b) == Length(divs, b)
                                + (if b == loc.end.divIdx then Distance(Clamp(loc.begin.offset, n), loc.end.offset)
                                   else n - Clamp(loc.begin.offset, n))
            && (b != loc.end.divIdx ==> Length(next, loc.end.divIdx) == loc.end.offset)
  {
    var b, e, n := loc.begin.divIdx, loc.end.divIdx, |items[loc.begin.divIdx]|;
    if b == e {
      AppendLength(divs, items, b, loc.begin.offset, loc.end.offset, Some(Style(Whole, selected)));
    } else {
      AppendLength(divs, items, b, loc.begin.offset, n, Some(Style(Begin, selected)));
      var begun := AppendRest(divs, items, loc.begin, Some(Style(Begin, selected)));
      var middle := SetStyle(begun, b + 1, e, Some(Style(Middle, selected)));
      BeginLength(middle, items, loc.end, Some(Style(End, selected)));
    }
  }

  /** The text before a match. */
  lemma {:induction false} OpenLength(divs: seq<Div>, items: seq<string>, prevEnd: Option<Position>, begin: Position)
    requires |divs| == |items| && begin.divIdx < |divs|
    requires prevEnd.Some? ==> InItem(items, prevEnd.value) && prevEnd.value.divIdx <= begin.divIdx
    ensures var open, b, from := OpenMatch(divs, items, prevEnd, begin), begin.divIdx,
                                 Clamp(begin.offset, |items[begin.divIdx]|);
            && Length(open, b) == (if prevEnd.Some? && prevEnd.value.divIdx == b
                                   then Length(divs, b) + Distance(prevEnd.value.offset, from) else from)
            && (prevEnd.Some? && prevEnd.value.divIdx != b ==>
                  var p := prevEnd.value; Length(open, p.divIdx) == Length(divs, p.divIdx) + |items[p.divIdx]| - p.offset)
            && (forall e: nat :: e < |divs| && e != b && (prevEnd.Some? ==> e != prevEnd.value.divIdx) ==> open[e] == divs[e])
  {
    match prevEnd
    case None => BeginLength(divs, items, begin, None);
    case Some(p) =>
      if begin.divIdx == p.divIdx {
        AppendLength(divs, items, p.divIdx, p.offset, begin.offset, None);
      } else {
        AppendLength(divs, items, p.divIdx, p.offset, |items[p.divIdx]|, None);
        BeginLength(AppendRest(divs, items, p, None), items, begin, None);
      }
  }

  /** The div at position `p` holds at least the text before `p`. */
  predicate Filled(divs: seq<Div>, p: Position) { p.divIdx < |divs| && Length(divs, p.divIdx) >= p.offset }

  /** Div `e` holds more text than it should, with the rendering at position `p`. */
  predicate Overfull(divs: seq<Div>, items: seq<string>, e: nat, p: Position) {
    && e <= p.divIdx && e < |divs| == |items|
    && Length(divs, e) > if e == p.divIdx then p.offset else |items[e]|
  }

  /** One turn of the loop. */
  ghost predicate IsTurn(divs: seq<Div>, next: seq<Div>, items: seq<string>, prevEnd: Option<Position>, loc: Located, selected: bool) {
    && |divs| == |items| && InDivs(loc, |divs|) && loc.begin.divIdx <= loc.end.divIdx && InItem(items, loc.end)
    && (prevEnd.Some? ==> InItem(items, prevEnd.value) && prevEnd.value.divIdx <= loc.begin.divIdx)
    && next == FillMatch(OpenMatch(divs, items, prevEnd, loc.begin), items, loc, selected)
  }

  /** Every turn leaves at least the text before its end, whatever the match. */
  lemma {:induction false} TurnFills(
    divs: seq<Div>, next: seq<Div>, items: seq<string>, prevEnd: Option<Position>, loc: Located, selected: bool)
    requires IsTurn(divs, next, items, prevEnd, loc, selected)
    requires prevEnd.Some? ==> Filled(divs, prevEnd.value)
    ensures |next| == |items| && Filled(next, loc.end)
  {
    OpenLength(divs, items, prevEnd, loc.begin);
    FillLength(OpenMatch(divs, items, prevEnd, loc.begin), items, loc, selected);
  }

  /** A match that overlaps the previous one repeats text, also if it begins in an earlier item. */
  lemma {:induction false} OverlapOverfills(
    divs: seq<Div>, next: seq<Div>, items: seq<string>, p: Position, loc: Located, selected: bool)
    requires IsTurn(divs, next, items, Some(p), loc, selected) && Filled(divs, p)
    requires loc.begin.divIdx == p.divIdx && loc.begin.offset < p.offset && p.offset > 0
    requires p.divIdx == loc.end.divIdx ==> p.offset < loc.end.offset
    ensures |next| == |items| && Overfull(next, items, p.divIdx, loc.end)
  {
    OpenLength(divs, items, Some(p), loc.begin);
    FillLength(OpenMatch(divs, items, Some(p), loc.begin), items, loc, selected);
  }

  /** The div only grows, and is not cleared any more. */
  lemma {:induction false} StaysOverfull(
    divs: seq<Div>, next: seq<Div>, items: seq<string>, p: Position, loc: Located, selected: bool, e: nat)
    requires IsTurn(divs, next, items, Some(p), loc, selected) && Overfull(divs, items, e, p)
    ensures |next| == |items| && Overfull(next, items, e, loc.end)
  {
    OpenLength(divs, items, Some(p), loc.begin);
    FillLength(OpenMatch(divs, items, Some(p), loc.begin), items, loc, selected);
    assert e < p.divIdx ==> next[e] == divs[e];
  }

  // ---- The loop over the matches -----------------------------------------------------------------------

  /** The positions go forwards and end inside their items. */
  ghost predicate EndsInside(items: seq<string>, locs: seq<Located>) {
    Forward(locs, 0) && forall m :: 0 <= m < |locs| ==> InDivs(locs[m], |items|) && InItem(items, locs[m].end)
  }

  lemma {:induction false} RenderStaysOverfull(
    divs: seq<Div>, items: seq<string>, locs: seq<Located>, i: nat, selected: int, goal: seq<Div>, e: nat)
    requires EndsInside(items, locs) && 0 < i <= |locs|
    requires LeadsTo(divs, items, locs, i, |locs|, selected, Some(locs[i - 1].end), goal)
    requires Overfull(divs, items, e, locs[i - 1].end)
    ensures e < |goal| && |Text(goal[e].pieces)| > |items[e]|
    decreases |locs| - i
  {
    var p := locs[i - 1].end;
    if i < |locs| {
      var next := FillMatch(OpenMatch(divs, items, Some(p), locs[i].begin), items, locs[i], i == selected);
      StaysOverfull(divs, next, items, p, locs[i], i == selected, e);
      LeadsOn(divs, next, items, locs, i, |locs|, selected, Some(p), goal);
      RenderStaysOverfull(next, items, locs, i + 1, selected, goal, e);
    } else {
      LeadsToEnd(divs, items, locs, i, |locs|, selected, Some(p), goal);
      AppendLength(divs, items, p.divIdx, p.offset, |items[p.divIdx]|, None);
    }
  }

  /** Match `m` begins in the div where the previous one ends, before its end, and ends later. */
  predicate Overlapping(locs: seq<Located>, m: nat)
    requires 0 < m < |locs|
  {
    && locs[m].begin.divIdx == locs[m - 1].end.divIdx && locs[m].begin.offset < locs[m - 1].end.offset
    && 0 < locs[m - 1].end.offset
    && (locs[m].end.divIdx == locs[m - 1].end.divIdx ==> locs[m - 1].end.offset < locs[m].end.offset)
  }

  lemma {:induction false} RenderOverfills(
    divs: seq<Div>, items: seq<string>, locs: seq<Located>, i: nat, selected: int, goal: seq<Div>, m: nat) returns (e: nat)
    requires EndsInside(items, locs) && 0 < i <= m < |locs| && Overlapping(locs, m)
    requires LeadsTo(divs, items, locs, i, |locs|, selected, Some(locs[i - 1].end), goal) && Filled(divs, locs[i - 1].end)
    ensures e < |goal| && e < |items| && |Text(goal[e].pieces)| > |items[e]|
    decreases m - i
  {
    var p := locs[i - 1].end;
    var next := FillMatch(OpenMatch(divs, items, Some(p), locs[i].begin), items, locs[i], i == selected);
    LeadsOn(divs, next, items, locs, i, |locs|, selected, Some(p), goal);
    if i == m {
      e := p.divIdx;
      OverlapOverfills(divs, next, items, p, locs[i], i == selected);
      RenderStaysOverfull(next, items, locs, i + 1, selected, goal, e);
    } else {
      TurnFills(divs, next, items, Some(p), locs[i], i == selected);
      e := RenderOverfills(next, items, locs, i + 1, selected, goal, m);
    }
  }

  /** The text of every div is that of its item. */
  ghost predicate TextIntact(divs: seq<Div>, items: seq<string>) {
    |divs| == |items| && forall d :: 0 <= d < |items| ==> Text(divs[d].pieces) == items[d]
  }

  lemma {:induction false} LocatedInside(items: seq<string>, xs: seq<Interval>)
    requires Listed(items, xs) && items != [] && xs != []
    ensures EndsInside(items, Convert(items, 0, xs))
    ensures forall m: nat :: 0 < m < |xs| && xs[m].start < xs[m - 1].End() ==> Overlapping(Convert(items, 0, xs), m)
  {
    var locs := Convert(items, 0, xs);
    ConvertForward(items, 0, xs);
    forall m: nat | m < |xs|
      ensures InItem(items, locs[m].end) && 0 < locs[m].end.offset
    {
      EndLocated(items, 0, xs, m);
    }
    forall m: nat | 0 < m < |xs| && xs[m].start < xs[m - 1].End()
      ensures Overlapping(locs, m)
    {
      OverlapLocated(items, 0, xs, m - 1);
      EndLocated(items, 0, xs, m - 1);
      EndLocated(items, 0, xs, m);
    }
  }

  /** With two overlapping matches, the text of some div comes out longer than that of its item. */
  lemma {:induction false} OverlapRepeatsText(
    divs: seq<Div>, items: seq<string>, xs: seq<Interval>, selected: int, m: nat) returns (e: nat)
    requires Listed(items, xs) && items != [] && |divs| == |items|
    requires 0 < m < |xs| && xs[m].start < xs[m - 1].End()
    ensures var r := Render(divs, items, Convert(items, 0, xs), 0, |xs|, selected, None);
            e < |items| == |r| && |Text(r[e].pieces)| > |items[e]|
  {
    var locs := Convert(items, 0, xs);
    var goal := Render(divs, items, locs, 0, |xs|, selected, None);
    LocatedInside(items, xs);
    assert InDivs(locs[0], |items|);
    var next := FillMatch(OpenMatch(divs, items, None, locs[0].begin), items, locs[0], 0 == selected);
    TurnFills(divs, next, items, None, locs[0], 0 == selected);
    LeadsOn(divs, next, items, locs, 0, |xs|, selected, None, goal);
    e := RenderOverfills(next, items, locs, 1, selected, goal, m);
  }

  lemma {:induction false} NonOverlappingIff(xs: seq<Interval>)
    requires StrictlyIncreasing(xs)
    ensures NonOverlapping(xs) <==> forall m :: 0 < m < |xs| ==> xs[m - 1].End() <= xs[m].start
  {
    if forall m :: 0 < m < |xs| ==> xs[m - 1].End() <= xs[m].start {
      forall l, m | 0 <= l < m < |xs|
        ensures xs[l].End() <= xs[m].start
      {
        assert xs[m - 1].End() <= xs[m].start;
        assert l < m - 1 ==> xs[l].End() < xs[m - 1].End();
      }
    }
  }

  lemma {:induction false} ShowsText(divs: seq<Div>, items: seq<string>, marks: seq<Mark>)
    requires ShowsAll(divs, items, marks)
    ensures TextIntact(divs, items)
  {
    forall d: nat | d < |items|
      ensures Text(divs[d].pieces) == items[d]
    {
      assert Shows(divs[d], items, marks, d, |items[d]|);
      assert items[d][..|items[d]|] == items[d];
    }
  }

  /**
   * With all matches of a list highlighted in pristine divs, the text of the page survives if and only if
   * no two matches overlap; and then it is marked exactly where the matches are.
   */
  lemma {:induction false} AllShownIff(divs: seq<Div>, items: seq<string>, xs: seq<Interval>, selected: int)
    requires Listed(items, xs) && items != [] && xs != [] && |divs| == |items|
    requires forall d: nat :: d < |divs| ==> divs[d] == Pristine(items[d])
    ensures var r := Render(divs, items, Convert(items, 0, xs), 0, |xs|, selected, None);
            && (TextIntact(r, items) <==> NonOverlapping(xs))
            && (ShowsAll(r, items, MarkSeq(xs, 0, |xs|, selected, PrefixLen(items, |items|))) <==> NonOverlapping(xs))
  {
    var locs, marks := Convert(items, 0, xs), MarkSeq(xs, 0, |xs|, selected, PrefixLen(items, |items|));
    var r := Render(divs, items, locs, 0, |xs|, selected, None);
    NonOverlappingIff(xs);
    if NonOverlapping(xs) {
      NonOverlappingExact(items, xs);
      RenderShows(divs, items, xs, locs, 0, |xs|, selected);
    } else {
      var m: nat :| 0 < m < |xs| && xs[m].start < xs[m - 1].End();
      var e := OverlapRepeatsText(divs, items, xs, selected, m);
      assert !TextIntact(r, items);
    }
    if ShowsAll(r, items, marks) {
      ShowsText(r, items, marks);
    }
  }

  // ---- One match alone ---------------------------------------------------------------------------------

  lemma {:induction false} BeginLocated(items: seq<string>, i: nat, xs: seq<Interval>, m: nat)
    requires i < |items| && Listed(items, xs) && m < |xs| && PrefixLen(items, i) < xs[0].End()
    ensures var loc := Convert(items, i, xs)[m];
            && xs[m].start < PrefixLen(items, loc.begin.divIdx + 1)
            && PrefixLen(items, loc.begin.divIdx) + loc.begin.offset == xs[m].start
            && (!Exact(items, xs[m], loc) ==> xs[m].start < PrefixLen(items, loc.begin.divIdx))
    decreases m
  {
    var loc := Locate(items, i, xs[0]);
    EndLocated(items, i, xs, 0);
    assert Convert(items, i, xs)[0] == loc;
    StartInside(items, i, xs[0].start);
    if m > 0 {
      BeginLocated(items, loc.end.divIdx, xs[1..], m - 1);
    } else {
      LocateExact(items, i, xs[0]);
      PrefixMonotone(items, i, loc.begin.divIdx);
    }
  }

  lemma {:induction false} StartInside(items: seq<string>, i: nat, start: nat)
    requires i < |items| && start < PrefixLen(items, |items|)
    ensures start < PrefixLen(items, SkipBegin(items, i, start) + 1)
    decreases |items| - i
  {
    if i != |items| - 1 && start >= PrefixLen(items, i) + |items[i]| {
      StartInside(items, i + 1, start);
    }
  }

  /** The divs when one match is shown alone. */
  function Alone(divs: seq<Div>, items: seq<string>, loc: Located, selected: bool): (r: seq<Div>)
    requires |divs| == |items| && InDivs(loc, |divs|)
    ensures |r| == |divs|
  {
    AppendRest(FillMatch(OpenMatch(divs, items, None, loc.begin), items, loc, selected), items, loc.end, None)
  }

  lemma {:induction false} RenderAlone(divs: seq<Div>, items: seq<string>, locs: seq<Located>, k: nat, selected: int)
    requires |divs| == |items| && k < |locs| && forall m :: 0 <= m < |locs| ==> InDivs(locs[m], |divs|)
    ensures InDivs(locs[k], |divs|)
    ensures Render(divs, items, locs, k, k + 1, selected, None) == Alone(divs, items, locs[k], k == selected)
  {
    var next := FillMatch(OpenMatch(divs, items, None, locs[k].begin), items, locs[k], k == selected);
    var goal := Render(divs, items, locs, k, k + 1, selected, None);
    LeadsOn(divs, next, items, locs, k, k + 1, selected, None, goal);
    LeadsToEnd(next, items, locs, k + 1, k + 1, selected, Some(locs[k].end), goal);
  }

  /** A match that begins before its end in its div, possibly before the div itself. */
  predicate Ordered(items: seq<string>, loc: Located) {
    && loc.begin.divIdx <= loc.end.divIdx && InItem(items, loc.end)
    && loc.begin.offset <= |items[loc.begin.divIdx]|
    && (loc.begin.divIdx == loc.end.divIdx ==> loc.begin.offset <= loc.end.offset)
  }

  lemma {:induction false} AppendedText(divs: seq<Div>, items: seq<string>, d: nat, from: int, to: nat, style: Option<Style>)
    requires d < |divs| == |items| && from <= to <= |items[d]|
    requires Text(divs[d].pieces) == items[d][..Clamp(from, |items[d]|)]
    ensures Text(AppendText(divs, items, d, from, to, style)[d].pieces) == items[d][..to]
    ensures forall e: nat :: e < |divs| && e != d ==> AppendText(divs, items, d, from, to, style)[e] == divs[e]
  {
    var a := Clamp(from, |items[d]|);
    AppendPiece(divs[d], Piece(Substring(items[d], from, to), style));
    assert items[d][..a] + items[d][a..to] == items[d][..to];
  }

  lemma {:induction false} BegunText(divs: seq<Div>, items: seq<string>, begin: Position, style: Option<Style>)
    requires begin.divIdx < |divs| == |items|
    ensures Text(BeginText(divs, items, begin, style)[begin.divIdx].pieces)
         == items[begin.divIdx][..Clamp(begin.offset, |items[begin.divIdx]|)]
    ensures forall e: nat :: e < |divs| && e != begin.divIdx ==> BeginText(divs, items, begin, style)[e] == divs[e]
  {
    var cleared := divs[begin.divIdx].(pieces := []);
    AppendPiece(cleared, Piece(Substring(items[begin.divIdx], 0, begin.offset), style));
    assert Text([]) == "";
  }

  /** What a match puts into the divs where it begins and ends, when the text before it is there. */
  lemma {:induction false} FilledText(divs: seq<Div>, items: seq<string>, loc: Located, selected: bool)
    requires |divs| == |items| && InDivs(loc, |divs|) && Ordered(items, loc)
    requires Text(divs[loc.begin.divIdx].pieces)
          == items[loc.begin.divIdx][..Clamp(loc.begin.offset, |items[loc.begin.divIdx]|)]
    ensures var next, b, e := FillMatch(divs, items, loc, selected), loc.begin.divIdx, loc.end.divIdx;
            && Text(next[e].pieces) == items[e][..loc.end.offset]
            && (b != e ==> Text(next[b].pieces) == items[b][..|items[b]|])
            && forall d: nat :: d < |items| && d != b && d != e ==> next[d].pieces == divs[d].pieces
  {
    if loc.begin.divIdx == loc.end.divIdx {
      AppendedText(divs, items, loc.begin.divIdx, loc.begin.offset, loc.end.offset, Some(Style(Whole, selected)));
    } else {
      AppendedText(divs, items, loc.begin.divIdx, loc.begin.offset, |items[loc.begin.divIdx]|, Some(Style(Begin, selected)));
      FilledAcross(divs, items, loc, selected);
      forall d: nat | d < |items| && d != loc.begin.divIdx && d != loc.end.divIdx
        ensures FillMatch(divs, items, loc, selected)[d].pieces == divs[d].pieces
      {
        FilledOthers(divs, items, loc, selected, d);
      }
    }
  }

  lemma {:induction false} FilledAcross(divs: seq<Div>, items: seq<string>, loc: Located, selected: bool)
    requires |divs| == |items| && InDivs(loc, |divs|) && InItem(items, loc.end) && loc.begin.divIdx != loc.end.divIdx
    ensures Text(FillMatch(divs, items, loc, selected)[loc.end.divIdx].pieces) == items[loc.end.divIdx][..loc.end.offset]
    ensures FillMatch(divs, items, loc, selected)[loc.begin.divIdx].pieces
         == AppendRest(divs, items, loc.begin, Some(Style(Begin, selected)))[loc.begin.divIdx].pieces
  {
    var begun := AppendRest(divs, items, loc.begin, Some(Style(Begin, selected)));
    FilledEnd(begun, items, loc.begin.divIdx + 1, loc.end, Some(Style(Middle, selected)), Some(Style(End, selected)));
  }

  lemma {:induction false} FilledOthers(divs: seq<Div>, items: seq<string>, loc: Located, selected: bool, d: nat)
    requires |divs| == |items| && InDivs(loc, |divs|) && d < |items| && d != loc.begin.divIdx && d != loc.end.divIdx
    ensures FillMatch(divs, items, loc, selected)[d].pieces == divs[d].pieces
  {
  }

  lemma {:induction false} FilledEnd(
    begun: seq<Div>, items: seq<string>, lo: nat, end: Position, middle: Option<Style>, style: Option<Style>)
    requires |begun| == |items| && InItem(items, end)
    ensures var next := BeginText(SetStyle(begun, lo, end.divIdx, middle), items, end, style);
            && Text(next[end.divIdx].pieces) == items[end.divIdx][..end.offset]
            && forall d: nat :: d < |items| && d != end.divIdx ==> next[d].pieces == begun[d].pieces
  {
    BegunText(SetStyle(begun, lo, end.divIdx, middle), items, end, style);
  }

  /** A match shown alone leaves the text as it is, wherever it has been located. */
  lemma {:induction false} AloneText(divs: seq<Div>, items: seq<string>, loc: Located, selected: bool)
    requires |divs| == |items| && InDivs(loc, |divs|) && Ordered(items, loc)
    requires forall d: nat :: d < |divs| ==> divs[d] == Pristine(items[d])
    ensures TextIntact(Alone(divs, items, loc, selected), items)
  {
    var open := BeginText(divs, items, loc.begin, None);
    var filled := FillMatch(open, items, loc, selected);
    BegunText(divs, items, loc.begin, None);
    FilledText(open, items, loc, selected);
    AloneEnds(divs, items, filled, loc);
  }

  lemma {:induction false} AloneEnds(divs: seq<Div>, items: seq<string>, filled: seq<Div>, loc: Located)
    requires |filled| == |items| == |divs| && InDivs(loc, |items|) && InItem(items, loc.end)
    requires var b, e := loc.begin.divIdx, loc.end.divIdx;
             && Text(filled[e].pieces) == items[e][..loc.end.offset]
             && (b != e ==> Text(filled[b].pieces) == items[b][..|items[b]|])
             && forall d: nat :: d < |items| && d != b && d != e ==> filled[d].pieces == Pristine(items[d]).pieces
    ensures TextIntact(AppendRest(filled, items, loc.end, None), items)
  {
    var b, e, r := loc.begin.divIdx, loc.end.divIdx, AppendRest(filled, items, loc.end, None);
    AppendedText(filled, items, e, loc.end.offset, |items[e]|, None);
    forall d: nat | d < |items|
      ensures Text(r[d].pieces) == items[d]
    {
      assert items[d][..|items[d]|] == items[d];
      PristineText(items[d]);
      assert d != e ==> r[d] == filled[d];
    }
  }

  lemma {:induction false} PristineText(text: string)
    ensures Text(Pristine(text).pieces) == text
    ensures Marks(Pristine(text).pieces, None) == Repeat(|text|, None)
  {
    AppendPiece(Div([], None), Piece(text, None));
    assert [] + [Piece(text, None)] == Pristine(text).pieces;
    assert Text([]) == "" && Marks([], None) == [];
    assert [] + Repeat<Mark>(|text|, None) == Repeat<Mark>(|text|, None);
  }

  /** A match that has lost its beginning is not marked there. */
  lemma {:induction false} LostBeginning(
    divs: seq<Div>, items: seq<string>, xs: seq<Interval>, k: nat, selected: int, loc: Located)
    requires k < |xs| && InText(items, xs[k]) && |divs| == |items| && InDivs(loc, |divs|)
    requires loc.begin.divIdx <= loc.end.divIdx && InItem(items, loc.end)
    requires xs[k].start < PrefixLen(items, loc.begin.divIdx)
    requires forall d: nat :: d < |divs| ==> divs[d] == Pristine(items[d])
    ensures !ShowsAll(Alone(divs, items, loc, k == selected), items,
                      MarkSeq(xs, k, k + 1, selected, PrefixLen(items, |items|)))
  {
    var g, r := xs[k].start, Alone(divs, items, loc, k == selected);
    var marks := MarkSeq(xs, k, k + 1, selected, PrefixLen(items, |items|));
    SkipBeginFinds(items, 0, g);
    var j := SkipBegin(items, 0, g);
    if j >= loc.begin.divIdx {
      PrefixMonotone(items, loc.begin.divIdx, j);
    }
    OpenLength(divs, items, None, loc.begin);
    FillLength(OpenMatch(divs, items, None, loc.begin), items, loc, k == selected);
    assert r[j] == Pristine(items[j]);
    PlainDiv(items, marks, j, g);
  }

  /** A pristine div does not show a marked character. */
  lemma {:induction false} PlainDiv(items: seq<string>, marks: seq<Mark>, j: nat, g: nat)
    requires j < |items| && |marks| == PrefixLen(items, |items|)
    requires PrefixLen(items, j) <= g < PrefixLen(items, j + 1) && g < |marks| && marks[g].Some?
    ensures !Shows(Pristine(items[j]), items, marks, j, |items[j]|)
  {
    PristineText(items[j]);
    var p, q := PrefixLen(items, j), PrefixLen(items, j + 1);
    PrefixMonotone(items, j + 1, |items|);
    assert marks[p..q][g - p] == marks[g];
    assert Repeat<Mark>(|items[j]|, None)[g - p] == None;
  }

  lemma {:induction false} SingleMarks(xs: seq<Interval>, k: nat, selected: int, total: nat)
    requires k < |xs|
    ensures MarkSeq([xs[k]], 0, 1, selected - k, total) == MarkSeq(xs, k, k + 1, selected, total)
  {
    var one, first, next := [xs[k]], selected - k, k + 1;
    forall g: nat | g < total
      ensures MarkAt(one, 0, 1, first, g) == MarkAt(xs, k, next, selected, g)
    {
      assert MarkAt(one, 0, 0, first, g) == None == MarkAt(xs, k, k, selected, g);
    }
  }

  /** An exactly located match shown alone is marked right. */
  lemma {:induction false} AloneShows(divs: seq<Div>, items: seq<string>, xs: seq<Interval>, k: nat, selected: int, loc: Located)
    requires k < |xs| && InText(items, xs[k]) && Exact(items, xs[k], loc) && |divs| == |items| && InDivs(loc, |divs|)
    requires forall d: nat :: d < |divs| ==> divs[d] == Pristine(items[d])
    ensures ShowsAll(Alone(divs, items, loc, k == selected), items,
                     MarkSeq(xs, k, k + 1, selected, PrefixLen(items, |items|)))
  {
    RenderShows(divs, items, [xs[k]], [loc], 0, 1, selected - k);
    RenderAlone(divs, items, [loc], 0, selected - k);
    SingleMarks(xs, k, selected, PrefixLen(items, |items|));
  }

  /**
   * With one match of a list highlighted, the text survives, and is marked right if and only if the match
   * does not begin before the item in which the previous one ends.
   */
  lemma {:induction false} OneShownIff(divs: seq<Div>, items: seq<string>, xs: seq<Interval>, k: nat, selected: int)
    requires Listed(items, xs) && items != [] && k < |xs| && |divs| == |items|
    requires forall d: nat :: d < |divs| ==> divs[d] == Pristine(items[d])
    ensures var locs := Convert(items, 0, xs);
            var r := Render(divs, items, locs, k, k + 1, selected, None);
            && TextIntact(r, items)
            && (ShowsAll(r, items, MarkSeq(xs, k, k + 1, selected, PrefixLen(items, |items|))) <==> Follows(items, xs, k))
  {
    ExactIffFollows(items, xs, k);
    var loc := Convert(items, 0, xs)[k];
    LocatedInside(items, xs);
    BeginLocated(items, 0, xs, k);
    EndLocated(items, 0, xs, k);
    RenderAlone(divs, items, Convert(items, 0, xs), k, selected);
    assert PrefixLen(items, loc.begin.divIdx + 1) == PrefixLen(items, loc.begin.divIdx) + |items[loc.begin.divIdx]|;
    AloneText(divs, items, loc, k == selected);
    if Exact(items, xs[k], loc) {
      AloneShows(divs, items, xs, k, selected, loc);
    } else {
      LostBeginning(divs, items, xs, k, selected, loc);
    }
  }

  // ---- Runs of the text layer ----------------------------------------------------------------------------

  /**
   * After any sequence of updates, for the matches of any search.  With all matches highlighted, the text
   * survives if and only if no two of them overlap, and then it is marked right.  With only the selected
   * match highlighted the text always survives, and is marked right if and only if that match does not begin
   * before the item in which the previous one ends.
   */
  lemma {:induction false} RunShowsIff(items: seq<string>, views: seq<FindView>)
    requires ValidViews(items, views) && views != [] && views[|views| - 1].active
    requires Listed(items, ViewIntervals(views[|views| - 1]))
    ensures var v, divs := views[|views| - 1], Run(items, views).divs;
            var xs := ViewIntervals(v);
            && (v.highlightAll ==>
                  && (TextIntact(divs, items) <==> NonOverlapping(xs))
                  && (ShowsAll(divs, items, MarksOf(items, v)) <==> NonOverlapping(xs)))
            && (!v.highlightAll ==>
                  && TextIntact(divs, items)
                  && (ShowsAll(divs, items, MarksOf(items, v)) <==>
                        (v.isSelectedPage && xs != [] ==> Follows(items, xs, v.selectedMatchIdx))))
  {
    var v, pristine := views[|views| - 1], FreshLayer(items);
    RunDependsOnLastView(items, views);
    assert Clear(pristine.divs, items, pristine.matches, 0, -1) == pristine.divs;
    if ViewIntervals(v) == [] || (!v.highlightAll && !v.isSelectedPage) {
      NoneShownIff(items, v, pristine.divs);
    } else if v.highlightAll {
      AllViewShownIff(items, v, pristine.divs);
    } else {
      OneViewShownIff(items, v, pristine.divs);
    }
  }

  /** The selected match of a view is shown. */
  lemma {:induction false} OneViewShownIff(items: seq<string>, v: FindView, divs: seq<Div>)
    requires ValidView(v) && Listed(items, ViewIntervals(v)) && !v.highlightAll && v.isSelectedPage && v.matches != []
    requires |divs| == |items| && forall d: nat :: d < |divs| ==> divs[d] == Pristine(items[d])
    ensures items != []
    ensures var r, xs := Rendered(divs, items, LocsOf(items, v), v), ViewIntervals(v);
            && TextIntact(r, items)
            && (ShowsAll(r, items, MarksOf(items, v)) <==> Follows(items, xs, v.selectedMatchIdx))
  {
    assert InText(items, ViewIntervals(v)[0]);
    MarksAgree(items, v);
    OneRendered(items, v, divs, ViewIntervals(v), v.selectedMatchIdx);
    OneShownIff(divs, items, ViewIntervals(v), v.selectedMatchIdx, SelectedShown(v));
  }

  lemma {:induction false} OneRendered(items: seq<string>, v: FindView, divs: seq<Div>, xs: seq<Interval>, k: nat)
    requires ValidView(v) && items != [] && |divs| == |items| && xs == ViewIntervals(v) && k == v.selectedMatchIdx
    requires !v.highlightAll && v.isSelectedPage && k < |v.matches|
    ensures Rendered(divs, items, LocsOf(items, v), v)
         == Render(divs, items, Convert(items, 0, xs), k, k + 1, SelectedShown(v), None)
  {
  }

  /** All matches of a view are shown. */
  lemma {:induction false} AllViewShownIff(items: seq<string>, v: FindView, divs: seq<Div>)
    requires ValidView(v) && Listed(items, ViewIntervals(v)) && v.highlightAll && v.matches != [] && |divs| == |items|
    requires forall d: nat :: d < |divs| ==> divs[d] == Pristine(items[d])
    ensures items != []
    ensures var r, xs := Rendered(divs, items, LocsOf(items, v), v), ViewIntervals(v);
            && (TextIntact(r, items) <==> NonOverlapping(xs))
            && (ShowsAll(r, items, MarksOf(items, v)) <==> NonOverlapping(xs))
  {
    var xs := ViewIntervals(v);
    assert InText(items, xs[0]);
    AllShownIff(divs, items, xs, SelectedShown(v));
    if NonOverlapping(xs) {
      MarksAgree(items, v);
    } else if ShowsAll(Rendered(divs, items, LocsOf(items, v), v), items, MarksOf(items, v)) {
      ShowsText(Rendered(divs, items, LocsOf(items, v), v), items, MarksOf(items, v));
    }
  }

  /** No match of a view is shown. */
  lemma {:induction false} NoneShownIff(items: seq<string>, v: FindView, divs: seq<Div>)
    requires ValidView(v) && |divs| == |items| && (ViewIntervals(v) == [] || (!v.highlightAll && !v.isSelectedPage))
    requires forall d: nat :: d < |divs| ==> divs[d] == Pristine(items[d])
    ensures TextIntact(divs, items) && ShowsAll(divs, items, MarksOf(items, v))
  {
    NothingShown(divs, items, [], 0, SelectedShown(v));
    NoMarks(items, v);
    ShowsText(divs, items, MarksOf(items, v));
  }

  lemma {:induction false} NoMarks(items: seq<string>, v: FindView)
    requires ValidView(v) && (ViewIntervals(v) == [] || (!v.highlightAll && !v.isSelectedPage))
    ensures MarksOf(items, v) == MarkSeq([], 0, 0, SelectedShown(v), PrefixLen(items, |items|))
  {
    forall g: nat | g < PrefixLen(items, |items|)
      ensures MarkIn(v, g) == None
    {
    }
  }

  // ---- The text of a page repeated ---------------------------------------------------------------------------

  /** Two matches in one div, the second of which begins before the first one ends. */
  lemma {:induction false} TwoInOneDiv(
    divs: seq<Div>, items: seq<string>, locs: seq<Located>, goal: seq<Div>, a: nat, b: nat, c: nat, d: nat)
    requires |divs| == |items| == 1 && a <= c <= b <= d == |items[0]|
    requires locs == [Located(Position(0, a), Position(0, b)), Located(Position(0, c), Position(0, d))]
    requires goal == Render(divs, items, locs, 0, 2, -1, None)
    ensures Text(goal[0].pieces) == items[0][..b] + items[0][c..b] + items[0][c..d]
  {
    assert LeadsTo(divs, items, locs, 0, 2, -1, None, goal);
    var begun := BeginText(divs, items, locs[0].begin, None);
    var first := AppendText(begun, items, 0, a, b, Some(Style(Whole, false)));
    LeadsOn(divs, first, items, locs, 0, 2, -1, None, goal);
    BegunText(divs, items, locs[0].begin, None);
    AppendedText(begun, items, 0, a, b, Some(Style(Whole, false)));
    SecondInDiv(first, items, locs, goal, b, c, d);
  }

  lemma {:induction false} SecondInDiv(
    divs: seq<Div>, items: seq<string>, locs: seq<Located>, goal: seq<Div>, b: nat, c: nat, d: nat)
    requires |divs| == |items| == 1 && c <= b <= d == |items[0]| && |locs| == 2
    requires locs[0].end == Position(0, b) && locs[1] == Located(Position(0, c), Position(0, d))
    requires LeadsTo(divs, items, locs, 1, 2, -1, Some(Position(0, b)), goal)
    ensures Text(goal[0].pieces) == Text(divs[0].pieces) + items[0][c..b] + items[0][c..d]
  {
    var back := AppendText(divs, items, 0, b, c, None);
    var second := AppendText(back, items, 0, c, d, Some(Style(Whole, false)));
    LeadsOn(divs, second, items, locs, 1, 2, -1, Some(Position(0, b)), goal);
    LeadsToEnd(second, items, locs, 2, 2, -1, Some(Position(0, d)), goal);
    AppendPiece(divs[0], Piece(items[0][c..b], None));
    AppendPiece(back[0], Piece(items[0][c..d], Some(Style(Whole, false))));
    AppendPiece(second[0], Piece("", None));
    assert items[0][d..d] == "";
  }

  lemma {:induction false} LocatedInOne(items: seq<string>, x: Interval)
    requires |items| == 1 && x.End() <= |items[0]|
    ensures Locate(items, 0, x) == Located(Position(0, x.start), Position(0, x.End()))
  {
    assert PrefixLen(items, 0) == 0;
  }

  /** Two matches in the only item. */
  lemma {:induction false} TwoLocated(items: seq<string>, x: Interval, y: Interval)
    requires |items| == 1 && x.End() <= |items[0]| && y.End() <= |items[0]|
    ensures Convert(items, 0, [x, y])
         == [Located(Position(0, x.start), Position(0, x.End())), Located(Position(0, y.start), Position(0, y.End()))]
  {
    LocatedInOne(items, x);
    LocatedInOne(items, y);
    SecondLocation(items, x, y);
    assert Convert(items, 0, [x, y])[0] == Locate(items, 0, x);
  }

  /**
   * A word search for "abc bcd" on a page with the one item "abcd" locates both matches right, but
   * highlighting both makes the text "abcbcbcd".
   */
  lemma {:induction false} OverlapExample(divs: seq<Div>, items: seq<string>, query: string)
    requires items == ["abcd"] && query == "abc bcd" && |divs| == 1
    ensures var xs := WordMatches(query, PageText(items));
            var locs := Convert(items, 0, xs);
            && AllExact(items, xs, locs) && |xs| == 2
            && Text(Render(divs, items, locs, 0, 2, -1, None)[0].pieces) == "abcbcbcd"
  {
    PageOfOne(items);
    OverlappingWordsFound(query, PageText(items));
    OverlapShown(divs, items, WordMatches(query, PageText(items)));
  }

  lemma {:induction false} PageOfOne(items: seq<string>)
    requires |items| == 1
    ensures PageText(items) == items[0]
  {
    assert PageText(items) == Joined(items, 0) + items[0] && Joined(items, 0) == "";
  }

  lemma {:induction false} OverlapShown(divs: seq<Div>, items: seq<string>, xs: seq<Interval>)
    requires items == ["abcd"] && xs == [Interval(0, 3), Interval(1, 3)] && |divs| == 1
    ensures var locs := Convert(items, 0, xs);
            && AllExact(items, xs, locs)
            && Text(Render(divs, items, locs, 0, 2, -1, None)[0].pieces) == "abcbcbcd"
  {
    var item, locs := items[0], Convert(items, 0, xs);
    TwoLocated(items, xs[0], xs[1]);
    assert PrefixLen(items, 0) == 0;
    TwoInOneDiv(divs, items, locs, Render(divs, items, locs, 0, 2, -1, None), 0, 3, 1, 4);
    assert item[..3] + item[1..3] + item[1..4] == "abcbcbcd";
  }
}
