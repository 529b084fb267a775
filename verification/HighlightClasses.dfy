/** Which class names the text layer gives to the spans and the divs of the matches it shows. */
module HighlightClasses {
  import opened Options
  import opened OffsetMapping
  import opened Highlight
  import opened TextLayer

  /** What there is of a match in div `d`. */
  function PartIn(loc: Located, d: nat): Option<Part> {
    if loc.begin.divIdx == loc.end.divIdx then (if d == loc.begin.divIdx then Some(Whole) else None)
    else if d == loc.begin.divIdx then Some(Begin)
    else if d == loc.end.divIdx then Some(End)
    else if loc.begin.divIdx < d < loc.end.divIdx then Some(Middle)
    else None
  }

  /** A span of the div has this class name. */
  ghost predicate HasSpan(div: Div, style: Style) {
    exists k :: 0 <= k < |div.pieces| && div.pieces[k].style == Some(style)
  }

  /** The spans of two divs have the same class names. */
  ghost predicate SameSpans(a: Div, b: Div) {
    forall style {:trigger HasSpan(a, style)} {:trigger HasSpan(b, style)} :: HasSpan(a, style) <==> HasSpan(b, style)
  }

  lemma {:induction false} PieceAdded(div: Div, piece: Piece, style: Style)
    ensures HasSpan(div.(pieces := div.pieces + [piece]), style) <==> HasSpan(div, style) || piece.style == Some(style)
  {
    var more := div.(pieces := div.pieces + [piece]);
    if k :| 0 <= k < |div.pieces| && div.pieces[k].style == Some(style) {
      assert more.pieces[k].style == Some(style);
    }
    if piece.style == Some(style) {
      assert more.pieces[|div.pieces|].style == Some(style);
    }
  }

  lemma {:induction false} TextAdded(
    divs: seq<Div>, items: seq<string>, d: nat, from: int, to: int, style: Option<Style>, e: nat)
    requires d < |divs| == |items| && e < |divs|
    ensures var r := AppendText(divs, items, d, from, to, style)[e];
            && r.style == divs[e].style
            && forall t :: HasSpan(r, t) <==> HasSpan(divs[e], t) || (e == d && style == Some(t))
  {
    forall t
      ensures var r := AppendText(divs, items, d, from, to, style)[e];
              HasSpan(r, t) <==> HasSpan(divs[e], t) || (e == d && style == Some(t))
    {
      PieceAdded(divs[d], Piece(Substring(items[d], from, to), style), t);
    }
  }

  lemma {:induction false} TextBegun(
    divs: seq<Div>, items: seq<string>, begin: Position, style: Option<Style>, e: nat)
    requires begin.divIdx < |divs| == |items| && e < |divs|
    requires forall t :: !HasSpan(divs[begin.divIdx], t)
    ensures var r := BeginText(divs, items, begin, style)[e];
            && r.style == divs[e].style
            && forall t :: HasSpan(r, t) <==> HasSpan(divs[e], t) || (e == begin.divIdx && style == Some(t))
  {
    var d := begin.divIdx;
    var cleared := divs[d := divs[d].(pieces := [])];
    assert SameSpans(cleared[e], divs[e]);
    TextAdded(cleared, items, d, 0, begin.offset, style, e);
  }

  /** The text before a match is plain. */
  lemma {:induction false} OpenSpans(divs: seq<Div>, items: seq<string>, prevEnd: Option<Position>, begin: Position, d: nat)
    requires |divs| == |items| && begin.divIdx < |divs| && (prevEnd.Some? ==> prevEnd.value.divIdx < |divs|)
    requires prevEnd.None? || prevEnd.value.divIdx != begin.divIdx ==> forall t :: !HasSpan(divs[begin.divIdx], t)
    requires d < |divs|
    ensures OpenMatch(divs, items, prevEnd, begin)[d].style == divs[d].style
    ensures SameSpans(OpenMatch(divs, items, prevEnd, begin)[d], divs[d])
  {
    match prevEnd
    case None => TextBegun(divs, items, begin, None, d);
    case Some(p) =>
      if begin.divIdx != p.divIdx {
        TextAdded(divs, items, p.divIdx, p.offset, |items[p.divIdx]|, None, d);
        TextAdded(divs, items, p.divIdx, p.offset, |items[p.divIdx]|, None, begin.divIdx);
        TextBegun(AppendRest(divs, items, p, None), items, begin, None, d);
      } else {
        TextAdded(divs, items, p.divIdx, p.offset, begin.offset, None, d);
      }
  }

  /** The text of a match gets its class names. */
  lemma {:induction false} FillSpans(divs: seq<Div>, items: seq<string>, loc: Located, selected: bool, d: nat, t: Style)
    requires |divs| == |items| && InDivs(loc, |divs|) && loc.begin.divIdx <= loc.end.divIdx && d < |divs|
    requires loc.begin.divIdx < loc.end.divIdx ==> forall u :: !HasSpan(divs[loc.end.divIdx], u)
    ensures var r, part := FillMatch(divs, items, loc, selected)[d], PartIn(loc, d);
            && r.style == (if part == Some(Middle) then Some(Style(Middle, selected)) else divs[d].style)
            && (HasSpan(r, t) <==>
                  HasSpan(divs[d], t) || (part == Some(t.part) && t.part != Middle && t.selected == selected))
  {
    var b, e := loc.begin, loc.end;
    if b.divIdx == e.divIdx {
      TextAdded(divs, items, b.divIdx, b.offset, e.offset, Some(Style(Whole, selected)), d);
    } else {
      FillAcrossSpans(divs, items, loc, selected, d, t);
    }
  }

  lemma {:induction false} FillAcrossSpans(divs: seq<Div>, items: seq<string>, loc: Located, selected: bool, d: nat, t: Style)
    requires |divs| == |items| && InDivs(loc, |divs|) && loc.begin.divIdx < loc.end.divIdx && d < |divs|
    requires forall u :: !HasSpan(divs[loc.end.divIdx], u)
    ensures var r, part := FillMatch(divs, items, loc, selected)[d], PartIn(loc, d);
            && r.style == (if part == Some(Middle) then Some(Style(Middle, selected)) else divs[d].style)
            && (HasSpan(r, t) <==>
                  HasSpan(divs[d], t) || (part == Some(t.part) && t.part != Middle && t.selected == selected))
  {
    var b, e := loc.begin, loc.end;
    var begun := AppendRest(divs, items, b, Some(Style(Begin, selected)));
    var middle := SetStyle(begun, b.divIdx + 1, e.divIdx, Some(Style(Middle, selected)));
    TextAdded(divs, items, b.divIdx, b.offset, |items[b.divIdx]|, Some(Style(Begin, selected)), d);
    assert SameSpans(middle[d], begun[d]) && middle[e.divIdx] == begun[e.divIdx] == divs[e.divIdx];
    TextBegun(middle, items, e, Some(Style(End, selected)), d);
  }

  // ---- The loop ------------------------------------------------------------------------------------------

  /** One of the matches from `i0` to `i1` gives div `d` a part with this class name. */
  ghost predicate Given(locs: seq<Located>, i0: nat, i1: nat, selected: int, d: nat, t: Style) {
    exists k :: i0 <= k < i1 <= |locs| && PartIn(locs[k], d) == Some(t.part) && t.selected == (k == selected)
  }

  /** Div `d` has the class names of the matches from `i0` to `i1`, and no others. */
  ghost predicate Dressed(div: Div, locs: seq<Located>, i0: nat, i1: nat, selected: int, d: nat) {
    forall t {:trigger HasSpan(div, t)} {:trigger Given(locs, i0, i1, selected, d, t)} ::
      && (HasSpan(div, t) <==> t.part != Middle && Given(locs, i0, i1, selected, d, t))
      && (div.style == Some(t) <==> t.part == Middle && Given(locs, i0, i1, selected, d, t))
  }

  ghost predicate AllDressed(divs: seq<Div>, locs: seq<Located>, i0: nat, i1: nat, selected: int) {
    forall d: nat :: d < |divs| ==> Dressed(divs[d], locs, i0, i1, selected, d)
  }

  lemma {:induction false} GivenMore(locs: seq<Located>, i0: nat, i: nat, selected: int, d: nat, t: Style)
    requires i0 <= i < |locs|
    ensures Given(locs, i0, i + 1, selected, d, t) <==>
              Given(locs, i0, i, selected, d, t) || (PartIn(locs[i], d) == Some(t.part) && t.selected == (i == selected))
  {
  }

  /** The earlier matches have no part in the divs behind the last of them. */
  lemma {:induction false} NotGiven(locs: seq<Located>, i0: nat, i: nat, selected: int, d: nat, t: Style)
    requires Forward(locs, 0) && i0 <= i <= |locs| && (i > i0 ==> locs[i - 1].end.divIdx < d)
    ensures !Given(locs, i0, i, selected, d, t)
  {
  }

  /** One turn of the loop dresses the divs of its match. */
  lemma {:induction false} TurnDresses(
    divs: seq<Div>, items: seq<string>, locs: seq<Located>, i0: nat, i: nat, selected: int, prevEnd: Option<Position>)
    requires Forward(locs, 0) && i0 <= i < |locs| && |divs| == |items| && InDivs(locs[i], |divs|)
    requires prevEnd == (if i == i0 then None else Some(locs[i - 1].end)) && (i > i0 ==> InDivs(locs[i - 1], |divs|))
    requires AllDressed(divs, locs, i0, i, selected)
    ensures AllDressed(FillMatch(OpenMatch(divs, items, prevEnd, locs[i].begin), items, locs[i], i == selected),
                       locs, i0, i + 1, selected)
  {
    var open := OpenMatch(divs, items, prevEnd, locs[i].begin);
    var next := FillMatch(open, items, locs[i], i == selected);
    forall d: nat | d < |divs|
      ensures Dressed(next[d], locs, i0, i + 1, selected, d)
    {
      DivDressed(divs, items, locs, i0, i, selected, prevEnd, d);
    }
  }

  lemma {:induction false} Undressed(divs: seq<Div>, locs: seq<Located>, i0: nat, i: nat, selected: int, d: nat)
    requires Forward(locs, 0) && i0 <= i <= |locs| && AllDressed(divs, locs, i0, i, selected)
    requires d < |divs| && (i > i0 ==> locs[i - 1].end.divIdx < d)
    ensures forall t :: !HasSpan(divs[d], t)
  {
    forall t
      ensures !HasSpan(divs[d], t)
    {
      NotGiven(locs, i0, i, selected, d, t);
      assert Dressed(divs[d], locs, i0, i, selected, d);
    }
  }

  lemma {:induction false} DivDressed(
    divs: seq<Div>, items: seq<string>, locs: seq<Located>, i0: nat, i: nat, selected: int, prevEnd: Option<Position>, d: nat)
    requires Forward(locs, 0) && i0 <= i < |locs| && |divs| == |items| && InDivs(locs[i], |divs|) && d < |divs|
    requires prevEnd == (if i == i0 then None else Some(locs[i - 1].end)) && (i > i0 ==> InDivs(locs[i - 1], |divs|))
    requires AllDressed(divs, locs, i0, i, selected)
    ensures Dressed(FillMatch(OpenMatch(divs, items, prevEnd, locs[i].begin), items, locs[i], i == selected)[d],
                    locs, i0, i + 1, selected, d)
  {
    var loc := locs[i];
    var open := OpenMatch(divs, items, prevEnd, loc.begin);
    var next := FillMatch(open, items, loc, i == selected);
    if prevEnd.None? || prevEnd.value.divIdx != loc.begin.divIdx {
      Undressed(divs, locs, i0, i, selected, loc.begin.divIdx);
    }
    if loc.begin.divIdx < loc.end.divIdx {
      Undressed(divs, locs, i0, i, selected, loc.end.divIdx);
    }
    OpenSpans(divs, items, prevEnd, loc.begin, d);
    OpenSpans(divs, items, prevEnd, loc.begin, loc.end.divIdx);
    assert Dressed(divs[d], locs, i0, i, selected, d);
    var isSelected := i == selected;
    forall t
      ensures DressedBy(open[d], next[d], loc, isSelected, d, t)
    {
      FillSpans(open, items, loc, isSelected, d, t);
    }
    DressedMore(divs[d], open[d], next[d], locs, i0, i, selected, isSelected, d);
  }

  /** What a match does to a div. */
  ghost predicate DressedBy(div: Div, next: Div, loc: Located, selected: bool, d: nat, t: Style) {
    && next.style == (if PartIn(loc, d) == Some(Middle) then Some(Style(Middle, selected)) else div.style)
    && (HasSpan(next, t) <==>
          HasSpan(div, t) || (PartIn(loc, d) == Some(t.part) && t.part != Middle && t.selected == selected))
  }

  lemma {:induction false} DressedMore(
    div: Div, open: Div, next: Div, locs: seq<Located>, i0: nat, i: nat, selected: int, isSelected: bool, d: nat)
    requires Forward(locs, 0) && i0 <= i < |locs| && Dressed(div, locs, i0, i, selected, d)
    requires SameSpans(open, div) && open.style == div.style
    requires isSelected == (i == selected) && forall t :: DressedBy(open, next, locs[i], isSelected, d, t)
    ensures Dressed(next, locs, i0, i + 1, selected, d)
  {
    forall t
      ensures HasSpan(next, t) <==> t.part != Middle && Given(locs, i0, i + 1, selected, d, t)
      ensures next.style == Some(t) <==> t.part == Middle && Given(locs, i0, i + 1, selected, d, t)
    {
      assert DressedBy(open, next, locs[i], isSelected, d, t) && t == Style(t.part, t.selected);
      GivenMore(locs, i0, i, selected, d, t);
      if PartIn(locs[i], d) == Some(Middle) {
        NotGiven(locs, i0, i, selected, d, t);
      }
    }
  }

  lemma {:induction false} LoopDresses(
    divs: seq<Div>, items: seq<string>, locs: seq<Located>, i0: nat, i: nat, i1: nat, selected: int,
    prevEnd: Option<Position>, goal: seq<Div>)
    requires Forward(locs, 0) && i0 <= i <= i1 && LeadsTo(divs, items, locs, i, i1, selected, prevEnd, goal)
    requires prevEnd == (if i == i0 then None else Some(locs[i - 1].end)) && AllDressed(divs, locs, i0, i, selected)
    ensures |goal| == |divs| && AllDressed(goal, locs, i0, i1, selected)
    decreases i1 - i
  {
    if i < i1 {
      var next := FillMatch(OpenMatch(divs, items, prevEnd, locs[i].begin), items, locs[i], i == selected);
      TurnDresses(divs, items, locs, i0, i, selected, prevEnd);
      LeadsOn(divs, next, items, locs, i, i1, selected, prevEnd, goal);
      LoopDresses(next, items, locs, i0, i + 1, i1, selected, Some(locs[i].end), goal);
    } else {
      LeadsToEnd(divs, items, locs, i, i1, selected, prevEnd, goal);
      RestDresses(divs, items, locs, i0, i1, selected, prevEnd, goal);
    }
  }

  lemma {:induction false} RestDresses(
    divs: seq<Div>, items: seq<string>, locs: seq<Located>, i0: nat, i1: nat, selected: int,
    prevEnd: Option<Position>, goal: seq<Div>)
    requires |divs| == |items| && (prevEnd.Some? ==> prevEnd.value.divIdx < |divs|)
    requires goal == if prevEnd.Some? then AppendRest(divs, items, prevEnd.value, None) else divs
    requires AllDressed(divs, locs, i0, i1, selected)
    ensures AllDressed(goal, locs, i0, i1, selected)
  {
    forall d: nat | d < |goal|
      ensures Dressed(goal[d], locs, i0, i1, selected, d)
    {
      assert Dressed(divs[d], locs, i0, i1, selected, d);
      if prevEnd.Some? {
        var p := prevEnd.value;
        TextAdded(divs, items, p.divIdx, p.offset, |items[p.divIdx]|, None, d);
      }
    }
  }

  // ---- Runs of the text layer ----------------------------------------------------------------------------------

  /** Match `k` is to be highlighted: all matches are, or it is the selected one. */
  predicate Shown(v: FindView, k: nat) {
    k < |v.matches| && (v.highlightAll || (v.isSelectedPage && k == v.selectedMatchIdx))
  }

  /** Match `k` of the view is shown and gives div `d` this class name. */
  ghost predicate Dresses(items: seq<string>, v: FindView, k: nat, d: nat, t: Style)
    requires ValidView(v) && (items == [] ==> v.matches == [])
  {
    && Shown(v, k) && PartIn(LocsOf(items, v)[k], d) == Some(t.part)
    && t.selected == (v.isSelectedPage && k == v.selectedMatchIdx)
  }

  lemma {:induction false} GivenIsDresses(items: seq<string>, v: FindView, d: nat, t: Style)
    requires ValidView(v) && (items == [] ==> v.matches == [])
    ensures Given(LocsOf(items, v), FirstShown(v), EndShown(v), SelectedShown(v), d, t) <==>
              exists k: nat :: Dresses(items, v, k, d, t)
  {
    var locs := LocsOf(items, v);
    if k :| FirstShown(v) <= k < EndShown(v) <= |locs| && PartIn(locs[k], d) == Some(t.part)
            && t.selected == (k == SelectedShown(v)) {
      assert Dresses(items, v, k, d, t);
    }
  }

  /**
   * After any sequence of updates, wherever the matches have been located: a span or a div has a class name if and
   * only if a match to be shown has that part there, with the suffix if and only if it is the selected one.
   */
  lemma {:induction false} RunDresses(items: seq<string>, views: seq<FindView>, d: nat, t: Style)
    requires ValidViews(items, views) && views != [] && views[|views| - 1].active && d < |items|
    ensures var v, div := views[|views| - 1], Run(items, views).divs[d];
            && (HasSpan(div, t) <==> t.part != Middle && exists k: nat :: Dresses(items, v, k, d, t))
            && (div.style == Some(t) <==> t.part == Middle && exists k: nat :: Dresses(items, v, k, d, t))
  {
    var v, layer := views[|views| - 1], FreshLayer(items);
    var locs, goal := LocsOf(items, v), Run(items, views).divs;
    RunDependsOnLastView(items, views);
    assert Clear(layer.divs, items, layer.matches, 0, -1) == layer.divs;
    if v.matches != [] {
      ConvertForward(items, 0, ViewIntervals(v));
    }
    FreshDressed(items, locs, FirstShown(v), SelectedShown(v));
    LoopDresses(layer.divs, items, locs, FirstShown(v), FirstShown(v), EndShown(v), SelectedShown(v), None, goal);
    GivenIsDresses(items, v, d, t);
    assert Dressed(goal[d], locs, FirstShown(v), EndShown(v), SelectedShown(v), d);
  }

  lemma {:induction false} FreshDressed(items: seq<string>, locs: seq<Located>, i0: nat, selected: int)
    ensures AllDressed(FreshLayer(items).divs, locs, i0, i0, selected)
  {
  }
}
