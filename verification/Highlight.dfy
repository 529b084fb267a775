/** TextLayerBuilder.renderMatches: splitting the text of the divs into plain and highlighted pieces. */
module Highlight {
  import opened Options
  import opened WordMatch
  import opened OffsetMapping
  import opened Sequences

  /** The class names 'highlight', 'highlight begin', 'highlight middle' and 'highlight end'. */
  datatype Part = Whole | Begin | Middle | End

  /** A highlighting class name, with or without the suffix ' selected'. */
  datatype Style = Style(part: Part, selected: bool)

  /** A text node (no style) or a span holding one. */
  datatype Piece = Piece(text: string, style: Option<Style>)

  /** A div of the text layer: its children and its own class name. */
  datatype Div = Div(pieces: seq<Piece>, style: Option<Style>)

  function Pristine(text: string): Div { Div([Piece(text, None)], None) }

  // ---- What a reader of the page sees ------------------------------------------------------

  /** How one character is shown: plain, or highlighted with or without being the selected match. */
  type Mark = Option<bool>

  function MarkOf(piece: Piece, divStyle: Option<Style>): Mark {
    if piece.style.Some? then Some(piece.style.value.selected)
    else if divStyle.Some? then Some(divStyle.value.selected)
    else None
  }

  function Text(pieces: seq<Piece>): string {
    if pieces == [] then "" else Text(pieces[..|pieces| - 1]) + pieces[|pieces| - 1].text
  }

  function Marks(pieces: seq<Piece>, divStyle: Option<Style>): seq<Mark> {
    if pieces == [] then []
    else
      var last := pieces[|pieces| - 1];
      Marks(pieces[..|pieces| - 1], divStyle) + Repeat(|last.text|, MarkOf(last, divStyle))
  }

  // ---- renderMatches as a function -----------------------------------------------------------

  function Clamp(k: int, length: nat): (r: nat)
    ensures r <= length
  {
    if k < 0 then 0 else if k > length then length else k
  }

  /** String.prototype.substring: clamps its arguments and swaps them if they are out of order. */
  function Substring(s: string, from: int, to: int): string {
    var a, b := Clamp(from, |s|), Clamp(to, |s|);
    if a <= b then s[a..b] else s[b..a]
  }

  function AppendText(divs: seq<Div>, items: seq<string>, d: nat, from: int, to: int, style: Option<Style>): (r: seq<Div>)
    requires d < |divs| == |items|
    ensures |r| == |divs|
  {
    divs[d := divs[d].(pieces := divs[d].pieces + [Piece(Substring(items[d], from, to), style)])]
  }

  function AppendRest(divs: seq<Div>, items: seq<string>, from: Position, style: Option<Style>): (r: seq<Div>)
    requires from.divIdx < |divs| == |items|
    ensures |r| == |divs|
  {
    AppendText(divs, items, from.divIdx, from.offset, |items[from.divIdx]|, style)
  }

  function BeginText(divs: seq<Div>, items: seq<string>, begin: Position, style: Option<Style>): (r: seq<Div>)
    requires begin.divIdx < |divs| == |items|
    ensures |r| == |divs|
  {
    var cleared := divs[begin.divIdx := divs[begin.divIdx].(pieces := [])];
    AppendText(cleared, items, begin.divIdx, 0, begin.offset, style)
  }

  /** Sets the class name of the divs from `lo` up to, not including, `hi`. */
  function SetStyle(divs: seq<Div>, lo: nat, hi: nat, style: Option<Style>): (r: seq<Div>)
    requires hi <= |divs|
    ensures |r| == |divs|
    ensures forall d :: 0 <= d < |divs| ==>
              r[d] == if lo <= d < hi then divs[d].(style := style) else divs[d]
    decreases hi - lo
  {
    if lo >= hi then divs else SetStyle(divs[lo := divs[lo].(style := style)], lo + 1, hi, style)
  }

  ghost predicate InDivs(loc: Located, n: nat) {
    loc.begin.divIdx < n && loc.end.divIdx < n
  }

  /** The text between the previous match and this one. */
  function OpenMatch(divs: seq<Div>, items: seq<string>, prevEnd: Option<Position>, begin: Position): (r: seq<Div>)
    requires |divs| == |items| && begin.divIdx < |divs| && (prevEnd.Some? ==> prevEnd.value.divIdx < |divs|)
    ensures |r| == |divs|
  {
    match prevEnd
    case None => BeginText(divs, items, begin, None)
    case Some(p) =>
      if begin.divIdx != p.divIdx then BeginText(AppendRest(divs, items, p, None), items, begin, None)
      else AppendText(divs, items, p.divIdx, p.offset, begin.offset, None)
  }

  /** The highlighted text of a match. */
  function FillMatch(divs: seq<Div>, items: seq<string>, loc: Located, selected: bool): (r: seq<Div>)
    requires |divs| == |items| && InDivs(loc, |divs|)
    ensures |r| == |divs|
  {
    if loc.begin.divIdx == loc.end.divIdx then
      AppendText(divs, items, loc.begin.divIdx, loc.begin.offset, loc.end.offset, Some(Style(Whole, selected)))
    else
      var begun := AppendRest(divs, items, loc.begin, Some(Style(Begin, selected)));
      var middle := SetStyle(begun, loc.begin.divIdx + 1, loc.end.divIdx, Some(Style(Middle, selected)));
      BeginText(middle, items, loc.end, Some(Style(End, selected)))
  }

  /** The loop over the matches from `i` to `i1`, and the text after the last one. */
  function Render(divs: seq<Div>, items: seq<string>, locs: seq<Located>, i: nat, i1: nat, selected: int,
                  prevEnd: Option<Position>): (r: seq<Div>)
    requires |divs| == |items| && i1 <= |locs| && (prevEnd.Some? ==> prevEnd.value.divIdx < |divs|)
    requires forall m :: 0 <= m < |locs| ==> InDivs(locs[m], |divs|)
    ensures |r| == |divs|
    decreases i1 - i
  {
    if i >= i1 then
      if prevEnd.Some? then AppendRest(divs, items, prevEnd.value, None) else divs
    else
      assert InDivs(locs[i], |divs|);
      var open := OpenMatch(divs, items, prevEnd, locs[i].begin);
      Render(FillMatch(open, items, locs[i], i == selected), items, locs, i + 1, i1, selected, Some(locs[i].end))
  }

  /** One turn of the loop over the matches. */
  lemma {:induction false} RenderStep(divs: seq<Div>, next: seq<Div>, items: seq<string>, locs: seq<Located>,
                                      i: nat, i1: nat, selected: int, prevEnd: Option<Position>)
    requires |divs| == |items| && i < i1 <= |locs| && (prevEnd.Some? ==> prevEnd.value.divIdx < |divs|)
    requires forall m :: 0 <= m < |locs| ==> InDivs(locs[m], |divs|)
    requires InDivs(locs[i], |divs|)
    requires next == FillMatch(OpenMatch(divs, items, prevEnd, locs[i].begin), items, locs[i], i == selected)
    ensures Render(divs, items, locs, i, i1, selected, prevEnd)
         == Render(next, items, locs, i + 1, i1, selected, Some(locs[i].end))
  {
  }

  /** The rest of the loop turns the divs into `goal`. */
  ghost predicate LeadsTo(divs: seq<Div>, items: seq<string>, locs: seq<Located>, i: nat, i1: nat, selected: int,
                          prevEnd: Option<Position>, goal: seq<Div>) {
    && |divs| == |items| && i1 <= |locs| && (prevEnd.Some? ==> prevEnd.value.divIdx < |divs|)
    && (forall m :: 0 <= m < |locs| ==> InDivs(locs[m], |divs|))
    && Render(divs, items, locs, i, i1, selected, prevEnd) == goal
  }

  lemma {:induction false} LeadsOn(divs: seq<Div>, next: seq<Div>, items: seq<string>, locs: seq<Located>,
                                   i: nat, i1: nat, selected: int, prevEnd: Option<Position>, goal: seq<Div>)
    requires LeadsTo(divs, items, locs, i, i1, selected, prevEnd, goal) && i < i1 && InDivs(locs[i], |divs|)
    requires next == FillMatch(OpenMatch(divs, items, prevEnd, locs[i].begin), items, locs[i], i == selected)
    ensures LeadsTo(next, items, locs, i + 1, i1, selected, Some(locs[i].end), goal)
  {
    RenderStep(divs, next, items, locs, i, i1, selected, prevEnd);
  }

  lemma {:induction false} LeadsToEnd(divs: seq<Div>, items: seq<string>, locs: seq<Located>, i: nat, i1: nat,
                                      selected: int, prevEnd: Option<Position>, goal: seq<Div>)
    requires LeadsTo(divs, items, locs, i, i1, selected, prevEnd, goal) && i >= i1
    ensures goal == if prevEnd.Some? then AppendRest(divs, items, prevEnd.value, None) else divs
  {
  }

  // ---- What is to be shown --------------------------------------------------------------------

  /** The mark of text position `g` when the matches from `i0` to `i1` are highlighted. */
  function MarkAt(xs: seq<Interval>, i0: nat, i1: nat, selected: int, g: nat): Mark
    requires i1 <= |xs|
    decreases i1
  {
    if i1 <= i0 then None
    else if xs[i1 - 1].start <= g < xs[i1 - 1].End() then Some(i1 - 1 == selected)
    else MarkAt(xs, i0, i1 - 1, selected, g)
  }

  /** Div `d` shows the first `k` characters of its item, marked as in `marks`. */
  ghost predicate Shows(div: Div, items: seq<string>, marks: seq<Mark>, d: nat, k: nat) {
    && d < |items| && k <= |items[d]| && PrefixLen(items, d) + k <= |marks|
    && Text(div.pieces) == items[d][..k]
    && Marks(div.pieces, div.style) == marks[PrefixLen(items, d)..PrefixLen(items, d) + k]
  }

  /** Every div shows its whole item. */
  ghost predicate ShowsAll(divs: seq<Div>, items: seq<string>, marks: seq<Mark>) {
    |divs| == |items|
    && forall d: nat {:trigger Shows(divs[d], items, marks, d, |items[d]|)} :: d < |divs| ==>
         Shows(divs[d], items, marks, d, |items[d]|)
  }

  /** The divs are finished up to offset `o` of div `at`, and untouched behind it. */
  ghost predicate Frontier(divs: seq<Div>, items: seq<string>, marks: seq<Mark>, at: nat, o: nat) {
    && at < |divs| == |items| && |marks| == PrefixLen(items, |items|)
    && (forall d: nat {:trigger Shows(divs[d], items, marks, d, |items[d]|)} :: d < at ==> Shows(divs[d], items, marks, d, |items[d]|))
    && Shows(divs[at], items, marks, at, o) && divs[at].style.None?
    && (forall d: nat {:trigger divs[d]} :: at < d < |divs| ==> divs[d] == Pristine(items[d]))
  }

  /** All positions from `a` up to `b` carry the same mark. */
  ghost predicate Uniform(marks: seq<Mark>, a: int, b: int, mark: Mark) {
    0 <= a <= b <= |marks| && forall g :: a <= g < b ==> marks[g] == mark
  }

  lemma {:induction false} AppendPiece(div: Div, piece: Piece)
    ensures Text(div.pieces + [piece]) == Text(div.pieces) + piece.text
    ensures Marks(div.pieces + [piece], div.style)
         == Marks(div.pieces, div.style) + Repeat(|piece.text|, MarkOf(piece, div.style))
  {
    var more := div.pieces + [piece];
    assert more[..|more| - 1] == div.pieces;
  }

  lemma {:induction false} MarksJoin(marks: seq<Mark>, front: seq<Mark>, mark: Mark, a: nat, b: nat, c: nat)
    requires a <= b <= c <= |marks| && front == marks[a..b] && Uniform(marks, b, c, mark)
    ensures front + Repeat(c - b, mark) == marks[a..c]
  {
    assert Repeat(c - b, mark) == marks[b..c];
    SlicesJoin(marks, a, b, c);
  }

  lemma {:induction false} AppendShows(div: Div, items: seq<string>, marks: seq<Mark>, d: nat, from: nat, to: nat, style: Option<Style>)
    requires Shows(div, items, marks, d, from) && from <= to <= |items[d]|
    requires Uniform(marks, PrefixLen(items, d) + from, PrefixLen(items, d) + to,
                     MarkOf(Piece(items[d][from..to], style), div.style))
    ensures Shows(div.(pieces := div.pieces + [Piece(Substring(items[d], from, to), style)]), items, marks, d, to)
  {
    var piece, p := Piece(items[d][from..to], style), PrefixLen(items, d);
    AppendPiece(div, piece);
    TextsJoin(items[d], Text(div.pieces), piece.text, 0, from, to);
    MarksJoin(marks, Marks(div.pieces, div.style), MarkOf(piece, div.style), p, p + from, p + to);
  }

  lemma {:induction false} PristineShows(items: seq<string>, marks: seq<Mark>, d: nat, style: Option<Style>)
    requires d < |items|
    requires Uniform(marks, PrefixLen(items, d), PrefixLen(items, d + 1),
                     if style.Some? then Some(style.value.selected) else None)
    ensures Shows(Pristine(items[d]).(style := style), items, marks, d, |items[d]|)
  {
    var empty := Div([], style);
    assert Shows(empty, items, marks, d, 0);
    AppendShows(empty, items, marks, d, 0, |items[d]|, None);
    assert Substring(items[d], 0, |items[d]|) == items[d];
    assert [] + [Piece(items[d], None)] == [Piece(items[d], None)];
  }

  // ---- The loop keeps the frontier ------------------------------------------------------------

  /** Untouched divs already show their items, where nothing is to be highlighted. */
  lemma {:induction false} UntouchedShow(items: seq<string>, marks: seq<Mark>, lo: nat, hi: nat, style: Option<Style>, d: nat)
    requires lo <= d < hi <= |items|
    requires Uniform(marks, PrefixLen(items, lo), PrefixLen(items, hi),
                     if style.Some? then Some(style.value.selected) else None)
    ensures Shows(Pristine(items[d]).(style := style), items, marks, d, |items[d]|)
  {
    PrefixMonotone(items, lo, d);
    PrefixMonotone(items, d + 1, hi);
    PristineShows(items, marks, d, style);
  }

  /** Finished up to div `b`, which is still untouched: the state before beginText. */
  ghost predicate FinishedBefore(divs: seq<Div>, items: seq<string>, marks: seq<Mark>, b: nat) {
    && b < |divs| == |items| && |marks| == PrefixLen(items, |items|)
    && (forall d: nat {:trigger Shows(divs[d], items, marks, d, |items[d]|)} :: d < b ==> Shows(divs[d], items, marks, d, |items[d]|))
    && (forall d: nat {:trigger divs[d]} :: b <= d < |divs| ==> divs[d] == Pristine(items[d]))
  }

  lemma {:induction false} BeginFrontier(divs: seq<Div>, items: seq<string>, marks: seq<Mark>, begin: Position, style: Option<Style>)
    requires FinishedBefore(divs, items, marks, begin.divIdx) && 0 <= begin.offset <= |items[begin.divIdx]|
    requires Uniform(marks, PrefixLen(items, begin.divIdx), PrefixLen(items, begin.divIdx) + begin.offset,
                     MarkOf(Piece("", style), None))
    ensures Frontier(BeginText(divs, items, begin, style), items, marks, begin.divIdx, begin.offset)
  {
    PrefixMonotone(items, begin.divIdx, |items|);
    var empty := divs[begin.divIdx].(pieces := []);
    assert Shows(empty, items, marks, begin.divIdx, 0);
    AppendShows(empty, items, marks, begin.divIdx, 0, begin.offset, style);
  }

  lemma {:induction false} AppendFrontier(divs: seq<Div>, items: seq<string>, marks: seq<Mark>, d: nat, from: nat, to: nat, style: Option<Style>)
    requires Frontier(divs, items, marks, d, from) && from <= to <= |items[d]|
    requires Uniform(marks, PrefixLen(items, d) + from, PrefixLen(items, d) + to, MarkOf(Piece("", style), None))
    ensures Frontier(AppendText(divs, items, d, from, to, style), items, marks, d, to)
  {
    AppendShows(divs[d], items, marks, d, from, to, style);
  }

  /** A finished div, then untouched ones that show nothing highlighted (or all of it, as middle divs do). */
  lemma {:induction false} LeaveFrontier(divs: seq<Div>, items: seq<string>, marks: seq<Mark>, at: nat, b: nat, style: Option<Style>)
    requires at < b < |items| && Frontier(divs, items, marks, at, |items[at]|)
    requires Uniform(marks, PrefixLen(items, at + 1), PrefixLen(items, b),
                     if style.Some? then Some(style.value.selected) else None)
    ensures FinishedBefore(SetStyle(divs, at + 1, b, style), items, marks, b)
  {
    forall d: nat | d < b
      ensures Shows(SetStyle(divs, at + 1, b, style)[d], items, marks, d, |items[d]|)
    {
      LeftDiv(divs, items, marks, at, b, style, d);
    }
    assert forall d: nat :: b <= d < |divs| ==> SetStyle(divs, at + 1, b, style)[d] == divs[d];
  }

  lemma {:induction false} LeftDiv(divs: seq<Div>, items: seq<string>, marks: seq<Mark>, at: nat, b: nat, style: Option<Style>, d: nat)
    requires d < b && at < b < |items| && Frontier(divs, items, marks, at, |items[at]|)
    requires Uniform(marks, PrefixLen(items, at + 1), PrefixLen(items, b),
                     if style.Some? then Some(style.value.selected) else None)
    ensures Shows(SetStyle(divs, at + 1, b, style)[d], items, marks, d, |items[d]|)
  {
    if at < d {
      UntouchedShow(items, marks, at + 1, b, style, d);
      assert divs[d] == Pristine(items[d]);
    } else {
      assert Shows(divs[d], items, marks, d, |items[d]|);
    }
  }

  lemma {:induction false} NoStyle(divs: seq<Div>, items: seq<string>, lo: nat, hi: nat)
    requires hi <= |divs| == |items| && forall d: nat :: lo <= d < hi ==> divs[d] == Pristine(items[d])
    ensures SetStyle(divs, lo, hi, None) == divs
  {
  }

  /** Closing the div at the frontier and styling the untouched ones up to div `b`. */
  lemma {:induction false} CrossDivs(divs: seq<Div>, items: seq<string>, marks: seq<Mark>, p: Position, b: nat,
                  piece: Option<Style>, style: Option<Style>)
    requires 0 <= p.offset && p.divIdx < b < |items| && Frontier(divs, items, marks, p.divIdx, p.offset)
    requires MarkOf(Piece("", piece), None) == MarkOf(Piece("", style), None)
    requires Uniform(marks, PrefixLen(items, p.divIdx) + p.offset, PrefixLen(items, b), MarkOf(Piece("", piece), None))
    ensures FinishedBefore(SetStyle(AppendRest(divs, items, p, piece), p.divIdx + 1, b, style), items, marks, b)
  {
    PrefixMonotone(items, p.divIdx + 1, b);
    AppendFrontier(divs, items, marks, p.divIdx, p.offset, |items[p.divIdx]|, piece);
    LeaveFrontier(AppendRest(divs, items, p, piece), items, marks, p.divIdx, b, style);
  }

  /** The text before a match, when there is a previous match. */
  lemma {:induction false} OpenFrontier(divs: seq<Div>, items: seq<string>, marks: seq<Mark>, p: Position, begin: Position)
    requires 0 <= p.offset && Frontier(divs, items, marks, p.divIdx, p.offset)
    requires p.divIdx <= begin.divIdx < |items| && 0 <= begin.offset <= |items[begin.divIdx]|
    requires p.divIdx == begin.divIdx ==> p.offset <= begin.offset
    requires Uniform(marks, PrefixLen(items, p.divIdx) + p.offset, PrefixLen(items, begin.divIdx) + begin.offset, None)
    ensures Frontier(OpenMatch(divs, items, Some(p), begin), items, marks, begin.divIdx, begin.offset)
  {
    var b := begin.divIdx;
    if b == p.divIdx {
      AppendFrontier(divs, items, marks, b, p.offset, begin.offset, None);
    } else {
      PrefixMonotone(items, p.divIdx + 1, b);
      var closed := AppendRest(divs, items, p, None);
      CrossDivs(divs, items, marks, p, b, None, None);
      NoStyle(closed, items, p.divIdx + 1, b);
      BeginFrontier(closed, items, marks, begin, None);
    }
  }

  /** The text before the first match. */
  lemma {:induction false} OpenFirst(divs: seq<Div>, items: seq<string>, marks: seq<Mark>, x: Interval, loc: Located)
    requires |divs| == |items| && |marks| == PrefixLen(items, |items|)
    requires forall d: nat :: d < |divs| ==> divs[d] == Pristine(items[d])
    requires Exact(items, x, loc) && Uniform(marks, 0, x.start, None)
    ensures Frontier(OpenMatch(divs, items, None, loc.begin), items, marks, loc.begin.divIdx, loc.begin.offset)
  {
    var b := loc.begin.divIdx;
    forall d: nat | d < b
      ensures Shows(divs[d], items, marks, d, |items[d]|)
    {
      UntouchedShow(items, marks, 0, b, None, d);
    }
    BeginFrontier(divs, items, marks, loc.begin, None);
  }

  /** The highlighted text of a match. */
  lemma {:induction false} FillFrontier(divs: seq<Div>, items: seq<string>, marks: seq<Mark>, x: Interval, loc: Located, selected: bool)
    requires Exact(items, x, loc) && Frontier(divs, items, marks, loc.begin.divIdx, loc.begin.offset)
    requires 0 < x.length && Uniform(marks, x.start, x.End(), Some(selected))
    ensures Frontier(FillMatch(divs, items, loc, selected), items, marks, loc.end.divIdx, loc.end.offset)
  {
    if loc.begin.divIdx == loc.end.divIdx {
      AppendFrontier(divs, items, marks, loc.begin.divIdx, loc.begin.offset, loc.end.offset, Some(Style(Whole, selected)));
    } else {
      FillAcross(divs, items, marks, loc, selected);
    }
  }

  lemma {:induction false} FillAcross(divs: seq<Div>, items: seq<string>, marks: seq<Mark>, loc: Located, selected: bool)
    requires 0 <= loc.begin.offset && loc.begin.divIdx < loc.end.divIdx < |items|
    requires 0 <= loc.end.offset <= |items[loc.end.divIdx]|
    requires Frontier(divs, items, marks, loc.begin.divIdx, loc.begin.offset)
    requires Uniform(marks, PrefixLen(items, loc.begin.divIdx) + loc.begin.offset,
                     PrefixLen(items, loc.end.divIdx) + loc.end.offset, Some(selected))
    ensures Frontier(FillMatch(divs, items, loc, selected), items, marks, loc.end.divIdx, loc.end.offset)
  {
    var b, e := loc.begin.divIdx, loc.end.divIdx;
    PrefixMonotone(items, b + 1, e);
    CrossDivs(divs, items, marks, loc.begin, e, Some(Style(Begin, selected)), Some(Style(Middle, selected)));
    var begun := AppendRest(divs, items, loc.begin, Some(Style(Begin, selected)));
    BeginFrontier(SetStyle(begun, b + 1, e, Some(Style(Middle, selected))), items, marks, loc.end,
                  Some(Style(End, selected)));
  }

  // ---- The whole of renderMatches ---------------------------------------------------------------

  /** The marks of all positions of the page text. */
  function MarkSeq(xs: seq<Interval>, i0: nat, i1: nat, selected: int, total: nat): (r: seq<Mark>)
    requires i1 <= |xs|
    ensures |r| == total && forall g :: 0 <= g < total ==> r[g] == MarkAt(xs, i0, i1, selected, g)
  {
    seq(total, g requires 0 <= g => MarkAt(xs, i0, i1, selected, g))
  }

  lemma {:induction false} MarkInside(xs: seq<Interval>, i0: nat, i1: nat, selected: int, i: nat, g: nat)
    requires NonOverlapping(xs) && i0 <= i < i1 <= |xs| && xs[i].start <= g < xs[i].End()
    ensures MarkAt(xs, i0, i1, selected, g) == Some(i == selected)
    decreases i1
  {
    if i != i1 - 1 {
      MarkInside(xs, i0, i1 - 1, selected, i, g);
    }
  }

  lemma {:induction false} MarkOutside(xs: seq<Interval>, i0: nat, i1: nat, selected: int, g: nat)
    requires i1 <= |xs| && forall i: nat :: i0 <= i < i1 ==> !(xs[i].start <= g < xs[i].End())
    ensures MarkAt(xs, i0, i1, selected, g) == None
    decreases i1
  {
    if i0 < i1 {
      MarkOutside(xs, i0, i1 - 1, selected, g);
    }
  }

  /** Inside a match the marks are uniform. */
  lemma {:induction false} MatchUniform(xs: seq<Interval>, i0: nat, i1: nat, selected: int, total: nat, i: nat)
    requires NonOverlapping(xs) && i0 <= i < i1 <= |xs| && xs[i].End() <= total
    ensures Uniform(MarkSeq(xs, i0, i1, selected, total), xs[i].start, xs[i].End(), Some(i == selected))
  {
    forall g: nat | xs[i].start <= g < xs[i].End()
      ensures MarkAt(xs, i0, i1, selected, g) == Some(i == selected)
    {
      MarkInside(xs, i0, i1, selected, i, g);
    }
  }

  /** Between the end of one match (or the beginning) and the start of the next (or the end) nothing is marked. */
  lemma {:induction false} GapUniform(xs: seq<Interval>, i0: nat, i1: nat, selected: int, total: nat, i: nat, a: nat, b: nat)
    requires NonOverlapping(xs) && i0 <= i <= i1 <= |xs| && a <= b <= total
    requires forall j: nat :: i0 <= j < i ==> xs[j].End() <= a
    requires forall j: nat :: i <= j < i1 ==> b <= xs[j].start
    ensures Uniform(MarkSeq(xs, i0, i1, selected, total), a, b, None)
  {
    forall g: nat | a <= g < b
      ensures MarkAt(xs, i0, i1, selected, g) == None
    {
      MarkOutside(xs, i0, i1, selected, g);
    }
  }

  /** After the last match only plain text is left. */
  lemma {:induction false} FinishShows(divs: seq<Div>, items: seq<string>, marks: seq<Mark>, p: Position)
    requires 0 <= p.offset && Frontier(divs, items, marks, p.divIdx, p.offset)
    requires Uniform(marks, PrefixLen(items, p.divIdx) + p.offset, PrefixLen(items, |items|), None)
    ensures ShowsAll(AppendRest(divs, items, p, None), items, marks)
  {
    PrefixMonotone(items, p.divIdx + 1, |items|);
    AppendFrontier(divs, items, marks, p.divIdx, p.offset, |items[p.divIdx]|, None);
    RestShows(AppendRest(divs, items, p, None), items, marks, p.divIdx);
  }

  /** The div at the frontier is finished and the ones behind it show plain text. */
  lemma {:induction false} RestShows(divs: seq<Div>, items: seq<string>, marks: seq<Mark>, at: nat)
    requires at < |items| && Frontier(divs, items, marks, at, |items[at]|)
    requires Uniform(marks, PrefixLen(items, at + 1), PrefixLen(items, |items|), None)
    ensures ShowsAll(divs, items, marks)
  {
    forall d: nat | d < |divs|
      ensures Shows(divs[d], items, marks, d, |items[d]|)
    {
      if at < d {
        UntouchedShow(items, marks, at + 1, |items|, None, d);
        assert divs[d] == Pristine(items[d]).(style := None);
      }
    }
  }

  /** Exactly located matches that follow one another are located in order. */
  lemma {:induction false} ExactInOrder(items: seq<string>, x: Interval, lx: Located, y: Interval, ly: Located)
    requires Exact(items, x, lx) && Exact(items, y, ly) && x.End() <= y.start
    ensures lx.end.divIdx <= ly.begin.divIdx
    ensures lx.end.divIdx == ly.begin.divIdx ==> lx.end.offset <= ly.begin.offset
  {
    if ly.begin.divIdx < lx.end.divIdx {
      PrefixMonotone(items, ly.begin.divIdx + 1, lx.end.divIdx);
    }
  }

  /** The matches of a page, located by the sweep. */
  ghost predicate LocatedMatches(items: seq<string>, xs: seq<Interval>, locs: seq<Located>) {
    && NonOverlapping(xs) && AllExact(items, xs, locs)
    && forall m :: 0 <= m < |xs| ==> InText(items, xs[m])
  }

  /** From the frontier at the end of match `i - 1`, the loop finishes the page. */
  lemma {:induction false} RenderFrom(divs: seq<Div>, items: seq<string>, xs: seq<Interval>, locs: seq<Located>,
                                      i0: nat, i: nat, i1: nat, selected: int)
    requires LocatedMatches(items, xs, locs) && i0 < i <= i1 <= |xs| && |divs| == |items|
    requires forall m :: 0 <= m < |locs| ==> InDivs(locs[m], |items|)
    requires Frontier(divs, items, MarkSeq(xs, i0, i1, selected, PrefixLen(items, |items|)),
                      locs[i - 1].end.divIdx, locs[i - 1].end.offset)
    ensures ShowsAll(Render(divs, items, locs, i, i1, selected, Some(locs[i - 1].end)), items,
                     MarkSeq(xs, i0, i1, selected, PrefixLen(items, |items|)))
    decreases i1 - i
  {
    var total := PrefixLen(items, |items|);
    var marks, p := MarkSeq(xs, i0, i1, selected, total), locs[i - 1].end;
    assert Exact(items, xs[i - 1], locs[i - 1]) && InText(items, xs[i - 1]);
    if i == i1 {
      GapUniform(xs, i0, i1, selected, total, i, xs[i - 1].End(), total);
      FinishShows(divs, items, marks, p);
    } else {
      assert Exact(items, xs[i], locs[i]) && InText(items, xs[i]);
      GapUniform(xs, i0, i1, selected, total, i, xs[i - 1].End(), xs[i].start);
      MatchUniform(xs, i0, i1, selected, total, i);
      ExactInOrder(items, xs[i - 1], locs[i - 1], xs[i], locs[i]);
      OpenFrontier(divs, items, marks, p, locs[i].begin);
      var open := OpenMatch(divs, items, Some(p), locs[i].begin);
      FillFrontier(open, items, marks, xs[i], locs[i], i == selected);
      RenderFrom(FillMatch(open, items, locs[i], i == selected), items, xs, locs, i0, i + 1, i1, selected);
    }
  }

  lemma {:induction false} UntouchedShowsAll(divs: seq<Div>, items: seq<string>, marks: seq<Mark>)
    requires |divs| == |items| && Uniform(marks, 0, PrefixLen(items, |items|), None)
    requires forall d: nat :: d < |divs| ==> divs[d] == Pristine(items[d])
    ensures ShowsAll(divs, items, marks)
  {
    forall d: nat | d < |divs|
      ensures Shows(divs[d], items, marks, d, |items[d]|)
    {
      UntouchedShow(items, marks, 0, |items|, None, d);
      assert divs[d] == Pristine(items[d]).(style := None);
    }
  }

  lemma {:induction false} NothingShown(divs: seq<Div>, items: seq<string>, xs: seq<Interval>, i0: nat, selected: int)
    requires i0 <= |xs| && |divs| == |items| && NonOverlapping(xs)
    requires forall d: nat :: d < |divs| ==> divs[d] == Pristine(items[d])
    ensures ShowsAll(divs, items, MarkSeq(xs, i0, i0, selected, PrefixLen(items, |items|)))
  {
    var total := PrefixLen(items, |items|);
    GapUniform(xs, i0, i0, selected, total, i0, 0, total);
    UntouchedShowsAll(divs, items, MarkSeq(xs, i0, i0, selected, total));
  }

  /** The first turn of the loop. */
  lemma {:induction false} RenderFirst(divs: seq<Div>, items: seq<string>, xs: seq<Interval>, locs: seq<Located>,
                                       i0: nat, i1: nat, selected: int)
    requires LocatedMatches(items, xs, locs) && i0 < i1 <= |xs| && |divs| == |items|
    requires forall m :: 0 <= m < |locs| ==> InDivs(locs[m], |items|)
    requires forall d: nat :: d < |divs| ==> divs[d] == Pristine(items[d])
    ensures Frontier(FillMatch(OpenMatch(divs, items, None, locs[i0].begin), items, locs[i0], i0 == selected), items,
                     MarkSeq(xs, i0, i1, selected, PrefixLen(items, |items|)),
                     locs[i0].end.divIdx, locs[i0].end.offset)
  {
    var total := PrefixLen(items, |items|);
    var marks := MarkSeq(xs, i0, i1, selected, total);
    assert Exact(items, xs[i0], locs[i0]) && InText(items, xs[i0]);
    GapUniform(xs, i0, i1, selected, total, i0, 0, xs[i0].start);
    MatchUniform(xs, i0, i1, selected, total, i0);
    OpenFirst(divs, items, marks, xs[i0], locs[i0]);
    FillFrontier(OpenMatch(divs, items, None, locs[i0].begin), items, marks, xs[i0], locs[i0], i0 == selected);
  }

  /** The rest of the loop. */
  lemma {:induction false} RenderRest(divs: seq<Div>, items: seq<string>, xs: seq<Interval>, locs: seq<Located>,
                                      i0: nat, i1: nat, selected: int, filled: seq<Div>)
    requires LocatedMatches(items, xs, locs) && i0 < i1 <= |xs| && |divs| == |items|
    requires forall m :: 0 <= m < |locs| ==> InDivs(locs[m], |items|)
    requires filled == FillMatch(OpenMatch(divs, items, None, locs[i0].begin), items, locs[i0], i0 == selected)
    requires Frontier(filled, items, MarkSeq(xs, i0, i1, selected, PrefixLen(items, |items|)),
                      locs[i0].end.divIdx, locs[i0].end.offset)
    ensures ShowsAll(Render(divs, items, locs, i0, i1, selected, None), items,
                     MarkSeq(xs, i0, i1, selected, PrefixLen(items, |items|)))
  {
    RenderFrom(filled, items, xs, locs, i0, i0 + 1, i1, selected);
    RenderStep(divs, filled, items, locs, i0, i1, selected, None);
  }

  /**
   * Rendering keeps the text of every div and marks exactly the positions of the matches from `i0` to
   * `i1`, the selected one as selected.
   */
  lemma {:induction false} RenderShows(divs: seq<Div>, items: seq<string>, xs: seq<Interval>, locs: seq<Located>,
                                       i0: nat, i1: nat, selected: int)
    requires LocatedMatches(items, xs, locs) && i0 <= i1 <= |xs| && |divs| == |items|
    requires forall m :: 0 <= m < |locs| ==> InDivs(locs[m], |items|)
    requires forall d: nat :: d < |divs| ==> divs[d] == Pristine(items[d])
    ensures ShowsAll(Render(divs, items, locs, i0, i1, selected, None), items,
                     MarkSeq(xs, i0, i1, selected, PrefixLen(items, |items|)))
  {
    if i0 == i1 {
      NothingShown(divs, items, xs, i0, selected);
    } else {
      RenderFirst(divs, items, xs, locs, i0, i1, selected);
      RenderRest(divs, items, xs, locs, i0, i1, selected,
                 FillMatch(OpenMatch(divs, items, None, locs[i0].begin), items, locs[i0], i0 == selected));
    }
  }
}
