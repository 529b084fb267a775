/** Which pages are visible: binarySearchFirstItem, getVisibleElements, and the current page of PDFViewer.update. */
module VisibleViews {
  import opened Options
  import opened Sorting

  // ---- Binary search ---------------------------------------------------------------------

  /** Once the condition holds, it holds for all later items. */
  ghost predicate Monotone<T>(items: seq<T>, condition: T -> bool) {
    forall i, j :: 0 <= i < j < |items| && condition(items[i]) ==> condition(items[j])
  }

  method BinarySearchFirstItem<T>(items: seq<T>, condition: T -> bool) returns (index: nat)
    requires Monotone(items, condition)
    ensures index <= |items|
    ensures forall i :: 0 <= i < index ==> !condition(items[i])
    ensures forall i :: index <= i < |items| ==> condition(items[i])
  {
    var minIndex, maxIndex := 0, |items| - 1;
    if |items| == 0 || !condition(items[maxIndex]) {
      return |items|;
    }
    if condition(items[minIndex]) {
      return minIndex;
    }
    while minIndex < maxIndex
      invariant 0 <= minIndex <= maxIndex < |items|
      invariant condition(items[maxIndex])
      invariant forall i :: 0 <= i < minIndex ==> !condition(items[i])
    {
      var currentIndex := (minIndex + maxIndex) / 2;
      if condition(items[currentIndex]) {
        maxIndex := currentIndex;
      } else {
        minIndex := currentIndex + 1;
      }
    }
    return minIndex;
  }

  // ---- Visible elements --------------------------------------------------------------------

  /** The content box of a page view: its id, offset + client position, and client size. */
  datatype PageBox = PageBox(id: int, x: real, y: real, width: real, height: real) {
    function Bottom(): real { y + height }
  }

  /** The part of the document the scroll pane shows. */
  datatype Pane = Pane(top: real, bottom: real, left: real, right: real)

  datatype VisibleView = VisibleView(id: int, x: real, y: real, view: PageBox, percent: int)

  function Max(a: real, b: real): real { if a < b then b else a }

  function HiddenHeight(pane: Pane, v: PageBox): real {
    Max(0.0, pane.top - v.y) + Max(0.0, v.y + v.height - pane.bottom)
  }

  /** The operator `| 0`: truncation towards zero. */
  function Truncate(x: real): int { if x < 0.0 then -((-x).Floor) else x.Floor }

  function Percent(pane: Pane, v: PageBox): int
    requires v.height > 0.0
  {
    Truncate((v.height - HiddenHeight(pane, v)) * 100.0 / v.height)
  }

  function Min(a: real, b: real): real { if a < b then a else b }

  /** The height of the part of the page that lies in the pane. */
  function VisibleHeight(pane: Pane, v: PageBox): real { Min(v.Bottom(), pane.bottom) - Max(v.y, pane.top) }

  lemma {:induction false} HiddenRest(pane: Pane, v: PageBox)
    ensures v.height - HiddenHeight(pane, v) == VisibleHeight(pane, v)
  {
  }

  predicate OverlapsHorizontally(pane: Pane, v: PageBox) {
    !(v.x + v.width < pane.left || v.x > pane.right)
  }

  /** The test a naive scan would apply to every view. */
  predicate IsVisible(pane: Pane, v: PageBox) {
    v.Bottom() > pane.top && v.y <= pane.bottom && OverlapsHorizontally(pane, v)
  }

  /** The point is on the page. */
  predicate OnPage(v: PageBox, px: real, py: real) { v.x <= px <= v.x + v.width && v.y <= py < v.Bottom() }

  /** The pane shows the point. */
  predicate InPane(pane: Pane, px: real, py: real) {
    pane.left <= px <= pane.right && pane.top <= py <= pane.bottom
  }

  /** A page is visible if and only if the pane shows a point of it. */
  lemma {:induction false} VisibleIff(pane: Pane, v: PageBox)
    requires v.height > 0.0 && v.width >= 0.0 && pane.top <= pane.bottom && pane.left <= pane.right
    ensures IsVisible(pane, v) <==> exists px: real, py: real :: OnPage(v, px, py) && InPane(pane, px, py)
  {
    if IsVisible(pane, v) {
      var px, py := Max(v.x, pane.left), Max(v.y, pane.top);
      assert OnPage(v, px, py) && InPane(pane, px, py);
    }
  }

  function Entry(pane: Pane, v: PageBox): (e: VisibleView)
    requires v.height > 0.0
    ensures e.view == v && e.id == v.id && (e.x, e.y) == (v.x, v.y)
  {
    VisibleView(v.id, v.x, v.y, v, Percent(pane, v))
  }

  /** The naive scan over the views from `from` up to `end`. */
  function Scan(pane: Pane, views: seq<PageBox>, from: nat, end: nat): seq<VisibleView>
    requires end <= |views| && forall i :: 0 <= i < |views| ==> views[i].height > 0.0
  {
    if end <= from then []
    else
      var v := views[end - 1];
      Scan(pane, views, from, end - 1) + (if IsVisible(pane, v) then [Entry(pane, v)] else [])
  }

  /** Views laid out downwards: neither tops nor bottoms ever go back up. */
  ghost predicate LaidOut(views: seq<PageBox>) {
    && (forall i :: 0 <= i < |views| ==> views[i].height > 0.0)
    && (forall i, j :: 0 <= i < j < |views| ==> views[i].y <= views[j].y)
    && (forall i, j :: 0 <= i < j < |views| ==> views[i].Bottom() <= views[j].Bottom())
  }

  lemma {:induction false} ScanSkips(pane: Pane, views: seq<PageBox>, from: nat, mid: nat, end: nat)
    requires from <= mid <= end <= |views| && forall i :: 0 <= i < |views| ==> views[i].height > 0.0
    requires forall i :: from <= i < mid ==> !IsVisible(pane, views[i])
    ensures Scan(pane, views, from, end) == Scan(pane, views, mid, end)
    decreases end
  {
    if from < end {
      if mid < end {
        ScanSkips(pane, views, from, mid, end - 1);
      } else {
        ScanSkips(pane, views, from, mid - 1, end - 1);
      }
    }
  }

  lemma {:induction false} ScanStops(pane: Pane, views: seq<PageBox>, from: nat, mid: nat, end: nat)
    requires mid <= end <= |views| && forall i :: 0 <= i < |views| ==> views[i].height > 0.0
    requires forall i :: mid <= i < end ==> !IsVisible(pane, views[i])
    ensures Scan(pane, views, from, end) == Scan(pane, views, from, mid)
    decreases end
  {
    if mid < end {
      ScanStops(pane, views, from, mid, end - 1);
    }
  }

  /** Most visible first, then lowest id. */
  function VisibilityKey(v: VisibleView): (int, int) { (-v.percent, v.id) }

  /** The loop from the first view that reaches into the pane to the first one below it. */
  method CollectVisible(pane: Pane, views: seq<PageBox>, start: nat) returns (visible: seq<VisibleView>)
    requires LaidOut(views) && start <= |views|
    requires forall i :: start <= i < |views| ==> views[i].Bottom() > pane.top
    ensures visible == Scan(pane, views, start, |views|)
  {
    visible := [];
    var i := start;
    while i < |views|
      invariant start <= i <= |views|
      invariant visible == Scan(pane, views, start, i)
    {
      var view := views[i];
      if view.y > pane.bottom {
        break;
      }
      if !(view.x + view.width < pane.left || view.x > pane.right) {
        visible := visible + [Entry(pane, view)];
      }
      i := i + 1;
    }
    ScanStops(pane, views, start, i, |views|);
  }

  /** Binary search and early exit find exactly the views of a full scan, in order. */
  method GetVisibleElements(pane: Pane, views: seq<PageBox>, sortByVisibility: bool)
    returns (first: Option<VisibleView>, last: Option<VisibleView>, visible: seq<VisibleView>)
    requires LaidOut(views)
    ensures var scan := Scan(pane, views, 0, |views|);
            && visible == (if sortByVisibility then Sort(scan, VisibilityKey) else scan)
            && first == (if scan == [] then None else Some(scan[0]))
            && last == (if scan == [] then None else Some(scan[|scan| - 1]))
  {
    var isElementBottomBelowViewTop := (v: PageBox) => v.Bottom() > pane.top;
    var firstVisibleElementInd := 0;
    if |views| != 0 {
      firstVisibleElementInd := BinarySearchFirstItem(views, isElementBottomBelowViewTop);
    }
    ScanSkips(pane, views, 0, firstVisibleElementInd, |views|);
    visible := CollectVisible(pane, views, firstVisibleElementInd);
    first := if visible == [] then None else Some(visible[0]);
    last := if visible == [] then None else Some(visible[|visible| - 1]);
    if sortByVisibility {
      visible := Sort(visible, VisibilityKey);
    }
  }

  /** The scan lists the visible views in document order, each once. */
  lemma {:induction false} ScanInOrder(pane: Pane, views: seq<PageBox>, end: nat) returns (indices: seq<nat>)
    requires end <= |views| && forall i :: 0 <= i < |views| ==> views[i].height > 0.0
    ensures |indices| == |Scan(pane, views, 0, end)| && forall j, k :: 0 <= j < k < |indices| ==> indices[j] < indices[k]
    ensures forall k :: 0 <= k < |indices| ==> indices[k] < end && Scan(pane, views, 0, end)[k] == Entry(pane, views[indices[k]])
    ensures forall i: nat :: i < end ==> (i in indices <==> IsVisible(pane, views[i]))
  {
    if end == 0 {
      indices := [];
    } else {
      indices := ScanInOrder(pane, views, end - 1);
      if IsVisible(pane, views[end - 1]) {
        indices := indices + [end - 1];
      }
    }
  }

  /** A full scan lists exactly the visible views. */
  lemma {:induction false} ScanMembers(pane: Pane, views: seq<PageBox>, end: nat, e: VisibleView)
    requires end <= |views| && forall i :: 0 <= i < |views| ==> views[i].height > 0.0
    ensures e in Scan(pane, views, 0, end)
       <==> exists i :: 0 <= i < end && IsVisible(pane, views[i]) && Entry(pane, views[i]) == e
    decreases end
  {
    if end != 0 {
      ScanMembers(pane, views, end - 1, e);
    }
  }

  lemma {:induction false} FloorTimes(x: real, h: real, p: int)
    requires h > 0.0 && p == (x / h).Floor
    ensures p as real * h <= x < (p + 1) as real * h
  {
    var y := x / h;
    assert y * h == x;
    assert (y - p as real) * h >= 0.0;
    assert ((p + 1) as real - y) * h > 0.0;
  }

  /** The percentage is the visible share of the height, rounded down. */
  lemma {:induction false} PercentIsShare(pane: Pane, v: PageBox)
    requires v.height > 0.0 && pane.top <= pane.bottom && v.Bottom() > pane.top && v.y <= pane.bottom
    ensures var p := Percent(pane, v);
            p as real * v.height <= VisibleHeight(pane, v) * 100.0 < (p + 1) as real * v.height
  {
    HiddenRest(pane, v);
    var x := VisibleHeight(pane, v) * 100.0;
    assert x >= 0.0;
    var y := x / v.height;
    assert y * v.height == x;
    assert y >= 0.0;
    FloorTimes(x, v.height, y.Floor);
  }

  /** So a page with the larger share of its height visible never has the smaller percentage. */
  lemma {:induction false} PercentOrder(pane: Pane, v: PageBox, w: PageBox)
    requires v.height > 0.0 && w.height > 0.0 && pane.top <= pane.bottom
    requires v.Bottom() > pane.top && v.y <= pane.bottom && w.Bottom() > pane.top && w.y <= pane.bottom
    requires VisibleHeight(pane, v) / v.height <= VisibleHeight(pane, w) / w.height
    ensures Percent(pane, v) <= Percent(pane, w)
  {
    HiddenRest(pane, v);
    HiddenRest(pane, w);
    var a, b := VisibleHeight(pane, v), VisibleHeight(pane, w);
    Hundredfold(a, v.height);
    Hundredfold(b, w.height);
  }

  lemma {:induction false} Hundredfold(a: real, h: real)
    requires h > 0.0 && a >= 0.0
    ensures a * 100.0 / h == a / h * 100.0 >= 0.0
  {
    var y := a / h;
    assert y * h == a;
    var z := a * 100.0 / h;
    assert z * h == a * 100.0;
    assert (z - y * 100.0) * h == 0.0;
    assert y >= 0.0;
  }

  /** A visible view has a percentage from 0 to 100, and 100 exactly when its whole height is in the pane. */
  lemma {:induction false} PercentMeaning(pane: Pane, v: PageBox)
    requires pane.top <= pane.bottom && v.height > 0.0 && IsVisible(pane, v)
    ensures 0 <= Percent(pane, v) <= 100
    ensures Percent(pane, v) == 100 <==> pane.top <= v.y && v.Bottom() <= pane.bottom
  {
    var h, hidden := v.height, HiddenHeight(pane, v);
    assert 0.0 <= hidden <= h;
    var ratio := (h - hidden) * 100.0 / h;
    assert ratio * h == (h - hidden) * 100.0;
    assert (100.0 - ratio) * h == 100.0 * hidden;
    ProductSign(100.0 - ratio, h);
    ProductSign(ratio, h);
  }

  lemma {:induction false} ProductSign(x: real, h: real)
    requires h > 0.0
    ensures x * h >= 0.0 <==> x >= 0.0
    ensures x * h == 0.0 <==> x == 0.0
  {
  }

  // ---- The current page ------------------------------------------------------------------------

  /** `v` comes before `w` in order of visibility. */
  predicate Better(v: VisibleView, w: VisibleView) {
    v.percent > w.percent || (v.percent == w.percent && v.id <= w.id)
  }

  /** The best-ranked visible view: most visible, and of those the one with the lowest id. */
  ghost predicate IsBest(visible: seq<VisibleView>, v: VisibleView) {
    v in visible && forall w :: w in visible ==> Better(v, w)
  }

  ghost predicate FullyVisible(visible: seq<VisibleView>, id: int) {
    exists v :: v in visible && v.id == id && v.percent == 100
  }

  /** The loop of update over the views sorted by visibility, and the choice of the current page. */
  method CurrentPage(visiblePages: seq<VisibleView>, currentId: int) returns (id: int)
    requires SortedBy(visiblePages, VisibilityKey) && visiblePages != []
    requires forall v :: v in visiblePages ==> v.percent <= 100
    ensures id == if FullyVisible(visiblePages, currentId) then currentId else visiblePages[0].id
  {
    var stillFullyVisible := false;
    var i := 0;
    while i < |visiblePages|
      invariant 0 <= i <= |visiblePages| && !stillFullyVisible
      invariant forall j :: 0 <= j < i ==> visiblePages[j].percent == 100 && visiblePages[j].id != currentId
    {
      var page := visiblePages[i];
      assert page in visiblePages;
      if page.percent < 100 {
        assert forall j :: i <= j < |visiblePages| ==>
            Precedes(VisibilityKey(page), VisibilityKey(visiblePages[j])) || j == i;
        break;
      }
      if page.id == currentId {
        stillFullyVisible := true;
        assert FullyVisible(visiblePages, currentId);
        break;
      }
      i := i + 1;
    }
    id := if stillFullyVisible then currentId else visiblePages[0].id;
  }

  /** The first view in order of visibility is the best-ranked one. */
  lemma {:induction false} FirstIsBest(visible: seq<VisibleView>)
    requires SortedBy(visible, VisibilityKey) && visible != []
    ensures IsBest(visible, visible[0])
  {
    forall w | w in visible
      ensures Better(visible[0], w)
    {
      var j :| 0 <= j < |visible| && visible[j] == w;
      assert j > 0 ==> Precedes(VisibilityKey(visible[0]), VisibilityKey(visible[j]));
    }
  }

  lemma {:induction false} BestUnique(visible: seq<VisibleView>, v: VisibleView, w: VisibleView)
    requires IsBest(visible, v) && IsBest(visible, w)
    ensures v.id == w.id && v.percent == w.percent
  {
    assert Better(v, w) && Better(w, v);
  }

  /** The order in which the views are sorted: by percentage downwards, then by id upwards. */
  lemma {:induction false} KeyOrder(v: VisibleView, w: VisibleView)
    ensures Precedes(VisibilityKey(v), VisibilityKey(w)) <==>
              v.percent > w.percent || (v.percent == w.percent && v.id <= w.id)
  {
  }

  /** No visible page shows more of itself than this one, and none with a lower id shows as much. */
  ghost predicate MostVisible(pane: Pane, views: seq<PageBox>, i: nat)
    requires LaidOut(views)
  {
    && i < |views| && IsVisible(pane, views[i])
    && forall j :: 0 <= j < |views| && IsVisible(pane, views[j]) ==>
         && Percent(pane, views[j]) <= Percent(pane, views[i])
         && (views[j].id < views[i].id ==> Percent(pane, views[j]) < Percent(pane, views[i]))
  }

  /** What being best-ranked means for the pages. */
  lemma {:induction false} BestIsMostVisible(pane: Pane, views: seq<PageBox>, i: nat)
    requires LaidOut(views) && i < |views| && IsVisible(pane, views[i])
    ensures IsBest(Scan(pane, views, 0, |views|), Entry(pane, views[i])) <==> MostVisible(pane, views, i)
  {
    var scan, v := Scan(pane, views, 0, |views|), Entry(pane, views[i]);
    ScanMembers(pane, views, |views|, v);
    forall j | 0 <= j < |views| && IsVisible(pane, views[j])
      ensures Entry(pane, views[j]) in scan
    {
      ScanMembers(pane, views, |views|, Entry(pane, views[j]));
    }
    if MostVisible(pane, views, i) {
      forall w | w in scan
        ensures Better(v, w)
      {
        ScanMembers(pane, views, |views|, w);
      }
    }
  }

  /** The whole height of the page with this id is inside the pane. */
  ghost predicate WhollyShown(pane: Pane, views: seq<PageBox>, id: int) {
    exists i :: 0 <= i < |views| && views[i].id == id && IsVisible(pane, views[i])
                && pane.top <= views[i].y && views[i].Bottom() <= pane.bottom
  }

  lemma {:induction false} PercentBounds(pane: Pane, views: seq<PageBox>)
    requires LaidOut(views) && pane.top <= pane.bottom
    ensures forall e :: e in Scan(pane, views, 0, |views|) ==> 0 <= e.percent <= 100
  {
    forall e | e in Scan(pane, views, 0, |views|)
      ensures 0 <= e.percent <= 100
    {
      ScanMembers(pane, views, |views|, e);
      var i :| 0 <= i < |views| && IsVisible(pane, views[i]) && Entry(pane, views[i]) == e;
      PercentMeaning(pane, views[i]);
    }
  }

  /** The percentage says whether a page is wholly shown. */
  lemma {:induction false} FullyVisibleMeaning(pane: Pane, views: seq<PageBox>, id: int)
    requires LaidOut(views) && pane.top <= pane.bottom
    ensures FullyVisible(Scan(pane, views, 0, |views|), id) <==> WhollyShown(pane, views, id)
  {
    var scan := Scan(pane, views, 0, |views|);
    if FullyVisible(scan, id) {
      var e :| e in scan && e.id == id && e.percent == 100;
      ScanMembers(pane, views, |views|, e);
      var i :| 0 <= i < |views| && IsVisible(pane, views[i]) && Entry(pane, views[i]) == e;
      PercentMeaning(pane, views[i]);
    }
    if i :| 0 <= i < |views| && views[i].id == id && IsVisible(pane, views[i])
            && pane.top <= views[i].y && views[i].Bottom() <= pane.bottom {
      PercentMeaning(pane, views[i]);
      ScanMembers(pane, views, |views|, Entry(pane, views[i]));
    }
  }

  /**
   * update outside presentation mode: nothing happens when no page is visible; otherwise the current
   * page stays if it is wholly shown, and else the best-ranked page becomes the current one.
   */
  method Update(pane: Pane, views: seq<PageBox>, currentId: int) returns (id: int)
    requires LaidOut(views) && pane.top <= pane.bottom
    ensures var visible := Scan(pane, views, 0, |views|);
            && (visible == [] ==> id == currentId)
            && (visible != [] ==> exists v :: IsBest(visible, v)
                                     && id == if WhollyShown(pane, views, currentId) then currentId else v.id)
    ensures var visible := Scan(pane, views, 0, |views|);
            visible != [] ==>
              (id == currentId <==> WhollyShown(pane, views, currentId)
                                    || exists v :: IsBest(visible, v) && v.id == currentId)
  {
    var first, last, visible := GetVisibleElements(pane, views, true);
    ghost var scan := Scan(pane, views, 0, |views|);
    SortSorts(scan, VisibilityKey);
    if |visible| == 0 {
      return currentId;
    }
    PercentBounds(pane, views);
    FullyVisibleMeaning(pane, views, currentId);
    id := CurrentPage(visible, currentId);
    FirstIsBest(visible);
    assert IsBest(scan, visible[0]);
    forall v | IsBest(scan, v)
      ensures v.id == visible[0].id
    {
      BestUnique(scan, v, visible[0]);
    }
  }
}
