/**
 * PDFRenderingQueue and the drawing of page views: a cooperative scheduler.  Views are identified by
 * their position in the list of pages, so the page with id k is view k - 1.
 */
module RenderingQueue {
  import opened Options

  datatype RenderingState = Initial | Running | Paused | Finished

  /**
   * Where a view's render task is: there is none; it is about to ask whether it may go on; it has been
   * allowed to draw its next chunk; or its continuation is kept in the view's `resume` callback.
   */
  datatype Task = NoTask | AtContinue | Scheduled | Held

  /** `chunksLeft` is the number of chunks the drawing of the page still takes. */
  datatype PageView = PageView(renderingState: RenderingState, hasResume: bool, task: Task, chunksLeft: nat)

  /** The visible views, most visible first, and the first and last of them in document order. */
  datatype Visible = Visible(views: seq<nat>, first: nat, last: nat)

  datatype Queue = Queue(
    views: seq<PageView>,
    highestPriorityPage: Option<nat>,
    loads: multiset<nat>,  // views whose page is being loaded in order to render them
    wakeups: nat)          // finished or cancelled drawings whose callback has yet to run

  // ---- Picking the next view -----------------------------------------------------------------

  predicate IsFinished(views: seq<PageView>, v: nat) {
    v < |views| && views[v].renderingState == Finished
  }

  function FirstUnfinished(views: seq<PageView>, visible: seq<nat>): (r: Option<nat>)
    ensures r.Some? ==> r.value in visible && !IsFinished(views, r.value)
    ensures r.None? <==> forall k :: 0 <= k < |visible| ==> IsFinished(views, visible[k])
  {
    if visible == [] then None
    else if !IsFinished(views, visible[0]) then Some(visible[0])
    else FirstUnfinished(views, visible[1..])
  }

  /** The page after the visible ones, or the page before them, if there is one. */
  function Neighbour(n: nat, visible: Visible, scrolledDown: bool): Option<nat> {
    if scrolledDown then (if visible.last + 1 < n then Some(visible.last + 1) else None)
    else (if 0 < visible.first <= n then Some(visible.first - 1) else None)
  }

  /** getHighestPriority; the source distinguishes two kinds of "no view" that its callers do not. */
  function GetHighestPriority(views: seq<PageView>, visible: Visible, scrolledDown: bool): Option<nat> {
    if visible.views == [] then None
    else
      var unfinished := FirstUnfinished(views, visible.views);
      if unfinished.Some? then unfinished
      else
        var next := Neighbour(|views|, visible, scrolledDown);
        if next.Some? && !IsFinished(views, next.value) then next else None
  }

  /** What is to be rendered: the visible views and their neighbour in the direction of scrolling. */
  predicate IsTarget(n: nat, visible: Visible, scrolledDown: bool, v: nat) {
    v in visible.views || (v < n && if scrolledDown then v == visible.last + 1 else v + 1 == visible.first)
  }

  /** The first unfinished one of the visible views. */
  ghost predicate IsFirstUnfinished(views: seq<PageView>, visible: seq<nat>, v: nat) {
    exists k :: 0 <= k < |visible| && visible[k] == v && !IsFinished(views, v)
                && forall j :: 0 <= j < k ==> IsFinished(views, visible[j])
  }

  lemma {:induction false} FirstUnfinishedIff(views: seq<PageView>, visible: seq<nat>, v: nat)
    ensures FirstUnfinished(views, visible) == Some(v) <==> IsFirstUnfinished(views, visible, v)
  {
    if visible != [] && IsFinished(views, visible[0]) {
      var rest := visible[1..];
      FirstUnfinishedIff(views, rest, v);
      if k :| 0 <= k < |visible| && visible[k] == v && !IsFinished(views, v)
              && forall j :: 0 <= j < k ==> IsFinished(views, visible[j]) {
        assert rest[k - 1] == v && forall j :: 0 <= j < k - 1 ==> rest[j] == visible[j + 1];
      }
      if k :| 0 <= k < |rest| && rest[k] == v && !IsFinished(views, v)
              && forall j :: 0 <= j < k ==> IsFinished(views, rest[j]) {
        assert visible[k + 1] == v && forall j :: 0 < j < k + 1 ==> visible[j] == rest[j - 1];
      }
    } else if visible != [] {
      assert visible[0] == FirstUnfinished(views, visible).value;
    }
  }

  /**
   * The view to render next: the first unfinished one in the order of visibility; once all visible views are
   * finished, the page behind the last or before the first of them, if it exists and is unfinished.
   */
  ghost predicate IsPick(views: seq<PageView>, visible: Visible, scrolledDown: bool, v: nat) {
    || IsFirstUnfinished(views, visible.views, v)
    || (&& visible.views != [] && (forall k :: 0 <= k < |visible.views| ==> IsFinished(views, visible.views[k]))
        && v < |views| && !IsFinished(views, v)
        && if scrolledDown then v == visible.last + 1 else v + 1 == visible.first)
  }

  /** That is the view picked. */
  lemma {:induction false} PickIff(views: seq<PageView>, visible: Visible, scrolledDown: bool, v: nat)
    ensures GetHighestPriority(views, visible, scrolledDown) == Some(v) <==> IsPick(views, visible, scrolledDown, v)
  {
    FirstUnfinishedIff(views, visible.views, v);
    var unfinished := FirstUnfinished(views, visible.views);
    if unfinished.Some? {
      assert exists k :: 0 <= k < |visible.views| && visible.views[k] == unfinished.value;
    }
  }

  // ---- Transitions ------------------------------------------------------------------------------

  function ForceRendering(q: Queue, visible: Visible, scrolledDown: bool): Queue {
    var pick := GetHighestPriority(q.views, visible, scrolledDown);
    if pick.Some? then q.(loads := q.loads + multiset{pick.value}) else q
  }

  function SetView(q: Queue, v: nat, view: PageView): Queue
    requires v < |q.views|
  {
    q.(views := q.views[v := view])
  }

  /** draw: starts a render task, which will ask before its first chunk. */
  function Draw(view: PageView): PageView
    requires view.renderingState == Initial
  {
    view.(renderingState := Running, task := AtContinue)
  }

  /** The callback stored in `resume`. */
  function ResumeView(view: PageView): PageView
    requires view.hasResume
  {
    view.(renderingState := Running, task := Scheduled)
  }

  function RenderView(q: Queue, v: nat): Queue
    requires v < |q.views| && (q.views[v].renderingState == Paused ==> q.views[v].hasResume)
  {
    match q.views[v].renderingState
    case Finished => q
    case Paused => SetView(q.(highestPriorityPage := Some(v)), v, ResumeView(q.views[v]))
    case Running => q.(highestPriorityPage := Some(v))
    case Initial => SetView(q.(highestPriorityPage := Some(v)), v, Draw(q.views[v]))
  }

  /** The page of a view has been loaded. */
  function PageLoaded(q: Queue, v: nat): Queue
    requires v < |q.views| && (q.views[v].renderingState == Paused ==> q.views[v].hasResume)
  {
    RenderView(q.(loads := q.loads - multiset{v}), v)
  }

  /** renderContinueCallback: go on if this view has the highest priority, else park. */
  function MayContinue(q: Queue, v: nat): Queue
    requires v < |q.views|
  {
    if q.highestPriorityPage != Some(v) then
      SetView(q, v, q.views[v].(renderingState := Paused, hasResume := true, task := Held))
    else SetView(q, v, q.views[v].(task := Scheduled))
  }

  /** The task draws a chunk; after the last one pageViewDrawCallback marks the view finished. */
  function RunChunk(q: Queue, v: nat): Queue
    requires v < |q.views| && q.views[v].chunksLeft > 0
  {
    var view := q.views[v].(chunksLeft := q.views[v].chunksLeft - 1);
    if view.chunksLeft > 0 then SetView(q, v, view.(task := AtContinue))
    else SetView(q, v, view.(renderingState := Finished, task := NoTask)).(wakeups := q.wakeups + 1)
  }

  /** reset: cancels the task, if there is one; the page will take `chunks` chunks when drawn again. */
  function Reset(q: Queue, v: nat, chunks: nat): Queue
    requires v < |q.views|
  {
    var cancelled := if q.views[v].task == NoTask then 0 else 1;
    SetView(q, v, PageView(Initial, false, NoTask, chunks)).(wakeups := q.wakeups + cancelled)
  }

  datatype Event =
    | Update(visible: Visible, scrolledDown: bool)  // the viewer looks for something to render
    | Woken(visible: Visible, scrolledDown: bool)   // so does the callback of a finished drawing
    | Loaded(view: nat)
    | AsksToContinue(view: nat)
    | DrawsChunk(view: nat)
    | ResetView(view: nat, chunks: nat)

  predicate Enabled(q: Queue, e: Event) {
    match e
    case Update(visible, _) => forall k :: 0 <= k < |visible.views| ==> visible.views[k] < |q.views|
    case Woken(visible, _) => q.wakeups > 0 && forall k :: 0 <= k < |visible.views| ==> visible.views[k] < |q.views|
    case Loaded(v) => v in q.loads
    case AsksToContinue(v) => v < |q.views| && q.views[v].task == AtContinue
    case DrawsChunk(v) => v < |q.views| && q.views[v].task == Scheduled
    case ResetView(v, chunks) => v < |q.views| && chunks > 0
  }

  function After(q: Queue, e: Event): Queue
    requires Inv(q) && Enabled(q, e)
  {
    match e
    case Update(visible, down) => ForceRendering(q, visible, down)
    case Woken(visible, down) => ForceRendering(q.(wakeups := q.wakeups - 1), visible, down)
    case Loaded(v) => PageLoaded(q, v)
    case AsksToContinue(v) => MayContinue(q, v)
    case DrawsChunk(v) => RunChunk(q, v)
    case ResetView(v, chunks) => Reset(q, v, chunks)
  }

  // ---- Safety --------------------------------------------------------------------------------------

  /** The state of a view says where its task is; a paused view can be resumed. */
  predicate Coherent(view: PageView) {
    match view.renderingState
    case Initial => view.task == NoTask && view.chunksLeft > 0
    case Running => (view.task == AtContinue || view.task == Scheduled) && view.chunksLeft > 0
    case Paused => view.task == Held && view.hasResume && view.chunksLeft > 0
    case Finished => view.task == NoTask && view.chunksLeft == 0
  }

  ghost predicate Inv(q: Queue) {
    && (forall v :: 0 <= v < |q.views| ==> Coherent(q.views[v]))
    && (forall v :: v in q.loads ==> v < |q.views|)
    && (q.highestPriorityPage.Some? ==> q.highestPriorityPage.value < |q.views|)
  }

  lemma {:induction false} PickInRange(q: Queue, visible: Visible, scrolledDown: bool)
    requires forall k :: 0 <= k < |visible.views| ==> visible.views[k] < |q.views|
    ensures var pick := GetHighestPriority(q.views, visible, scrolledDown);
            pick.Some? ==> pick.value < |q.views| && !IsFinished(q.views, pick.value)
  {
    var unfinished := FirstUnfinished(q.views, visible.views);
    if unfinished.Some? {
      assert exists k :: 0 <= k < |visible.views| && visible.views[k] == unfinished.value;
    }
  }

  lemma {:induction false} ForceRenderingKeepsInv(q: Queue, visible: Visible, scrolledDown: bool)
    requires Inv(q) && forall k :: 0 <= k < |visible.views| ==> visible.views[k] < |q.views|
    ensures Inv(ForceRendering(q, visible, scrolledDown))
  {
    PickInRange(q, visible, scrolledDown);
  }

  lemma {:induction false} SetViewKeepsInv(q: Queue, v: nat, view: PageView)
    requires Inv(q) && v < |q.views| && Coherent(view)
    ensures Inv(SetView(q, v, view))
  {
  }

  lemma {:induction false} PageLoadedKeepsInv(q: Queue, v: nat)
    requires Inv(q) && v in q.loads
    ensures Inv(PageLoaded(q, v))
  {
    var loaded := q.(loads := q.loads - multiset{v});
    assert Inv(loaded.(highestPriorityPage := Some(v)));
    match q.views[v].renderingState
    case Finished =>
    case Running =>
    case Paused => SetViewKeepsInv(loaded.(highestPriorityPage := Some(v)), v, ResumeView(q.views[v]));
    case Initial => SetViewKeepsInv(loaded.(highestPriorityPage := Some(v)), v, Draw(q.views[v]));
  }

  /** Asking, drawing a chunk and being reset put the view into another coherent state. */
  lemma {:induction false} TaskEventsKeepInv(q: Queue, v: nat, chunks: nat)
    requires Inv(q) && v < |q.views|
    ensures q.views[v].task == AtContinue ==> Inv(MayContinue(q, v))
    ensures q.views[v].task == Scheduled ==> Inv(RunChunk(q, v))
    ensures chunks > 0 ==> Inv(Reset(q, v, chunks))
  {
    var view := q.views[v];
    assert Coherent(view);
    if view.task == AtContinue {
      SetViewKeepsInv(q, v, MayContinue(q, v).views[v]);
    } else if view.task == Scheduled {
      SetViewKeepsInv(q, v, RunChunk(q, v).views[v]);
    }
    if chunks > 0 {
      SetViewKeepsInv(q, v, PageView(Initial, false, NoTask, chunks));
    }
  }

  lemma {:induction false} EventKeepsInv(q: Queue, e: Event)
    requires Inv(q) && Enabled(q, e)
    ensures Inv(After(q, e)) && |After(q, e).views| == |q.views|
  {
    match e
    case Update(visible, down) => ForceRenderingKeepsInv(q, visible, down);
    case Woken(visible, down) => ForceRenderingKeepsInv(q.(wakeups := q.wakeups - 1), visible, down);
    case Loaded(v) => PageLoadedKeepsInv(q, v);
    case AsksToContinue(v) => TaskEventsKeepInv(q, v, 0);
    case DrawsChunk(v) => TaskEventsKeepInv(q, v, 0);
    case ResetView(v, chunks) => TaskEventsKeepInv(q, v, chunks);
  }
}
