/** Runs of the rendering scheduler: parking, and draining to "everything is rendered". */
module RenderingRuns {
  import opened Options
  import opened RenderingQueue

  // ---- Runs --------------------------------------------------------------------------------------

  ghost predicate Legal(q: Queue, events: seq<Event>)
    requires Inv(q)
    decreases |events|
  {
    events == [] ||
      (Enabled(q, events[0]) && (EventKeepsInv(q, events[0]); Legal(After(q, events[0]), events[1..])))
  }

  ghost function Run(q: Queue, events: seq<Event>): (r: Queue)
    requires Inv(q) && Legal(q, events)
    ensures Inv(r) && |r.views| == |q.views|
    decreases |events|
  {
    if events == [] then q
    else
      EventKeepsInv(q, events[0]);
      Run(After(q, events[0]), events[1..])
  }

  // ---- A view without the highest priority parks ---------------------------------------------------

  /** How many chunks of `v` are drawn. */
  function Chunks(events: seq<Event>, v: nat): nat {
    if events == [] then 0 else (if events[0] == DrawsChunk(v) then 1 else 0) + Chunks(events[1..], v)
  }

  /** At no time during the run does `v` have the highest priority. */
  ghost predicate NeverHighest(q: Queue, events: seq<Event>, v: nat)
    requires Inv(q) && Legal(q, events)
    decreases |events|
  {
    q.highestPriorityPage != Some(v) &&
      (events == [] || (EventKeepsInv(q, events[0]); NeverHighest(After(q, events[0]), events[1..], v)))
  }

  /** While a view does not have the highest priority it draws at most the chunk already granted to it. */
  lemma {:induction false} AtMostOneMoreChunk(q: Queue, events: seq<Event>, v: nat)
    requires Inv(q) && v < |q.views| && Legal(q, events) && NeverHighest(q, events, v)
    ensures Chunks(events, v) <= if q.views[v].task == Scheduled then 1 else 0
    decreases |events|
  {
    if events != [] {
      EventKeepsInv(q, events[0]);
      var next := After(q, events[0]);
      NoGrant(q, events[0], v);
      AtMostOneMoreChunk(next, events[1..], v);
    }
  }

  /** A view is granted a chunk only with the highest priority, and drawing one uses the grant up. */
  lemma {:induction false} NoGrant(q: Queue, e: Event, v: nat)
    requires Inv(q) && Enabled(q, e) && v < |q.views|
    requires q.highestPriorityPage != Some(v) && After(q, e).highestPriorityPage != Some(v)
    ensures After(q, e).views[v].task == Scheduled ==> q.views[v].task == Scheduled && e != DrawsChunk(v)
    ensures e == DrawsChunk(v) ==> q.views[v].task == Scheduled
  {
  }

  /** It is granted one if and only if it asks and has the highest priority, or is resumed where it had parked. */
  lemma {:induction false} GrantIff(q: Queue, e: Event, v: nat)
    requires Inv(q) && Enabled(q, e) && v < |q.views| && q.views[v].task != Scheduled
    ensures After(q, e).views[v].task == Scheduled <==>
              || (e == AsksToContinue(v) && q.highestPriorityPage == Some(v))
              || (e == Loaded(v) && q.views[v].renderingState == Paused)
  {
    assert Coherent(q.views[v]);
  }

  // ---- Draining -----------------------------------------------------------------------------------------

  /** The scheduler's own events when the visible views stay the same and nothing is reset. */
  predicate Quiet(e: Event, visible: Visible, scrolledDown: bool) {
    e == Woken(visible, scrolledDown) || e.Loaded? || e.AsksToContinue? || e.DrawsChunk?
  }

  ghost predicate AllQuiet(events: seq<Event>, visible: Visible, scrolledDown: bool) {
    forall k :: 0 <= k < |events| ==> Quiet(events[k], visible, scrolledDown)
  }

  /** There is nothing left to render. */
  predicate Rendered(q: Queue, visible: Visible, scrolledDown: bool) {
    GetHighestPriority(q.views, visible, scrolledDown).None?
  }

  /** That is: every visible view is finished, and so is their neighbour. */
  lemma {:induction false} RenderedMeans(q: Queue, visible: Visible, scrolledDown: bool)
    requires visible.views != []
    ensures Rendered(q, visible, scrolledDown)
       <==> forall v: nat :: IsTarget(|q.views|, visible, scrolledDown, v) ==> IsFinished(q.views, v)
  {
    assert FirstUnfinished(q.views, visible.views).None?
      <==> forall k :: 0 <= k < |visible.views| ==> IsFinished(q.views, visible.views[k]);
    forall k | 0 <= k < |visible.views|
      ensures IsTarget(|q.views|, visible, scrolledDown, visible.views[k])
    {
    }
    var next := Neighbour(|q.views|, visible, scrolledDown);
    if next.Some? {
      assert IsTarget(|q.views|, visible, scrolledDown, next.value);
    }
  }

  predicate HighestRuns(q: Queue) {
    && q.highestPriorityPage.Some? && q.highestPriorityPage.value < |q.views|
    && q.views[q.highestPriorityPage.value].renderingState == Running
  }

  ghost predicate LoadPending(q: Queue) {
    exists v :: v in q.loads && !IsFinished(q.views, v)
  }

  /** As long as something is left to render, something is on its way to rendering it. */
  ghost predicate Live(q: Queue, visible: Visible, scrolledDown: bool) {
    Rendered(q, visible, scrolledDown) || q.wakeups > 0 || HighestRuns(q) || LoadPending(q)
  }

  /** A finished view stays finished, and what is rendered stays rendered. */
  lemma {:induction false} StaysRendered(q: Queue, r: Queue, visible: Visible, scrolledDown: bool)
    requires |q.views| == |r.views| && Rendered(q, visible, scrolledDown)
    requires forall v :: 0 <= v < |q.views| && q.views[v].renderingState == Finished ==> r.views[v].renderingState == Finished
    ensures Rendered(r, visible, scrolledDown)
  {
    if visible.views != [] {
      assert forall k :: 0 <= k < |visible.views| ==> IsFinished(q.views, visible.views[k]) ==> IsFinished(r.views, visible.views[k]);
    }
  }

  lemma {:induction false} ForceRenderingLive(q: Queue, visible: Visible, scrolledDown: bool)
    ensures Live(ForceRendering(q, visible, scrolledDown), visible, scrolledDown)
  {
    var pick, r := GetHighestPriority(q.views, visible, scrolledDown), ForceRendering(q, visible, scrolledDown);
    if pick.Some? {
      assert pick.value in r.loads && !IsFinished(r.views, pick.value);
    }
  }

  lemma {:induction false} LoadedLive(q: Queue, v: nat, visible: Visible, scrolledDown: bool)
    requires Inv(q) && v in q.loads && Live(q, visible, scrolledDown)
    ensures Live(PageLoaded(q, v), visible, scrolledDown)
  {
    var r := PageLoaded(q, v);
    if q.views[v].renderingState == Finished {
      if LoadPending(q) {
        var u :| u in q.loads && !IsFinished(q.views, u);
        assert u in r.loads && !IsFinished(r.views, u);
      } else if Rendered(q, visible, scrolledDown) {
        StaysRendered(q, r, visible, scrolledDown);
      }
    } else {
      assert HighestRuns(r);
    }
  }

  lemma {:induction false} TaskStepLive(q: Queue, e: Event, visible: Visible, scrolledDown: bool)
    requires Inv(q) && Enabled(q, e) && (e.AsksToContinue? || e.DrawsChunk?) && Live(q, visible, scrolledDown)
    ensures Live(After(q, e), visible, scrolledDown)
  {
    var r := After(q, e);
    if Rendered(q, visible, scrolledDown) {
      StaysRendered(q, r, visible, scrolledDown);
    } else if LoadPending(q) && r.wakeups == 0 {
      var u :| u in q.loads && !IsFinished(q.views, u);
      assert u in r.loads && !IsFinished(r.views, u);
    }
  }

  lemma {:induction false} QuietKeepsLive(q: Queue, e: Event, visible: Visible, scrolledDown: bool)
    requires Inv(q) && Enabled(q, e) && Quiet(e, visible, scrolledDown) && Live(q, visible, scrolledDown)
    ensures Live(After(q, e), visible, scrolledDown)
  {
    match e
    case Woken(_, _) => ForceRenderingLive(q.(wakeups := q.wakeups - 1), visible, scrolledDown);
    case Loaded(v) => LoadedLive(q, v, visible, scrolledDown);
    case AsksToContinue(v) => TaskStepLive(q, e, visible, scrolledDown);
    case DrawsChunk(v) => TaskStepLive(q, e, visible, scrolledDown);
  }

  /** Cancelling a drawing does not leave the scheduler asleep either. */
  lemma {:induction false} CancelKeepsLive(q: Queue, v: nat, chunks: nat, visible: Visible, scrolledDown: bool)
    requires Inv(q) && Enabled(q, ResetView(v, chunks)) && q.views[v].renderingState in {Running, Paused}
    ensures Live(After(q, ResetView(v, chunks)), visible, scrolledDown)
  {
    assert Coherent(q.views[v]);
  }

  lemma {:induction false} RunningGoesOn(q: Queue, v: nat)
    requires Inv(q) && v < |q.views| && q.views[v].renderingState == Running
    ensures Enabled(q, AsksToContinue(v)) || Enabled(q, DrawsChunk(v))
  {
    assert Coherent(q.views[v]);
  }

  /** When no event of the scheduler itself can happen, everything is rendered. */
  lemma {:induction false} StuckIsRendered(q: Queue, visible: Visible, scrolledDown: bool)
    requires Inv(q) && Live(q, visible, scrolledDown)
    requires forall k :: 0 <= k < |visible.views| ==> visible.views[k] < |q.views|
    requires forall e :: Quiet(e, visible, scrolledDown) ==> !Enabled(q, e)
    ensures Rendered(q, visible, scrolledDown)
  {
    assert !Enabled(q, Woken(visible, scrolledDown));
    if LoadPending(q) {
      var v :| v in q.loads && !IsFinished(q.views, v);
      assert Enabled(q, Loaded(v));
      assert false;
    }
    if HighestRuns(q) {
      RunningGoesOn(q, q.highestPriorityPage.value);
      assert false;
    }
  }

  // ---- Every run of the scheduler is finite -----------------------------------------------------------------

  function Weight(view: PageView): nat {
    (if view.renderingState == Finished then 0 else 3) + 2 * view.chunksLeft + (if view.task == AtContinue then 1 else 0)
  }

  function WeightSum(views: seq<PageView>): nat {
    if views == [] then 0 else WeightSum(views[..|views| - 1]) + Weight(views[|views| - 1])
  }

  lemma {:induction false} WeightUpdate(views: seq<PageView>, v: nat, view: PageView)
    requires v < |views|
    ensures WeightSum(views[v := view]) + Weight(views[v]) == WeightSum(views) + Weight(view)
  {
    var front := views[..|views| - 1];
    if v == |views| - 1 {
      assert views[v := view][..v] == front;
    } else {
      assert views[v := view][..|views| - 1] == front[v := view];
      WeightUpdate(front, v, view);
    }
  }

  /** An upper bound on the number of scheduler events still to come. */
  function Budget(q: Queue): nat {
    WeightSum(q.views) + 2 * |q.loads| + 3 * q.wakeups
  }

  lemma {:induction false} QuietSpends(q: Queue, e: Event, visible: Visible, scrolledDown: bool)
    requires Inv(q) && Enabled(q, e) && Quiet(e, visible, scrolledDown)
    ensures Budget(After(q, e)) < Budget(q)
  {
    match e
    case Woken(_, _) =>
    case Loaded(v) =>
      assert |q.loads - multiset{v}| == |q.loads| - 1;
      WeightUpdate(q.views, v, PageLoaded(q, v).views[v]);
    case AsksToContinue(v) => WeightUpdate(q.views, v, MayContinue(q, v).views[v]);
    case DrawsChunk(v) => WeightUpdate(q.views, v, RunChunk(q, v).views[v]);
  }

  /**
   * Draining: once the viewer has looked for something to render, any run of the scheduler with the
   * same visible views and without resets has a bounded length, and if it cannot be prolonged then all
   * visible views and their neighbour are finished.
   */
  lemma {:induction false} Drains(q: Queue, events: seq<Event>, visible: Visible, scrolledDown: bool)
    requires Inv(q) && Legal(q, events) && AllQuiet(events, visible, scrolledDown)
    requires forall k :: 0 <= k < |visible.views| ==> visible.views[k] < |q.views|
    requires Live(q, visible, scrolledDown)
    ensures |events| + Budget(Run(q, events)) <= Budget(q)
    ensures (forall e :: Quiet(e, visible, scrolledDown) ==> !Enabled(Run(q, events), e)) ==>
              Rendered(Run(q, events), visible, scrolledDown)
    decreases |events|
  {
    if events == [] {
      if forall e :: Quiet(e, visible, scrolledDown) ==> !Enabled(q, e) {
        StuckIsRendered(q, visible, scrolledDown);
      }
    } else {
      EventKeepsInv(q, events[0]);
      QuietKeepsLive(q, events[0], visible, scrolledDown);
      QuietSpends(q, events[0], visible, scrolledDown);
      Drains(After(q, events[0]), events[1..], visible, scrolledDown);
    }
  }

  /** The viewer has looked for something to render. */
  ghost function Updated(q: Queue, visible: Visible, scrolledDown: bool): (r: Queue)
    requires Inv(q) && Enabled(q, Update(visible, scrolledDown))
    ensures Inv(r) && |r.views| == |q.views|
  {
    EventKeepsInv(q, Update(visible, scrolledDown));
    After(q, Update(visible, scrolledDown))
  }

  /** So after the viewer's update, a run that has come to rest has finished every target. */
  lemma {:induction false} UpdateDrains(q: Queue, visible: Visible, scrolledDown: bool, events: seq<Event>)
    requires Inv(q) && visible.views != [] && Enabled(q, Update(visible, scrolledDown))
    requires Legal(Updated(q, visible, scrolledDown), events) && AllQuiet(events, visible, scrolledDown)
    ensures var start := Updated(q, visible, scrolledDown);
            var end := Run(start, events);
            && |events| <= Budget(start)
            && ((forall e :: Quiet(e, visible, scrolledDown) ==> !Enabled(end, e)) ==>
                  forall v: nat :: IsTarget(|q.views|, visible, scrolledDown, v) ==> IsFinished(end.views, v))
  {
    var start := Updated(q, visible, scrolledDown);
    ForceRenderingLive(q, visible, scrolledDown);
    Drains(start, events, visible, scrolledDown);
    RenderedMeans(Run(start, events), visible, scrolledDown);
  }

  // ---- The objects --------------------------------------------------------------------------------------------

  /** The queue together with the page views it schedules. */
  class PDFRenderingQueue {
    const views: array<PageView>
    var highestPriorityPage: Option<nat>
    ghost var loads: multiset<nat>
    ghost var wakeups: nat

    ghost function Abs(): Queue
      reads this, views
    {
      Queue(views[..], highestPriorityPage, loads, wakeups)
    }

    ghost predicate Valid()
      reads this, views
    {
      Inv(Abs())
    }

    /** Views that have not been drawn; the drawing of each takes the given number of chunks. */
    constructor (chunks: seq<nat>)
      requires forall v :: 0 <= v < |chunks| ==> chunks[v] > 0
      ensures Valid() && fresh(views) && views.Length == |chunks|
      ensures forall v :: 0 <= v < |chunks| ==> views[v] == PageView(Initial, false, NoTask, chunks[v])
    {
      views := new PageView[|chunks|](v requires 0 <= v < |chunks| => PageView(Initial, false, NoTask, chunks[v]));
      highestPriorityPage, loads, wakeups := None, multiset{}, 0;
    }

    method IsHighestPriority(v: nat) returns (r: bool)
      ensures r <==> highestPriorityPage == Some(v)
    {
      r := highestPriorityPage == Some(v);
    }

    /** getHighestPriority. */
    method GetHighestPriority(visible: Visible, scrolledDown: bool) returns (pick: Option<nat>)
      requires forall k :: 0 <= k < |visible.views| ==> visible.views[k] < views.Length
      ensures pick == RenderingQueue.GetHighestPriority(views[..], visible, scrolledDown)
      ensures forall v: nat :: pick == Some(v) <==> IsPick(views[..], visible, scrolledDown, v)
    {
      forall v: nat
        ensures RenderingQueue.GetHighestPriority(views[..], visible, scrolledDown) == Some(v)
           <==> IsPick(views[..], visible, scrolledDown, v)
      {
        PickIff(views[..], visible, scrolledDown, v);
      }
      var numVisible := |visible.views|;
      if numVisible == 0 {
        return None;
      }
      for i := 0 to numVisible
        invariant FirstUnfinished(views[..], visible.views) == FirstUnfinished(views[..], visible.views[i..])
      {
        var view := visible.views[i];
        assert visible.views[i..][1..] == visible.views[i + 1..];
        if views[view].renderingState != Finished {
          return Some(view);
        }
      }
      // Nothing visible is left: the neighbour in the scroll direction is next.
      if scrolledDown {
        if visible.last + 1 < views.Length && views[visible.last + 1].renderingState != Finished {
          return Some(visible.last + 1);
        }
      } else {
        if 0 < visible.first <= views.Length && views[visible.first - 1].renderingState != Finished {
          return Some(visible.first - 1);
        }
      }
      return None;
    }

    method ForceRendering(visible: Visible, scrolledDown: bool) returns (rendering: bool)
      requires Valid() && Enabled(Abs(), Update(visible, scrolledDown))
      modifies this
      ensures Abs() == RenderingQueue.ForceRendering(old(Abs()), visible, scrolledDown)
      ensures rendering <==> !Rendered(old(Abs()), visible, scrolledDown)
    {
      var pageView := GetHighestPriority(visible, scrolledDown);
      if pageView.Some? {
        loads := loads + multiset{pageView.value};
      }
      rendering := pageView.Some?;
    }

    /** draw is only called in the INITIAL state. */
    method Draw(v: nat)
      requires v < views.Length && views[v].renderingState == Initial
      modifies views
      ensures views[..] == old(views[..])[v := RenderingQueue.Draw(old(views[v]))]
    {
      views[v] := views[v].(renderingState := Running, task := AtContinue);
    }

    /** The callback in `resume`, which is there whenever it is called. */
    method Resume(v: nat)
      requires v < views.Length && views[v].hasResume
      modifies views
      ensures views[..] == old(views[..])[v := ResumeView(old(views[v]))]
    {
      views[v] := views[v].(renderingState := Running, task := Scheduled);
    }

    method RenderView(v: nat) returns (rendering: bool)
      requires Valid() && v < views.Length
      modifies this, views
      ensures Abs() == RenderingQueue.RenderView(old(Abs()), v)
      ensures rendering <==> old(views[v].renderingState) != Finished
    {
      assert Coherent(Abs().views[v]);
      rendering := true;
      match views[v].renderingState {
        case Finished =>
          rendering := false;
        case Paused =>
          highestPriorityPage := Some(v);
          Resume(v);
        case Running =>
          highestPriorityPage := Some(v);
        case Initial =>
          highestPriorityPage := Some(v);
          Draw(v);
      }
    }

    /** The page that forceRendering asked for has arrived. */
    method PageLoaded(v: nat)
      requires Valid() && Enabled(Abs(), Loaded(v))
      modifies this, views
      ensures Abs() == RenderingQueue.PageLoaded(old(Abs()), v) && Valid()
    {
      EventKeepsInv(Abs(), Loaded(v));
      loads := loads - multiset{v};
      var rendering := RenderView(v);
    }

    method RenderContinueCallback(v: nat)
      requires Valid() && Enabled(Abs(), AsksToContinue(v))
      modifies views
      ensures Abs() == MayContinue(old(Abs()), v) && Valid()
    {
      EventKeepsInv(Abs(), AsksToContinue(v));
      var highest := IsHighestPriority(v);
      if !highest {
        views[v] := views[v].(renderingState := Paused, hasResume := true, task := Held);
        return;
      }
      views[v] := views[v].(task := Scheduled);
    }

    /** The task draws a chunk, and pageViewDrawCallback marks the view finished after the last one. */
    method DrawChunk(v: nat)
      requires Valid() && Enabled(Abs(), DrawsChunk(v))
      modifies this, views
      ensures Abs() == RunChunk(old(Abs()), v) && Valid()
    {
      EventKeepsInv(Abs(), DrawsChunk(v));
      assert Coherent(Abs().views[v]);
      var chunksLeft := views[v].chunksLeft - 1;
      if chunksLeft > 0 {
        views[v] := views[v].(chunksLeft := chunksLeft, task := AtContinue);
      } else {
        views[v] := views[v].(chunksLeft := 0, renderingState := Finished, task := NoTask);
        wakeups := wakeups + 1;
      }
    }

    /** reset of a page view, which cancels its drawing if it is being drawn. */
    method Reset(v: nat, chunks: nat)
      requires Valid() && Enabled(Abs(), ResetView(v, chunks))
      modifies this, views
      ensures Abs() == RenderingQueue.Reset(old(Abs()), v, chunks) && Valid()
    {
      EventKeepsInv(Abs(), ResetView(v, chunks));
      if views[v].task != NoTask {
        wakeups := wakeups + 1;
      }
      views[v] := PageView(Initial, false, NoTask, chunks);
    }
  }
}
