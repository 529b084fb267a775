/** PDFPageViewBuffer: the least recently drawn page views are destroyed when the buffer is full. */
module PageViewBuffer {

  type View = nat

  /** What happens to views, in order: they are pushed and destroyed. */
  datatype Event = Pushed(view: View) | Destroyed(view: View)

  /** The calls made on a buffer. */
  datatype Call = Push(view: View) | Resize(size: nat)

  datatype Buffer = Buffer(data: seq<View>, size: nat, log: seq<Event>)

  /** Array.prototype.indexOf. */
  function IndexOf(data: seq<View>, view: View): (i: int)
    ensures -1 <= i < |data|
    ensures i == -1 ==> view !in data
    ensures i >= 0 ==> data[i] == view
  {
    if data == [] then -1
    else if data[0] == view then 0
    else
      var i := IndexOf(data[1..], view);
      if i == -1 then -1 else i + 1
  }

  function Without(data: seq<View>, view: View): seq<View> {
    var i := IndexOf(data, view);
    if i >= 0 then data[..i] + data[i + 1..] else data
  }

  /** data.shift().destroy() */
  function Shift(b: Buffer): Buffer
    requires b.data != []
  {
    Buffer(b.data[1..], b.size, b.log + [Destroyed(b.data[0])])
  }

  function Shrink(b: Buffer): Buffer
    decreases |b.data|
  {
    if |b.data| <= b.size then b else Shrink(Shift(b))
  }

  function Append(b: Buffer, view: View): Buffer {
    Buffer(Without(b.data, view) + [view], b.size, b.log + [Pushed(view)])
  }

  function Apply(b: Buffer, call: Call): Buffer {
    match call
    case Push(view) =>
      var pushed := Append(b, view);
      if |pushed.data| > b.size then Shift(pushed) else pushed
    case Resize(size) =>
      Shrink(b.(size := size))
  }

  function Run(size: nat, calls: seq<Call>): Buffer {
    if calls == [] then Buffer([], size, [])
    else Apply(Run(size, calls[..|calls| - 1]), calls[|calls| - 1])
  }

  // ---- Recency ------------------------------------------------------------------------------

  /** When a view was last pushed: the number of events up to then, or 0 if it never was. */
  function LastPush(log: seq<Event>, view: View): nat {
    if log == [] then 0
    else if log[|log| - 1] == Pushed(view) then |log|
    else LastPush(log[..|log| - 1], view)
  }

  /** Pushed, and not destroyed since. */
  predicate Alive(log: seq<Event>, view: View) {
    if log == [] then false
    else if log[|log| - 1].view == view then log[|log| - 1].Pushed?
    else Alive(log[..|log| - 1], view)
  }

  /** The views are in the order of their latest push; so none is there twice. */
  ghost predicate Ordered(data: seq<View>, log: seq<Event>) {
    forall i, j :: 0 <= i < j < |data| ==> LastPush(log, data[i]) < LastPush(log, data[j])
  }

  /** The views in the buffer are exactly those that have not been destroyed since their latest push. */
  ghost predicate HoldsAlive(data: seq<View>, log: seq<Event>) {
    forall v {:trigger Alive(log, v)} :: v in data <==> Alive(log, v)
  }

  /** Any other view was last pushed before all of those in the buffer. */
  ghost predicate HoldsNewest(data: seq<View>, log: seq<Event>) {
    forall i, w {:trigger data[i], LastPush(log, w)} :: 0 <= i < |data| && w !in data ==>
      LastPush(log, w) < LastPush(log, data[i])
  }

  /** The buffer is the most recent part of all views ever pushed. */
  ghost predicate IsRecent(b: Buffer) {
    Ordered(b.data, b.log) && HoldsAlive(b.data, b.log) && HoldsNewest(b.data, b.log)
  }

  lemma {:induction false} LastPushAfter(log: seq<Event>, e: Event, view: View)
    ensures LastPush(log + [e], view) == if e == Pushed(view) then |log| + 1 else LastPush(log, view)
    ensures Alive(log + [e], view) == if e.view == view then e.Pushed? else Alive(log, view)
    ensures LastPush(log, view) <= |log|
  {
    assert (log + [e])[..|log|] == log;
    LastPushBound(log, view);
  }

  lemma {:induction false} LastPushBound(log: seq<Event>, view: View)
    ensures LastPush(log, view) <= |log|
  {
    if log != [] && log[|log| - 1] != Pushed(view) {
      LastPushBound(log[..|log| - 1], view);
    }
  }

  /** In a buffer without duplicates, taking a view out leaves exactly the others, in the same order. */
  lemma {:induction false} WithoutMembers(data: seq<View>, log: seq<Event>, view: View)
    requires Ordered(data, log)
    ensures var rest := Without(data, view);
            && (forall v :: v in rest <==> v in data && v != view)
            && Ordered(rest, log)
            && |rest| == if view in data then |data| - 1 else |data|
  {
    var i, rest := IndexOf(data, view), Without(data, view);
    if i >= 0 {
      assert forall k :: 0 <= k < |rest| ==> rest[k] == data[if k < i then k else k + 1];
      forall v
        ensures v in rest <==> v in data && v != view
      {
        if v in data && v != view {
          var k :| 0 <= k < |data| && data[k] == v;
          assert rest[if k < i then k else k - 1] == v;
        }
      }
    }
  }

  lemma {:induction false} AppendOrdered(rest: seq<View>, log: seq<Event>, view: View)
    requires Ordered(rest, log) && view !in rest
    ensures Ordered(rest + [view], log + [Pushed(view)])
  {
    forall k | 0 <= k < |rest|
      ensures LastPush(log + [Pushed(view)], rest[k]) == LastPush(log, rest[k]) <= |log|
    {
      LastPushAfter(log, Pushed(view), rest[k]);
    }
    LastPushAfter(log, Pushed(view), view);
  }

  lemma {:induction false} AppendKeeps(b: Buffer, view: View)
    requires IsRecent(b)
    ensures IsRecent(Append(b, view))
    ensures |Append(b, view).data| <= |b.data| + 1
  {
    var rest, log := Without(b.data, view), b.log + [Pushed(view)];
    WithoutMembers(b.data, b.log, view);
    AppendOrdered(rest, b.log, view);
    forall v
      ensures v in rest + [view] <==> Alive(log, v)
    {
      LastPushAfter(b.log, Pushed(view), v);
      assert v in b.data <==> Alive(b.log, v);
    }
    forall i, w | 0 <= i < |rest + [view]| && w !in rest + [view]
      ensures LastPush(log, w) < LastPush(log, (rest + [view])[i])
    {
      LastPushAfter(b.log, Pushed(view), w);
      LastPushAfter(b.log, Pushed(view), (rest + [view])[i]);
      if i < |rest| {
        assert rest[i] in rest;
        var k :| 0 <= k < |b.data| && b.data[k] == rest[i];
      }
    }
  }

  lemma {:induction false} TailOrdered(data: seq<View>, log: seq<Event>)
    requires Ordered(data, log) && data != []
    ensures data[0] !in data[1..]
    ensures Ordered(data[1..], log + [Destroyed(data[0])])
  {
    var rest, log2 := data[1..], log + [Destroyed(data[0])];
    forall k | 0 <= k < |rest|
      ensures LastPush(log2, rest[k]) == LastPush(log, data[k + 1]) && rest[k] != data[0]
    {
      LastPushAfter(log, Destroyed(data[0]), rest[k]);
      assert LastPush(log, data[0]) < LastPush(log, data[k + 1]);
    }
  }

  lemma {:induction false} ShiftKeeps(b: Buffer)
    requires IsRecent(b) && b.data != []
    ensures IsRecent(Shift(b))
  {
    var c, d := Shift(b), b.data[0];
    TailOrdered(b.data, b.log);
    forall v
      ensures v in c.data <==> Alive(c.log, v)
    {
      LastPushAfter(b.log, Destroyed(d), v);
      assert v in b.data <==> Alive(b.log, v);
      assert v in b.data <==> v == d || v in c.data;
    }
    forall i, w | 0 <= i < |c.data| && w !in c.data
      ensures LastPush(c.log, w) < LastPush(c.log, c.data[i])
    {
      OlderAfterShift(b, i, w);
    }
  }

  lemma {:induction false} OlderAfterShift(b: Buffer, i: nat, w: View)
    requires IsRecent(b) && i + 1 < |b.data| && w !in b.data[1..]
    ensures LastPush(Shift(b).log, w) < LastPush(Shift(b).log, b.data[1..][i])
  {
    var d, v := b.data[0], b.data[i + 1];
    LastPushAfter(b.log, Destroyed(d), w);
    LastPushAfter(b.log, Destroyed(d), v);
    assert LastPush(b.log, d) < LastPush(b.log, v);
    if w != d {
      assert w !in b.data;
    }
  }

  lemma {:induction false} ShrinkKeeps(b: Buffer)
    requires IsRecent(b)
    ensures IsRecent(Shrink(b)) && |Shrink(b).data| <= b.size == Shrink(b).size
    decreases |b.data|
  {
    if |b.data| > b.size {
      ShiftKeeps(b);
      ShrinkKeeps(Shift(b));
    }
  }

  /** Between calls: at most `size` views, the most recent ones. */
  ghost predicate Inv(b: Buffer) {
    IsRecent(b) && |b.data| <= b.size
  }

  lemma {:induction false} ApplyKeeps(b: Buffer, call: Call)
    requires Inv(b)
    ensures Inv(Apply(b, call))
  {
    match call
    case Push(view) =>
      AppendKeeps(b, view);
      if |Append(b, view).data| > b.size {
        ShiftKeeps(Append(b, view));
      }
    case Resize(size) =>
      ShrinkKeeps(b.(size := size));
  }

  /** After any calls whatever, whatever the sizes. */
  lemma {:induction false} RunKeeps(size: nat, calls: seq<Call>)
    ensures Inv(Run(size, calls))
  {
    if calls != [] {
      RunKeeps(size, calls[..|calls| - 1]);
      ApplyKeeps(Run(size, calls[..|calls| - 1]), calls[|calls| - 1]);
    }
  }

  // ---- Nothing is destroyed without need ---------------------------------------------------------

  function Min(a: nat, b: nat): nat { if a <= b then a else b }

  lemma {:induction false} ShrinkFills(b: Buffer)
    ensures Shrink(b).size == b.size && Shrink(b).data == b.data[|b.data| - Min(|b.data|, b.size)..]
    decreases |b.data|
  {
    if |b.data| > b.size {
      ShrinkFills(Shift(b));
      assert b.data[1..][|b.data| - 1 - Min(|b.data| - 1, b.size)..] == b.data[|b.data| - b.size..];
    }
  }

  /**
   * A call destroys a view only when there is no room for it: pushing keeps the pushed view and as many others
   * as the size allows, and resizing keeps as many as the new size allows.
   */
  lemma {:induction false} ApplyFills(b: Buffer, call: Call)
    requires Inv(b)
    ensures var t := Apply(b, call);
            match call
            case Push(view) =>
              t.size == b.size && |t.data| == Min(b.size, |b.data| + if view in b.data then 0 else 1)
              && (b.size > 0 ==> view in t.data)
            case Resize(size) => t.size == size && |t.data| == Min(size, |b.data|)
    ensures forall v :: v in Apply(b, call).data ==> v in b.data || call == Push(v)
  {
    match call
    case Push(view) =>
      var pushed := Append(b, view);
      WithoutMembers(b.data, b.log, view);
      assert pushed.data[|pushed.data| - 1] == view;
    case Resize(size) =>
      ShrinkFills(b.(size := size));
  }

  /** The views pushed by these calls. */
  function PushedViews(calls: seq<Call>): set<View> {
    if calls == [] then {}
    else
      var last := calls[|calls| - 1];
      PushedViews(calls[..|calls| - 1]) + if last.Push? then {last.view} else {}
  }

  lemma {:induction false} ViewsOf(data: seq<View>, log: seq<Event>) returns (views: set<View>)
    requires Ordered(data, log)
    ensures |views| == |data| && forall v :: v in views <==> v in data
  {
    if data == [] {
      views := {};
    } else {
      var rest := data[..|data| - 1];
      views := ViewsOf(rest, log);
      var last := data[|data| - 1];
      assert forall k :: 0 <= k < |rest| ==> rest[k] == data[k] && LastPush(log, data[k]) < LastPush(log, last);
      views := views + {last};
      assert data == rest + [last];
    }
  }

  /**
   * As long as the size stays the same, the buffer holds as many of the views pushed as it has room for; by
   * RunKeeps these are the ones pushed last.
   */
  lemma {:induction false} ConstantSize(size: nat, calls: seq<Call>)
    requires forall k :: 0 <= k < |calls| ==> calls[k].Push?
    ensures var b := Run(size, calls);
            && b.size == size && |b.data| == Min(size, |PushedViews(calls)|)
            && forall v :: v in b.data ==> v in PushedViews(calls)
  {
    if calls != [] {
      var front, view := calls[..|calls| - 1], calls[|calls| - 1].view;
      ConstantSize(size, front);
      RunKeeps(size, front);
      PushStep(Run(size, front), view, PushedViews(front));
    }
  }

  lemma {:induction false} PushStep(b: Buffer, view: View, pushed: set<View>)
    requires Inv(b) && |b.data| == Min(b.size, |pushed|) && forall v :: v in b.data ==> v in pushed
    ensures var t := Apply(b, Push(view));
            && t.size == b.size && |t.data| == Min(b.size, |pushed + {view}|)
            && forall v :: v in t.data ==> v in pushed + {view}
  {
    ApplyFills(b, Push(view));
    if |b.data| == |pushed| {
      var views := ViewsOf(b.data, b.log);
      SameSize(views, pushed);
    }
    assert view in pushed ==> pushed + {view} == pushed;
  }

  lemma {:induction false} SameSize(a: set<View>, b: set<View>)
    requires a <= b && |a| == |b|
    ensures a == b
  {
    if x :| x in b && x !in a {
      SubsetSize(a, b - {x});
    }
  }

  lemma {:induction false} SubsetSize(a: set<View>, b: set<View>)
    requires a <= b
    ensures |a| <= |b|
  {
    if a != {} {
      var x :| x in a;
      SubsetSize(a - {x}, b - {x});
    }
  }

  // ---- The object -----------------------------------------------------------------------------

  lemma {:induction false} RunAppend(size: nat, calls: seq<Call>, call: Call)
    ensures Run(size, calls + [call]) == Apply(Run(size, calls), call)
  {
    assert (calls + [call])[..|calls|] == calls;
  }

  class PDFPageViewBuffer {
    var data: seq<View>
    var size: nat
    ghost var log: seq<Event>  // the pushes, and the views destroyed, so far
    ghost const initialSize: nat
    ghost var calls: seq<Call>  // the calls so far

    ghost function Abs(): Buffer
      reads this
    {
      Buffer(data, size, log)
    }

    /** The buffer is what its calls have made of it; RunKeeps says what that means. */
    ghost predicate Valid()
      reads this
    {
      Abs() == Run(initialSize, calls)
    }

    constructor (size: nat)
      ensures Valid() && initialSize == size && calls == []
    {
      data, this.size, log := [], size, [];
      initialSize, calls := size, [];
    }

    method ShiftOut() returns (destroyed: View)
      requires data != []
      modifies `data, `log
      ensures Abs() == Shift(old(Abs())) && destroyed == old(data[0])
    {
      destroyed := data[0];
      data := data[1..];
      log := log + [Destroyed(destroyed)];
    }

    method MoveToEnd(view: View)
      modifies `data, `log
      ensures Abs() == Append(old(Abs()), view)
    {
      var i := IndexOf(data, view);
      if i >= 0 {
        data := data[..i] + data[i + 1..];
      }
      data := data + [view];
      log := log + [Pushed(view)];
    }

    method Push(view: View)
      requires Valid()
      modifies this
      ensures Valid() && calls == old(calls) + [Call.Push(view)]
      ensures Abs() == Apply(old(Abs()), Call.Push(view))
      ensures |data| == Min(old(size), |old(data)| + if view in old(data) then 0 else 1)
    {
      RunKeeps(initialSize, calls);
      ApplyFills(Abs(), Call.Push(view));
      RunAppend(initialSize, calls, Call.Push(view));
      calls := calls + [Call.Push(view)];
      ghost var goal := Apply(Abs(), Call.Push(view));
      MoveToEnd(view);
      if |data| > size {
        var destroyed := ShiftOut();
      }
      assert Abs() == goal;
    }

    method Resize(newSize: nat)
      requires Valid()
      modifies this
      ensures Valid() && calls == old(calls) + [Call.Resize(newSize)]
      ensures Abs() == Apply(old(Abs()), Call.Resize(newSize))
      ensures |data| == Min(newSize, |old(data)|)
    {
      RunKeeps(initialSize, calls);
      ApplyFills(Abs(), Call.Resize(newSize));
      RunAppend(initialSize, calls, Call.Resize(newSize));
      calls := calls + [Call.Resize(newSize)];
      ghost var goal := Apply(Abs(), Call.Resize(newSize));
      size := newSize;
      while |data| > size
        invariant Shrink(Abs()) == goal && size == newSize
        invariant calls == old(calls) + [Call.Resize(newSize)]
        decreases |data|
      {
        var destroyed := ShiftOut();
      }
    }
  }
}
