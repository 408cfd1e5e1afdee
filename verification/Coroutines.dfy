/** Tasks, callers, awakers and the run queue, single-threaded.  Resuming a coroutine is
    a nested call, so control is a stack of active frames: below a frame is the one that
    resumed it, either inside `await_transform` or inside `final_suspend`. */
module Coroutines {
  import opened Sequences

  datatype Option<T> = None | Some(value: T)

  datatype Result = Void | Value(v: int) | Exception(x: int)

  /** `caller_`: null, the no-op coroutine of a submitted task, or the awaiting parent. */
  datatype Caller = NoCaller | Noop | Parent(p: nat)

  datatype Status =
    | Created                     // at the initial suspend point
    | Running
    | Transforming(child: nat)    // in await_transform: the child's first resume is active
    | AwaitingTask(child: nat)
    | AwaitingAwaker(k: nat)
    | Yielded
    | Finishing                   // in final_suspend: the caller's resume is active
    | Done                        // suspended at the final suspend point
    | Destroyed

  /** How a frame died: destroyed by the parent's await_resume, or by running past
      final_suspend. */
  datatype Death = Alive | ByParent | ByFlow

  /** What await_resume returns: an exception or nothing is copied out of the promise, a
      value is a reference into the frame that holds it. */
  datatype Handover = Copied(r: Result) | Refers(frame: nat)

  /** What the parent has once await_resume has returned. */
  datatype Received = Got(r: Result) | Dangling

  /** `deliveries` and `destroys` count how often the result was handed to a parent and
      how often the frame was destroyed; `received` is what the parent got last. */
  datatype Frame = Frame(status: Status, caller: Caller, result: Option<Result>,
                         deliveries: nat, received: Option<Received>, destroys: nat, death: Death)

  /** An Awaker; `woken` is set while its handle has been enqueued but not yet resumed.
      A CheckableAwaker also has `awaked`. */
  datatype Awaker = Awaker(handle: Option<nat>, woken: bool, checkable: bool, awaked: bool)

  datatype State = State(frames: map<nat, Frame>, stack: seq<nat>, returning: Option<nat>,
                         queue: seq<nat>, capacity: nat, awakers: map<nat, Awaker>)

  datatype Action =
    | Spawn(id: nat)          // call a coroutine function
    | Submit(id: nat)         // SQKScheduler::enqueue(Task)
    | MakeAwaker(k: nat, checkable: bool)
    | Dispatch                // the run loop dequeues a handle and resumes it
    | AwaitTask(child: nat)   // co_await on a task
    | AwaitAwaker(k: nat)     // co_await on an awaker
    | Yield                   // co_yield nullptr
    | Wake(k: nat)
    | Finish(r: Result)       // co_return or an unhandled exception
    | Return                  // a nested resume() returns to the frame below

  function Top(s: State): nat
    requires s.stack != []
  {
    s.stack[|s.stack| - 1]
  }

  function Below(s: State): seq<nat>
    requires s.stack != []
  {
    s.stack[..|s.stack| - 1]
  }

  /** A coroutine body is executing. */
  predicate Active(s: State) {
    s.returning.None? && s.stack != [] && Top(s) in s.frames && s.frames[Top(s)].status.Running?
  }

  /** The promises of the program: tasks are awaited or submitted once and fresh, an awaker
      has one waiter, and it is woken at most once per suspension. */
  predicate Enabled(s: State, a: Action) {
    match a
    case Spawn(id) => s.returning.None? && id !in s.frames
    case MakeAwaker(k, _) => s.returning.None? && k !in s.awakers
    case Submit(id) =>
      s.returning.None? && id in s.frames && s.frames[id].status.Created? && s.frames[id].caller.NoCaller?
    case Dispatch => s.returning.None? && s.stack == [] && s.queue != []
    case AwaitTask(c) =>
      Active(s) && c in s.frames && s.frames[c].status.Created? && s.frames[c].caller.NoCaller?
    case AwaitAwaker(k) => Active(s) && k in s.awakers && s.awakers[k].handle.None?
    case Yield => Active(s)
    case Wake(k) => s.returning.None? && k in s.awakers && !s.awakers[k].woken
    case Finish(_) => Active(s)
    case Return => s.returning.Some?
  }

  /** The scheduler's enqueue ignores the ring's result: a full ring drops the handle. */
  function Push(s: State, id: nat): State {
    if |s.queue| < s.capacity then s.(queue := s.queue + [id]) else s
  }

  function Set(s: State, id: nat, f: Frame): State {
    s.(frames := s.frames[id := f])
  }

  function WithStatus(s: State, id: nat, st: Status): State
    requires id in s.frames
  {
    Set(s, id, s.frames[id].(status := st))
  }

  /** The top frame leaves the stack; control returns from its resume(). */
  function Pop(s: State): State
    requires s.stack != []
  {
    s.(stack := Below(s), returning := Some(Top(s)))
  }

  function Resume(s: State, id: nat): State
    requires id in s.frames
  {
    WithStatus(s, id, Running).(stack := s.stack + [id])
  }

  /** The first half of await_resume: takes the result out of the child's promise. */
  function Bind(s: State, c: nat): Handover
    requires c in s.frames && s.frames[c].result.Some?
  {
    if s.frames[c].result.value.Value? then Refers(c) else Copied(s.frames[c].result.value)
  }

  /** What using a returned result gives: a reference needs its frame. */
  function Read(s: State, h: Handover): Received {
    match h
    case Copied(r) => Got(r)
    case Refers(c) =>
      if c in s.frames && !s.frames[c].status.Destroyed? && s.frames[c].result.Some?
      then Got(s.frames[c].result.value)
      else Dangling
  }

  /** await_resume returns h, the result of child c, to the parent. */
  function Deliver(s: State, c: nat, h: Handover): State
    requires c in s.frames
  {
    var f := s.frames[c];
    Set(s, c, f.(deliveries := f.deliveries + 1, received := Some(Read(s, h))))
  }

  function Destroy(s: State, id: nat, d: Death): State
    requires id in s.frames
  {
    var f := s.frames[id];
    Set(s, id, f.(status := Destroyed, destroys := f.destroys + 1, death := d))
  }

  function FreshFrame(): Frame {
    Frame(Created, NoCaller, None, 0, None, 0, Alive)
  }

  // ----- the invariant -----

  predicate OnStack(st: Status) {
    st.Running? || st.Transforming? || st.Finishing?
  }

  /** The handles that belong in the run queue. */
  predicate Runnable(s: State, f: Frame) {
    || (f.status.Created? && f.caller.Noop?)
    || f.status.Yielded?
    || (f.status.AwaitingAwaker? && f.status.k in s.awakers && s.awakers[f.status.k].woken)
  }

  /** A value produced while the parent was still in await_transform is lost; every other
      result arrives. */
  function Outcome(f: Frame): Received
    requires f.result.Some?
  {
    if f.result.value.Value? && f.caller.NoCaller? then Dangling else Got(f.result.value)
  }

  /** Where a frame is, and what has been counted for it. */
  ghost predicate FrameOk(s: State, id: nat)
    requires id in s.frames
  {
    var f := s.frames[id];
    && (id in s.queue <==> Runnable(s, f))
    && (id in s.stack <==> OnStack(f.status))
    && f.destroys == (if f.status.Destroyed? then 1 else 0)
    && (f.result.Some? <==> f.status.Finishing? || f.status.Done? || f.status.Destroyed?)
    && f.deliveries == (if f.status.Finishing? || (f.status.Destroyed? && !f.caller.Noop?) then 1 else 0)
    && (f.deliveries == 1 ==> f.result.Some? && f.received == Some(Outcome(f)))
    && (f.status.Destroyed? ==> f.death == if f.caller.NoCaller? then ByParent else ByFlow)
    && (f.status.Finishing? ==> f.caller.Parent?)
    && (f.status.Done? ==> f.caller.NoCaller? && s.returning == Some(id))
    && (f.status.Created? ==> !f.caller.Parent?)
    && (f.caller.NoCaller? && !f.status.Created? && !f.status.Destroyed? ==> id in s.stack || s.returning == Some(id))
  }

  /** Parents and children know each other. */
  ghost predicate FamilyOk(s: State, id: nat)
    requires id in s.frames
  {
    var f := s.frames[id];
    && (f.status.AwaitingTask? ==>
          var c := f.status.child;
          && c in s.frames && s.frames[c].caller == Parent(id)
          && !s.frames[c].status.Created? && s.frames[c].result.None?)
    && (f.status.AwaitingAwaker? ==> f.status.k in s.awakers && s.awakers[f.status.k].handle == Some(id))
    && (f.caller.Parent? ==>
          && f.caller.p in s.frames
          && (f.result.Some? || s.frames[f.caller.p].status == AwaitingTask(id)))
  }

  /** The frame whose resume() the frame at position i is waiting for, if any. */
  function Above(s: State, i: nat): Option<nat>
    requires i < |s.stack|
  {
    if i + 1 < |s.stack| then Some(s.stack[i + 1]) else s.returning
  }

  ghost predicate Resumes(s: State, x: nat, y: nat) {
    && x in s.frames && y in s.frames
    && if s.frames[y].caller.NoCaller?
       then s.frames[x].status == Transforming(y)
       else s.frames[x].status.Finishing? && s.frames[x].caller == Parent(y)
  }

  ghost predicate StackOk(s: State, i: nat)
    requires i < |s.stack|
  {
    && s.stack[i] in s.frames
    && match Above(s, i)
       case None => s.frames[s.stack[i]].status.Running?
       case Some(y) => Resumes(s, s.stack[i], y)
  }

  /** The lowest active frame was resumed by the scheduler, so it is not on its first run
      inside an await. */
  ghost predicate BottomOk(s: State) {
    && (s.stack != [] ==> s.stack[0] in s.frames && !s.frames[s.stack[0]].caller.NoCaller?)
    && (s.returning.Some? ==>
          var y := s.returning.value;
          && y in s.frames && y !in s.stack && !s.frames[y].status.Created?
          && (s.frames[y].caller.NoCaller? ==> s.stack != [] && !s.frames[y].status.Destroyed?))
  }

  ghost predicate AwakerOk(s: State, k: nat)
    requires k in s.awakers
  {
    match s.awakers[k].handle
    case None => !s.awakers[k].woken
    case Some(h) => h in s.frames && s.frames[h].status == AwaitingAwaker(k)
  }

  ghost predicate FramesOk(s: State) {
    && (forall id {:trigger FrameOk(s, id)} :: id in s.frames ==> FrameOk(s, id))
    && (forall id {:trigger FamilyOk(s, id)} :: id in s.frames ==> FamilyOk(s, id))
  }

  ghost predicate ControlOk(s: State) {
    && NoDup(s.queue) && NoDup(s.stack) && BottomOk(s)
    && (forall i {:trigger StackOk(s, i)} :: 0 <= i < |s.stack| ==> StackOk(s, i))
    && (forall k {:trigger AwakerOk(s, k)} :: k in s.awakers ==> AwakerOk(s, k))
    && (forall i :: 0 <= i < |s.queue| ==> s.queue[i] in s.frames)
    && (forall i :: 0 <= i < |s.stack| ==> s.stack[i] in s.frames)
  }

  ghost predicate Inv(s: State) {
    FramesOk(s) && ControlOk(s)
  }

  // ----- the steps -----

  /** await_transform and resume_caller after the nested resume() has come back. */
  function DoReturn(s: State): State
    requires Inv(s) && s.returning.Some?
  {
    if s.stack == [] then s.(returning := None) else
      var x := Top(s);
      assert StackOk(s, |s.stack| - 1);
      var y := s.returning.value;
      if s.frames[x].status.Transforming? then
        if s.frames[y].status.Done? then
          assert FrameOk(s, y);
          var h := Bind(s, y);
          Deliver(Destroy(WithStatus(s, x, Running).(returning := None), y, ByParent), y, h)
        else
          Pop(WithStatus(Set(s, y, s.frames[y].(caller := Parent(x))), x, AwaitingTask(y)))
      else
        Pop(Destroy(s, x, ByFlow))
  }

  /** return_value or unhandled_exception, then final_suspend. */
  function DoFinish(s: State, r: Result): State
    requires Inv(s) && Active(s)
  {
    var p := Top(s);
    assert FamilyOk(s, p);
    var s1 := Set(s, p, s.frames[p].(result := Some(r)));
    match s.frames[p].caller
    case NoCaller => Pop(WithStatus(s1, p, Done))
    case Noop => Pop(Destroy(s1, p, ByFlow))
    case Parent(q) =>
      var s2 := WithStatus(s1, p, Finishing);
      Resume(Deliver(s2, p, Bind(s2, p)), q)
  }

  function DoDispatch(s: State): State
    requires Inv(s) && Enabled(s, Dispatch)
  {
    var id := s.queue[0];
    assert FrameOk(s, id) && FamilyOk(s, id) by { assert s.queue[0] in s.frames; }
    var st := s.frames[id].status;
    var s1 := s.(queue := s.queue[1..]);
    var s2 := if st.AwaitingAwaker?
              then s1.(awakers := s.awakers[st.k := s.awakers[st.k].(handle := None, woken := false)])
              else s1;
    Resume(s2, id)
  }

  function DoAwaitAwaker(s: State, k: nat): State
    requires Enabled(s, AwaitAwaker(k))
  {
    var p, w := Top(s), s.awakers[k];
    if w.checkable && w.awaked then s else
      Pop(WithStatus(s.(awakers := s.awakers[k := Awaker(Some(p), false, w.checkable, false)]), p, AwaitingAwaker(k)))
  }

  function DoWake(s: State, k: nat): State
    requires Enabled(s, Wake(k))
  {
    var w := s.awakers[k];
    var s1 := s.(awakers := s.awakers[k := w.(woken := w.handle.Some?, awaked := true)]);
    if w.handle.Some? then Push(s1, w.handle.value) else s1
  }

  function Next(s: State, a: Action): State
    requires Inv(s) && Enabled(s, a)
  {
    match a
    case Spawn(id) => Set(s, id, FreshFrame())
    case MakeAwaker(k, c) => s.(awakers := s.awakers[k := Awaker(None, false, c, false)])
    case Submit(id) => Set(Push(s, id), id, s.frames[id].(caller := Noop))
    case Dispatch => DoDispatch(s)
    case AwaitTask(c) => Resume(WithStatus(s, Top(s), Transforming(c)), c)
    case AwaitAwaker(k) => DoAwaitAwaker(s, k)
    case Yield => Pop(WithStatus(Push(s, Top(s)), Top(s), Yielded))
    case Wake(k) => DoWake(s, k)
    case Finish(r) => DoFinish(s, r)
    case Return => DoReturn(s)
  }

  /** The handle a step enqueues, if any. */
  function Pushed(s: State, a: Action): Option<nat>
    requires Enabled(s, a)
  {
    match a
    case Submit(id) => Some(id)
    case Yield => Some(Top(s))
    case Wake(k) => s.awakers[k].handle
    case _ => None
  }

  /** The step enqueues into a full ring. */
  predicate Overflows(s: State, a: Action)
    requires Enabled(s, a)
  {
    Pushed(s, a).Some? && |s.queue| >= s.capacity
  }
}
