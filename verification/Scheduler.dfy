/** The scheduler and the promises as the source updates them, field by field, over the
    ring of RingBuffer as the run queue. */
module Scheduler {
  import opened Coroutines
  import opened CoroutineTheorems
  import opened Arithmetic
  import RingBuffer

  class SQKScheduler {
    const queue: RingBuffer.Buffer<nat>
    var frames: map<nat, Frame>
    var stack: seq<nat>
    var returning: Option<nat>
    var awakers: map<nat, Awaker>

    ghost predicate Ready()
      reads this, queue
    {
      queue.Valid()
    }

    ghost function View(): State
      requires Ready()
      reads this, queue, queue.slots
    {
      State(frames, stack, returning, queue.Contents(), queue.capacity, awakers)
    }

    constructor (sz: nat, ghost exponent: nat)
      requires exponent <= 31 && sz == Pow2(exponent) <= 0x8000_0000
      ensures Ready() && fresh(queue) && fresh(queue.slots) && View() == Start(sz - 1)
    {
      var q := new RingBuffer.Buffer(sz, exponent, 0, 8, false, false);
      queue := q;
      frames, stack, returning, awakers := map[], [], None, map[];
    }

    /** enqueue of a handle: the ring's result is ignored. */
    method Enqueue(id: nat)
      requires Ready()
      modifies queue, queue.slots
      ensures Ready() && View() == Push(old(View()), id)
    {
      var _ := queue.Enqueue(id);
    }

    /** enqueue of a task, which has no caller. */
    method Submit(id: nat)
      requires Ready() && Inv(View()) && Enabled(View(), Action.Submit(id))
      modifies this, queue, queue.slots
      ensures Ready() && View() == Next(old(View()), Action.Submit(id))
      ensures !old(Overflows(View(), Action.Submit(id))) ==> Inv(View())
    {
      hide Inv;
      ghost var s := View();
      Enqueue(id);
      frames := frames[id := frames[id].(caller := Noop)];
      StepInvIff(s, Action.Submit(id));
    }

    /** resume(): the frame becomes the active one. */
    method ResumeFrame(id: nat)
      requires Ready() && id in frames
      modifies this`frames, this`stack
      ensures View() == Resume(old(View()), id)
    {
      frames := frames[id := frames[id].(status := Running)];
      stack := stack + [id];
    }

    /** Control leaves the active frame and its resume() returns. */
    method LeaveFrame(st: Status)
      requires Ready() && stack != [] && Top(View()) in frames
      modifies this`frames, this`stack, this`returning
      ensures View() == Pop(WithStatus(old(View()), Top(old(View())), st))
    {
      var p := stack[|stack| - 1];
      frames := frames[p := frames[p].(status := st)];
      stack, returning := stack[..|stack| - 1], Some(p);
    }

    /** One round of run: nothing when the queue is empty, else the oldest handle is
        resumed; an awaker it was waiting on forgets it in await_resume. */
    method RunOnce() returns (resumed: bool)
      requires Ready() && Inv(View()) && returning.None? && stack == []
      modifies this, queue
      ensures Ready() && Inv(View()) && resumed == (old(View()).queue != [])
      ensures View() == if resumed then Next(old(View()), Dispatch) else old(View())
    {
      ghost var s := View();
      var handle := new nat[1];
      var n := queue.Dequeue(handle);
      resumed := n != 0;
      if resumed {
        var id := handle[0];
        assert s.queue[0] == id && queue.Contents() == s.queue[1..];
        DispatchReads(s);
        StepInvIff(s, Dispatch);
        hide Inv;
        var st := frames[id].status;
        if st.AwaitingAwaker? {
          awakers := awakers[st.k := awakers[st.k].(handle := None, woken := false)];
        }
        ResumeFrame(id);
      }
    }

    /** await_transform of a task, up to its first resume. */
    method AwaitTask(child: nat)
      requires Ready() && Inv(View()) && Enabled(View(), Action.AwaitTask(child))
      modifies this
      ensures Ready() && View() == Next(old(View()), Action.AwaitTask(child)) && Inv(View())
    {
      hide Inv;
      ghost var s := View();
      StepInvIff(s, Action.AwaitTask(child));
      var p := stack[|stack| - 1];
      frames := frames[p := frames[p].(status := Transforming(child))];
      ResumeFrame(child);
    }

    /** co_await on an awaker. */
    method AwaitAwaker(k: nat)
      requires Ready() && Inv(View()) && Enabled(View(), Action.AwaitAwaker(k))
      modifies this
      ensures Ready() && View() == Next(old(View()), Action.AwaitAwaker(k)) && Inv(View())
    {
      hide Inv;
      ghost var s := View();
      StepInvIff(s, Action.AwaitAwaker(k));
      if awakers[k].checkable && awakers[k].awaked {
        return;
      }
      awakers := awakers[k := awakers[k].(handle := Some(stack[|stack| - 1]), woken := false, awaked := false)];
      LeaveFrame(AwaitingAwaker(k));
    }

    /** co_yield nullptr. */
    method YieldNow()
      requires Ready() && Inv(View()) && Enabled(View(), Yield)
      modifies this, queue, queue.slots
      ensures Ready() && View() == Next(old(View()), Yield)
      ensures !old(Overflows(View(), Yield)) ==> Inv(View())
    {
      hide Inv;
      ghost var s := View();
      StepInvIff(s, Yield);
      Enqueue(stack[|stack| - 1]);
      LeaveFrame(Yielded);
    }

    /** wake: a waiting handle is enqueued; the flag of a CheckableAwaker is set after. */
    method Wake(k: nat)
      requires Ready() && Inv(View()) && Enabled(View(), Action.Wake(k))
      modifies this, queue, queue.slots
      ensures Ready() && View() == Next(old(View()), Action.Wake(k))
      ensures !old(Overflows(View(), Action.Wake(k))) ==> Inv(View())
    {
      hide Inv;
      ghost var s := View();
      StepInvIff(s, Action.Wake(k));
      var w := awakers[k];
      if w.handle.Some? {
        Enqueue(w.handle.value);
      }
      awakers := awakers[k := w.(woken := w.handle.Some?, awaked := true)];
    }

    /** co_return or an unhandled exception, and final_suspend up to the caller's resume. */
    method FinishWith(r: Result)
      requires Ready() && Inv(View()) && Enabled(View(), Finish(r))
      modifies this
      ensures Ready() && View() == Next(old(View()), Finish(r)) && Inv(View())
    {
      hide Inv, Next, RingBuffer.Window;
      ghost var s := View();
      StepInvIff(s, Finish(r));
      FinishIs(s, r);
      FinishReads(s);
      var p := stack[|stack| - 1];
      frames := frames[p := frames[p].(result := Some(r))];
      match frames[p].caller {
        case NoCaller =>
          LeaveFrame(Done);
        case Noop =>
          frames := frames[p := frames[p].(destroys := frames[p].destroys + 1, death := ByFlow)];
          LeaveFrame(Destroyed);
        case Parent(q) =>
          ResumeCaller(p, q);
      }
    }

    /** await_resume reads the promise: a value by reference, an exception by copy. */
    method TakeResult(c: nat) returns (h: Handover)
      requires Ready() && c in frames && frames[c].result.Some?
      ensures h == Bind(View(), c)
    {
      var r := frames[c].result.value;
      if r.Value? {
        h := Refers(c);
      } else {
        h := Copied(r);
      }
    }

    /** await_resume returns to the parent, which uses what it was given. */
    method HandOver(c: nat, h: Handover)
      requires Ready() && c in frames
      modifies this`frames
      ensures View() == Deliver(old(View()), c, h)
    {
      var got := match h
        case Copied(r) => Got(r)
        case Refers(d) =>
          if d in frames && !frames[d].status.Destroyed? && frames[d].result.Some?
          then Got(frames[d].result.value) else Dangling;
      frames := frames[c := frames[c].(deliveries := frames[c].deliveries + 1, received := Some(got))];
    }

    /** resume_caller with a parent: the parent goes on inside await_resume. */
    method ResumeCaller(p: nat, q: nat)
      requires Ready() && p in frames && q in frames && frames[p].result.Some?
      modifies this`frames, this`stack
      ensures var s := WithStatus(old(View()), p, Finishing); View() == Resume(Deliver(s, p, Bind(s, p)), q)
    {
      frames := frames[p := frames[p].(status := Finishing)];
      var h := TakeResult(p);
      HandOver(p, h);
      ResumeFrame(q);
    }

    /** await_resume for a child that was done at once: its frame is destroyed before the
        result is returned. */
    method TakeAndDestroy(y: nat)
      requires Ready() && y in frames && frames[y].result.Some?
      modifies this`frames
      ensures var s := old(View()); View() == Deliver(Destroy(s, y, ByParent), y, Bind(s, y))
    {
      var h := TakeResult(y);
      frames := frames[y := frames[y].(status := Destroyed, destroys := frames[y].destroys + 1, death := ByParent)];
      HandOver(y, h);
    }

    /** A nested resume() has come back: to the run loop, to await_transform or to
        resume_caller. */
    method ReturnFromResume()
      requires Ready() && Inv(View()) && Enabled(View(), Return)
      modifies this
      ensures Ready() && View() == Next(old(View()), Return) && Inv(View())
    {
      hide Inv, Next, RingBuffer.Window;
      ghost var s := View();
      StepInvIff(s, Return);
      ReturnIs(s);
      if stack == [] {
        returning := None;
        return;
      }
      TopResumes(s);
      DoneHasResult(s);
      var x, y := stack[|stack| - 1], returning.value;
      if frames[x].status.Transforming? {
        if frames[y].status.Done? {
          frames := frames[x := frames[x].(status := Running)];
          returning := None;
          TakeAndDestroy(y);
        } else {
          frames := frames[y := frames[y].(caller := Parent(x))];
          LeaveFrame(AwaitingTask(y));
        }
      } else {
        frames := frames[x := frames[x].(destroys := frames[x].destroys + 1, death := ByFlow)];
        LeaveFrame(Destroyed);
      }
    }
  }

  lemma FinishIs(s: State, r: Result)
    requires Inv(s) && Enabled(s, Finish(r))
    ensures Next(s, Finish(r)) == DoFinish(s, r)
  {
    hide Inv, DoFinish;
  }

  lemma ReturnIs(s: State)
    requires Inv(s) && Enabled(s, Return)
    ensures Next(s, Return) == DoReturn(s)
  {
    hide Inv, DoReturn;
  }

  lemma DoneHasResult(s: State)
    requires Inv(s) && s.returning.Some? && s.returning.value in s.frames
    ensures s.frames[s.returning.value].status.Done? ==> s.frames[s.returning.value].result.Some?
  {
    assert FrameOk(s, s.returning.value);
  }

  /** What the run loop relies on when it resumes the oldest handle. */
  lemma DispatchReads(s: State)
    requires Inv(s) && Enabled(s, Dispatch)
    ensures s.queue[0] in s.frames
    ensures var st := s.frames[s.queue[0]].status; st.AwaitingAwaker? ==> st.k in s.awakers
  {
    assert s.queue[0] in s.frames;
    assert FamilyOk(s, s.queue[0]);
  }

  /** A finishing frame's caller exists and is another frame. */
  lemma FinishReads(s: State)
    requires Inv(s) && Active(s)
    ensures var f := s.frames[Top(s)]; f.caller.Parent? ==> f.caller.p in s.frames && f.caller.p != Top(s)
  {
    assert FamilyOk(s, Top(s)) && FrameOk(s, Top(s));
  }
}
