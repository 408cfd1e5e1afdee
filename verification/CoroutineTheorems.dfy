/** What holds of every run of the scheduler. */
module CoroutineTheorems {
  import opened Sequences
  import opened Coroutines
  import opened CoroutineSafety

  lemma FinishInv(s: State, r: Result)
    requires Inv(s) && Enabled(s, Finish(r))
    ensures Inv(Next(s, Finish(r)))
  {
    hide FramesOk, ControlOk, Next;
    match s.frames[Top(s)].caller
    case NoCaller => FinishFirstRunFrames(s, r); FinishFirstRunControl(s, r);
    case Noop => FinishSubmittedFrames(s, r); FinishSubmittedControl(s, r);
    case Parent(_) => FinishAwaitedFrames(s, r); FinishAwaitedControl(s, r);
  }

  /** What a frame below the returning one can be doing. */
  lemma TopResumes(s: State)
    requires Inv(s) && s.returning.Some? && s.stack != []
    ensures s.returning.value in s.frames && Top(s) in s.frames && Resumes(s, Top(s), s.returning.value)
    ensures s.frames[s.returning.value].status.Done? ==> s.frames[Top(s)].status.Transforming?
    ensures s.frames[Top(s)].status.Transforming? || s.frames[Top(s)].status.Finishing?
  {
    assert StackOk(s, |s.stack| - 1);
    assert FrameOk(s, s.returning.value);
  }

  lemma ReturnInv(s: State)
    requires Inv(s) && Enabled(s, Return)
    ensures Inv(Next(s, Return))
  {
    if s.stack == [] {
      ReturnToLoopFrames(s);
      ReturnToLoopControl(s);
    } else {
      TopResumes(s);
      hide FramesOk, ControlOk, Next;
      if s.frames[s.returning.value].status.Done? {
        ReturnDoneFrames(s);
        ReturnDoneControl(s);
      } else if s.frames[Top(s)].status.Transforming? {
        ReturnSuspendedFrames(s);
        ReturnSuspendedControl(s);
      } else {
        ReturnFinishingFrames(s);
        ReturnFinishingControl(s);
      }
    }
  }

  /** Every step that does not enqueue into a full ring keeps the invariant. */
  lemma StepInv(s: State, a: Action)
    requires Inv(s) && Enabled(s, a) && !Overflows(s, a)
    ensures Inv(Next(s, a))
  {
    hide FramesOk, ControlOk, Next;
    match a
    case Spawn(id) => SpawnFrames(s, id); SpawnControl(s, id);
    case MakeAwaker(k, c) => MakeAwakerFrames(s, k, c); MakeAwakerControl(s, k, c);
    case Submit(id) => SubmitFrames(s, id); SubmitControl(s, id);
    case Dispatch => DispatchFrames(s); DispatchControl(s);
    case AwaitTask(c) => AwaitTaskFrames(s, c); AwaitTaskControl(s, c);
    case AwaitAwaker(k) => AwaitAwakerFrames(s, k); AwaitAwakerControl(s, k);
    case Yield => YieldFrames(s); YieldControl(s);
    case Wake(k) => WakeFrames(s, k); WakeControl(s, k);
    case Finish(r) => FinishInv(s, r);
    case Return => ReturnInv(s);
  }

  /** A full ring loses the handle: the frame is due but in no queue. */
  lemma OverflowLoses(s: State, a: Action)
    requires Inv(s) && Enabled(s, a) && Overflows(s, a)
    ensures var h := Pushed(s, a).value;
            && h in Next(s, a).frames && Runnable(Next(s, a), Next(s, a).frames[h]) && h !in Next(s, a).queue
            && !Inv(Next(s, a))
  {
    var h, s' := Pushed(s, a).value, Next(s, a);
    if a.Wake? {
      assert AwakerOk(s, a.k);
    }
    assert FrameOk(s, h) && FamilyOk(s, h);
    assert h in s'.frames;
    assert !FrameOk(s', h);
  }

  /** The invariant survives a step exactly when the step does not overflow the ring. */
  lemma StepInvIff(s: State, a: Action)
    requires Inv(s) && Enabled(s, a)
    ensures Inv(Next(s, a)) <==> !Overflows(s, a)
  {
    if Overflows(s, a) {
      OverflowLoses(s, a);
    } else {
      StepInv(s, a);
    }
  }

  /** Control is never stuck: a returning resume() can return, an active body can act,
      and an idle scheduler with a non-empty queue can dispatch. */
  lemma NeverStuck(s: State)
    requires Inv(s)
    ensures s.returning.Some? ==> Enabled(s, Return)
    ensures s.returning.None? && s.stack != [] ==> Active(s) && Enabled(s, Yield)
    ensures s.returning.None? && s.stack == [] && s.queue != [] ==> Enabled(s, Dispatch)
  {
    if s.stack != [] {
      assert StackOk(s, |s.stack| - 1);
    }
  }

  /** No destroyed frame is queued, active, awaited, held by an awaker or about to be
      resumed as a caller. */
  lemma DestroyedIsUnreachable(s: State, id: nat)
    requires Inv(s) && id in s.frames && s.frames[id].status.Destroyed?
    ensures id !in s.queue && id !in s.stack
    ensures forall k {:trigger s.awakers[k]} :: k in s.awakers ==> s.awakers[k].handle != Some(id)
    ensures forall p {:trigger s.frames[p]} :: p in s.frames ==> s.frames[p].status != AwaitingTask(id)
    ensures forall c {:trigger s.frames[c]} ::
              c in s.frames && s.frames[c].result.None? ==> s.frames[c].caller != Parent(id)
  {
    assert FrameOk(s, id);
    forall k | k in s.awakers
      ensures s.awakers[k].handle != Some(id)
    {
      assert AwakerOk(s, k);
    }
    forall p | p in s.frames
      ensures s.frames[p].status != AwaitingTask(id)
      ensures s.frames[p].result.None? ==> s.frames[p].caller != Parent(id)
    {
      assert FamilyOk(s, p) && FrameOk(s, p);
    }
  }

  /** Between dispatches every completed frame has been destroyed exactly once, and its
      result was handed to its parent exactly once (a submitted task has no parent).  It
      was destroyed by the parent exactly when its caller was never set, that is, when it
      finished during await_transform; and what the parent got is the result itself unless
      that was a value handed over in this way. */
  lemma CompletedExactlyOnce(s: State, id: nat)
    requires Inv(s) && s.stack == [] && s.returning.None? && id in s.frames && s.frames[id].result.Some?
    ensures var f := s.frames[id];
            && f.status.Destroyed? && f.destroys == 1
            && f.deliveries == (if f.caller.Noop? then 0 else 1)
            && (f.death == ByParent <==> f.caller.NoCaller?)
            && (!f.caller.Noop? ==>
                  (f.received == Some(Got(f.result.value)) <==> !(f.result.value.Value? && f.death == ByParent)))
  {
    assert FrameOk(s, id);
  }

  /** At any time at all, no frame was destroyed or delivered twice. */
  lemma NeverTwice(s: State, id: nat)
    requires Inv(s) && id in s.frames
    ensures s.frames[id].destroys <= 1 && s.frames[id].deliveries <= 1
    ensures s.frames[id].destroys == 1 ==> s.frames[id].result.Some?
  {
    assert FrameOk(s, id);
  }

  /** What a parent got is its child's result, unchanged, exactly when the result is not a
      value of a child that finished during await_transform; in that case it is a reference
      into a destroyed frame. */
  lemma IntactIff(s: State, id: nat)
    requires Inv(s) && id in s.frames && s.frames[id].deliveries == 1
    ensures s.frames[id].result.Some?
    ensures var f := s.frames[id];
            && (f.received == Some(Got(f.result.value)) <==> !(f.result.value.Value? && f.caller.NoCaller?))
            && (f.received == Some(Dangling) <==> f.result.value.Value? && f.caller.NoCaller?)
  {
    assert FrameOk(s, id);
  }

  lemma WaitKept(s: State, a: Action, p: nat)
    requires Inv(s) && Enabled(s, a) && !a.Finish? && p in s.frames && s.frames[p].status.AwaitingTask?
    ensures p in Next(s, a).frames && Next(s, a).frames[p].status == s.frames[p].status
  {
    assert FrameOk(s, p);
    assert p !in s.stack && p !in s.queue;
  }

  /** A waiting parent is resumed by its child's completion and at no other time: a step
      that ends its waiting is the child's Finish, and hands it the child's result. */
  lemma WaitEndsWithChild(s: State, a: Action, p: nat)
    requires Inv(s) && Enabled(s, a) && p in s.frames && s.frames[p].status.AwaitingTask?
    requires p in Next(s, a).frames && Next(s, a).frames[p].status != s.frames[p].status
    ensures a.Finish? && Active(s) && Top(s) == s.frames[p].status.child
    ensures Next(s, a).frames[p].status.Running?
    ensures Top(s) in Next(s, a).frames && Next(s, a).frames[Top(s)].received == Some(Got(a.r))
  {
    if !a.Finish? {
      hide Inv, Next, Enabled;
      WaitKept(s, a, p);
    } else {
      assert FrameOk(s, p) && FamilyOk(s, p);
      assert FamilyOk(s, Top(s)) && FrameOk(s, Top(s));
    }
  }

  lemma OthersDoNotDeliver(s: State, a: Action, c: nat)
    requires Inv(s) && Enabled(s, a) && c in s.frames && !a.Return? && !a.Finish?
    ensures c in Next(s, a).frames && Next(s, a).frames[c].deliveries == s.frames[c].deliveries
  {
  }

  lemma FinishDelivers(s: State, r: Result, c: nat)
    requires Inv(s) && Enabled(s, Finish(r)) && c in s.frames
    ensures c in Next(s, Finish(r)).frames
    ensures var f := Next(s, Finish(r)).frames[c];
            f.deliveries > s.frames[c].deliveries ==>
              f.status.Finishing? && f.result == Some(r) && f.received == Some(Got(r))
  {
    assert FamilyOk(s, Top(s)) && FrameOk(s, Top(s));
  }

  lemma ReturnDelivers(s: State, c: nat)
    requires Inv(s) && Enabled(s, Return) && c in s.frames
    ensures c in Next(s, Return).frames
    ensures var f := Next(s, Return).frames[c];
            f.deliveries > s.frames[c].deliveries ==>
              && f.status.Destroyed? && f.caller.NoCaller? && s.frames[c].status.Done? && f.result.Some?
              && f.received == Some(if f.result.value.Value? then Dangling else Got(f.result.value))
  {
    assert FrameOk(s, c);
  }

  /** At the step that hands a result over, the child's frame is destroyed exactly when the
      parent had not been suspended, and the parent gets the result exactly when the frame
      is still there or the result was copied out of it. */
  lemma HandoverIntactIff(s: State, a: Action, c: nat)
    requires Inv(s) && Enabled(s, a) && c in s.frames
    requires c in Next(s, a).frames && Next(s, a).frames[c].deliveries > s.frames[c].deliveries
    ensures a.Return? || a.Finish?
    ensures var f := Next(s, a).frames[c];
            && f.result.Some?
            && (f.status.Destroyed? <==> a.Return?)
            && (f.received == Some(Got(f.result.value)) <==> !(a.Return? && f.result.value.Value?))
  {
    hide Inv, Next, Enabled;
    match a
    case Return => ReturnDelivers(s, c);
    case Finish(r) => FinishDelivers(s, r, c);
    case _ => OthersDoNotDeliver(s, a, c);
  }

  // ----- runs -----

  /** s' is reached from s by the actions of `run` without overflowing the ring. */
  ghost predicate Runs(s: State, run: seq<Action>, s': State)
    requires Inv(s)
    decreases |run|
  {
    if run == [] then s' == s else
      && Enabled(s, run[0]) && !Overflows(s, run[0])
      && (StepInv(s, run[0]); Runs(Next(s, run[0]), run[1..], s'))
  }

  lemma {:induction false} RunInv(s: State, run: seq<Action>, s': State)
    requires Inv(s) && Runs(s, run, s')
    ensures Inv(s')
    decreases |run|
  {
    hide Inv, Next, Enabled, Overflows;
    if run != [] {
      StepInv(s, run[0]);
      RunInv(Next(s, run[0]), run[1..], s');
    }
  }

  /** A scheduler whose ring can hold `capacity` handles, before any task exists. */
  function Start(capacity: nat): (s: State)
    ensures Inv(s)
  {
    State(map[], [], None, [], capacity, map[])
  }

  /** From an empty scheduler, whatever the program does: no frame is destroyed or delivered
      twice, none that was destroyed is queued or active, and whenever control is back in
      the run loop every completed frame has been destroyed and its result handed over:
      intact exactly when it is not a value of a child that finished during
      await_transform. */
  lemma RunSafe(capacity: nat, run: seq<Action>, s': State, id: nat)
    requires Runs(Start(capacity), run, s') && id in s'.frames
    ensures var f := s'.frames[id];
            && f.destroys <= 1 && f.deliveries <= 1
            && (f.status.Destroyed? ==> id !in s'.queue && id !in s'.stack)
            && (s'.stack == [] && s'.returning.None? && f.result.Some? ==>
                  && f.destroys == 1
                  && (!f.caller.Noop? ==>
                        && f.deliveries == 1
                        && (f.received == Some(Got(f.result.value))
                            <==> !(f.result.value.Value? && f.caller.NoCaller?))))
  {
    RunInv(Start(capacity), run, s');
    NeverTwice(s', id);
    if s'.frames[id].status.Destroyed? {
      DestroyedIsUnreachable(s', id);
    }
    if s'.stack == [] && s'.returning.None? && s'.frames[id].result.Some? {
      CompletedExactlyOnce(s', id);
    }
    if s'.frames[id].deliveries == 1 {
      IntactIff(s', id);
    }
  }

  /** The run queue holds each runnable handle once and nothing else. */
  lemma QueueExact(s: State)
    requires Inv(s)
    ensures multiset(s.queue) == multiset(set id | id in s.frames && Runnable(s, s.frames[id]))
  {
    var due := set id | id in s.frames && Runnable(s, s.frames[id]);
    hide FrameOk, FamilyOk, StackOk, AwakerOk, BottomOk;
    forall id
      ensures multiset(s.queue)[id] == multiset(due)[id]
    {
      OccursOnce(s.queue, id);
      QueuedIffDue(s, id);
    }
  }

  lemma QueuedIffDue(s: State, id: nat)
    requires Inv(s)
    ensures id in s.queue <==> id in s.frames && Runnable(s, s.frames[id])
  {
    if id in s.frames {
      assert FrameOk(s, id);
    }
  }

  // ----- fairness of the run queue -----

  /** A dispatch takes the oldest handle; every other step leaves the queue as a prefix. */
  lemma QueueStep(s: State, a: Action)
    requires Inv(s) && Enabled(s, a)
    ensures if a.Dispatch? then Next(s, a).queue == s.queue[1..] && Next(s, a).stack == [s.queue[0]]
            else s.queue <= Next(s, a).queue
  {
    if a.Return? && s.stack != [] {
      TopResumes(s);
    }
  }

  function Dispatches(run: seq<Action>): nat {
    if run == [] then 0 else (if run[0].Dispatch? then 1 else 0) + Dispatches(run[1..])
  }

  /** After d <= k dispatches, whatever else is enqueued meanwhile, a handle with k handles
      ahead of it has k - d ahead. */
  lemma {:induction false} MovesUp(s: State, run: seq<Action>, s': State, k: nat)
    requires Inv(s) && Runs(s, run, s') && k < |s.queue| && Dispatches(run) <= k
    ensures k - Dispatches(run) < |s'.queue| && s'.queue[k - Dispatches(run)] == s.queue[k]
    decreases |run|
  {
    hide Inv, Next, Enabled, Overflows;
    if run != [] {
      StepInv(s, run[0]);
      QueueStep(s, run[0]);
      MovesUp(Next(s, run[0]), run[1..], s', if run[0].Dispatch? then k - 1 else k);
    }
  }

  /** A handle with k handles ahead of it is resumed by the (k+1)-st dispatch and no
      earlier: before that it is in the queue, and that dispatch makes it the active
      frame. */
  lemma FairQueue(s: State, run: seq<Action>, s': State, k: nat)
    requires Inv(s) && Runs(s, run, s') && k < |s.queue| && Dispatches(run) <= k
    ensures Inv(s') && k - Dispatches(run) < |s'.queue| && s'.queue[k - Dispatches(run)] == s.queue[k]
    ensures Dispatches(run) == k && Enabled(s', Dispatch) ==> Next(s', Dispatch).stack == [s.queue[k]]
  {
    hide Inv, Next, Enabled, Runs;
    MovesUp(s, run, s', k);
    RunInv(s, run, s');
    if Enabled(s', Dispatch) {
      QueueStep(s', Dispatch);
    }
  }
}
