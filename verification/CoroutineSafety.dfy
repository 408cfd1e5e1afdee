/** Every step keeps the coroutine invariant: for each action, first what holds of the
    frames, then of the stack, the queue and the awakers. */
module CoroutineSafety {
  import opened Coroutines

  lemma SpawnFrames(s: State, id: nat)
    requires Inv(s) && Enabled(s, Spawn(id))
    ensures FramesOk(Next(s, Spawn(id)))
  {
    var s' := Next(s, Spawn(id));
    forall x | x in s'.frames
      ensures FrameOk(s', x) && FamilyOk(s', x)
    {
      if x != id {
        assert FrameOk(s, x) && FamilyOk(s, x);
      }
    }
  }

  lemma SpawnControl(s: State, id: nat)
    requires Inv(s) && Enabled(s, Spawn(id))
    ensures ControlOk(Next(s, Spawn(id)))
  {
    var s' := Next(s, Spawn(id));
    forall i | 0 <= i < |s'.stack|
      ensures StackOk(s', i)
    {
      assert StackOk(s, i);
    }
    forall j | j in s'.awakers
      ensures AwakerOk(s', j)
    {
      assert AwakerOk(s, j);
    }
  }

  lemma MakeAwakerFrames(s: State, k: nat, c: bool)
    requires Inv(s) && Enabled(s, MakeAwaker(k, c))
    ensures FramesOk(Next(s, MakeAwaker(k, c)))
  {
    var s' := Next(s, MakeAwaker(k, c));
    forall x | x in s'.frames
      ensures FrameOk(s', x) && FamilyOk(s', x)
    {
      assert FrameOk(s, x) && FamilyOk(s, x);
    }
  }

  lemma MakeAwakerControl(s: State, k: nat, c: bool)
    requires Inv(s) && Enabled(s, MakeAwaker(k, c))
    ensures ControlOk(Next(s, MakeAwaker(k, c)))
  {
    var s' := Next(s, MakeAwaker(k, c));
    forall i | 0 <= i < |s'.stack|
      ensures StackOk(s', i)
    {
      assert StackOk(s, i);
    }
    forall j | j in s'.awakers
      ensures AwakerOk(s', j)
    {
      if j != k {
        assert AwakerOk(s, j);
      }
    }
  }

  lemma SubmitFrames(s: State, id: nat)
    requires Inv(s) && Enabled(s, Submit(id)) && !Overflows(s, Submit(id))
    ensures FramesOk(Next(s, Submit(id)))
  {
    var s' := Next(s, Submit(id));
    assert FrameOk(s, id) && FamilyOk(s, id);
    forall x | x in s'.frames
      ensures FrameOk(s', x) && FamilyOk(s', x)
    {
      assert FrameOk(s, x) && FamilyOk(s, x);
    }
  }

  lemma SubmitControl(s: State, id: nat)
    requires Inv(s) && Enabled(s, Submit(id)) && !Overflows(s, Submit(id))
    ensures ControlOk(Next(s, Submit(id)))
  {
    var s' := Next(s, Submit(id));
    assert FrameOk(s, id) && FamilyOk(s, id);
    forall i | 0 <= i < |s'.stack|
      ensures StackOk(s', i)
    {
      assert StackOk(s, i);
    }
    forall j | j in s'.awakers
      ensures AwakerOk(s', j)
    {
      assert AwakerOk(s, j);
    }
  }

  lemma DispatchFrames(s: State)
    requires Inv(s) && Enabled(s, Dispatch)
    ensures FramesOk(Next(s, Dispatch))
  {
    var s' := Next(s, Dispatch);
    var h := s.queue[0];
    assert h in s.frames;
    assert FrameOk(s, h) && FamilyOk(s, h);
    forall x | x in s'.frames
      ensures FrameOk(s', x) && FamilyOk(s', x)
    {
      assert FrameOk(s, x) && FamilyOk(s, x);
    }
  }

  lemma DispatchControl(s: State)
    requires Inv(s) && Enabled(s, Dispatch)
    ensures ControlOk(Next(s, Dispatch))
  {
    var s' := Next(s, Dispatch);
    var h := s.queue[0];
    assert h in s.frames;
    assert FrameOk(s, h) && FamilyOk(s, h);
    forall j | j in s'.awakers
      ensures AwakerOk(s', j)
    {
      assert AwakerOk(s, j);
    }
  }

  lemma AwaitTaskFrames(s: State, c: nat)
    requires Inv(s) && Enabled(s, AwaitTask(c))
    ensures FramesOk(Next(s, AwaitTask(c)))
  {
    var s' := Next(s, AwaitTask(c));
    var p := Top(s);
    assert FrameOk(s, p) && FrameOk(s, c) && FamilyOk(s, p) && FamilyOk(s, c);
    forall x | x in s'.frames
      ensures FrameOk(s', x) && FamilyOk(s', x)
    {
      assert FrameOk(s, x) && FamilyOk(s, x);
    }
  }

  lemma AwaitTaskControl(s: State, c: nat)
    requires Inv(s) && Enabled(s, AwaitTask(c))
    ensures ControlOk(Next(s, AwaitTask(c)))
  {
    var s' := Next(s, AwaitTask(c));
    var p := Top(s);
    assert FrameOk(s, p) && FrameOk(s, c) && FamilyOk(s, p) && FamilyOk(s, c);
    forall i | 0 <= i < |s'.stack|
      ensures StackOk(s', i)
    {
      if i + 1 < |s'.stack| {
        assert StackOk(s, i);
      }
    }
    forall j | j in s'.awakers
      ensures AwakerOk(s', j)
    {
      assert AwakerOk(s, j);
    }
  }

  lemma AwaitAwakerFrames(s: State, k: nat)
    requires Inv(s) && Enabled(s, AwaitAwaker(k))
    ensures FramesOk(Next(s, AwaitAwaker(k)))
  {
    var s' := Next(s, AwaitAwaker(k));
    var p := Top(s);
    assert FrameOk(s, p) && FamilyOk(s, p) && AwakerOk(s, k);
    forall x | x in s'.frames
      ensures FrameOk(s', x) && FamilyOk(s', x)
    {
      assert FrameOk(s, x) && FamilyOk(s, x);
    }
  }

  lemma AwaitAwakerControl(s: State, k: nat)
    requires Inv(s) && Enabled(s, AwaitAwaker(k))
    ensures ControlOk(Next(s, AwaitAwaker(k)))
  {
    var s' := Next(s, AwaitAwaker(k));
    var p := Top(s);
    assert FrameOk(s, p) && FamilyOk(s, p) && AwakerOk(s, k);
    forall i | 0 <= i < |s'.stack|
      ensures StackOk(s', i)
    {
      assert StackOk(s, i);
    }
    forall j | j in s'.awakers
      ensures AwakerOk(s', j)
    {
      assert AwakerOk(s, j);
    }
  }

  lemma YieldFrames(s: State)
    requires Inv(s) && Enabled(s, Yield) && !Overflows(s, Yield)
    ensures FramesOk(Next(s, Yield))
  {
    var s' := Next(s, Yield);
    var p := Top(s);
    assert FrameOk(s, p) && FamilyOk(s, p);
    forall x | x in s'.frames
      ensures FrameOk(s', x) && FamilyOk(s', x)
    {
      assert FrameOk(s, x) && FamilyOk(s, x);
    }
  }

  lemma YieldControl(s: State)
    requires Inv(s) && Enabled(s, Yield) && !Overflows(s, Yield)
    ensures ControlOk(Next(s, Yield))
  {
    var s' := Next(s, Yield);
    var p := Top(s);
    assert FrameOk(s, p) && FamilyOk(s, p);
    forall i | 0 <= i < |s'.stack|
      ensures StackOk(s', i)
    {
      assert StackOk(s, i);
    }
    forall j | j in s'.awakers
      ensures AwakerOk(s', j)
    {
      assert AwakerOk(s, j);
    }
  }

  lemma WakeFrames(s: State, k: nat)
    requires Inv(s) && Enabled(s, Wake(k)) && !Overflows(s, Wake(k))
    ensures FramesOk(Next(s, Wake(k)))
  {
    var s' := Next(s, Wake(k));
    assert AwakerOk(s, k);
    if s.awakers[k].handle.Some? {
      assert FrameOk(s, s.awakers[k].handle.value);
    }
    forall x | x in s'.frames
      ensures FrameOk(s', x) && FamilyOk(s', x)
    {
      assert FrameOk(s, x) && FamilyOk(s, x);
    }
  }

  lemma WakeControl(s: State, k: nat)
    requires Inv(s) && Enabled(s, Wake(k)) && !Overflows(s, Wake(k))
    ensures ControlOk(Next(s, Wake(k)))
  {
    var s' := Next(s, Wake(k));
    assert AwakerOk(s, k);
    if s.awakers[k].handle.Some? {
      assert FrameOk(s, s.awakers[k].handle.value);
    }
    forall i | 0 <= i < |s'.stack|
      ensures StackOk(s', i)
    {
      assert StackOk(s, i);
    }
    forall j | j in s'.awakers
      ensures AwakerOk(s', j)
    {
      assert AwakerOk(s, j);
    }
  }

  lemma FinishFirstRunFrames(s: State, r: Result)
    requires Inv(s) && Enabled(s, Finish(r)) && s.frames[Top(s)].caller.NoCaller?
    ensures FramesOk(Next(s, Finish(r)))
  {
    var s' := Next(s, Finish(r));
    var p := Top(s);
    assert FrameOk(s, p) && FamilyOk(s, p);
    forall x | x in s'.frames
      ensures FrameOk(s', x) && FamilyOk(s', x)
    {
      assert FrameOk(s, x) && FamilyOk(s, x);
    }
  }

  lemma FinishFirstRunControl(s: State, r: Result)
    requires Inv(s) && Enabled(s, Finish(r)) && s.frames[Top(s)].caller.NoCaller?
    ensures ControlOk(Next(s, Finish(r)))
  {
    var s' := Next(s, Finish(r));
    var p := Top(s);
    assert FrameOk(s, p) && FamilyOk(s, p);
    assert forall i :: 0 <= i < |s'.stack| ==> s'.stack[i] == s.stack[i] && s.stack[i] in s.frames;
    assert s'.frames.Keys == s.frames.Keys;
    forall i | 0 <= i < |s'.stack|
      ensures StackOk(s', i)
    {
      assert StackOk(s, i);
    }
    forall j | j in s'.awakers
      ensures AwakerOk(s', j)
    {
      assert AwakerOk(s, j);
    }
  }

  lemma FinishSubmittedFrames(s: State, r: Result)
    requires Inv(s) && Enabled(s, Finish(r)) && s.frames[Top(s)].caller.Noop?
    ensures FramesOk(Next(s, Finish(r)))
  {
    var s' := Next(s, Finish(r));
    var p := Top(s);
    assert FrameOk(s, p) && FamilyOk(s, p);
    forall x | x in s'.frames
      ensures FrameOk(s', x) && FamilyOk(s', x)
    {
      assert FrameOk(s, x) && FamilyOk(s, x);
    }
  }

  lemma FinishSubmittedControl(s: State, r: Result)
    requires Inv(s) && Enabled(s, Finish(r)) && s.frames[Top(s)].caller.Noop?
    ensures ControlOk(Next(s, Finish(r)))
  {
    var s' := Next(s, Finish(r));
    var p := Top(s);
    assert FrameOk(s, p) && FamilyOk(s, p);
    forall i | 0 <= i < |s'.stack|
      ensures StackOk(s', i)
    {
      assert StackOk(s, i);
    }
    forall j | j in s'.awakers
      ensures AwakerOk(s', j)
    {
      assert AwakerOk(s, j);
    }
  }

  lemma FinishAwaitedFrames(s: State, r: Result)
    requires Inv(s) && Enabled(s, Finish(r)) && s.frames[Top(s)].caller.Parent?
    ensures FramesOk(Next(s, Finish(r)))
  {
    var s' := Next(s, Finish(r));
    var p := Top(s);
    assert FrameOk(s, p) && FamilyOk(s, p);
    var q := s.frames[p].caller.p;
    assert FrameOk(s, q) && FamilyOk(s, q);
    forall x | x in s'.frames
      ensures FrameOk(s', x) && FamilyOk(s', x)
    {
      assert FrameOk(s, x) && FamilyOk(s, x);
    }
  }

  lemma FinishAwaitedControl(s: State, r: Result)
    requires Inv(s) && Enabled(s, Finish(r)) && s.frames[Top(s)].caller.Parent?
    ensures ControlOk(Next(s, Finish(r)))
  {
    var s' := Next(s, Finish(r));
    var p := Top(s);
    assert FrameOk(s, p) && FamilyOk(s, p);
    var q := s.frames[p].caller.p;
    assert FrameOk(s, q) && FamilyOk(s, q);
    forall i | 0 <= i < |s'.stack|
      ensures StackOk(s', i)
    {
      if i + 1 < |s'.stack| {
        assert StackOk(s, i);
      }
    }
    forall j | j in s'.awakers
      ensures AwakerOk(s', j)
    {
      assert AwakerOk(s, j);
    }
  }

  lemma ReturnToLoopFrames(s: State)
    requires Inv(s) && Enabled(s, Return) && s.stack == []
    ensures FramesOk(Next(s, Return))
  {
    var s' := Next(s, Return);
    assert FrameOk(s, s.returning.value);
    forall x | x in s'.frames
      ensures FrameOk(s', x) && FamilyOk(s', x)
    {
      assert FrameOk(s, x) && FamilyOk(s, x);
    }
  }

  lemma ReturnToLoopControl(s: State)
    requires Inv(s) && Enabled(s, Return) && s.stack == []
    ensures ControlOk(Next(s, Return))
  {
    var s' := Next(s, Return);
    assert FrameOk(s, s.returning.value);
    forall j | j in s'.awakers
      ensures AwakerOk(s', j)
    {
      assert AwakerOk(s, j);
    }
  }

  lemma ReturnDoneFrames(s: State)
    requires Inv(s) && Enabled(s, Return) && s.stack != [] && s.frames[s.returning.value].status.Done?
    ensures FramesOk(Next(s, Return))
  {
    var s' := Next(s, Return);
    assert StackOk(s, |s.stack| - 1);
    forall x | x in s'.frames
      ensures FrameOk(s', x)
    {
      ReturnDoneFrame(s, x);
    }
    forall x | x in s'.frames
      ensures FamilyOk(s', x)
    {
      ReturnDoneFamily(s, x);
    }
    hide Next, FrameOk, FamilyOk, ControlOk;
  }

  lemma ReturnDoneFrame(s: State, x: nat)
    requires Inv(s) && Enabled(s, Return) && s.stack != [] && s.frames[s.returning.value].status.Done? && x in s.frames
    ensures x in Next(s, Return).frames && FrameOk(Next(s, Return), x)
  {
    var top, y := Top(s), s.returning.value;
    assert StackOk(s, |s.stack| - 1);
    assert FrameOk(s, top) && FrameOk(s, y) && FrameOk(s, x);
  }

  lemma ReturnDoneFamily(s: State, x: nat)
    requires Inv(s) && Enabled(s, Return) && s.stack != [] && s.frames[s.returning.value].status.Done? && x in s.frames
    ensures x in Next(s, Return).frames && FamilyOk(Next(s, Return), x)
  {
    var top, y := Top(s), s.returning.value;
    assert StackOk(s, |s.stack| - 1);
    assert FrameOk(s, top) && FamilyOk(s, top) && FrameOk(s, y) && FamilyOk(s, y) && FamilyOk(s, x);
  }

  lemma ReturnDoneControl(s: State)
    requires Inv(s) && Enabled(s, Return) && s.stack != [] && s.frames[s.returning.value].status.Done?
    ensures ControlOk(Next(s, Return))
  {
    var s' := Next(s, Return);
    assert StackOk(s, |s.stack| - 1);
    assert FrameOk(s, s.returning.value);
    assert s'.stack == s.stack && s'.queue == s.queue && s'.awakers == s.awakers && s'.returning.None?;
    assert s'.frames.Keys == s.frames.Keys && s'.frames[s.stack[0]].caller == s.frames[s.stack[0]].caller;
    forall i | 0 <= i < |s'.stack|
      ensures StackOk(s', i)
    {
      ReturnDoneStack(s, i);
    }
    forall j | j in s'.awakers
      ensures AwakerOk(s', j)
    {
      ReturnDoneAwaker(s, j);
    }
    hide Next, FrameOk, FamilyOk, StackOk, AwakerOk;
  }

  lemma ReturnDoneStack(s: State, i: nat)
    requires Inv(s) && Enabled(s, Return) && s.stack != [] && s.frames[s.returning.value].status.Done?
    requires i < |s.stack|
    ensures Next(s, Return).stack == s.stack && StackOk(Next(s, Return), i)
  {
    assert StackOk(s, |s.stack| - 1) && StackOk(s, i);
    assert FrameOk(s, Top(s)) && FrameOk(s, s.returning.value) && FrameOk(s, s.stack[i]);
  }

  lemma ReturnDoneAwaker(s: State, j: nat)
    requires Inv(s) && Enabled(s, Return) && s.stack != [] && s.frames[s.returning.value].status.Done?
    requires j in s.awakers
    ensures Next(s, Return).awakers == s.awakers && AwakerOk(Next(s, Return), j)
  {
    assert StackOk(s, |s.stack| - 1) && AwakerOk(s, j);
    assert FrameOk(s, Top(s)) && FrameOk(s, s.returning.value);
  }

  lemma ReturnSuspendedFrames(s: State)
    requires Inv(s) && Enabled(s, Return) && s.stack != []
    requires s.frames[Top(s)].status.Transforming? && !s.frames[s.returning.value].status.Done?
    ensures FramesOk(Next(s, Return))
  {
    var s' := Next(s, Return);
    assert StackOk(s, |s.stack| - 1);
    forall x | x in s'.frames
      ensures FrameOk(s', x)
    {
      ReturnSuspendedFrame(s, x);
    }
    forall x | x in s'.frames
      ensures FamilyOk(s', x)
    {
      ReturnSuspendedFamily(s, x);
    }
    hide Next, FrameOk, FamilyOk, ControlOk;
  }

  lemma ReturnSuspendedFrame(s: State, x: nat)
    requires Inv(s) && Enabled(s, Return) && s.stack != [] && x in s.frames
    requires s.frames[Top(s)].status.Transforming? && !s.frames[s.returning.value].status.Done?
    ensures x in Next(s, Return).frames && FrameOk(Next(s, Return), x)
  {
    assert StackOk(s, |s.stack| - 1);
    assert FrameOk(s, Top(s)) && FrameOk(s, s.returning.value) && FrameOk(s, x);
  }

  lemma ReturnSuspendedFamily(s: State, x: nat)
    requires Inv(s) && Enabled(s, Return) && s.stack != [] && x in s.frames
    requires s.frames[Top(s)].status.Transforming? && !s.frames[s.returning.value].status.Done?
    ensures x in Next(s, Return).frames && FamilyOk(Next(s, Return), x)
  {
    var top, y := Top(s), s.returning.value;
    assert StackOk(s, |s.stack| - 1);
    assert FrameOk(s, top) && FamilyOk(s, top) && FrameOk(s, y) && FamilyOk(s, y);
    assert FrameOk(s, x) && FamilyOk(s, x);
  }

  lemma ReturnSuspendedControl(s: State)
    requires Inv(s) && Enabled(s, Return) && s.stack != []
    requires s.frames[Top(s)].status.Transforming? && !s.frames[s.returning.value].status.Done?
    ensures ControlOk(Next(s, Return))
  {
    var s' := Next(s, Return);
    var top, y := Top(s), s.returning.value;
    assert StackOk(s, |s.stack| - 1);
    assert FrameOk(s, top) && FamilyOk(s, top) && FrameOk(s, y) && FamilyOk(s, y);
    forall i | 0 <= i < |s'.stack|
      ensures StackOk(s', i)
    {
      assert StackOk(s, i);
    }
    forall j | j in s'.awakers
      ensures AwakerOk(s', j)
    {
      assert AwakerOk(s, j);
    }
  }

  lemma ReturnFinishingFrames(s: State)
    requires Inv(s) && Enabled(s, Return) && s.stack != [] && s.frames[Top(s)].status.Finishing?
    ensures FramesOk(Next(s, Return))
  {
    var s' := Next(s, Return);
    var top, y := Top(s), s.returning.value;
    assert StackOk(s, |s.stack| - 1);
    assert FrameOk(s, top) && FamilyOk(s, top) && FrameOk(s, y) && FamilyOk(s, y);
    forall x | x in s'.frames
      ensures FrameOk(s', x) && FamilyOk(s', x)
    {
      assert FrameOk(s, x) && FamilyOk(s, x);
    }
  }

  lemma ReturnFinishingControl(s: State)
    requires Inv(s) && Enabled(s, Return) && s.stack != [] && s.frames[Top(s)].status.Finishing?
    ensures ControlOk(Next(s, Return))
  {
    var s' := Next(s, Return);
    var top, y := Top(s), s.returning.value;
    assert StackOk(s, |s.stack| - 1);
    assert FrameOk(s, top) && FamilyOk(s, top) && FrameOk(s, y) && FamilyOk(s, y);
    forall i | 0 <= i < |s'.stack|
      ensures StackOk(s', i)
    {
      assert StackOk(s, i);
    }
    forall j | j in s'.awakers
      ensures AwakerOk(s', j)
    {
      assert AwakerOk(s, j);
    }
  }
}
