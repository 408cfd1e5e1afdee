/** What the actions of a program do to the queue, the stack, the callers, the results and
    the awakers, and what a whole run makes of them: a parent waits for a child that
    suspends, every result is the one its task finished with, and a wake is never lost. */
module CoroutineEffects {
  import opened Coroutines
  import opened CoroutineTheorems

  // ----- one step -----

  function Queued(s: State, h: nat): seq<nat> {
    if |s.queue| < s.capacity then s.queue + [h] else s.queue
  }

  /** Handles enter the queue by submission, yielding and waking, and leave it by dispatch. */
  lemma QueueEffect(s: State, a: Action)
    requires Inv(s) && Enabled(s, a)
    ensures Next(s, a).capacity == s.capacity
    ensures Next(s, a).queue ==
            match a
            case Submit(id) => Queued(s, id)
            case Yield => Queued(s, Top(s))
            case Wake(k) => if s.awakers[k].handle.Some? then Queued(s, s.awakers[k].handle.value) else s.queue
            case Dispatch => s.queue[1..]
            case _ => s.queue
  {
    if a.Return? && s.stack != [] {
      TopResumes(s);
    }
  }

  /** The action does not suspend the active frame: its awaker has been woken before. */
  predicate Ready(s: State, a: Action) {
    a.AwaitAwaker? && a.k in s.awakers && s.awakers[a.k].checkable && s.awakers[a.k].awaked
  }

  /** Return ends the first run of an awaited child that finished. */
  predicate ChildDone(s: State) {
    && s.returning.Some? && s.stack != [] && Top(s) in s.frames && s.returning.value in s.frames
    && s.frames[Top(s)].status.Transforming? && s.frames[s.returning.value].status.Done?
  }

  /** Return ends the first run of an awaited child that suspended. */
  predicate ChildSuspended(s: State) {
    && s.returning.Some? && s.stack != [] && Top(s) in s.frames && s.returning.value in s.frames
    && s.frames[Top(s)].status.Transforming? && !s.frames[s.returning.value].status.Done?
  }

  /** Control enters a frame by dispatch, by an await of a task and by the completion of a
      child whose parent waits; it leaves one by suspending and by finishing. */
  lemma ControlEffect(s: State, a: Action)
    requires Inv(s) && Enabled(s, a)
    ensures var s' := Next(s, a);
            match a
            case Dispatch => s'.stack == [s.queue[0]] && s'.returning.None?
            case AwaitTask(c) => s'.stack == s.stack + [c] && s'.returning.None?
            case AwaitAwaker(k) =>
              if Ready(s, a) then s' == s else s'.stack == Below(s) && s'.returning == Some(Top(s))
            case Yield => s'.stack == Below(s) && s'.returning == Some(Top(s))
            case Finish(_) =>
              (match s.frames[Top(s)].caller
               case Parent(p) => s'.stack == s.stack + [p] && s'.returning.None?
               case _ => s'.stack == Below(s) && s'.returning == Some(Top(s)))
            case Return =>
              if s.stack == [] then s'.stack == [] && s'.returning.None?
              else if ChildDone(s) then s'.stack == s.stack && s'.returning.None?
              else s'.stack == Below(s) && s'.returning == Some(Top(s))
            case _ => s'.stack == s.stack && s'.returning == s.returning
  {
    if a.Return? && s.stack != [] {
      TopResumes(s);
    }
  }

  /** Frames come into being by Spawn alone, fresh, and are never forgotten. */
  lemma SpawnEffect(s: State, a: Action)
    requires Inv(s) && Enabled(s, a)
    ensures Next(s, a).frames.Keys == s.frames.Keys + (if a.Spawn? then {a.id} else {})
    ensures a.Spawn? ==> var f := Next(s, a).frames[a.id]; f.status.Created? && f.caller.NoCaller? && f.result.None?
  {
    if a.Return? && s.stack != [] {
      TopResumes(s);
    }
    assert a.Finish? ==> FamilyOk(s, Top(s));
    assert a.Dispatch? ==> s.queue[0] in s.frames;
  }

  /** A task's result is set by its own Finish, to what it finished with, and by nothing
      else, whoever its caller is. */
  lemma ResultEffect(s: State, a: Action, c: nat)
    requires Inv(s) && Enabled(s, a) && c in s.frames
    ensures c in Next(s, a).frames
    ensures Next(s, a).frames[c].result == if a.Finish? && c == Top(s) then Some(a.r) else s.frames[c].result
    ensures a.Finish? && c == Top(s) ==> s.frames[c].result.None?
  {
    assert FrameOk(s, c);
    if a.Return? && s.stack != [] {
      TopResumes(s);
    }
    assert a.Finish? ==> FamilyOk(s, Top(s));
  }

  /** The caller of task c after the action. */
  function CallerAfter(s: State, a: Action, c: nat): Caller
    requires c in s.frames
  {
    if a == Submit(c) then Noop
    else if a.Return? && ChildSuspended(s) && c == s.returning.value then Parent(Top(s))
    else s.frames[c].caller
  }

  /** The caller of a task becomes the no-op at its submission and the awaiting parent when
      its first run suspends, and changes at no other time; a task that has run is never
      again at its start. */
  lemma CallerEffect(s: State, a: Action, c: nat)
    requires Inv(s) && Enabled(s, a) && c in s.frames
    ensures c in Next(s, a).frames
    ensures Next(s, a).frames[c].caller == CallerAfter(s, a, c)
    ensures Next(s, a).frames[c].status.Created? <==> s.frames[c].status.Created? && !Starts(s, a, c)
  {
    hide Inv, Next, Enabled, CallerAfter;
    match a
    case Return => CallerReturn(s, c);
    case Finish(r) => CallerFinish(s, r, c);
    case _ => CallerOther(s, a, c);
  }

  lemma CallerReturn(s: State, c: nat)
    requires Inv(s) && Enabled(s, Return) && c in s.frames
    ensures c in Next(s, Return).frames
    ensures Next(s, Return).frames[c].caller == CallerAfter(s, Return, c)
    ensures Next(s, Return).frames[c].status.Created? <==> s.frames[c].status.Created?
  {
    assert FrameOk(s, c);
    if s.stack != [] {
      TopResumes(s);
      assert FrameOk(s, Top(s)) && FrameOk(s, s.returning.value);
    }
  }

  lemma CallerFinish(s: State, r: Result, c: nat)
    requires Inv(s) && Enabled(s, Finish(r)) && c in s.frames
    ensures c in Next(s, Finish(r)).frames
    ensures Next(s, Finish(r)).frames[c].caller == s.frames[c].caller
    ensures Next(s, Finish(r)).frames[c].status.Created? <==> s.frames[c].status.Created?
    ensures CallerAfter(s, Finish(r), c) == s.frames[c].caller
  {
    assert FamilyOk(s, Top(s)) && FrameOk(s, Top(s));
  }

  lemma CallerOther(s: State, a: Action, c: nat)
    requires Inv(s) && Enabled(s, a) && c in s.frames && !a.Return? && !a.Finish?
    ensures c in Next(s, a).frames
    ensures Next(s, a).frames[c].caller == CallerAfter(s, a, c)
    ensures Next(s, a).frames[c].status.Created? <==> s.frames[c].status.Created? && !Starts(s, a, c)
  {
    assert FrameOk(s, c);
  }

  /** The action runs c for the first time, if c has not run yet. */
  predicate Starts(s: State, a: Action, c: nat) {
    a == AwaitTask(c) || (a.Dispatch? && s.queue != [] && s.queue[0] == c)
  }

  /** When an awaited child suspends on its first run, its parent is suspended too: it waits
      for that child, is active no more, and is the child's caller. */
  lemma ParentWaits(s: State)
    requires Inv(s) && Enabled(s, Return) && ChildSuspended(s)
    ensures var s', x, y := Next(s, Return), Top(s), s.returning.value;
            && s.frames[x].status == Transforming(y)
            && x in s'.frames && s'.frames[x].status == AwaitingTask(y) && x !in s'.stack && x !in s'.queue
            && y in s'.frames && s'.frames[y].caller == Parent(x)
  {
    var x := Top(s);
    TopResumes(s);
    assert FrameOk(s, x) && FrameOk(s, s.returning.value);
    ReturnInv(s);
    assert FrameOk(Next(s, Return), x);
  }

  /** When an awaited child finishes on its first run, the parent goes on and the child's
      frame is destroyed. */
  lemma ParentGoesOn(s: State)
    requires Inv(s) && Enabled(s, Return) && ChildDone(s)
    ensures var s', x, y := Next(s, Return), Top(s), s.returning.value;
            && s.frames[x].status == Transforming(y) && Active(s') && Top(s') == x
            && y in s'.frames && s'.frames[y].status.Destroyed? && s'.frames[y].deliveries == 1
  {
    TopResumes(s);
    assert FrameOk(s, Top(s)) && FrameOk(s, s.returning.value);
  }

  /** The active frame waits at awaker k, which holds its handle. */
  ghost predicate SuspendedAt(s: State, s': State, k: nat)
    requires s.stack != []
  {
    && Top(s) in s'.frames && s'.frames[Top(s)].status == AwaitingAwaker(k)
    && k in s'.awakers && s'.awakers[k].handle == Some(Top(s))
    && s'.stack == Below(s) && s'.returning == Some(Top(s)) && s'.queue == s.queue
  }

  /** Awakers come into being by MakeAwaker and keep their kind; of a checkable one, Wake sets
      the flag and nothing clears it; an await suspends unless that flag is set. */
  lemma AwakerEffect(s: State, a: Action, k: nat)
    requires Inv(s) && Enabled(s, a)
    ensures k in Next(s, a).awakers <==> k in s.awakers || (a.MakeAwaker? && a.k == k)
    ensures k in s.awakers ==>
              var w, w' := s.awakers[k], Next(s, a).awakers[k];
              w'.checkable == w.checkable && (w.checkable ==> w'.awaked == (w.awaked || a == Wake(k)))
    ensures a.MakeAwaker? && a.k == k ==>
              var w := Next(s, a).awakers[k]; w.checkable == a.checkable && !w.awaked && w.handle.None?
    ensures a == AwaitAwaker(k) ==> if Ready(s, a) then Next(s, a) == s else SuspendedAt(s, Next(s, a), k)
  {
    if a.Return? && s.stack != [] {
      TopResumes(s);
    }
    assert a.Finish? ==> FamilyOk(s, Top(s));
    assert a.Dispatch? ==> s.queue[0] in s.frames;
    assert a.Dispatch? ==> FamilyOk(s, s.queue[0]);
  }

  // ----- runs -----

  /** c finished with r in the course of the run. */
  ghost predicate FinishedWith(s: State, run: seq<Action>, c: nat, r: Result)
    requires Inv(s)
    decreases |run|
  {
    && run != [] && Enabled(s, run[0]) && !Overflows(s, run[0])
    && (|| (run[0] == Finish(r) && c == Top(s))
        || (StepInv(s, run[0]); FinishedWith(Next(s, run[0]), run[1..], c, r)))
  }

  lemma {:induction false} ResultsKept(s: State, run: seq<Action>, s': State, c: nat, r: Result)
    requires Inv(s) && Runs(s, run, s')
    ensures c in s.frames ==> c in s'.frames
    ensures c in s'.frames ==>
              (s'.frames[c].result == Some(r) <==>
                 (c in s.frames && s.frames[c].result == Some(r)) || FinishedWith(s, run, c, r))
    decreases |run|
  {
    hide Inv, Next, Enabled, Overflows;
    if run != [] {
      StepInv(s, run[0]);
      SpawnEffect(s, run[0]);
      if c in s.frames {
        ResultEffect(s, run[0], c);
      } else {
        ActiveIsFrame(s, run[0]);
      }
      ResultsKept(Next(s, run[0]), run[1..], s', c, r);
    }
  }

  lemma ActiveIsFrame(s: State, a: Action)
    requires Enabled(s, a)
    ensures a.Finish? ==> s.stack != [] && Top(s) in s.frames
  {
  }

  /** From an empty scheduler: the result a task has, and so the one its parent is given, is
      exactly the one it finished with. */
  lemma ResultIsWhatItFinishedWith(capacity: nat, run: seq<Action>, s': State, c: nat, r: Result)
    requires Runs(Start(capacity), run, s') && c in s'.frames
    ensures s'.frames[c].result == Some(r) <==> FinishedWith(Start(capacity), run, c, r)
    ensures FinishedWith(Start(capacity), run, c, r) && s'.frames[c].deliveries == 1 ==>
              s'.frames[c].received ==
                Some(if r.Value? && s'.frames[c].caller.NoCaller? then Dangling else Got(r))
  {
    ResultsKept(Start(capacity), run, s', c, r);
    RunInv(Start(capacity), run, s');
    if s'.frames[c].deliveries == 1 {
      IntactIff(s', c);
    }
  }

  lemma {:induction false} CallerKept(s: State, run: seq<Action>, s': State, c: nat)
    requires Inv(s) && Runs(s, run, s') && c in s.frames && !s.frames[c].status.Created?
    ensures c in s'.frames && (s'.frames[c].caller.Noop? <==> s.frames[c].caller.Noop?)
    decreases |run|
  {
    hide Inv, Next, Overflows;
    if run != [] {
      StepInv(s, run[0]);
      CallerEffect(s, run[0], c);
      if run[0].Return? && ChildSuspended(s) && c == s.returning.value {
        FirstRunCaller(s);
      }
      CallerKept(Next(s, run[0]), run[1..], s', c);
    }
  }

  /** A child on its first run inside an await has no caller yet. */
  lemma FirstRunCaller(s: State)
    requires Inv(s) && ChildSuspended(s)
    ensures s.frames[s.returning.value].caller.NoCaller?
  {
    TopResumes(s);
  }

  /** A task that is awaited in a run is never a submitted one. */
  lemma {:induction false} AwaitedHasNoNoop(s: State, run: seq<Action>, s': State, c: nat)
    requires Inv(s) && Runs(s, run, s') && AwaitTask(c) in run
    ensures c in s'.frames && !s'.frames[c].caller.Noop?
    decreases |run|
  {
    hide Inv, Next, Overflows;
    StepInv(s, run[0]);
    if run[0] == AwaitTask(c) {
      CallerEffect(s, run[0], c);
      CallerKept(Next(s, run[0]), run[1..], s', c);
    } else {
      AwaitedHasNoNoop(Next(s, run[0]), run[1..], s', c);
    }
  }

  /** Over every run: whatever was awaited and has completed by the time control is back in
      the run loop was handed to its parent, once. */
  lemma AwaitedIsDelivered(capacity: nat, run: seq<Action>, s': State, c: nat)
    requires Runs(Start(capacity), run, s') && AwaitTask(c) in run && s'.stack == [] && s'.returning.None?
    ensures c in s'.frames && (s'.frames[c].result.Some? ==> s'.frames[c].deliveries == 1)
  {
    RunInv(Start(capacity), run, s');
    AwaitedHasNoNoop(Start(capacity), run, s', c);
    if s'.frames[c].result.Some? {
      CompletedExactlyOnce(s', c);
    }
  }

  lemma {:induction false} FlagKept(s: State, run: seq<Action>, s': State, k: nat)
    requires Inv(s) && Runs(s, run, s')
    ensures k in s.awakers || (exists ch :: MakeAwaker(k, ch) in run) <==> k in s'.awakers
    ensures k in s'.awakers ==>
              (s'.awakers[k].checkable <==> (k in s.awakers && s.awakers[k].checkable) || MakeAwaker(k, true) in run)
    ensures k in s'.awakers && s'.awakers[k].checkable ==>
              (s'.awakers[k].awaked <==> (k in s.awakers && s.awakers[k].awaked) || Wake(k) in run)
    ensures k in s.awakers ==> MakeAwaker(k, true) !in run && MakeAwaker(k, false) !in run
    decreases |run|
  {
    hide Inv, Next, Overflows;
    if run != [] {
      StepInv(s, run[0]);
      AwakerEffect(s, run[0], k);
      var s1 := Next(s, run[0]);
      FlagKept(s1, run[1..], s', k);
      assert run == [run[0]] + run[1..];
      if run[0].MakeAwaker? && run[0].k == k {
        assert MakeAwaker(k, run[0].checkable) in run;
      }
    }
  }

  /** Over every run: awaiting a CheckableAwaker goes on at once exactly when it was woken
      since it was made, waited on or not; otherwise the frame suspends and the awaker holds
      its handle.  Awaiting a plain Awaker always suspends. */
  lemma WakeIsNotLost(capacity: nat, run: seq<Action>, s: State, k: nat)
    requires Runs(Start(capacity), run, s) && Enabled(s, AwaitAwaker(k))
    ensures Inv(s)
    ensures MakeAwaker(k, true) in run || MakeAwaker(k, false) in run
    ensures MakeAwaker(k, true) in run ==> (Next(s, AwaitAwaker(k)) == s <==> Wake(k) in run)
    ensures MakeAwaker(k, false) in run || Wake(k) !in run ==> SuspendedAt(s, Next(s, AwaitAwaker(k)), k)
  {
    RunInv(Start(capacity), run, s);
    FlagKept(Start(capacity), run, s, k);
    AwakerEffect(s, AwaitAwaker(k), k);
    if MakeAwaker(k, false) in run {
      MadeOnce(Start(capacity), run, s, k);
    }
    hide Inv, Next;
  }

  lemma {:induction false} MadeOnce(s: State, run: seq<Action>, s': State, k: nat)
    requires Inv(s) && Runs(s, run, s') && MakeAwaker(k, false) in run
    ensures MakeAwaker(k, true) !in run
    decreases |run|
  {
    hide Inv, Next, Overflows;
    StepInv(s, run[0]);
    AwakerEffect(s, run[0], k);
    assert run == [run[0]] + run[1..];
    if run[0].MakeAwaker? && run[0].k == k {
      FlagKept(Next(s, run[0]), run[1..], s', k);
    } else {
      MadeOnce(Next(s, run[0]), run[1..], s', k);
    }
  }
}
