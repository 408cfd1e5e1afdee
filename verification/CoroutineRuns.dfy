/** Runs that reach the two failures of the scheduler: a value lost with its frame, and a
    handle lost in a full ring. */
module CoroutineRuns {
  import opened Coroutines
  import opened CoroutineTheorems

  lemma {:induction false} RunsThen(s: State, run: seq<Action>, s1: State, a: Action)
    requires Inv(s) && Runs(s, run, s1) && Inv(s1) && Enabled(s1, a) && !Overflows(s1, a)
    ensures Runs(s, run + [a], Next(s1, a))
    decreases |run|
  {
    hide Inv, Next, Enabled, Overflows;
    if run == [] {
      StepInv(s, a);
      assert [a][1..] == [];
      assert run + [a] == [a];
    } else {
      StepInv(s, run[0]);
      RunsThen(Next(s, run[0]), run[1..], s1, a);
      assert (run + [a])[1..] == run[1..] + [a];
    }
  }

  /** One more step of a run from the empty scheduler. */
  lemma Extend(capacity: nat, run: seq<Action>, s: State, a: Action, s': State)
    requires Runs(Start(capacity), run, s) && Enabled(s, a) && !Overflows(s, a)
    requires Inv(s) ==> Next(s, a) == s'
    ensures Runs(Start(capacity), run + [a], s') && Inv(s')
  {
    hide Inv, Next, Enabled, Overflows, Runs;
    RunInv(Start(capacity), run, s);
    RunsThen(Start(capacity), run, s, a);
    RunInv(Start(capacity), run + [a], s');
  }

  // ----- a value lost with its frame -----

  /** A state with two frames, 0 and 1. */
  function Two(f0: Frame, f1: Frame, stack: seq<nat>, returning: Option<nat>, queue: seq<nat>, capacity: nat): State {
    State(map[0 := f0, 1 := f1], stack, returning, queue, capacity, map[])
  }

  function Fresh(st: Status, caller: Caller): Frame {
    FreshFrame().(status := st, caller := caller)
  }

  /** Task 0 is submitted and dispatched and awaits task 1, which finishes with r at once. */
  function SynchronousRun(r: Result): seq<Action> {
    [Spawn(0), Spawn(1), Submit(0), Dispatch, AwaitTask(1), Finish(r), Return]
  }

  /** Up to the dispatch of task 0. */
  lemma DispatchedRun(capacity: nat)
    requires capacity >= 1
    ensures Runs(Start(capacity), [Spawn(0), Spawn(1), Submit(0), Dispatch],
                 Two(Fresh(Running, Noop), FreshFrame(), [0], None, [], capacity))
  {
    hide Inv, Runs;
    var s0 := Start(capacity);
    var s1 := s0.(frames := map[0 := FreshFrame()]);
    var s2 := Two(FreshFrame(), FreshFrame(), [], None, [], capacity);
    var s3 := Two(Fresh(Created, Noop), FreshFrame(), [], None, [0], capacity);
    var s4 := Two(Fresh(Running, Noop), FreshFrame(), [0], None, [], capacity);
    NoSteps(s0);
    Extend(capacity, [], s0, Spawn(0), s1);
    Extend(capacity, [] + [Spawn(0)], s1, Spawn(1), s2);
    Extend(capacity, [] + [Spawn(0)] + [Spawn(1)], s2, Submit(0), s3);
    Extend(capacity, [] + [Spawn(0)] + [Spawn(1)] + [Submit(0)], s3, Dispatch, s4);
    assert [] + [Spawn(0)] + [Spawn(1)] + [Submit(0)] + [Dispatch] == [Spawn(0), Spawn(1), Submit(0), Dispatch];
  }

  lemma NoSteps(s: State)
    requires Inv(s)
    ensures Runs(s, [], s)
  {
    hide Inv;
  }

  /** Child c finished with r, and its parent has been given `got`. */
  ghost predicate HandedOver(s: State, c: nat, r: Result, got: Received) {
    && c in s.frames && s.frames[c].result == Some(r)
    && s.frames[c].deliveries == 1 && s.frames[c].received == Some(got)
  }

  /** Up to the first run of task 1. */
  lemma AwaitedRun(capacity: nat)
    requires capacity >= 1
    ensures Runs(Start(capacity), [Spawn(0), Spawn(1), Submit(0), Dispatch] + [AwaitTask(1)],
                 Two(Fresh(Transforming(1), Noop), Fresh(Running, NoCaller), [0, 1], None, [], capacity))
  {
    hide Inv, Runs;
    DispatchedRun(capacity);
    Extend(capacity, [Spawn(0), Spawn(1), Submit(0), Dispatch],
           Two(Fresh(Running, Noop), FreshFrame(), [0], None, [], capacity), AwaitTask(1),
           Two(Fresh(Transforming(1), Noop), Fresh(Running, NoCaller), [0, 1], None, [], capacity));
  }

  /** For every result and every ring: an exception of a task that finishes during the await
      reaches the parent, and so does the end of a task without a result; of a value the
      parent is left with a reference into the frame that await_resume has just destroyed. */
  lemma SynchronousHandover(capacity: nat, r: Result)
    requires capacity >= 1
    ensures exists s' ::
              && Runs(Start(capacity), SynchronousRun(r), s')
              && HandedOver(s', 1, r, if r.Value? then Dangling else Got(r))
  {
    hide Inv, Runs;
    AwaitedRun(capacity);
    var run := [Spawn(0), Spawn(1), Submit(0), Dispatch];
    var got := if r.Value? then Dangling else Got(r);
    var s5 := Two(Fresh(Transforming(1), Noop), Fresh(Running, NoCaller), [0, 1], None, [], capacity);
    var done := Fresh(Done, NoCaller).(result := Some(r));
    var s6 := Two(Fresh(Transforming(1), Noop), done, [0], Some(1), [], capacity);
    Extend(capacity, run + [AwaitTask(1)], s5, Finish(r), s6);
    var gone := done.(status := Destroyed, destroys := 1, death := ByParent, deliveries := 1, received := Some(got));
    var s7 := Two(Fresh(Running, Noop), gone, [0], None, [], capacity);
    Extend(capacity, run + [AwaitTask(1)] + [Finish(r)], s6, Return, s7);
    assert run + [AwaitTask(1)] + [Finish(r)] + [Return] == SynchronousRun(r);
    assert HandedOver(s7, 1, r, got);
  }

  lemma SynchronousValueDangles(capacity: nat, v: int)
    requires capacity >= 1
    ensures exists s' ::
              Runs(Start(capacity), SynchronousRun(Value(v)), s') && HandedOver(s', 1, Value(v), Dangling)
  {
    SynchronousHandover(capacity, Value(v));
  }

  lemma SynchronousExceptionArrives(capacity: nat, x: int)
    requires capacity >= 1
    ensures exists s' ::
              && Runs(Start(capacity), SynchronousRun(Exception(x)), s')
              && HandedOver(s', 1, Exception(x), Got(Exception(x)))
  {
    SynchronousHandover(capacity, Exception(x));
  }

  // ----- a parent that waits -----

  /** Task 0 awaits task 1, which waits for awaker 0 on its first run; control comes back to
      the run loop. */
  function WaitingRun(): seq<Action> {
    [Spawn(0), Spawn(1), Submit(0), Dispatch, MakeAwaker(0, false), AwaitTask(1), AwaitAwaker(0), Return, Return]
  }

  /** Frames 0 and 1 with awaker 0. */
  function TwoOne(f0: Frame, f1: Frame, stack: seq<nat>, returning: Option<nat>, capacity: nat, w: Awaker): State {
    State(map[0 := f0, 1 := f1], stack, returning, [], capacity, map[0 := w])
  }

  /** Up to the first run of task 1, with awaker 0. */
  lemma AwaitedWithAwaker(capacity: nat)
    requires capacity >= 1
    ensures Runs(Start(capacity), [Spawn(0), Spawn(1), Submit(0), Dispatch] + [MakeAwaker(0, false)] + [AwaitTask(1)],
                 TwoOne(Fresh(Transforming(1), Noop), Fresh(Running, NoCaller), [0, 1], None, capacity,
                        Awaker(None, false, false, false)))
  {
    hide Inv, Runs;
    DispatchedRun(capacity);
    var run, w := [Spawn(0), Spawn(1), Submit(0), Dispatch], Awaker(None, false, false, false);
    var s4 := Two(Fresh(Running, Noop), FreshFrame(), [0], None, [], capacity);
    var s5 := TwoOne(Fresh(Running, Noop), FreshFrame(), [0], None, capacity, w);
    var s6 := TwoOne(Fresh(Transforming(1), Noop), Fresh(Running, NoCaller), [0, 1], None, capacity, w);
    Extend(capacity, run, s4, MakeAwaker(0, false), s5);
    Extend(capacity, run + [MakeAwaker(0, false)], s5, AwaitTask(1), s6);
  }

  /** The parent waits for its child and the child for its awaker, and no one is runnable. */
  lemma ParentAndChildWait(capacity: nat)
    requires capacity >= 1
    ensures Runs(Start(capacity), WaitingRun(),
                 TwoOne(Fresh(AwaitingTask(1), Noop), Fresh(AwaitingAwaker(0), Parent(0)), [], None, capacity,
                        Awaker(Some(1), false, false, false)))
  {
    hide Inv, Runs;
    AwaitedWithAwaker(capacity);
    var run := [Spawn(0), Spawn(1), Submit(0), Dispatch] + [MakeAwaker(0, false)] + [AwaitTask(1)];
    var w, held := Awaker(None, false, false, false), Awaker(Some(1), false, false, false);
    var s6 := TwoOne(Fresh(Transforming(1), Noop), Fresh(Running, NoCaller), [0, 1], None, capacity, w);
    var s7 := TwoOne(Fresh(Transforming(1), Noop), Fresh(AwaitingAwaker(0), NoCaller), [0], Some(1), capacity, held);
    var s8 := TwoOne(Fresh(AwaitingTask(1), Noop), Fresh(AwaitingAwaker(0), Parent(0)), [], Some(0), capacity, held);
    Extend(capacity, run, s6, AwaitAwaker(0), s7);
    Extend(capacity, run + [AwaitAwaker(0)], s7, Return, s8);
    Extend(capacity, run + [AwaitAwaker(0)] + [Return], s8, Return, s8.(returning := None));
    assert run + [AwaitAwaker(0)] + [Return] + [Return] == WaitingRun();
  }

  /** A CheckableAwaker woken before anyone waits: the await goes on at once. */
  lemma EarlyWakeIsSeen(capacity: nat)
    requires capacity >= 1
    ensures Runs(Start(capacity),
                 [Spawn(0), Spawn(1), Submit(0), Dispatch] + [MakeAwaker(0, true)] + [Wake(0)] + [AwaitAwaker(0)],
                 TwoOne(Fresh(Running, Noop), FreshFrame(), [0], None, capacity, Awaker(None, false, true, true)))
  {
    hide Inv, Runs;
    DispatchedRun(capacity);
    var run := [Spawn(0), Spawn(1), Submit(0), Dispatch];
    var f0, f1 := Fresh(Running, Noop), FreshFrame();
    var s5 := TwoOne(f0, f1, [0], None, capacity, Awaker(None, false, true, false));
    var s6 := TwoOne(f0, f1, [0], None, capacity, Awaker(None, false, true, true));
    Extend(capacity, run, Two(f0, f1, [0], None, [], capacity), MakeAwaker(0, true), s5);
    Extend(capacity, run + [MakeAwaker(0, true)], s5, Wake(0), s6);
    Extend(capacity, run + [MakeAwaker(0, true)] + [Wake(0)], s6, AwaitAwaker(0), s6);
  }

  // ----- a handle lost in a full ring -----

  /** Spawns and submits tasks 0 to k - 1. */
  function Fill(k: nat): seq<Action> {
    if k == 0 then [] else Fill(k - 1) + [Spawn(k - 1)] + [Submit(k - 1)]
  }

  function Submitted(k: nat): (frames: map<nat, Frame>)
    ensures forall id: nat :: id in frames <==> id < k
  {
    if k == 0 then map[] else Submitted(k - 1)[k - 1 := Fresh(Created, Noop)]
  }

  /** k submitted tasks wait in the queue. */
  function Filled(k: nat, capacity: nat): State {
    State(Submitted(k), [], None, seq(k, i => i), capacity, map[])
  }

  lemma {:induction false} FillRuns(capacity: nat, k: nat)
    requires k <= capacity
    ensures Runs(Start(capacity), Fill(k), Filled(k, capacity))
  {
    hide Inv, Runs;
    if k == 0 {
      NoSteps(Start(capacity));
      assert Filled(0, capacity) == Start(capacity);
    } else {
      FillRuns(capacity, k - 1);
      var s := Filled(k - 1, capacity);
      var s1 := s.(frames := s.frames[k - 1 := FreshFrame()]);
      Extend(capacity, Fill(k - 1), s, Spawn(k - 1), s1);
      assert s.frames[k - 1 := FreshFrame()][k - 1 := Fresh(Created, Noop)] == Submitted(k);
      assert s.queue + [k - 1] == Filled(k, capacity).queue;
      Extend(capacity, Fill(k - 1) + [Spawn(k - 1)], s1, Submit(k - 1), Filled(k, capacity));
    }
  }

  /** Whatever the capacity, submitting one task more than it loses that task: the frame is
      runnable and in no queue. */
  lemma OverflowReached(capacity: nat)
    ensures exists s ::
              && Runs(Start(capacity), Fill(capacity) + [Spawn(capacity)], s)
              && Inv(s) && Enabled(s, Submit(capacity)) && Overflows(s, Submit(capacity))
              && Stranded(Next(s, Submit(capacity)), capacity)
  {
    FillRuns(capacity, capacity);
    var f := Filled(capacity, capacity);
    var s := f.(frames := f.frames[capacity := FreshFrame()]);
    hide Inv, Runs;
    Extend(capacity, Fill(capacity), f, Spawn(capacity), s);
    OverflowLoses(s, Submit(capacity));
  }

  /** Frame h is due, and no dispatch will ever find it in the queue. */
  ghost predicate Stranded(s: State, h: nat) {
    h in s.frames && Runnable(s, s.frames[h]) && h !in s.queue
  }
}
