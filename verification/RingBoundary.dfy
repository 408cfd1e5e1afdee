/** Where the guarantees of the ring end: runs of the 32-bit ring, one element per call as
    enqueue and dequeue make them, that break the queue order or return a false 0; and the
    exact conditions under which there are none. */
module RingBoundary {
  import opened Arithmetic
  import opened RingMask
  import opened RingSide
  import opened RingQueue
  import opened Ring32

  /** MpscRing of `size` slots. */
  function Mpsc(size: nat): Config {
    Config(size, MT, ST, false, false)
  }

  function Zeros(n: nat): (z: seq<nat>)
    ensures |z| == n
  {
    seq(n, _ => 0)
  }

  /** A new ring initialised with count `size`. */
  function New(size: nat): Ring<nat> {
    Initial(Zeros(SlotCount(Mpsc(size))))
  }

  // ----- composing runs -----

  lemma {:induction false} Chained<T>(cfg: Config, c: Ring<T>, r1: seq<Step<T>>, c1: Ring<T>,
                                      r2: seq<Step<T>>, c2: Ring<T>, age: int)
    requires Runs32(cfg, c, r1, c1, age) && Runs32(cfg, c1, r2, c2, age)
    ensures Runs32(cfg, c, r1 + r2, c2, age)
    decreases |r1|
  {
    hide CanStep32, DoStep32, YoungRing;
    if r1 == [] {
      assert r1 + r2 == r2;
    } else {
      Chained(cfg, DoStep32(cfg, c, r1[0]), r1[1..], c1, r2, c2, age);
      assert (r1 + r2)[1..] == r1[1..] + r2;
    }
  }

  lemma {:induction false} Deterministic<T>(cfg: Config, c: Ring<T>, run: seq<Step<T>>,
                                            c1: Ring<T>, c2: Ring<T>, age: int)
    requires Runs32(cfg, c, run, c1, age) && Runs32(cfg, c, run, c2, age)
    ensures c1 == c2
    decreases |run|
  {
    hide CanStep32, DoStep32, YoungRing;
    if run != [] {
      Deterministic(cfg, DoStep32(cfg, c, run[0]), run[1..], c1, c2, age);
    }
  }

  lemma {:induction false} Older<T>(cfg: Config, c: Ring<T>, run: seq<Step<T>>, c': Ring<T>, age: int, age': int)
    requires Runs32(cfg, c, run, c', age) && age <= age'
    ensures Runs32(cfg, c, run, c', age')
    decreases |run|
  {
    hide CanStep32, DoStep32;
    forall t: nat
      ensures YoungAt(age', c.prod, t) && YoungAt(age', c.cons, t)
    {
      assert YoungAt(age, c.prod, t) && YoungAt(age, c.cons, t);
    }
    if run != [] {
      Older(cfg, DoStep32(cfg, c, run[0]), run[1..], c', age, age');
    }
  }

  /** One step in front of a run. */
  lemma Prepended<T>(cfg: Config, c: Ring<T>, st: Step<T>, c1: Ring<T>, run: seq<Step<T>>, c': Ring<T>, age: int)
    requires YoungRing(age, c)
    requires |c.slots| == SlotCount(cfg) && CanStep32(cfg, c, st) && DoStep32(cfg, c, st) == c1
    requires Runs32(cfg, c1, run, c', age)
    ensures Runs32(cfg, c, [st] + run, c', age)
  {
    hide CanStep32, DoStep32, YoungRing;
    assert ([st] + run)[1..] == run;
  }

  lemma Stays<T>(cfg: Config, c: Ring<T>, age: int)
    requires YoungRing(age, c)
    ensures Runs32(cfg, c, [], c, age)
  {
  }

  /** No thread but t would be too old after one more reservation. */
  ghost predicate Settled(age: int, s: Side, t: nat) {
    age >= 1 && forall u {:trigger SettledAt(age, s, t, u)} :: SettledAt(age, s, t, u)
  }

  ghost predicate SettledAt(age: int, s: Side, t: nat, u: nat) {
    u != t ==> YoungAt(age - 1, s, u)
  }

  /** Then a step of t leaves every thread young. */
  lemma StillYoung(age: int, s: Side, s': Side, t: nat, l: Local)
    requires Settled(age, s, t) && s'.threads == s.threads[t := l] && |s.owner| <= |s'.owner| <= |s.owner| + 1
    requires l.HasHead? || l.HasLimit? ==> |s'.owner| - l.at < age
    ensures Young(age, s')
  {
    forall u: nat
      ensures YoungAt(age, s', u)
    {
      assert SettledAt(age, s, t, u);
    }
  }

  // ----- one enqueue and one dequeue -----

  /** From a successful head move to the tail store. */
  function StoreSteps<T>(t: nat): seq<Step<T>> {
    [P(Reserve(t), [])] + ([P(Copy(t), [])] + ([P(Publish(t), [])] + []))
  }

  function EnqueueSteps<T>(t: nat, x: T): seq<Step<T>> {
    [P(Begin(t, 1), [x])] + ([P(Limit(t), [])] + StoreSteps(t))
  }

  /** From a successful head move of the consumer to its tail store. */
  function FetchSteps<T>(): seq<Step<T>> {
    [C(Reserve(0))] + ([C(Copy(0))] + ([C(Publish(0))] + []))
  }

  function DequeueSteps<T>(): seq<Step<T>> {
    [C(Begin(0, 1))] + ([C(Limit(0))] + FetchSteps())
  }

  /** A side whose thread t has finished a call that took the next position. */
  function Advanced(s: Side, t: nat): Side {
    Side(Wrap(s.head + 1), Wrap(s.head + 1), s.threads[t := Idle], s.owner + [t])
  }

  /** x stored at the head by thread t. */
  function Stored<T>(cfg: Config, c: Ring<T>, t: nat, x: T): Ring<T>
    requires |c.slots| == SlotCount(cfg)
  {
    c.(prod := Advanced(c.prod, t), slots := c.slots[Slot(cfg, c.prod.head, 0) := x], history := c.history + [x])
  }

  lemma NextWrap(h: nat)
    requires h < W
    ensures Wrap(Wrap(h + 1) - h) == 1
  {
  }

  lemma OneOf(free: nat, t: nat)
    requires free >= 1
    ensures Take(1, free, false) == 1 && seq(1, _ => t) == [t]
  {
  }

  /** A thread whose loaded head equals the wrapped head stores its element there, whatever
      the limit it loaded and however old the head is. */
  lemma StoreRuns<T>(size: nat, c: Ring<T>, t: nat, x: T, lim: nat, at: nat, age: int)
    requires |c.slots| == SlotCount(Mpsc(size)) && c.prod.head == c.prod.tail < W
    requires Get(c.prod, t) == HasLimit(1, c.prod.head, c.prod.head, lim, at) && Wrap(lim - c.prod.head) >= 1
    requires Of(c.items, t) == [x] && YoungRing(age, c) && Settled(age, c.prod, t)
    ensures Runs32(Mpsc(size), c, StoreSteps(t), Stored(Mpsc(size), c, t, x), age)
  {
    hide Runs32, Slot, Young, Settled;
    var cfg, h, ts, o := Mpsc(size), c.prod.head, c.prod.threads, c.prod.owner + [t];
    NextWrap(h);
    OneOf(Wrap(lim - h), t);
    hide Wrap, Take;
    var hi := Wrap(h + 1);
    var c1 := c.(prod := Side(hi, h, ts[t := Owns(h, hi, 0)], o), history := c.history + [x]);
    var c2 := c1.(prod := Side(hi, h, ts[t := Owns(h, hi, 1)], o), slots := c.slots[Slot(cfg, h, 0) := x]);
    var c3 := Stored(cfg, c, t, x);
    assert c1.prod.threads[t := Owns(h, hi, 1)] == c2.prod.threads;
    assert c2.prod.threads[t := Idle] == c3.prod.threads;
    StillYoung(age, c.prod, c1.prod, t, Owns(h, hi, 0));
    StillYoung(age, c.prod, c2.prod, t, Owns(h, hi, 1));
    StillYoung(age, c.prod, c3.prod, t, Idle);
    Stays(cfg, c3, age);
    Prepended(cfg, c2, P(Publish(t), []), c3, [], c3, age);
    Prepended(cfg, c1, P(Copy(t), []), c2, [P(Publish(t), [])] + [], c3, age);
    Prepended(cfg, c, P(Reserve(t), []), c1, [P(Copy(t), [])] + ([P(Publish(t), [])] + []), c3, age);
  }

  function Enqueued<T>(cfg: Config, c: Ring<T>, t: nat, x: T): Ring<T>
    requires |c.slots| == SlotCount(cfg)
  {
    Stored(cfg, c, t, x).(items := c.items[t := [x]])
  }

  /** enqueue by an idle thread while the computed free count is positive. */
  lemma EnqueueRuns<T>(size: nat, c: Ring<T>, t: nat, x: T, age: int)
    requires |c.slots| == SlotCount(Mpsc(size)) && c.prod.head == c.prod.tail < W && Get(c.prod, t).Idle?
    requires Wrap(Wrap(Usable(size) + c.cons.tail) - c.prod.head) >= 1
    requires YoungRing(age, c) && Settled(age, c.prod, t)
    ensures Runs32(Mpsc(size), c, EnqueueSteps(t, x), Enqueued(Mpsc(size), c, t, x), age)
  {
    hide Runs32, Slot, Wrap, Young;
    var cfg, h, lim, at := Mpsc(size), c.prod.head, Wrap(Usable(size) + c.cons.tail), |c.prod.owner|;
    var items := c.items[t := [x]];
    var c1 := c.(prod := c.prod.(threads := c.prod.threads[t := HasHead(1, h, h, at)]), items := items);
    var c2 := c.(prod := c.prod.(threads := c.prod.threads[t := HasLimit(1, h, h, lim, at)]), items := items);
    assert c1.prod.threads[t := HasLimit(1, h, h, lim, at)] == c2.prod.threads;
    StillYoung(age, c.prod, c1.prod, t, HasHead(1, h, h, at));
    StillYoung(age, c.prod, c2.prod, t, HasLimit(1, h, h, lim, at));
    StillSettled(age, c.prod, c2.prod, t, HasLimit(1, h, h, lim, at));
    StoreRuns(size, c2, t, x, lim, at, age);
    assert c2.prod.threads[t := Idle] == c.prod.threads[t := Idle];
    var c3 := Enqueued(cfg, c, t, x);
    assert Stored(cfg, c2, t, x) == c3;
    Prepended(cfg, c1, P(Limit(t), []), c2, StoreSteps(t), c3, age);
    Prepended(cfg, c, P(Begin(t, 1), [x]), c1, [P(Limit(t), [])] + StoreSteps(t), c3, age);
  }

  lemma StillSettled(age: int, s: Side, s': Side, t: nat, l: Local)
    requires Settled(age, s, t) && s'.threads == s.threads[t := l] && s'.owner == s.owner
    ensures Settled(age, s', t)
  {
    forall u: nat
      ensures SettledAt(age, s', t, u)
    {
      assert SettledAt(age, s, t, u);
    }
  }

  function Dequeued<T>(cfg: Config, c: Ring<T>): Ring<T>
    requires |c.slots| == SlotCount(cfg)
  {
    var x := c.slots[Slot(cfg, c.cons.head, 0)];
    c.(cons := Advanced(c.cons, 0), got := c.got[0 := [x]], delivered := c.delivered + [x])
  }

  lemma FetchRuns<T>(size: nat, c: Ring<T>, lim: nat, at: nat, age: int)
    requires |c.slots| == SlotCount(Mpsc(size)) && c.cons.head == c.cons.tail < W
    requires Get(c.cons, 0) == HasLimit(1, c.cons.head, c.cons.head, lim, at) && Wrap(lim - c.cons.head) >= 1
    requires YoungRing(age, c) && Settled(age, c.cons, 0)
    ensures Runs32(Mpsc(size), c, FetchSteps(), Dequeued(Mpsc(size), c), age)
  {
    hide Runs32, Slot, AloneBut, Young, Settled;
    var cfg, h, ts, o := Mpsc(size), c.cons.head, c.cons.threads, c.cons.owner + [0];
    NextWrap(h);
    OneOf(Wrap(lim - h), 0);
    hide Wrap, Take;
    var hi, x := Wrap(h + 1), c.slots[Slot(cfg, h, 0)];
    var c1 := c.(cons := Side(hi, h, ts[0 := Owns(h, hi, 0)], o), got := c.got[0 := []]);
    var c2 := c.(cons := Side(hi, h, ts[0 := Owns(h, hi, 1)], o), got := c.got[0 := [x]]);
    var c3 := Dequeued(cfg, c);
    assert c1.cons.threads[0 := Owns(h, hi, 1)] == c2.cons.threads;
    assert Of(c1.got, 0) + [x] == [x];
    assert c1.got[0 := [x]] == c2.got;
    assert c2.cons.threads[0 := Idle] == c3.cons.threads;
    StillYoung(age, c.cons, c1.cons, 0, Owns(h, hi, 0));
    StillYoung(age, c.cons, c2.cons, 0, Owns(h, hi, 1));
    StillYoung(age, c.cons, c3.cons, 0, Idle);
    Stays(cfg, c3, age);
    Prepended(cfg, c2, C(Publish(0)), c3, [], c3, age);
    Prepended(cfg, c1, C(Copy(0)), c2, [C(Publish(0))] + [], c3, age);
    Prepended(cfg, c, C(Reserve(0)), c1, [C(Copy(0))] + ([C(Publish(0))] + []), c3, age);
  }

  /** With thread 0 as its only thread a side is settled. */
  lemma AloneSettled(age: int, s: Side)
    requires age >= 1 && s.threads.Keys <= {0} && Get(s, 0).Idle?
    ensures Settled(age, s, 0) && Young(age, s)
  {
  }

  /** dequeue by the only consumer while the computed count of entries is positive. */
  lemma DequeueRuns<T>(size: nat, c: Ring<T>, age: int)
    requires |c.slots| == SlotCount(Mpsc(size)) && c.cons.head == c.cons.tail < W
    requires c.cons.threads.Keys <= {0} && Get(c.cons, 0).Idle? && Wrap(c.prod.tail - c.cons.head) >= 1
    requires age >= 1 && Young(age, c.prod)
    ensures Runs32(Mpsc(size), c, DequeueSteps(), Dequeued(Mpsc(size), c), age)
  {
    hide Runs32, Slot, Wrap, Young;
    AloneSettled(age, c.cons);
    var cfg, h, lim, at := Mpsc(size), c.cons.head, c.prod.tail, |c.cons.owner|;
    var c1 := c.(cons := c.cons.(threads := c.cons.threads[0 := HasHead(1, h, h, at)]));
    var c2 := c.(cons := c.cons.(threads := c.cons.threads[0 := HasLimit(1, h, h, lim, at)]));
    var c3 := Dequeued(cfg, c);
    assert c1.cons.threads[0 := HasLimit(1, h, h, lim, at)] == c2.cons.threads;
    assert c2.cons.threads[0 := Idle] == c3.cons.threads;
    StillYoung(age, c.cons, c1.cons, 0, HasHead(1, h, h, at));
    StillYoung(age, c.cons, c2.cons, 0, HasLimit(1, h, h, lim, at));
    StillSettled(age, c.cons, c2.cons, 0, HasLimit(1, h, h, lim, at));
    FetchRuns(size, c2, lim, at, age);
    assert Dequeued(cfg, c2) == c3;
    Prepended(cfg, c1, C(Limit(0)), c2, FetchSteps(), c3, age);
    Prepended(cfg, c, C(Begin(0, 1)), c1, [C(Limit(0))] + FetchSteps(), c3, age);
  }

  // ----- a count that is no power of two -----

  /** Enqueues 0, 1, ..., k - 1, one at a time. */
  function EnqueueAll(k: nat): seq<Step<nat>> {
    if k == 0 then [] else EnqueueAll(k - 1) + EnqueueSteps<nat>(0, k - 1)
  }

  function SlotsAfter(size: nat, k: nat): (s: seq<nat>)
    ensures |s| == SlotCount(Mpsc(size))
  {
    if k == 0 then Zeros(SlotCount(Mpsc(size))) else SlotsAfter(size, k - 1)[Slot(Mpsc(size), k - 1, 0) := k - 1]
  }

  /** The ring after EnqueueAll(k). */
  function After(size: nat, k: nat): Ring<nat> {
    Ring(Side(k, k, if k == 0 then map[] else map[0 := Idle], Zeros(k)), Side(0, 0, map[], []),
         SlotsAfter(size, k), seq(k, i => i), [], if k == 0 then map[] else map[0 := [k - 1]], map[])
  }

  lemma SmallWrap(x: nat)
    requires x < W
    ensures Wrap(x) == x
  {
  }

  lemma {:induction false} EnqueueAllRuns(size: nat, k: nat)
    requires size <= W && k <= Usable(size)
    ensures Runs32(Mpsc(size), New(size), EnqueueAll(k), After(size, k), W)
  {
    hide Runs32, Slot, Wrap, EnqueueSteps;
    if k == 0 {
      assert After(size, 0) == New(size);
      Stays(Mpsc(size), New(size), W);
    } else {
      var c := After(size, k - 1);
      EnqueueAllRuns(size, k - 1);
      SmallWrap(Usable(size));
      SmallWrap(Usable(size) + 1 - k);
      SmallWrap(k);
      AloneSettled(W, c.prod);
      AloneSettled(W, c.cons);
      hide Young, Settled;
      EnqueueRuns(size, c, 0, k - 1, W);
      assert c.items[0 := [k - 1]] == map[0 := [k - 1]];
      assert c.prod.threads[0 := Idle] == map[0 := Idle];
      assert Zeros(k - 1) + [0] == Zeros(k) && seq(k - 1, i => i) + [k - 1] == seq(k, i => i);
      assert Enqueued(Mpsc(size), c, 0, k - 1) == After(size, k);
      Chained(Mpsc(size), New(size), EnqueueAll(k - 1), c, EnqueueSteps<nat>(0, k - 1), After(size, k), W);
    }
  }

  /** After k enqueues the first dequeue returns x. */
  ghost predicate FirstOut(size: nat, k: nat, x: nat) {
    exists c ::
      Runs32(Mpsc(size), New(size), EnqueueAll(k) + DequeueSteps(), c, W) && c.delivered == [x]
  }

  lemma FirstOutIs(size: nat, k: nat, x: nat)
    requires size <= W && 1 <= k <= Usable(size)
    ensures FirstOut(size, k, x) <==> x == SlotsAfter(size, k)[0]
  {
    hide Runs32, Wrap, DequeueSteps, EnqueueAll, Slot, SlotOf, SlotsAfter;
    var cfg, c := Mpsc(size), After(size, k);
    var run := EnqueueAll(k) + DequeueSteps();
    EnqueueAllRuns(size, k);
    SmallWrap(k);
    SlotZero(size, 0) by {
      FirstSlot(size);
    }
    AloneSettled(W, c.prod);
    hide Young, Settled;
    DequeueRuns(size, c, W);
    var c' := Dequeued(cfg, c);
    Chained(cfg, New(size), EnqueueAll(k), c, DequeueSteps(), c', W);
    assert c'.delivered == [SlotsAfter(size, k)[0]];
    forall c2 | Runs32(cfg, New(size), run, c2, W)
      ensures c2 == c'
    {
      Deterministic(cfg, New(size), run, c', c2, W);
    }
  }

  lemma FirstSlot(size: nat)
    ensures SlotOf(size, 0) == 0
  {
    MaskNothing(0, Usable(size), 1);
  }

  lemma SlotZero(size: nat, p: nat)
    requires SlotOf(size, p) == 0
    ensures Slot(Mpsc(size), p, 0) == 0
  {
    hide SlotOf;
  }

  lemma SlotPower(e: nat, p: nat)
    requires p < Pow2(e)
    ensures Slot(Mpsc(Pow2(e)), p, 0) == p
  {
    hide BitAnd, Pow2;
    MaskIsMod(p, e);
    SmallMod(p, Pow2(e));
  }

  lemma SmallMod(p: nat, size: nat)
    requires p < size
    ensures p % size == p
  {
  }

  lemma {:induction false} PowerKeepsFirst(e: nat, k: nat)
    requires 1 <= k < Pow2(e) && Pow2(e) <= W
    ensures SlotsAfter(Pow2(e), k)[0] == 0
  {
    hide Slot, Pow2;
    SlotPower(e, k - 1);
    if k > 1 {
      PowerKeepsFirst(e, k - 1);
    }
  }

  /** Without a power of two some position in use shares the first slot. */
  lemma OthersOverwriteFirst(size: nat) returns (z: nat)
    requires size <= W && !PowerOfTwo(size)
    ensures 1 <= z < Usable(size) && SlotsAfter(size, z + 1)[0] == z
  {
    TwoIsPower();
    if size == 0 {
      z := 1;
    } else {
      ZeroBitClear(size - 1);
      z := Pow2(ZeroBit(size - 1));
      SlotZero(size, z);
    }
    hide ZeroBit, Pow2, PowerOfTwo, Slot, BitAnd;
  }

  /** The element enqueued first is dequeued first, however many are enqueued in between,
      exactly when the count is a power of two; otherwise a later element takes its place.
      For a count of 0 the second one does. */
  lemma FifoIffPowerOfTwo(size: nat)
    requires size <= W
    ensures (forall k {:trigger FirstOut(size, k, 0)} :: 1 <= k <= Usable(size) ==> FirstOut(size, k, 0))
            <==> PowerOfTwo(size)
    ensures !PowerOfTwo(size) ==>
              exists k, x {:trigger FirstOut(size, k, x)} :: 1 <= k <= Usable(size) && x != 0 && FirstOut(size, k, x)
  {
    hide FirstOut, SlotsAfter;
    if PowerOfTwo(size) {
      var e: nat :| size == Pow2(e);
      forall k | 1 <= k <= Usable(size)
        ensures FirstOut(size, k, 0)
      {
        PowerKeepsFirst(e, k);
        FirstOutIs(size, k, 0);
      }
    } else {
      var z := OthersOverwriteFirst(size);
      FirstOutIs(size, z + 1, 0);
      FirstOutIs(size, z + 1, z);
    }
  }

  // ----- a loaded head that grows old -----

  /** What producer 1 holds: a head of 0, loaded before anything else happened. */
  ghost predicate Sleeper(l: Local) {
    (l.HasHead? || l.HasLimit?) && l.at == 0
  }

  /** Producer 1 sleeps while producer 0 and the consumer have passed a and b positions;
      all their elements were 0. */
  function Passing(size: nat, l: Local, a: nat, b: nat): Ring<nat>
    requires size >= 1
  {
    Ring(Side(Wrap(a), Wrap(a), map[0 := Idle, 1 := l], Zeros(a)),
         Side(Wrap(b), Wrap(b), map[0 := Idle], Zeros(b)), Zeros(size), Zeros(a), Zeros(b),
         map[0 := [0], 1 := [1]], map[0 := [0]])
  }

  /** Producer 0 enqueues n zeros. */
  function Filling(n: nat): seq<Step<nat>> {
    if n == 0 then [] else Filling(n - 1) + EnqueueSteps(0, 0)
  }

  /** n rounds of enqueue and dequeue. */
  function Rounds(n: nat): seq<Step<nat>> {
    if n == 0 then [] else Rounds(n - 1) + (EnqueueSteps(0, 0) + DequeueSteps())
  }

  lemma PassingYoung(size: nat, l: Local, a: nat, b: nat, age: int)
    requires size >= 1 && Sleeper(l) && a < age
    ensures YoungRing(age, Passing(size, l, a, b))
    ensures a + 1 < age ==> Settled(age, Passing(size, l, a, b).prod, 0)
  {
    AloneSettled(age, Passing(size, l, a, b).cons);
  }

  lemma PassingEnqueue(size: nat, l: Local, a: nat, b: nat, age: int)
    requires 2 <= size <= W && b <= a < b + size - 1 && Sleeper(l) && a + 1 < age
    ensures Runs32(Mpsc(size), Passing(size, l, a, b), EnqueueSteps(0, 0), Passing(size, l, a + 1, b), age)
  {
    hide Runs32, Slot, EnqueueSteps;
    var c := Passing(size, l, a, b);
    PassingYoung(size, l, a, b, age);
    WrapLimit(size - 1, b);
    WrapSub(b + size - 1, a);
    WrapAdd(a, 1);
    hide Wrap, Young, Settled;
    EnqueueRuns(size, c, 0, 0, age);
    assert c.slots[Slot(Mpsc(size), c.prod.head, 0) := 0] == c.slots;
    assert c.prod.threads[0 := Idle] == c.prod.threads && c.items[0 := [0]] == c.items;
    assert Zeros(a) + [0] == Zeros(a + 1);
    assert Enqueued(Mpsc(size), c, 0, 0) == Passing(size, l, a + 1, b);
  }

  lemma PassingDequeue(size: nat, l: Local, a: nat, b: nat, age: int)
    requires 2 <= size <= W && b < a <= b + size - 1 && Sleeper(l) && a < age
    ensures Runs32(Mpsc(size), Passing(size, l, a, b), DequeueSteps(), Passing(size, l, a, b + 1), age)
  {
    hide Runs32, Slot, DequeueSteps;
    var c := Passing(size, l, a, b);
    PassingYoung(size, l, a, b, age);
    WrapSub(a, b);
    WrapAdd(b, 1);
    hide Wrap, Young;
    DequeueRuns(size, c, age);
    assert c.cons.threads[0 := Idle] == c.cons.threads && c.got[0 := [0]] == c.got;
    assert Zeros(b) + [0] == Zeros(b + 1);
    assert Dequeued(Mpsc(size), c) == Passing(size, l, a, b + 1);
  }

  lemma {:induction false} FillingRuns(size: nat, l: Local, b: nat, n: nat, age: int)
    requires 2 <= size <= W && n <= size - 1 && Sleeper(l) && b + n < age
    ensures Runs32(Mpsc(size), Passing(size, l, b, b), Filling(n), Passing(size, l, b + n, b), age)
  {
    hide Runs32, EnqueueSteps, Passing;
    if n == 0 {
      PassingYoung(size, l, b, b, age);
      Stays(Mpsc(size), Passing(size, l, b, b), age);
    } else {
      FillingRuns(size, l, b, n - 1, age);
      PassingEnqueue(size, l, b + n - 1, b, age);
      Chained(Mpsc(size), Passing(size, l, b, b), Filling(n - 1), Passing(size, l, b + n - 1, b),
              EnqueueSteps(0, 0), Passing(size, l, b + n, b), age);
    }
  }

  lemma {:induction false} RoundsRun(size: nat, l: Local, b: nat, n: nat, age: int)
    requires 2 <= size <= W && Sleeper(l) && b + n < age
    ensures Runs32(Mpsc(size), Passing(size, l, b, b), Rounds(n), Passing(size, l, b + n, b + n), age)
  {
    hide Runs32, EnqueueSteps, DequeueSteps, Passing;
    var cfg, c := Mpsc(size), Passing(size, l, b, b);
    if n == 0 {
      PassingYoung(size, l, b, b, age);
      Stays(cfg, c, age);
    } else {
      var a := b + n - 1;
      RoundsRun(size, l, b, n - 1, age);
      PassingEnqueue(size, l, a, a, age);
      PassingDequeue(size, l, a + 1, a, age);
      Chained(cfg, Passing(size, l, a, a), EnqueueSteps(0, 0), Passing(size, l, a + 1, a), DequeueSteps(),
              Passing(size, l, a + 1, a + 1), age);
      Chained(cfg, c, Rounds(n - 1), Passing(size, l, a, a), EnqueueSteps(0, 0) + DequeueSteps(),
              Passing(size, l, a + 1, a + 1), age);
    }
  }

  /** Producer 1 loads the head; if `further`, also the consumer's tail; and falls asleep. */
  function FallAsleep(further: bool): seq<Step<nat>> {
    [P(Begin(1, 1), [1])] + if further then [P(Limit(1), [])] + [] else []
  }

  function Asleep(size: nat, further: bool): Local
    requires size >= 1
  {
    if further then HasLimit(1, 0, 0, size - 1, 0) else HasHead(1, 0, 0, 0)
  }

  function Sleeping(size: nat, further: bool): Ring<nat>
    requires size >= 1
  {
    New(size).(prod := Side(0, 0, map[1 := Asleep(size, further)], []), items := map[1 := [1]])
  }

  lemma SleepingYoung(size: nat, further: bool, age: int)
    requires size >= 1 && age >= 2
    ensures YoungRing(age, Sleeping(size, further)) && Settled(age, Sleeping(size, further).prod, 0)
  {
  }

  lemma FallsAsleep(size: nat, further: bool, age: int)
    requires 2 <= size <= W && age >= 2
    ensures Runs32(Mpsc(size), New(size), FallAsleep(further), Sleeping(size, further), age)
  {
    hide Runs32;
    var cfg, c0, c1, c2 := Mpsc(size), New(size), Sleeping(size, false), Sleeping(size, true);
    SleepingYoung(size, false, age);
    SleepingYoung(size, true, age);
    SmallWrap(size - 1);
    hide Wrap, Settled;
    assert c0.prod.threads[1 := HasHead(1, 0, 0, 0)] == c1.prod.threads && c0.items[1 := [1]] == c1.items;
    assert c1.prod.threads[1 := HasLimit(1, 0, 0, size - 1, 0)] == c2.prod.threads;
    Stays(cfg, c1, age);
    Stays(cfg, c2, age);
    Prepended(cfg, c1, P(Limit(1), []), c2, [], c2, age);
    if further {
      Prepended(cfg, c0, P(Begin(1, 1), [1]), c1, [P(Limit(1), [])] + [], c2, age);
    } else {
      Prepended(cfg, c0, P(Begin(1, 1), [1]), c1, [], c1, age);
    }
  }

  lemma FirstRound(size: nat, further: bool, age: int)
    requires 2 <= size <= W && age >= 2
    ensures Runs32(Mpsc(size), Sleeping(size, further), EnqueueSteps(0, 0) + DequeueSteps(),
                   Passing(size, Asleep(size, further), 1, 1), age)
  {
    hide Runs32, Slot, EnqueueSteps, DequeueSteps;
    SmallWrap(size - 1);
    SmallWrap(1);
    hide Wrap;
    var cfg, c, l := Mpsc(size), Sleeping(size, further), Asleep(size, further);
    SleepingYoung(size, further, age);
    EnqueueRuns(size, c, 0, 0, age);
    var c1 := Enqueued(cfg, c, 0, 0);
    assert c1.slots == Zeros(size) && c1.history == Zeros(1) && c1.prod.owner == Zeros(1);
    assert c1.items == map[0 := [0], 1 := [1]];
    assert c1.prod.threads == Passing(size, l, 1, 1).prod.threads;
    assert Young(age, c1.prod) by {
      PassingYoung(size, l, 1, 1, age);
    }
    DequeueRuns(size, c1, age);
    assert c1.cons.threads[0 := Idle] == map[0 := Idle] && c1.got[0 := [0]] == map[0 := [0]];
    assert [] + [0] == Zeros(1);
    assert Dequeued(cfg, c1) == Passing(size, l, 1, 1);
    Chained(cfg, c, EnqueueSteps(0, 0), c1, DequeueSteps(), Passing(size, l, 1, 1), age);
  }

  /** Producer 1 falls asleep, and n elements pass through the ring. */
  function Nap(further: bool, n: nat): seq<Step<nat>>
    requires n >= 1
  {
    FallAsleep(further) + ((EnqueueSteps(0, 0) + DequeueSteps()) + Rounds(n - 1))
  }

  lemma NapRuns(size: nat, further: bool, n: nat, age: int)
    requires 2 <= size <= W && 1 <= n < age
    ensures Runs32(Mpsc(size), New(size), Nap(further, n), Passing(size, Asleep(size, further), n, n), age)
  {
    hide Runs32, EnqueueSteps, DequeueSteps, Passing, Rounds, FallAsleep;
    var cfg, l := Mpsc(size), Asleep(size, further);
    FallsAsleep(size, further, age);
    FirstRound(size, further, age);
    RoundsRun(size, l, 1, n - 1, age);
    Chained(cfg, Sleeping(size, further), EnqueueSteps(0, 0) + DequeueSteps(), Passing(size, l, 1, 1), Rounds(n - 1),
            Passing(size, l, n, n), age);
    Chained(cfg, New(size), FallAsleep(further), Sleeping(size, further),
            (EnqueueSteps(0, 0) + DequeueSteps()) + Rounds(n - 1), Passing(size, l, n, n), age);
  }

  // ----- a false 0 -----

  /** Every 0 that enqueue returns in a run whose loaded heads stay below `age` is truthful:
      the ring is full. */
  ghost predicate ZeroTruthful(size: nat, age: int) {
    forall run, c, t: nat {:trigger FoundZero(size, run, c, t, age)} ::
      FoundZero(size, run, c, t, age) ==> |c.history| == |c.delivered| + Usable(size)
  }

  ghost predicate FoundZero(size: nat, run: seq<Step<nat>>, c: Ring<nat>, t: nat, age: int) {
    && Runs32(Mpsc(size), New(size), run, c, age)
    && ReturnsZero(MT, false, c.prod, Wrap(Usable(size) + c.cons.tail), t) && Get(c.prod, t).n > 0
  }

  /** A producer sleeps on a head of 0 while 2^32 - capacity elements pass through, and then
      finds the empty ring full. */
  lemma FalseZero(size: nat, age: int)
    requires 2 <= size < W && age > W - (size - 1)
    ensures !ZeroTruthful(size, age)
  {
    var n := W - (size - 1);
    NapRuns(size, false, n, age);
    var c := Passing(size, HasHead(1, 0, 0, 0), n, n);
    SmallWrap(n);
    assert Wrap(size - 1 + n) == 0;
    assert ReturnsZero(MT, false, c.prod, Wrap(size - 1 + c.cons.tail), 1);
    hide Runs32, ReturnsZero;
    assert FoundZero(size, Nap(false, n), c, 1, age);
  }

  lemma SizeBounds(e: nat)
    requires 1 <= e <= 31
    ensures 2 <= Pow2(e) <= 0x8000_0000 && Pow2(32) == W
  {
    Pow2Values();
    hide Pow2;
    Pow2Monotone(1, e);
    Pow2Monotone(e, 31);
  }

  lemma ZeroAt(e: nat, run: seq<Step<nat>>, c: Ring<nat>, t: nat, age: int)
    requires 1 <= e <= 31 && Pow2(e) >= 1 && age <= W - Usable(Pow2(e)) && FoundZero(Pow2(e), run, c, t, age)
    ensures |c.history| == |c.delivered| + Usable(Pow2(e))
  {
    hide Pow2, Runs32, ReturnsZero, Wrap, Usable;
    SizeBounds(e);
    NewIs(Pow2(e));
    Older(Mpsc(Pow2(e)), New(Pow2(e)), run, c, age, W - Usable(Pow2(e)));
    EnqueueZeroTruthful(Mpsc(Pow2(e)), e, Zeros(Pow2(e)), run, c, t);
  }

  lemma NewIs(size: nat)
    requires size >= 1
    ensures New(size) == Initial(Zeros(size)) && |Zeros(size)| == size
  {
  }

  /** A 0 is truthful exactly as long as no loaded head grows 2^32 - capacity positions old. */
  lemma ZeroTruthfulIff(e: nat, age: int)
    requires 1 <= e <= 31
    ensures ZeroTruthful(Pow2(e), age) <==> age <= W - Usable(Pow2(e))
  {
    hide Pow2, FoundZero;
    SizeBounds(e);
    var size := Pow2(e);
    if age <= W - Usable(size) {
      forall run, c, t: nat | FoundZero(size, run, c, t, age)
        ensures |c.history| == |c.delivered| + Usable(size)
      {
        ZeroAt(e, run, c, t, age);
      }
    } else {
      FalseZero(size, age);
    }
  }

  // ----- a stale swap -----

  /** In every run whose loaded heads stay below `age`, what was returned is an initial part
      of what was put in. */
  ghost predicate OrderKept(size: nat, age: int) {
    forall run, c {:trigger Runs32(Mpsc(size), New(size), run, c, age)} ::
      Runs32(Mpsc(size), New(size), run, c, age) ==> c.delivered <= c.history
  }

  /** Producer 1 sleeps until the wrapped head is 0 again and the ring is full; then it
      stores 1, producer 0 enqueues 2, and the consumer dequeues. */
  function StaleRun(size: nat): seq<Step<nat>>
    requires 2 <= size < W
  {
    (Nap(true, W - (size - 1)) + Filling(size - 1)) + (StoreSteps(1) + (EnqueueSteps(0, 2) + DequeueSteps()))
  }

  lemma OneMoreThanMultiple(size: nat, j: nat, w: nat)
    requires size >= 2 && j >= 1 && w == j * size
    ensures w - size + 1 >= 1 && (w - size + 1) % size == 1
  {
    assert (j - 1) * size == w - size;
    ModOfMultiple(1, size, j - 1);
    SmallMod(1, size);
  }

  /** The oldest unread element of the full ring is in slot 1. */
  lemma OldestSlot(e: nat)
    requires 1 <= e <= 31
    ensures 2 <= Pow2(e) <= 0x8000_0000
    ensures Slot(Mpsc(Pow2(e)), W - Pow2(e) + 1, 0) == 1
    ensures Slot(Mpsc(Pow2(e)), 0, 0) == 0 && Slot(Mpsc(Pow2(e)), 1, 0) == 1
  {
    hide Pow2, Slot, Wrap;
    SizeBounds(e);
    SlotPower(e, 0);
    SlotPower(e, 1);
    var size := Pow2(e);
    var j := PowerDivides(e, 32);
    assert j >= 1;
    OneMoreThanMultiple(size, j, W);
    SmallWrap(W - size + 1);
    SlotExact(Mpsc(size), e, W - size + 1, 0);
  }

  lemma WrapAround(size: nat)
    requires 2 <= size <= 0x8000_0000
    ensures Wrap(W) == 0 && Wrap(W - size + 1) == W - size + 1 && Wrap(1) == 1 && Wrap(2) == 2
    ensures Wrap(size - 1) == size - 1 && Wrap(Wrap(size - 1 + (W - size + 1)) - 1) >= 1
    ensures Wrap(2 - (W - size + 1)) >= 1
  {
  }

  /** What producer 1 and then producer 0 make of the full ring: 2 is returned where a 0 is
      due. */
  lemma Awakening(e: nat, age: int) returns (c': Ring<nat>)
    requires 1 <= e <= 31 && 2 <= Pow2(e) <= 0x8000_0000 && age > W
    ensures Runs32(Mpsc(Pow2(e)), Passing(Pow2(e), Asleep(Pow2(e), true), W, W - Pow2(e) + 1),
                   StoreSteps(1) + (EnqueueSteps(0, 2) + DequeueSteps()), c', age)
    ensures c'.delivered == Zeros(W - Pow2(e) + 1) + [2] && c'.history == Zeros(W) + [1] + [2]
  {
    hide Runs32, Slot, EnqueueSteps, DequeueSteps, StoreSteps, Pow2;
    OldestSlot(e);
    var size := Pow2(e);
    var cfg, l := Mpsc(size), Asleep(size, true);
    var c := Passing(size, l, W, W - size + 1);
    PassingYoung(size, l, W, W - size + 1, age);
    AwakeSettled(size, W, W - size + 1, age);
    WrapAround(size);
    hide Wrap, Young, Settled;
    StoreRuns(size, c, 1, 1, size - 1, 0, age);
    var c1 := Stored(cfg, c, 1, 1);
    AwakeYoung(c1, age);
    EnqueueRuns(size, c1, 0, 2, age);
    var c2 := Enqueued(cfg, c1, 0, 2);
    AwakeYoung(c2, age);
    DequeueRuns(size, c2, age);
    c' := Dequeued(cfg, c2);
    Chained(cfg, c1, EnqueueSteps(0, 2), c2, DequeueSteps(), c', age);
    Chained(cfg, c, StoreSteps(1), c1, EnqueueSteps(0, 2) + DequeueSteps(), c', age);
  }

  lemma AwakeSettled(size: nat, a: nat, b: nat, age: int)
    requires size >= 1 && age >= 1
    ensures Settled(age, Passing(size, Asleep(size, true), a, b).prod, 1)
  {
  }

  lemma AwakeYoung(c: Ring<nat>, age: int)
    requires age >= 1 && c.prod.threads.Keys <= {0, 1} && Get(c.prod, 0).Idle? && Get(c.prod, 1).Idle?
    requires c.cons.threads.Keys <= {0} && Get(c.cons, 0).Idle?
    ensures YoungRing(age, c) && Settled(age, c.prod, 0)
  {
  }

  /** For every ring size: a producer that sleeps on a loaded head while exactly 2^32
      positions pass swaps successfully into a full ring.  The ring then believes it has
      room, and the next element overwrites the oldest unread one: the consumer is given 2,
      the last element enqueued, while the ring was full of zeros enqueued before it. */
  lemma StaleHeadBreaksFifo(e: nat, age: int) returns (c': Ring<nat>)
    requires 1 <= e <= 31 && age > W
    ensures 2 <= Pow2(e) < W && Runs32(Mpsc(Pow2(e)), New(Pow2(e)), StaleRun(Pow2(e)), c', age)
    ensures c'.delivered == Zeros(W - Pow2(e) + 1) + [2] && c'.history == Zeros(W) + [1] + [2]
  {
    hide Runs32, Slot, EnqueueSteps, DequeueSteps, StoreSteps, Pow2, Passing, Nap, Filling;
    OldestSlot(e);
    var size := Pow2(e);
    var n, l := W - (size - 1), Asleep(size, true);
    NapRuns(size, true, n, age);
    FillingRuns(size, l, n, size - 1, age);
    Chained(Mpsc(size), New(size), Nap(true, n), Passing(size, l, n, n), Filling(size - 1),
            Passing(size, l, W, n), age);
    c' := Awakening(e, age);
    Chained(Mpsc(size), New(size), Nap(true, n) + Filling(size - 1), Passing(size, l, W, n),
            StoreSteps(1) + (EnqueueSteps(0, 2) + DequeueSteps()), c', age);
  }

  /** The queue order is kept exactly as long as no loaded head grows 2^32 positions old. */
  lemma OrderKeptIff(e: nat, age: int)
    requires 1 <= e <= 31
    ensures OrderKept(Pow2(e), age) <==> age <= W
  {
    SizeBounds(e);
    hide Pow2, Runs32;
    var size := Pow2(e);
    if age <= W {
      forall run, c | Runs32(Mpsc(size), New(size), run, c, age)
        ensures c.delivered <= c.history
      {
        Older(Mpsc(size), New(size), run, c, age, W);
        var g := Run32FromEmpty(false, Mpsc(size), e, Zeros(size), run, c);
      }
    } else {
      var c := StaleHeadBreaksFifo(e, age);
      var i := W - size + 1;
      assert c.delivered[i] == 2 && c.history[i] == 0;
    }
  }
}
