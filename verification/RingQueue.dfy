/** The ring as a queue: both sides of the protocol over a shared buffer of slots.
    `history` is what the producers' reservations will have written, in the order of
    the positions; it is the yardstick the buffer is compared with.  `delivered` is what
    the consumers have returned, in the order of their tail stores. */
module RingQueue {
  import opened Arithmetic
  import opened RingMask
  import opened RingSide

  datatype Config = Config(size: nat, pmode: Mode, cmode: Mode, ptrans: bool, ctrans: bool) {
    /** One slot always stays empty. */
    function Capacity(): nat {
      Usable(size)
    }
  }

  datatype Ring<T> = Ring(prod: Side, cons: Side, slots: seq<T>, history: seq<T>, delivered: seq<T>,
                          items: map<nat, seq<T>>, got: map<nat, seq<T>>)

  /** A step of a producer (with the elements it offers when it begins) or of a consumer. */
  datatype Step<T> = P(e: Event, xs: seq<T>) | C(e: Event)

  function Of<T>(m: map<nat, seq<T>>, t: nat): seq<T> {
    if t in m then m[t] else []
  }

  ghost predicate CanStep<T>(cfg: Config, r: Ring<T>, st: Step<T>) {
    match st
    case P(e, xs) =>
      && Enabled(cfg.pmode, cfg.ptrans, r.prod, r.cons.tail + cfg.Capacity(), e)
      && (e.Begin? ==> |xs| == e.n)
    case C(e) => Enabled(cfg.cmode, cfg.ctrans, r.cons, r.prod.tail, e)
  }

  // ----- the invariant -----

  ghost predicate Holds<T>(r: Ring<T>, p: nat) {
    p < |r.history| && |r.slots| > 0 && r.slots[p % |r.slots|] == r.history[p]
  }

  ghost predicate Published<T>(r: Ring<T>, p: nat) {
    r.cons.tail <= p < r.prod.tail ==> Holds(r, p)
  }

  ghost predicate Written<T>(r: Ring<T>, t: nat, p: nat) {
    Get(r.prod, t).Owns? && Get(r.prod, t).lo <= p < Get(r.prod, t).lo + Get(r.prod, t).done ==> Holds(r, p)
  }

  /** A producer's elements, and the history it has reserved. */
  ghost predicate Offered<T>(r: Ring<T>, t: nat) {
    match Get(r.prod, t)
    case Idle => true
    case HasHead(n, _, _, _) => |Of(r.items, t)| == n
    case HasLimit(n, _, _, _, _) => |Of(r.items, t)| == n
    case Owns(lo, hi, _) =>
      lo <= hi <= |r.history| && hi - lo <= |Of(r.items, t)| && r.history[lo..hi] == Of(r.items, t)[..hi - lo]
  }

  /** What a consumer has copied so far is the history of its positions. */
  ghost predicate Received<T>(r: Ring<T>, t: nat) {
    match Get(r.cons, t)
    case Owns(lo, hi, done) =>
      lo + done <= hi <= |r.history| && Of(r.got, t) == r.history[lo..lo + done]
    case _ => true
  }

  ghost predicate Returned<T>(r: Ring<T>) {
    r.cons.tail <= |r.history| && r.delivered == r.history[..r.cons.tail]
  }

  ghost predicate Inv<T>(cfg: Config, r: Ring<T>) {
    && cfg.size >= 1 && |r.slots| == cfg.size && |r.history| == r.prod.head
    && SideInv(cfg.pmode, r.prod, r.cons.tail + cfg.Capacity())
    && SideInv(cfg.cmode, r.cons, r.prod.tail)
    && (forall p {:trigger Published(r, p)} :: Published(r, p))
    && (forall t, p {:trigger Written(r, t, p)} :: Written(r, t, p))
    && (forall t {:trigger Offered(r, t)} :: Offered(r, t))
    && (forall t {:trigger Received(r, t)} :: Received(r, t))
    && Returned(r)
  }

  function Initial<T>(slots: seq<T>): Ring<T> {
    Ring(Side(0, 0, map[], []), Side(0, 0, map[], []), slots, [], [], map[], map[])
  }

  lemma InitialInv<T>(cfg: Config, slots: seq<T>)
    requires cfg.size >= 1 && |slots| == cfg.size
    ensures Inv(cfg, Initial(slots))
  {
  }

  function DoStep<T>(cfg: Config, r: Ring<T>, st: Step<T>): Ring<T>
    requires Inv(cfg, r) && CanStep(cfg, r, st)
  {
    match st
    case P(e, xs) => Produce(cfg, r, e, xs)
    case C(e) => Consume(cfg, r, e)
  }

  function Produce<T>(cfg: Config, r: Ring<T>, e: Event, xs: seq<T>): Ring<T>
    requires Inv(cfg, r) && CanStep(cfg, r, P(e, xs))
  {
    var l := Get(r.prod, e.t);
    assert Offered(r, e.t) && ThreadOk(cfg.pmode, r.prod, r.cons.tail + cfg.Capacity(), e.t);
    var prod := Apply(cfg.pmode, cfg.ptrans, r.prod, r.cons.tail + cfg.Capacity(), e);
    match e
    case Begin(t, n) => r.(prod := prod, items := r.items[t := xs])
    case Reserve(t) =>
      var k := Take(l.n, l.limit - l.seen, cfg.ptrans);
      r.(prod := prod, history := r.history + Of(r.items, t)[..k])
    case Copy(t) =>
      r.(prod := prod, slots := r.slots[(l.lo + l.done) % cfg.size := Of(r.items, t)[l.done]])
    case _ => r.(prod := prod)
  }

  function Consume<T>(cfg: Config, r: Ring<T>, e: Event): Ring<T>
    requires Inv(cfg, r) && CanStep(cfg, r, C(e))
  {
    var l := Get(r.cons, e.t);
    var cons := Apply(cfg.cmode, cfg.ctrans, r.cons, r.prod.tail, e);
    match e
    case Reserve(t) => r.(cons := cons, got := r.got[t := []])
    case Copy(t) =>
      r.(cons := cons, got := r.got[t := Of(r.got, t) + [r.slots[(l.lo + l.done) % cfg.size]]])
    case Publish(t) => r.(cons := cons, delivered := r.delivered + Of(r.got, t))
    case _ => r.(cons := cons)
  }

  // ----- every step keeps the invariant -----

  /** Producer steps that touch no slot and publish nothing. */
  lemma ProduceOthers<T>(cfg: Config, r: Ring<T>, e: Event, xs: seq<T>)
    requires Inv(cfg, r) && CanStep(cfg, r, P(e, xs)) && !e.Copy? && !e.Publish?
    ensures var r' := Produce(cfg, r, e, xs);
            && (forall t {:trigger Received(r', t)} :: Received(r', t))
            && (forall p {:trigger Published(r', p)} :: Published(r', p))
            && (forall t {:trigger Offered(r', t)} :: Offered(r', t))
            && (forall t, p {:trigger Written(r', t, p)} :: Written(r', t, p))
  {
    hide SideInv;
    var r' := Produce(cfg, r, e, xs);
    forall t: nat
      ensures Received(r', t)
    {
      assert Received(r, t);
    }
    forall p: nat
      ensures Published(r', p)
    {
      assert Published(r, p);
    }
    forall t: nat
      ensures Offered(r', t)
    {
      assert Offered(r, t);
      if t == e.t && e.Reserve? {
        ReserveOffered(cfg, r, e, xs);
      }
    }
    forall t: nat, p: nat
      ensures Written(r', t, p)
    {
      assert Written(r, t, p);
    }
  }

  lemma ReserveOffered<T>(cfg: Config, r: Ring<T>, e: Event, xs: seq<T>)
    requires Inv(cfg, r) && CanStep(cfg, r, P(e, xs)) && e.Reserve?
    ensures Offered(Produce(cfg, r, e, xs), e.t)
  {
    NothingInFlight(cfg.pmode, cfg.ptrans, r.prod, r.cons.tail + cfg.Capacity(), e);
    assert Offered(r, e.t);
    var r' := Produce(cfg, r, e, xs);
    var l := Get(r'.prod, e.t);
    assert r'.history[l.lo..l.hi] == Of(r.items, e.t)[..l.hi - l.lo];
  }

  /** A slot being written is nobody else's: not published, not written, not being read. */
  lemma CopyLandsApart<T>(cfg: Config, r: Ring<T>, t: nat, p: nat)
    requires Inv(cfg, r) && Get(r.prod, t).Owns? && Get(r.prod, t).lo + Get(r.prod, t).done < Get(r.prod, t).hi
    requires r.cons.tail <= p < r.prod.head && p != Get(r.prod, t).lo + Get(r.prod, t).done
    ensures p % cfg.size != (Get(r.prod, t).lo + Get(r.prod, t).done) % cfg.size
  {
    assert ThreadOk(cfg.pmode, r.prod, r.cons.tail + cfg.Capacity(), t);
    ResiduesDiffer(p, Get(r.prod, t).lo + Get(r.prod, t).done, cfg.size);
  }

  lemma CopyHolds<T>(cfg: Config, r: Ring<T>, e: Event, xs: seq<T>, p: nat)
    requires Inv(cfg, r) && CanStep(cfg, r, P(e, xs)) && e.Copy?
    requires r.cons.tail <= p < r.prod.head
    requires Holds(r, p) || p == Get(r.prod, e.t).lo + Get(r.prod, e.t).done
    ensures Holds(Produce(cfg, r, e, xs), p)
  {
    var l := Get(r.prod, e.t);
    assert Offered(r, e.t) && ThreadOk(cfg.pmode, r.prod, r.cons.tail + cfg.Capacity(), e.t);
    hide SideInv;
    if p == l.lo + l.done {
      assert r.history[p] == r.history[l.lo..l.hi][l.done] == Of(r.items, e.t)[l.done];
    } else {
      CopyLandsApart(cfg, r, e.t, p);
    }
  }

  lemma CopyWritten<T>(cfg: Config, r: Ring<T>, e: Event, xs: seq<T>, t: nat, p: nat)
    requires Inv(cfg, r) && CanStep(cfg, r, P(e, xs)) && e.Copy?
    ensures Written(Produce(cfg, r, e, xs), t, p)
  {
    assert Written(r, t, p) && ThreadOk(cfg.pmode, r.prod, r.cons.tail + cfg.Capacity(), t);
    WrittenInFlight(cfg, r, t, p);
    if Get(r.prod, t).Owns? && Get(r.prod, t).lo <= p < Get(r.prod, t).hi {
      if Holds(r, p) || p == Get(r.prod, e.t).lo + Get(r.prod, e.t).done {
        CopyHolds(cfg, r, e, xs, p);
      }
    }
    hide Inv, Holds;
  }

  lemma ProduceCopy<T>(cfg: Config, r: Ring<T>, e: Event, xs: seq<T>)
    requires Inv(cfg, r) && CanStep(cfg, r, P(e, xs)) && e.Copy?
    ensures var r' := Produce(cfg, r, e, xs);
            && (forall t {:trigger Received(r', t)} :: Received(r', t))
            && (forall p {:trigger Published(r', p)} :: Published(r', p))
            && (forall t {:trigger Offered(r', t)} :: Offered(r', t))
            && (forall t, p {:trigger Written(r', t, p)} :: Written(r', t, p))
  {
    hide SideInv, Holds;
    var r' := Produce(cfg, r, e, xs);
    forall t: nat
      ensures Received(r', t) && Offered(r', t)
    {
      assert Received(r, t) && Offered(r, t);
    }
    forall p: nat
      ensures Published(r', p)
    {
      CopyPublished(cfg, r, e, xs, p);
    }
    forall t: nat, p: nat
      ensures Written(r', t, p)
    {
      CopyWritten(cfg, r, e, xs, t, p);
    }
  }

  lemma CopyPublished<T>(cfg: Config, r: Ring<T>, e: Event, xs: seq<T>, p: nat)
    requires Inv(cfg, r) && CanStep(cfg, r, P(e, xs)) && e.Copy?
    ensures Published(Produce(cfg, r, e, xs), p)
  {
    assert Published(r, p);
    if r.cons.tail <= p < r.prod.tail {
      CopyHolds(cfg, r, e, xs, p);
    }
    hide Inv, Holds;
  }

  lemma WrittenInFlight<T>(cfg: Config, r: Ring<T>, t: nat, p: nat)
    requires Inv(cfg, r)
    ensures Get(r.prod, t).Owns? && Get(r.prod, t).lo <= p < Get(r.prod, t).hi ==> r.cons.tail <= p < r.prod.head
  {
    assert ThreadOk(cfg.pmode, r.prod, r.cons.tail + cfg.Capacity(), t);
  }

  lemma ProducePublish<T>(cfg: Config, r: Ring<T>, e: Event, xs: seq<T>)
    requires Inv(cfg, r) && CanStep(cfg, r, P(e, xs)) && e.Publish?
    ensures var r' := Produce(cfg, r, e, xs);
            && (forall t {:trigger Received(r', t)} :: Received(r', t))
            && (forall p {:trigger Published(r', p)} :: Published(r', p))
            && (forall t {:trigger Offered(r', t)} :: Offered(r', t))
            && (forall t, p {:trigger Written(r', t, p)} :: Written(r', t, p))
  {
    var limit := r.cons.tail + cfg.Capacity();
    var r' := Produce(cfg, r, e, xs);
    PublisherIsOldest(cfg.pmode, cfg.ptrans, r.prod, limit, e);
    forall t: nat
      ensures Received(r', t) && Offered(r', t)
    {
      assert Received(r, t) && Offered(r, t);
    }
    forall p: nat
      ensures Published(r', p)
    {
      assert Published(r, p) && Written(r, e.t, p);
    }
    forall t: nat, p: nat
      ensures Written(r', t, p)
    {
      assert Written(r, t, p);
    }
  }

  lemma ProduceInv<T>(cfg: Config, r: Ring<T>, e: Event, xs: seq<T>)
    requires Inv(cfg, r) && CanStep(cfg, r, P(e, xs))
    ensures Inv(cfg, Produce(cfg, r, e, xs))
  {
    var limit := r.cons.tail + cfg.Capacity();
    SideStep(cfg.pmode, cfg.ptrans, r.prod, limit, e);
    var r' := Produce(cfg, r, e, xs);
    LimitGrows(cfg.cmode, r.cons, r.prod.tail, r'.prod.tail);
    if e.Reserve? {
      NothingInFlight(cfg.pmode, cfg.ptrans, r.prod, limit, e);
      assert Offered(r, e.t);
    }
    if e.Copy? {
      ProduceCopy(cfg, r, e, xs);
    } else if e.Publish? {
      ProducePublish(cfg, r, e, xs);
    } else {
      ProduceOthers(cfg, r, e, xs);
    }
    hide SideInv, Published, Written, Offered, Received;
  }

  /** A consumer reads a slot that holds the published value of its position. */
  lemma ReadsPublished<T>(cfg: Config, r: Ring<T>, e: Event)
    requires Inv(cfg, r) && CanStep(cfg, r, C(e)) && e.Copy?
    ensures var l := Get(r.cons, e.t);
            && r.cons.tail <= l.lo + l.done < r.prod.tail
            && l.lo + l.done < |r.history| && r.slots[(l.lo + l.done) % cfg.size] == r.history[l.lo + l.done]
  {
    var l := Get(r.cons, e.t);
    assert ThreadOk(cfg.cmode, r.cons, r.prod.tail, e.t);
    assert Published(r, l.lo + l.done);
  }

  lemma ConsumeInv<T>(cfg: Config, r: Ring<T>, e: Event)
    requires Inv(cfg, r) && CanStep(cfg, r, C(e))
    ensures Inv(cfg, Consume(cfg, r, e))
  {
    SideStep(cfg.cmode, cfg.ctrans, r.cons, r.prod.tail, e);
    var r' := Consume(cfg, r, e);
    LimitGrows(cfg.pmode, r.prod, r.cons.tail + cfg.Capacity(), r'.cons.tail + cfg.Capacity());
    ConsumeReceived(cfg, r, e);
    ConsumeReturned(cfg, r, e);
    hide SideInv;
    forall p: nat
      ensures Published(r', p)
    {
      assert Published(r, p);
    }
    forall t: nat, p: nat
      ensures Written(r', t, p)
    {
      assert Written(r, t, p);
    }
    forall t: nat
      ensures Offered(r', t)
    {
      assert Offered(r, t);
    }
  }

  /** A consumer's tail store returns the history of the positions it frees. */
  lemma ConsumeReturned<T>(cfg: Config, r: Ring<T>, e: Event)
    requires Inv(cfg, r) && CanStep(cfg, r, C(e))
    ensures Returned(Consume(cfg, r, e))
  {
    if e.Publish? {
      PublisherIsOldest(cfg.cmode, cfg.ctrans, r.cons, r.prod.tail, e);
      assert Received(r, e.t);
      hide SideInv;
      var l := Get(r.cons, e.t);
      assert r.history[..l.hi] == r.history[..l.lo] + r.history[l.lo..l.hi];
    }
  }

  lemma CopyReceived<T>(cfg: Config, r: Ring<T>, e: Event)
    requires Inv(cfg, r) && CanStep(cfg, r, C(e)) && e.Copy?
    ensures Received(Consume(cfg, r, e), e.t)
  {
    ReadsPublished(cfg, r, e);
    assert Received(r, e.t);
    hide Inv;
    var l := Get(r.cons, e.t);
    assert r.history[l.lo..l.lo + l.done + 1] == r.history[l.lo..l.lo + l.done] + [r.history[l.lo + l.done]];
  }

  lemma ReserveReceived<T>(cfg: Config, r: Ring<T>, e: Event)
    requires Inv(cfg, r) && CanStep(cfg, r, C(e)) && e.Reserve?
    ensures Received(Consume(cfg, r, e), e.t)
  {
    assert ThreadOk(cfg.cmode, r.cons, r.prod.tail, e.t);
    assert r.prod.tail <= r.prod.head;
  }

  lemma ConsumeReceived<T>(cfg: Config, r: Ring<T>, e: Event)
    requires Inv(cfg, r) && CanStep(cfg, r, C(e))
    ensures var r' := Consume(cfg, r, e);
            forall t {:trigger Received(r', t)} :: Received(r', t)
  {
    hide SideInv;
    var r' := Consume(cfg, r, e);
    forall t: nat
      ensures Received(r', t)
    {
      assert Received(r, t);
      if t == e.t && e.Copy? {
        CopyReceived(cfg, r, e);
      } else if t == e.t && e.Reserve? {
        ReserveReceived(cfg, r, e);
      }
    }
  }

  /** Every step of any producer or consumer, in every combination of modes, keeps the
      ring's invariant. */
  lemma StepInv<T>(cfg: Config, r: Ring<T>, st: Step<T>)
    requires Inv(cfg, r) && CanStep(cfg, r, st)
    ensures Inv(cfg, DoStep(cfg, r, st))
  {
    match st
    case P(e, xs) => ProduceInv(cfg, r, e, xs);
    case C(e) => ConsumeInv(cfg, r, e);
  }

  // ----- refinement of a bounded FIFO -----

  /** The abstract queue: published and not yet claimed. */
  function Queue<T>(cfg: Config, r: Ring<T>): seq<T>
    requires Inv(cfg, r)
  {
    r.history[r.cons.head..r.prod.tail]
  }

  /** What a step does to the abstract queue. */
  datatype Label<T> = Enqueues(xs: seq<T>) | Dequeues(k: nat) | Silent

  /** A producer's elements enter the queue at its tail store; a consumer takes its
      elements out at its successful head move. */
  function LabelOf<T>(cfg: Config, r: Ring<T>, st: Step<T>): Label<T>
    requires Inv(cfg, r) && CanStep(cfg, r, st)
  {
    match st
    case P(e, xs) =>
      if e.Publish? then
        assert Offered(r, e.t) && ThreadOk(cfg.pmode, r.prod, r.cons.tail + cfg.Capacity(), e.t);
        Enqueues(Of(r.items, e.t)[..Get(r.prod, e.t).hi - Get(r.prod, e.t).lo])
      else Silent
    case C(e) =>
      if e.Reserve? then
        assert ThreadOk(cfg.cmode, r.cons, r.prod.tail, e.t);
        Dequeues(Take(Get(r.cons, e.t).n, Get(r.cons, e.t).limit - Get(r.cons, e.t).seen, cfg.ctrans))
      else Silent
  }

  /** A bounded first-in first-out queue. */
  ghost predicate FifoStep<T>(capacity: nat, q: seq<T>, q': seq<T>, a: Label<T>) {
    && |q| <= capacity && |q'| <= capacity
    && match a
       case Enqueues(xs) => q' == q + xs
       case Dequeues(k) => 1 <= k <= |q| && q' == q[k..]
       case Silent => q' == q
  }

  lemma QueueBounded<T>(cfg: Config, r: Ring<T>)
    requires Inv(cfg, r)
    ensures |Queue(cfg, r)| <= cfg.Capacity()
  {
  }

  lemma PublishRefines<T>(cfg: Config, r: Ring<T>, e: Event, xs: seq<T>)
    requires Inv(cfg, r) && CanStep(cfg, r, P(e, xs)) && e.Publish?
    ensures var r' := Produce(cfg, r, e, xs);
            Inv(cfg, r') && Queue(cfg, r') == Queue(cfg, r) + LabelOf(cfg, r, P(e, xs)).xs
  {
    ProduceInv(cfg, r, e, xs);
    PublisherIsOldest(cfg.pmode, cfg.ptrans, r.prod, r.cons.tail + cfg.Capacity(), e);
    assert Offered(r, e.t);
    hide SideInv;
    var l := Get(r.prod, e.t);
    assert r.history[r.cons.head..l.hi] == r.history[r.cons.head..l.lo] + r.history[l.lo..l.hi];
  }

  /** A successful head move of a consumer claims the positions from its old head on. */
  lemma ClaimOwns<T>(cfg: Config, r: Ring<T>, e: Event)
    requires Inv(cfg, r) && CanStep(cfg, r, C(e)) && e.Reserve?
    ensures var r', k, h := Consume(cfg, r, e), LabelOf(cfg, r, C(e)).k, r.cons.head;
            && Get(r'.cons, e.t) == Owns(h, h + k, 0) && r'.cons.head == h + k && 1 <= k
            && r'.history == r.history && r'.prod == r.prod && h + k <= r.prod.tail <= |r.history|
  {
    NothingInFlight(cfg.cmode, cfg.ctrans, r.cons, r.prod.tail, e);
    assert ThreadOk(cfg.cmode, r.cons, r.prod.tail, e.t);
    hide SideInv;
  }

  lemma ClaimRefines<T>(cfg: Config, r: Ring<T>, e: Event)
    requires Inv(cfg, r) && CanStep(cfg, r, C(e)) && e.Reserve?
    ensures var r', k := Consume(cfg, r, e), LabelOf(cfg, r, C(e)).k;
            && Inv(cfg, r') && 1 <= k <= |Queue(cfg, r)| && Queue(cfg, r') == Queue(cfg, r)[k..]
            && var l := Get(r'.cons, e.t);
               l.Owns? && l.lo <= l.hi <= |r.history| && Queue(cfg, r)[..k] == r.history[l.lo..l.hi]
  {
    ConsumeInv(cfg, r, e);
    ClaimOwns(cfg, r, e);
    hide Inv, CanStep, Consume, LabelOf;
  }

  lemma SilentRefines<T>(cfg: Config, r: Ring<T>, st: Step<T>)
    requires Inv(cfg, r) && CanStep(cfg, r, st) && LabelOf(cfg, r, st).Silent?
    ensures Inv(cfg, DoStep(cfg, r, st)) && Queue(cfg, DoStep(cfg, r, st)) == Queue(cfg, r)
  {
    StepInv(cfg, r, st);
    assert st.P? && st.e.Reserve? ==> Offered(r, st.e.t);
    hide SideInv;
  }

  /** Refinement: every step of the ring is a step of a bounded FIFO, or invisible. */
  lemma RingRefinesFifo<T>(cfg: Config, r: Ring<T>, st: Step<T>)
    requires Inv(cfg, r) && CanStep(cfg, r, st)
    ensures Inv(cfg, DoStep(cfg, r, st))
    ensures FifoStep(cfg.Capacity(), Queue(cfg, r), Queue(cfg, DoStep(cfg, r, st)), LabelOf(cfg, r, st))
  {
    StepInv(cfg, r, st);
    QueueBounded(cfg, r);
    QueueBounded(cfg, DoStep(cfg, r, st));
    hide Inv, Queue, CanStep, Produce, Consume;
    if st.P? && st.e.Publish? {
      PublishRefines(cfg, r, st.e, st.xs);
    } else if st.C? && st.e.Reserve? {
      ClaimRefines(cfg, r, st.e);
    } else {
      SilentRefines(cfg, r, st);
    }
  }

  /** What a finishing consumer returns is exactly what it took out of the queue: the
      history of the positions it claimed. */
  lemma DeliversClaimed<T>(cfg: Config, r: Ring<T>, e: Event)
    requires Inv(cfg, r) && CanStep(cfg, r, C(e)) && e.Publish?
    ensures var l := Get(r.cons, e.t);
            l.lo <= l.hi <= |r.history| && Of(r.got, e.t) == r.history[l.lo..l.hi]
  {
    assert Received(r, e.t) && ThreadOk(cfg.cmode, r.cons, r.prod.tail, e.t);
  }

  // ----- runs -----

  ghost predicate Runs<T>(cfg: Config, r: Ring<T>, run: seq<Step<T>>, r': Ring<T>)
    requires Inv(cfg, r)
    decreases |run|
  {
    if run == [] then r' == r else
      && CanStep(cfg, r, run[0])
      && (StepInv(cfg, r, run[0]); Runs(cfg, DoStep(cfg, r, run[0]), run[1..], r'))
  }

  /** All elements that entered the abstract queue during a run, in order. */
  ghost function Entered<T>(cfg: Config, r: Ring<T>, run: seq<Step<T>>, r': Ring<T>): seq<T>
    requires Inv(cfg, r) && Runs(cfg, r, run, r')
    decreases |run|
  {
    if run == [] then [] else
      StepInv(cfg, r, run[0]);
      (match LabelOf(cfg, r, run[0]) case Enqueues(xs) => xs case _ => [])
      + Entered(cfg, DoStep(cfg, r, run[0]), run[1..], r')
  }

  /** All elements that left it, in order. */
  ghost function Left<T>(cfg: Config, r: Ring<T>, run: seq<Step<T>>, r': Ring<T>): seq<T>
    requires Inv(cfg, r) && Runs(cfg, r, run, r')
    decreases |run|
  {
    if run == [] then [] else
      StepInv(cfg, r, run[0]);
      RingRefinesFifo(cfg, r, run[0]);
      (match LabelOf(cfg, r, run[0]) case Dequeues(k) => Queue(cfg, r)[..k] case _ => [])
      + Left(cfg, DoStep(cfg, r, run[0]), run[1..], r')
  }

  /** Over every run of any number of threads nothing is lost, duplicated or reordered:
      what was in the queue and what entered it is what left it and what is still there. */
  lemma {:induction false} RunConserves<T>(cfg: Config, r: Ring<T>, run: seq<Step<T>>, r': Ring<T>)
    requires Inv(cfg, r) && Runs(cfg, r, run, r')
    ensures Inv(cfg, r')
    ensures Queue(cfg, r) + Entered(cfg, r, run, r') == Left(cfg, r, run, r') + Queue(cfg, r')
    decreases |run|
  {
    if run != [] {
      StepInv(cfg, r, run[0]);
      RingRefinesFifo(cfg, r, run[0]);
      var r1 := DoStep(cfg, r, run[0]);
      RunConserves(cfg, r1, run[1..], r');
      hide Inv, Queue, LabelOf, DoStep, CanStep;
      ConserveStep(Queue(cfg, r), Queue(cfg, r1), Queue(cfg, r'), LabelOf(cfg, r, run[0]),
                   Entered(cfg, r1, run[1..], r'), Left(cfg, r1, run[1..], r'), cfg.Capacity());
    }
  }

  lemma ConserveStep<T>(q: seq<T>, q1: seq<T>, q': seq<T>, a: Label<T>, entered: seq<T>, left: seq<T>, capacity: nat)
    requires FifoStep(capacity, q, q1, a) && q1 + entered == left + q'
    ensures var xs := match a case Enqueues(xs) => xs case _ => [];
            var ys := match a case Dequeues(k) => q[..k] case _ => [];
            q + (xs + entered) == (ys + left) + q'
  {
    match a
    case Enqueues(xs) =>
      assert q + (xs + entered) == q1 + entered;
      assert [] + left == left;
    case Dequeues(k) =>
      assert q + ([] + entered) == q[..k] + (q1 + entered);
    case Silent =>
      assert [] + entered == entered && [] + left == left;
  }

  /** From the empty ring, what has left is a prefix of what has entered. */
  lemma RunFromEmpty<T>(cfg: Config, slots: seq<T>, run: seq<Step<T>>, r': Ring<T>)
    requires cfg.size >= 1 && |slots| == cfg.size && (InitialInv(cfg, slots); Runs(cfg, Initial(slots), run, r'))
    ensures Inv(cfg, r')
    ensures Entered(cfg, Initial(slots), run, r') == Left(cfg, Initial(slots), run, r') + Queue(cfg, r')
  {
    InitialInv(cfg, slots);
    assert Queue(cfg, Initial(slots)) == [];
    hide Inv, Runs, Entered, Left, Queue;
    RunConserves(cfg, Initial(slots), run, r');
  }

  /** A step keeps what was reserved, and a consumer's claim until that consumer publishes. */
  lemma ClaimKept<T>(cfg: Config, r: Ring<T>, st: Step<T>, t: nat)
    requires Inv(cfg, r) && CanStep(cfg, r, st) && Get(r.cons, t).Owns? && st != C(Publish(t))
    ensures r.history <= DoStep(cfg, r, st).history
    ensures var l, l' := Get(r.cons, t), Get(DoStep(cfg, r, st).cons, t);
            l'.Owns? && l'.lo == l.lo && l'.hi == l.hi
  {
    assert st.P? && st.e.Reserve? ==> Offered(r, st.e.t);
    hide SideInv;
  }

  lemma {:induction false} ClaimKeptAlong<T>(cfg: Config, r: Ring<T>, run: seq<Step<T>>, r': Ring<T>, t: nat)
    requires Inv(cfg, r) && Runs(cfg, r, run, r') && Get(r.cons, t).Owns? && C(Publish(t)) !in run
    ensures r.history <= r'.history
    ensures var l, l' := Get(r.cons, t), Get(r'.cons, t);
            l'.Owns? && l'.lo == l.lo && l'.hi == l.hi
    decreases |run|
  {
    if run != [] {
      assert run[0] in run;
      StepInv(cfg, r, run[0]);
      ClaimKept(cfg, r, run[0], t);
      ClaimKeptAlong(cfg, DoStep(cfg, r, run[0]), run[1..], r', t);
    }
  }

  /** A consumer returns exactly the elements it took off the front of the queue when it
      moved the head, whatever the other threads do in between. */
  lemma ReturnsWhatItTook<T>(cfg: Config, r: Ring<T>, run: seq<Step<T>>, r': Ring<T>, t: nat)
    requires Inv(cfg, r) && CanStep(cfg, r, C(Reserve(t)))
    requires (StepInv(cfg, r, C(Reserve(t))); Runs(cfg, DoStep(cfg, r, C(Reserve(t))), run, r'))
    requires C(Publish(t)) !in run && CanStep(cfg, r', C(Publish(t)))
    ensures var k := LabelOf(cfg, r, C(Reserve(t))).k;
            k <= |Queue(cfg, r)| && Of(r'.got, t) == Queue(cfg, r)[..k]
  {
    hide Inv, Queue, LabelOf, CanStep, Runs, Consume, Produce;
    var r1 := DoStep(cfg, r, C(Reserve(t)));
    ClaimRefines(cfg, r, Reserve(t));
    ClaimKeepsHistory(cfg, r, Reserve(t));
    RunConserves(cfg, r1, run, r');
    ClaimKeptAlong(cfg, r1, run, r', t);
    DeliversClaimed(cfg, r', Publish(t));
  }

  lemma ClaimKeepsHistory<T>(cfg: Config, r: Ring<T>, e: Event)
    requires Inv(cfg, r) && CanStep(cfg, r, C(e)) && e.Reserve?
    ensures Consume(cfg, r, e).history == r.history
  {
    hide Inv, CanStep;
  }

  lemma ItemsKept<T>(cfg: Config, r: Ring<T>, st: Step<T>, t: nat)
    requires Inv(cfg, r) && CanStep(cfg, r, st) && !(st.P? && st.e.Begin? && st.e.t == t)
    ensures Of(DoStep(cfg, r, st).items, t) == Of(r.items, t)
  {
    hide Inv;
  }

  /** Thread t begins no new call in the run. */
  ghost predicate NoBegin<T>(run: seq<Step<T>>, t: nat) {
    forall i {:trigger run[i]} :: 0 <= i < |run| ==> !(run[i].P? && run[i].e.Begin? && run[i].e.t == t)
  }

  lemma {:induction false} ItemsKeptAlong<T>(cfg: Config, r: Ring<T>, run: seq<Step<T>>, r': Ring<T>, t: nat)
    requires Inv(cfg, r) && Runs(cfg, r, run, r') && NoBegin(run, t)
    ensures Of(r'.items, t) == Of(r.items, t)
    decreases |run|
  {
    hide Inv, CanStep, DoStep;
    if run != [] {
      StepInv(cfg, r, run[0]);
      ItemsKept(cfg, r, run[0], t);
      assert NoBegin(run[1..], t) by {
        assert forall i :: 0 <= i < |run| - 1 ==> run[1..][i] == run[i + 1];
      }
      ItemsKeptAlong(cfg, DoStep(cfg, r, run[0]), run[1..], r', t);
    }
  }

  /** The elements a producer puts into the queue at its tail store are the first of those its
      call began with, as many as it reserved positions. */
  lemma EntersWhatItWasGiven<T>(cfg: Config, r: Ring<T>, xs: seq<T>, run: seq<Step<T>>, r': Ring<T>, t: nat)
    requires Inv(cfg, r) && CanStep(cfg, r, P(Begin(t, |xs|), xs))
    requires (StepInv(cfg, r, P(Begin(t, |xs|), xs)); Runs(cfg, DoStep(cfg, r, P(Begin(t, |xs|), xs)), run, r'))
    requires NoBegin(run, t) && Inv(cfg, r') && CanStep(cfg, r', P(Publish(t), []))
    ensures var l := Get(r'.prod, t);
            && l.Owns? && 1 <= l.hi - l.lo <= |xs|
            && LabelOf(cfg, r', P(Publish(t), [])) == Enqueues(xs[..l.hi - l.lo])
  {
    hide Inv, Runs, CanStep, LabelOf;
    StepInv(cfg, r, P(Begin(t, |xs|), xs));
    BeginItems(cfg, r, xs, t);
    ItemsKeptAlong(cfg, DoStep(cfg, r, P(Begin(t, |xs|), xs)), run, r', t);
    PublishLabel(cfg, r', t);
  }

  lemma BeginItems<T>(cfg: Config, r: Ring<T>, xs: seq<T>, t: nat)
    requires Inv(cfg, r) && CanStep(cfg, r, P(Begin(t, |xs|), xs))
    ensures Of(DoStep(cfg, r, P(Begin(t, |xs|), xs)).items, t) == xs
  {
    hide Inv;
  }

  lemma PublishLabel<T>(cfg: Config, r: Ring<T>, t: nat)
    requires Inv(cfg, r) && CanStep(cfg, r, P(Publish(t), []))
    ensures var l := Get(r.prod, t);
            && l.Owns? && 1 <= l.hi - l.lo <= |Of(r.items, t)|
            && LabelOf(cfg, r, P(Publish(t), [])) == Enqueues(Of(r.items, t)[..l.hi - l.lo])
  {
    PublisherIsOldest(cfg.pmode, cfg.ptrans, r.prod, r.cons.tail + cfg.Capacity(), Publish(t));
    assert Offered(r, t);
    hide SideInv;
  }

  /** What the consumers have returned is an initial part of what the producers put in. */
  lemma DeliveredInOrder<T>(cfg: Config, r: Ring<T>)
    requires Inv(cfg, r)
    ensures r.delivered <= r.history && |r.delivered| == r.cons.tail && |r.history| == r.prod.head
  {
  }

  /** In every reachable state the four counters are ordered and at most `capacity`
      positions are in use. */
  lemma CountersOrdered<T>(cfg: Config, r: Ring<T>)
    requires Inv(cfg, r)
    ensures r.cons.tail <= r.cons.head <= r.prod.tail <= r.prod.head <= r.cons.tail + cfg.Capacity()
  {
  }

  /** Slots being written and slots being read are different slots, and so are the slots
      of two writers. */
  lemma InFlightSlotsApart<T>(cfg: Config, r: Ring<T>, t: nat, p: nat, u: nat, q: nat)
    requires Inv(cfg, r) && Get(r.prod, t).Owns? && Get(r.prod, t).lo <= p < Get(r.prod, t).hi
    requires
      || (Get(r.cons, u).Owns? && Get(r.cons, u).lo <= q < Get(r.cons, u).hi)
      || (u != t && Get(r.prod, u).Owns? && Get(r.prod, u).lo <= q < Get(r.prod, u).hi)
    ensures p % cfg.size != q % cfg.size
  {
    var limit := r.cons.tail + cfg.Capacity();
    assert ThreadOk(cfg.pmode, r.prod, limit, t) && ThreadOk(cfg.pmode, r.prod, limit, u);
    assert ThreadOk(cfg.cmode, r.cons, r.prod.tail, u);
    if u != t && Get(r.prod, u).Owns? {
      OwnersDisjoint(cfg.pmode, r.prod, limit, t, u);
    }
    hide SideInv;
    ResiduesDiffer(p, q, cfg.size);
  }
}
