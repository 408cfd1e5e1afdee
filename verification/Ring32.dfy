/** The ring as it is built: 32-bit counters that wrap around and slots addressed by
    `& mask`.  It follows the unbounded protocol of RingQueue step by step as long as no
    thread sleeps on a loaded head while 2^32 positions pass; from 2^32 - capacity on its
    calls may return 0 where the unbounded ring would not have to. */
module Ring32 {
  import opened Arithmetic
  import opened RingMask
  import opened RingSide
  import opened RingQueue

  const W := 0x1_0000_0000

  /** Unsigned 32-bit arithmetic. */
  function Wrap(x: int): (y: nat)
    ensures y < W
  {
    x % W
  }

  lemma WrapSub(x: nat, y: nat)
    requires 0 <= x - y < W
    ensures Wrap(Wrap(x) - Wrap(y)) == x - y
  {
  }

  lemma WrapEq(x: nat, y: nat)
    requires -W < x - y < W
    ensures Wrap(x) == Wrap(y) <==> x == y
  {
  }

  lemma WrapAdd(x: nat, k: nat)
    ensures Wrap(Wrap(x) + k) == Wrap(x + k)
  {
  }

  // ----- one side -----

  /** As Enabled, with 32-bit subtraction and comparison. */
  ghost predicate Enabled32(mode: Mode, tr: bool, s: Side, e: Event) {
    var l := Get(s, e.t);
    match e
    case Begin(t, n) => l.Idle? && AloneBut(mode, s, t)
    case Reload(_) => l.HasHead?
    case Limit(_) => l.HasHead? && (mode.HTS? ==> l.seen == l.seenTail)
    case Fail(_) => l.HasLimit? && Take(l.n, Wrap(l.limit - l.seen), tr) == 0
    case Reserve(_) => l.HasLimit? && Take(l.n, Wrap(l.limit - l.seen), tr) > 0 && Swaps(mode, s, l.seen, l.seenTail)
    case Retry(_) => l.HasLimit? && Take(l.n, Wrap(l.limit - l.seen), tr) > 0 && !Swaps(mode, s, l.seen, l.seenTail)
    case Copy(_) => l.Owns? && l.done < Wrap(l.hi - l.lo)
    case Publish(_) => l.Owns? && l.done == Wrap(l.hi - l.lo) && (mode.MT? ==> s.tail == l.lo)
    case GiveUp(_) => false
  }

  function Apply32(mode: Mode, tr: bool, s: Side, limit: nat, e: Event): Side
    requires Enabled32(mode, tr, s, e)
  {
    var l := Get(s, e.t);
    match e
    case Begin(t, n) => Put(s, t, HasHead(n, s.head, s.tail, |s.owner|))
    case Reload(t) => Put(s, t, HasHead(l.n, s.head, s.tail, |s.owner|))
    case Limit(t) => Put(s, t, HasLimit(l.n, l.seen, l.seenTail, limit, l.at))
    case Fail(t) => Put(s, t, Idle)
    case Retry(t) => Put(s, t, HasHead(l.n, s.head, s.tail, |s.owner|))
    case Reserve(t) =>
      var k := Take(l.n, Wrap(l.limit - l.seen), tr);
      var hi := Wrap(l.seen + k);
      Put(s, t, Owns(l.seen, hi, 0)).(head := hi, owner := s.owner + seq(k, _ => t))
    case Copy(t) => Put(s, t, l.(done := l.done + 1))
    case Publish(t) => Put(s, t, Idle).(tail := l.hi)
  }

  function WrapLocal(l: Local): Local {
    match l
    case Idle => Idle
    case HasHead(n, seen, seenTail, at) => HasHead(n, Wrap(seen), Wrap(seenTail), at)
    case HasLimit(n, seen, seenTail, limit, at) => HasLimit(n, Wrap(seen), Wrap(seenTail), Wrap(limit), at)
    case Owns(lo, hi, done) => Owns(Wrap(lo), Wrap(hi), done)
  }

  ghost predicate RelAt(c: Side, g: Side, t: nat) {
    Get(c, t) == WrapLocal(Get(g, t))
  }

  /** The 32-bit side c shows the unbounded side g. */
  ghost predicate Rel(c: Side, g: Side) {
    && c.head == Wrap(g.head) && c.tail == Wrap(g.tail) && c.owner == g.owner
    && (forall t {:trigger RelAt(c, g, t)} :: RelAt(c, g, t))
  }

  /** A loaded head and tail were at most the capacity apart. */
  ghost predicate PairOk(capacity: nat, s: Side, t: nat) {
    var l := Get(s, t);
    l.HasHead? || l.HasLimit? ==> l.seen <= l.seenTail + capacity
  }

  /** Fewer than `age` positions have been reserved since thread t loaded the head. */
  ghost predicate YoungAt(age: int, s: Side, t: nat) {
    var l := Get(s, t);
    l.HasHead? || l.HasLimit? ==> |s.owner| - l.at < age
  }

  ghost predicate Young(age: int, s: Side) {
    forall t {:trigger YoungAt(age, s, t)} :: YoungAt(age, s, t)
  }

  /** Below the first age a computed free count is the true one; below the second a
      successful swap is. */
  function Bound(honest: bool, capacity: nat): int {
    if honest then W - capacity else W
  }

  /** Where a free count may be wrong, a call that returns 0 has merely given up. */
  function As(honest: bool, e: Event): Event {
    if e.Fail? && !honest then GiveUp(e.t) else e
  }

  /** The window of positions in use is no larger than the capacity. */
  ghost predicate Near(capacity: nat, s: Side, limit: nat) {
    && limit <= s.head + capacity && s.head <= s.tail + capacity && capacity < W
    && (forall t {:trigger PairOk(capacity, s, t)} :: PairOk(capacity, s, t))
  }

  /** The free count computed in 32 bits is the true one, even when it exceeds the
      capacity because the loaded head is stale. */
  lemma FreeExact(mode: Mode, s: Side, limit: nat, capacity: nat, t: nat)
    requires SideInv(mode, s, limit) && Near(capacity, s, limit) && Young(W - capacity, s) && Get(s, t).HasLimit?
    ensures var l := Get(s, t);
            Wrap(Wrap(l.limit) - Wrap(l.seen)) == l.limit - l.seen
  {
    assert ThreadOk(mode, s, limit, t) && YoungAt(W - capacity, s, t);
    WrapSub(Get(s, t).limit, Get(s, t).seen);
  }

  lemma WrapSubTwice(x: nat, y: nat)
    requires W <= x - y < 2 * W
    ensures Wrap(Wrap(x) - Wrap(y)) == x - y - W
  {
  }

  /** Up to an age of 2^32 the computed count is the true one or 2^32 less. */
  lemma FreeNearly(mode: Mode, s: Side, limit: nat, capacity: nat, t: nat)
    requires SideInv(mode, s, limit) && Near(capacity, s, limit) && Young(W, s) && Get(s, t).HasLimit?
    ensures var l := Get(s, t);
            && 0 <= l.limit - l.seen
            && var free := l.limit - l.seen;
               Wrap(Wrap(l.limit) - Wrap(l.seen)) == if free < W then free else free - W
  {
    assert ThreadOk(mode, s, limit, t) && YoungAt(W, s, t);
    var l := Get(s, t);
    if l.limit - l.seen < W {
      WrapSub(l.limit, l.seen);
    } else {
      WrapSubTwice(l.limit, l.seen);
    }
  }

  /** Up to an age of 2^32 the compare-and-swap on wrapped counters succeeds exactly when
      the unbounded counters agree; with a free count above the capacity it therefore
      fails. */
  lemma SwapExact(mode: Mode, c: Side, s: Side, limit: nat, capacity: nat, t: nat)
    requires SideInv(mode, s, limit) && Near(capacity, s, limit) && Young(W, s)
    requires Get(s, t).HasLimit? && Rel(c, s)
    ensures var l := Get(s, t);
            && Swaps(mode, c, Wrap(l.seen), Wrap(l.seenTail)) == Swaps(mode, s, l.seen, l.seenTail)
            && (l.limit - l.seen > capacity ==> !Swaps(mode, s, l.seen, l.seenTail))
  {
    var l := Get(s, t);
    assert ThreadOk(mode, s, limit, t) && YoungAt(W, s, t);
    WrapEq(s.head, l.seen);
    if mode.HTS? {
      WrapEq(s.tail, l.seenTail);
    }
    hide Wrap;
  }

  lemma PairExact(mode: Mode, s: Side, limit: nat, capacity: nat, t: nat)
    requires SideInv(mode, s, limit) && Near(capacity, s, limit) && Get(s, t).HasHead?
    ensures Wrap(Get(s, t).seen) == Wrap(Get(s, t).seenTail) <==> Get(s, t).seen == Get(s, t).seenTail
  {
    assert ThreadOk(mode, s, limit, t) && PairOk(capacity, s, t);
    WrapEq(Get(s, t).seen, Get(s, t).seenTail);
  }

  lemma OwnsExact(mode: Mode, s: Side, limit: nat, capacity: nat, t: nat)
    requires SideInv(mode, s, limit) && Near(capacity, s, limit) && Get(s, t).Owns?
    ensures var l := Get(s, t);
            && l.lo <= l.hi && Wrap(Wrap(l.hi) - Wrap(l.lo)) == l.hi - l.lo
            && (Wrap(s.tail) == Wrap(l.lo) <==> s.tail == l.lo)
  {
    assert ThreadOk(mode, s, limit, t);
    WrapSub(Get(s, t).hi, Get(s, t).lo);
    WrapEq(s.tail, Get(s, t).lo);
  }

  lemma Younger(honest: bool, s: Side, capacity: nat)
    requires Young(Bound(honest, capacity), s)
    ensures Young(W, s)
  {
    forall t: nat
      ensures YoungAt(W, s, t)
    {
      assert YoungAt(Bound(honest, capacity), s, t);
    }
  }

  /** A thread that knows head and limit decides as it would with unbounded counters, except
      that it may give up. */
  lemma Decides(honest: bool, mode: Mode, tr: bool, c: Side, s: Side, limit: nat, capacity: nat, e: Event)
    requires SideInv(mode, s, limit) && Near(capacity, s, limit) && Young(Bound(honest, capacity), s) && Rel(c, s)
    requires Get(s, e.t).HasLimit? && !e.GiveUp?
    ensures Enabled32(mode, tr, c, e) ==> Enabled(mode, tr, s, limit, As(honest, e))
    ensures honest && Enabled(mode, tr, s, limit, e) ==> Enabled32(mode, tr, c, e)
    ensures Enabled32(mode, tr, c, e) && e.Reserve? ==>
              Wrap(Wrap(Get(s, e.t).limit) - Wrap(Get(s, e.t).seen)) == Get(s, e.t).limit - Get(s, e.t).seen
  {
    Younger(honest, s, capacity);
    assert RelAt(c, s, e.t);
    FreeNearly(mode, s, limit, capacity, e.t);
    SwapExact(mode, c, s, limit, capacity, e.t);
    if honest {
      FreeExact(mode, s, limit, capacity, e.t);
    }
    hide Wrap, SideInv, Rel, Swaps;
  }

  /** Every 32-bit step of a side is the same step of the unbounded side, or gives up. */
  lemma SideEnabled(honest: bool, mode: Mode, tr: bool, c: Side, s: Side, limit: nat, capacity: nat, e: Event)
    requires SideInv(mode, s, limit) && Near(capacity, s, limit) && Young(Bound(honest, capacity), s) && Rel(c, s)
    requires forall u {:trigger Get(c, u)} :: Get(c, u).Idle? == Get(s, u).Idle?
    ensures Enabled32(mode, tr, c, e) ==> Enabled(mode, tr, s, limit, As(honest, e))
    ensures honest && !e.GiveUp? && Enabled(mode, tr, s, limit, e) ==> Enabled32(mode, tr, c, e)
  {
    hide Wrap, Take, SideInv, Near, Young, AloneBut, Swaps;
    assert RelAt(c, s, e.t);
    match Get(s, e.t)
    case Idle =>
      SameIdle(mode, c, s, e.t);
    case HasHead(_, _, _, _) =>
      PairExact(mode, s, limit, capacity, e.t);
    case HasLimit(_, _, _, _, _) =>
      if !e.GiveUp? {
        Decides(honest, mode, tr, c, s, limit, capacity, e);
      }
    case Owns(_, _, _) =>
      OwnsExact(mode, s, limit, capacity, e.t);
  }

  lemma SameIdle(mode: Mode, c: Side, s: Side, t: nat)
    requires forall u {:trigger Get(c, u)} :: Get(c, u).Idle? == Get(s, u).Idle?
    ensures AloneBut(mode, c, t) <==> AloneBut(mode, s, t)
  {
    forall u: nat
      ensures Get(c, u).Idle? == Get(s, u).Idle?
    {
    }
  }

  lemma RelIdle(c: Side, s: Side)
    requires Rel(c, s)
    ensures forall u {:trigger Get(c, u)} :: Get(c, u).Idle? == Get(s, u).Idle?
  {
    forall u: nat
      ensures Get(c, u).Idle? == Get(s, u).Idle?
    {
      assert RelAt(c, s, u);
    }
  }

  lemma ReserveExact(honest: bool, mode: Mode, tr: bool, c: Side, s: Side, limit: nat, capacity: nat, e: Event)
    requires SideInv(mode, s, limit) && Near(capacity, s, limit) && Young(Bound(honest, capacity), s) && Rel(c, s)
    requires e.Reserve? && Enabled32(mode, tr, c, e) && Get(s, e.t).HasLimit?
    ensures var l := Get(s, e.t);
            && Take(l.n, l.limit - l.seen, tr) >= 0
            && Take(l.n, Wrap(Wrap(l.limit) - Wrap(l.seen)), tr) == Take(l.n, l.limit - l.seen, tr)
            && Wrap(Wrap(l.seen) + Take(l.n, l.limit - l.seen, tr)) == Wrap(l.seen + Take(l.n, l.limit - l.seen, tr))
  {
    var l := Get(s, e.t);
    Decides(honest, mode, tr, c, s, limit, capacity, e);
    assert ThreadOk(mode, s, limit, e.t);
    WrapAdd(l.seen, Take(l.n, l.limit - l.seen, tr));
    hide Wrap;
  }

  lemma SideSimulates(honest: bool, mode: Mode, tr: bool, c: Side, s: Side, limit: nat, capacity: nat, e: Event)
    requires SideInv(mode, s, limit) && Near(capacity, s, limit) && Young(Bound(honest, capacity), s) && Rel(c, s)
    requires Enabled32(mode, tr, c, e)
    ensures Enabled(mode, tr, s, limit, As(honest, e))
    ensures Rel(Apply32(mode, tr, c, Wrap(limit), e), Apply(mode, tr, s, limit, As(honest, e)))
  {
    hide Wrap, SideInv, Young, Near, Take, AloneBut, Swaps;
    RelIdle(c, s);
    SideEnabled(honest, mode, tr, c, s, limit, capacity, e);
    assert RelAt(c, s, e.t);
    if e.Reserve? {
      ReserveExact(honest, mode, tr, c, s, limit, capacity, e);
    }
    var c', s' := Apply32(mode, tr, c, Wrap(limit), e), Apply(mode, tr, s, limit, As(honest, e));
    forall t: nat
      ensures RelAt(c', s', t)
    {
      assert RelAt(c, s, t);
    }
  }

  // ----- the whole ring -----

  /** How many slots there are to write: a ring of count 0 still has one. */
  function SlotCount(cfg: Config): nat {
    if cfg.size == 0 then 1 else cfg.size
  }

  /** The slot of element `done` of a burst that starts at the wrapped position lo.  Count 0
      is for single elements; a longer burst would run past the only slot. */
  function Slot(cfg: Config, lo: nat, done: nat): (j: nat)
    ensures j < SlotCount(cfg)
  {
    if cfg.size == 0 then 0 else (SlotOf(cfg.size, lo) + done) % cfg.size
  }

  lemma ModOfMultiple(x: nat, size: nat, j: nat)
    requires size > 0
    ensures (x + j * size) % size == x % size
  {
    ModIs(x + j * size, size, x / size + j, x % size) by {
      assert x == x / size * size + x % size;
      assert (x / size + j) * size == x / size * size + j * size;
    }
  }

  lemma {:induction false} PowerDivides(k: nat, n: nat) returns (j: nat)
    requires k <= n
    ensures Pow2(n) == j * Pow2(k)
    decreases n
  {
    if k == n {
      j := 1;
    } else {
      var i := PowerDivides(k, n - 1);
      j := 2 * i;
    }
  }

  lemma WrapSplits(x: nat)
    ensures x == Wrap(x) + x / W * W
  {
  }

  lemma ModOfProduct(w: nat, q: nat, j: nat, size: nat)
    requires size > 0
    ensures (w + q * (j * size)) % size == w % size
  {
    assert q * (j * size) == (q * j) * size;
    ModOfMultiple(w, size, q * j);
  }

  lemma WrapModSize(lo: nat, k: nat)
    requires k <= 32
    ensures Wrap(lo) % Pow2(k) == lo % Pow2(k)
  {
    hide Wrap, Pow2;
    var j := PowerDivides(k, 32);
    Pow2Values();
    WrapSplits(lo);
    ModOfProduct(Wrap(lo), lo / W, j, Pow2(k));
  }

  lemma ModAdd(x: nat, y: nat, size: nat)
    requires size > 0
    ensures (x % size + y) % size == (x + y) % size
  {
    var a := x / size;
    assert x == a * size + x % size;
    ModOfMultiple(x % size + y, size, a);
  }

  /** Wrapping at 2^32 and masking agree with the unbounded position, because the ring
      size divides 2^32. */
  lemma SlotExact(cfg: Config, k: nat, lo: nat, done: nat)
    requires k <= 32 && cfg.size == Pow2(k)
    ensures Slot(cfg, Wrap(lo), done) == (lo + done) % cfg.size
  {
    hide Wrap, Pow2, BitAnd;
    MaskIsMod(Wrap(lo), k);
    WrapModSize(lo, k);
    ModAdd(lo, done, cfg.size);
  }

  ghost predicate CanStep32<T>(cfg: Config, c: Ring<T>, st: Step<T>) {
    match st
    case P(e, xs) =>
      && Enabled32(cfg.pmode, cfg.ptrans, c.prod, e)
      && (e.Begin? ==> |xs| == e.n)
    case C(e) => Enabled32(cfg.cmode, cfg.ctrans, c.cons, e)
  }

  function UpTo<T>(xs: seq<T>, k: int): seq<T> {
    if 0 <= k <= |xs| then xs[..k] else xs
  }

  /** A copy reads one of the offered elements; ProducerSimulates shows that it never reads
      past them.  history and delivered record what is put in and what is returned. */
  function DoStep32<T>(cfg: Config, c: Ring<T>, st: Step<T>): Ring<T>
    requires |c.slots| == SlotCount(cfg) && CanStep32(cfg, c, st)
  {
    match st
    case P(e, xs) =>
      var l := Get(c.prod, e.t);
      var prod := Apply32(cfg.pmode, cfg.ptrans, c.prod, Wrap(cfg.Capacity() + c.cons.tail), e);
      if e.Begin? then c.(prod := prod, items := c.items[e.t := xs])
      else if e.Reserve? then
        c.(prod := prod,
           history := c.history + UpTo(Of(c.items, e.t), Take(l.n, Wrap(l.limit - l.seen), cfg.ptrans)))
      else if e.Copy? && l.done < |Of(c.items, e.t)| then
        c.(prod := prod, slots := c.slots[Slot(cfg, l.lo, l.done) := Of(c.items, e.t)[l.done]])
      else c.(prod := prod)
    case C(e) =>
      var l := Get(c.cons, e.t);
      var cons := Apply32(cfg.cmode, cfg.ctrans, c.cons, c.prod.tail, e);
      if e.Reserve? then c.(cons := cons, got := c.got[e.t := []])
      else if e.Copy? then
        c.(cons := cons, got := c.got[e.t := Of(c.got, e.t) + [c.slots[Slot(cfg, l.lo, l.done)]]])
      else if e.Publish? then c.(cons := cons, delivered := c.delivered + Of(c.got, e.t))
      else c.(cons := cons)
  }

  /** The 32-bit ring c shows the unbounded ring g. */
  ghost predicate RelRing<T>(c: Ring<T>, g: Ring<T>) {
    && Rel(c.prod, g.prod) && Rel(c.cons, g.cons)
    && c.slots == g.slots && c.items == g.items && c.got == g.got
    && c.history == g.history && c.delivered == g.delivered
  }

  ghost predicate Pairs(capacity: nat, s: Side) {
    forall t {:trigger PairOk(capacity, s, t)} :: PairOk(capacity, s, t)
  }

  ghost predicate PairsRing<T>(cfg: Config, g: Ring<T>) {
    Pairs(cfg.Capacity(), g.prod) && Pairs(cfg.Capacity(), g.cons)
  }

  ghost predicate YoungRing<T>(age: int, r: Ring<T>) {
    Young(age, r.prod) && Young(age, r.cons)
  }

  function AsStep<T>(honest: bool, st: Step<T>): Step<T> {
    match st
    case P(e, xs) => P(As(honest, e), xs)
    case C(e) => C(As(honest, e))
  }

  lemma NearRing<T>(cfg: Config, g: Ring<T>)
    requires Inv(cfg, g) && PairsRing(cfg, g) && cfg.size <= W
    ensures Near(cfg.Capacity(), g.prod, g.cons.tail + cfg.Capacity()) && Near(cfg.Capacity(), g.cons, g.prod.tail)
  {
    CountersOrdered(cfg, g);
  }

  lemma PairStep(mode: Mode, tr: bool, s: Side, limit: nat, capacity: nat, e: Event)
    requires Enabled(mode, tr, s, limit, e) && Pairs(capacity, s) && s.head <= s.tail + capacity
    ensures Pairs(capacity, Apply(mode, tr, s, limit, e))
  {
    var s' := Apply(mode, tr, s, limit, e);
    forall t: nat
      ensures PairOk(capacity, s', t)
    {
      assert PairOk(capacity, s, t) && PairOk(capacity, s, e.t);
    }
  }

  lemma WrapLimit(capacity: nat, tail: nat)
    ensures Wrap(capacity + Wrap(tail)) == Wrap(tail + capacity)
  {
  }

  /** A producer copies the next of its elements into the slot of its position. */
  lemma ProducerCopies<T>(cfg: Config, k: nat, c: Ring<T>, g: Ring<T>, t: nat)
    requires k <= 32 && cfg.size == Pow2(k)
    requires Inv(cfg, g) && RelRing(c, g)
    requires Enabled(cfg.pmode, cfg.ptrans, g.prod, g.cons.tail + cfg.Capacity(), Copy(t))
    ensures var l, l' := Get(g.prod, t), Get(c.prod, t);
            && l.Owns? && l'.Owns? && l'.done == l.done < |Of(c.items, t)|
            && Slot(cfg, l'.lo, l'.done) == (l.lo + l.done) % cfg.size
  {
    hide Slot, Pow2, Wrap;
    assert RelAt(c.prod, g.prod, t);
    assert Offered(g, t);
    SlotExact(cfg, k, Get(g.prod, t).lo, Get(g.prod, t).done);
  }

  lemma ProducerSide<T>(honest: bool, cfg: Config, c: Ring<T>, g: Ring<T>, e: Event)
    requires cfg.size <= W && Enabled32(cfg.pmode, cfg.ptrans, c.prod, e)
    requires Inv(cfg, g) && RelRing(c, g) && PairsRing(cfg, g) && YoungRing(Bound(honest, cfg.Capacity()), g)
    ensures var limit := g.cons.tail + cfg.Capacity();
            && Enabled(cfg.pmode, cfg.ptrans, g.prod, limit, As(honest, e))
            && Rel(Apply32(cfg.pmode, cfg.ptrans, c.prod, Wrap(cfg.Capacity() + c.cons.tail), e),
                   Apply(cfg.pmode, cfg.ptrans, g.prod, limit, As(honest, e)))
            && Pairs(cfg.Capacity(), Apply(cfg.pmode, cfg.ptrans, g.prod, limit, As(honest, e)))
  {
    var cap := cfg.Capacity();
    NearRing(cfg, g);
    CountersOrdered(cfg, g);
    WrapLimit(cap, g.cons.tail);
    hide Wrap, SideInv, Young, Near, Enabled, Enabled32, Apply, Apply32, Pairs, As, Bound;
    SideSimulates(honest, cfg.pmode, cfg.ptrans, c.prod, g.prod, g.cons.tail + cap, cap, e);
    PairStep(cfg.pmode, cfg.ptrans, g.prod, g.cons.tail + cap, cap, As(honest, e));
  }

  /** The elements a producer reserves room for are the first of those it offers. */
  lemma ProducerReserves<T>(honest: bool, cfg: Config, c: Ring<T>, g: Ring<T>, e: Event)
    requires cfg.size <= W && e.Reserve? && Enabled32(cfg.pmode, cfg.ptrans, c.prod, e)
    requires Inv(cfg, g) && RelRing(c, g) && PairsRing(cfg, g) && YoungRing(Bound(honest, cfg.Capacity()), g)
    ensures var l, l' := Get(g.prod, e.t), Get(c.prod, e.t);
            && l.HasLimit? && l'.HasLimit?
            && 0 <= Take(l.n, l.limit - l.seen, cfg.ptrans) <= |Of(g.items, e.t)|
            && Take(l'.n, Wrap(l'.limit - l'.seen), cfg.ptrans) == Take(l.n, l.limit - l.seen, cfg.ptrans)
  {
    var cap := cfg.Capacity();
    NearRing(cfg, g);
    assert RelAt(c.prod, g.prod, e.t);
    assert Offered(g, e.t);
    hide Wrap, SideInv, Young, Near, Bound;
    ReserveExact(honest, cfg.pmode, cfg.ptrans, c.prod, g.prod, g.cons.tail + cap, cap, e);
  }

  /** Every 32-bit producer step is the step of the unbounded ring, or gives up. */
  lemma ProducerSimulates<T>(honest: bool, cfg: Config, k: nat, c: Ring<T>, g: Ring<T>, e: Event, xs: seq<T>)
    requires k <= 32 && cfg.size == Pow2(k) && cfg.size <= W && CanStep32(cfg, c, P(e, xs))
    requires Inv(cfg, g) && RelRing(c, g) && PairsRing(cfg, g) && YoungRing(Bound(honest, cfg.Capacity()), g)
    ensures CanStep(cfg, g, P(As(honest, e), xs))
    ensures RelRing(DoStep32(cfg, c, P(e, xs)), Produce(cfg, g, As(honest, e), xs))
    ensures e.Copy? ==> Get(c.prod, e.t).done < |Of(c.items, e.t)|
    ensures PairsRing(cfg, Produce(cfg, g, As(honest, e), xs))
  {
    hide Wrap, Enabled, Enabled32, Apply, Apply32, Slot, Pow2, Rel, Pairs, SideInv, Take, YoungRing;
    ProducerSide(honest, cfg, c, g, e);
    if e.Copy? {
      ProducerCopies(cfg, k, c, g, e.t);
    } else if e.Reserve? {
      ProducerReserves(honest, cfg, c, g, e);
    }
  }

  lemma ConsumerSide<T>(honest: bool, cfg: Config, c: Ring<T>, g: Ring<T>, e: Event)
    requires cfg.size <= W && Enabled32(cfg.cmode, cfg.ctrans, c.cons, e)
    requires Inv(cfg, g) && RelRing(c, g) && PairsRing(cfg, g) && YoungRing(Bound(honest, cfg.Capacity()), g)
    ensures Enabled(cfg.cmode, cfg.ctrans, g.cons, g.prod.tail, As(honest, e))
    ensures Rel(Apply32(cfg.cmode, cfg.ctrans, c.cons, c.prod.tail, e),
                Apply(cfg.cmode, cfg.ctrans, g.cons, g.prod.tail, As(honest, e)))
    ensures Pairs(cfg.Capacity(), Apply(cfg.cmode, cfg.ctrans, g.cons, g.prod.tail, As(honest, e)))
  {
    var cap := cfg.Capacity();
    NearRing(cfg, g);
    CountersOrdered(cfg, g);
    hide Wrap, SideInv, Young, Near, Enabled, Enabled32, Apply, Apply32, Pairs, As, Bound;
    SideSimulates(honest, cfg.cmode, cfg.ctrans, c.cons, g.cons, g.prod.tail, cap, e);
    PairStep(cfg.cmode, cfg.ctrans, g.cons, g.prod.tail, cap, As(honest, e));
  }

  lemma ConsumerCopies<T>(cfg: Config, k: nat, c: Ring<T>, g: Ring<T>, t: nat)
    requires k <= 32 && cfg.size == Pow2(k)
    requires Inv(cfg, g) && RelRing(c, g) && Enabled(cfg.cmode, cfg.ctrans, g.cons, g.prod.tail, Copy(t))
    ensures var l, l' := Get(g.cons, t), Get(c.cons, t);
            l.Owns? && l'.Owns? && Slot(cfg, l'.lo, l'.done) == (l.lo + l.done) % cfg.size
  {
    hide Slot, Pow2, Wrap;
    assert RelAt(c.cons, g.cons, t);
    SlotExact(cfg, k, Get(g.cons, t).lo, Get(g.cons, t).done);
  }

  /** Every 32-bit consumer step is the step of the unbounded ring, or gives up. */
  lemma ConsumerSimulates<T>(honest: bool, cfg: Config, k: nat, c: Ring<T>, g: Ring<T>, e: Event)
    requires k <= 32 && cfg.size == Pow2(k) && cfg.size <= W && CanStep32(cfg, c, C(e))
    requires Inv(cfg, g) && RelRing(c, g) && PairsRing(cfg, g) && YoungRing(Bound(honest, cfg.Capacity()), g)
    ensures CanStep(cfg, g, C(As(honest, e)))
    ensures RelRing(DoStep32(cfg, c, C(e)), Consume(cfg, g, As(honest, e)))
    ensures PairsRing(cfg, Consume(cfg, g, As(honest, e)))
  {
    hide Wrap, Enabled, Enabled32, Apply, Apply32, Slot, Pow2, Rel, Pairs, SideInv, Take, YoungRing;
    ConsumerSide(honest, cfg, c, g, e);
    if e.Copy? {
      ConsumerCopies(cfg, k, c, g, e.t);
    }
  }

  // ----- runs -----

  /** A run in which no loaded head grows `age` positions old. */
  ghost predicate Runs32<T>(cfg: Config, c: Ring<T>, run: seq<Step<T>>, c': Ring<T>, age: int)
    decreases |run|
  {
    && YoungRing(age, c)
    && if run == [] then c' == c else
         && |c.slots| == SlotCount(cfg) && CanStep32(cfg, c, run[0])
         && Runs32(cfg, DoStep32(cfg, c, run[0]), run[1..], c', age)
  }

  function AsRun<T>(honest: bool, run: seq<Step<T>>): (r: seq<Step<T>>)
    ensures |r| == |run| && forall i :: 0 <= i < |run| ==> r[i] == AsStep(honest, run[i])
  {
    if run == [] then [] else [AsStep(honest, run[0])] + AsRun(honest, run[1..])
  }

  lemma HonestRun<T>(run: seq<Step<T>>)
    ensures AsRun(true, run) == run
  {
  }

  lemma SameAge<T>(c: Ring<T>, g: Ring<T>, age: int)
    requires RelRing(c, g) && YoungRing(age, c)
    ensures YoungRing(age, g)
  {
    forall t: nat
      ensures YoungAt(age, g.prod, t) && YoungAt(age, g.cons, t)
    {
      assert RelAt(c.prod, g.prod, t) && RelAt(c.cons, g.cons, t);
      assert YoungAt(age, c.prod, t) && YoungAt(age, c.cons, t);
    }
  }

  lemma Simulates<T>(honest: bool, cfg: Config, k: nat, c: Ring<T>, g: Ring<T>, st: Step<T>)
    requires k <= 32 && cfg.size == Pow2(k) && cfg.size <= W && CanStep32(cfg, c, st)
    requires Inv(cfg, g) && RelRing(c, g) && PairsRing(cfg, g) && YoungRing(Bound(honest, cfg.Capacity()), c)
    ensures |c.slots| == SlotCount(cfg) && CanStep(cfg, g, AsStep(honest, st))
    ensures Inv(cfg, DoStep(cfg, g, AsStep(honest, st)))
    ensures RelRing(DoStep32(cfg, c, st), DoStep(cfg, g, AsStep(honest, st)))
    ensures PairsRing(cfg, DoStep(cfg, g, AsStep(honest, st)))
  {
    SameAge(c, g, Bound(honest, cfg.Capacity()));
    hide Inv, RelRing, PairsRing, YoungRing, Produce, Consume, As, CanStep, CanStep32, Bound;
    match st {
      case P(e, xs) => ProducerSimulates(honest, cfg, k, c, g, e, xs);
      case C(e) => ConsumerSimulates(honest, cfg, k, c, g, e);
    }
    StepInv(cfg, g, AsStep(honest, st));
  }

  /** Every run of the 32-bit ring whose loaded heads stay below the age of 2^32 is a run of
      the unbounded ring, and so of the FIFO it refines, where calls that return 0 count as
      giving up; below 2^32 - capacity it is that very run. */
  lemma {:induction false} RunSimulates<T>(honest: bool, cfg: Config, k: nat, c: Ring<T>, g: Ring<T>,
                                           run: seq<Step<T>>, c': Ring<T>)
    returns (g': Ring<T>)
    requires k <= 32 && cfg.size == Pow2(k) && cfg.size <= W
    requires Inv(cfg, g) && RelRing(c, g) && PairsRing(cfg, g)
    requires Runs32(cfg, c, run, c', Bound(honest, cfg.Capacity()))
    ensures Runs(cfg, g, AsRun(honest, run), g') && RelRing(c', g') && PairsRing(cfg, g')
    ensures honest ==> AsRun(honest, run) == run
    decreases |run|
  {
    hide Inv, CanStep, CanStep32, RelRing, PairsRing, YoungRing, DoStep, DoStep32, Bound;
    if honest {
      HonestRun(run);
    }
    if run == [] {
      g' := g;
    } else {
      Simulates(honest, cfg, k, c, g, run[0]);
      var c1, g1 := DoStep32(cfg, c, run[0]), DoStep(cfg, g, AsStep(honest, run[0]));
      g' := RunSimulates(honest, cfg, k, c1, g1, run[1..], c');
      assert AsRun(honest, run)[1..] == AsRun(honest, run[1..]);
    }
  }

  lemma InitialRel<T>(cfg: Config, slots: seq<T>)
    requires cfg.size >= 1 && |slots| == cfg.size
    ensures Inv(cfg, Initial(slots)) && RelRing(Initial(slots), Initial(slots)) && PairsRing(cfg, Initial(slots))
  {
    InitialInv(cfg, slots);
    hide Inv;
  }

  /** From the empty ring, as long as no loaded head grows 2^32 positions old: what the
      32-bit ring has returned is an initial part of what was put in, in order, and the FIFO
      it refines accounts for the rest. */
  lemma Run32FromEmpty<T>(honest: bool, cfg: Config, k: nat, slots: seq<T>, run: seq<Step<T>>, c': Ring<T>)
    returns (g': Ring<T>)
    requires k <= 32 && cfg.size == Pow2(k) == |slots| && cfg.size <= W
    requires Runs32(cfg, Initial(slots), run, c', Bound(honest, cfg.Capacity()))
    ensures c'.delivered <= c'.history
    ensures honest ==> AsRun(honest, run) == run
    ensures Inv(cfg, Initial(slots)) && Runs(cfg, Initial(slots), AsRun(honest, run), g')
    ensures Inv(cfg, g') && RelRing(c', g') && PairsRing(cfg, g')
    ensures Entered(cfg, Initial(slots), AsRun(honest, run), g')
            == Left(cfg, Initial(slots), AsRun(honest, run), g') + Queue(cfg, g')
  {
    InitialRel(cfg, slots);
    hide Inv, Runs, Runs32, PairsRing, Queue, Entered, Left, AsRun, Bound, Rel;
    g' := RunSimulates(honest, cfg, k, Initial(slots), Initial(slots), run, c');
    RunFromEmpty(cfg, slots, AsRun(honest, run), g');
    DeliveredInOrder(cfg, g');
  }

  // ----- a returned 0 -----

  /** Thread t is about to load the other side's tail, and what it computes from it is 0. */
  ghost predicate ReturnsZero(mode: Mode, tr: bool, s: Side, limit: nat, t: nat) {
    && Enabled32(mode, tr, s, Limit(t))
    && Enabled32(mode, tr, Apply32(mode, tr, s, limit, Limit(t)), Fail(t))
  }

  lemma ZeroExact(mode: Mode, tr: bool, c: Side, s: Side, limit: nat, capacity: nat, t: nat)
    requires SideInv(mode, s, limit) && Near(capacity, s, limit) && Young(W - capacity, s) && Rel(c, s)
    requires ReturnsZero(mode, tr, c, Wrap(limit), t) && Get(c, t).n > 0
    ensures limit - s.head < Get(c, t).n && (!tr ==> s.head == limit)
  {
    var l := Get(s, t);
    assert RelAt(c, s, t) && ThreadOk(mode, s, limit, t) && YoungAt(W - capacity, s, t);
    WrapSub(limit, l.seen);
    PairExact(mode, s, limit, capacity, t);
    hide Wrap, SideInv, Near, Young, Rel;
    ZeroIsTruthful(mode, tr, s, limit, t);
  }

  lemma EnqueueZero<T>(cfg: Config, c: Ring<T>, g: Ring<T>, t: nat)
    requires cfg.size <= W && Inv(cfg, g) && RelRing(c, g) && PairsRing(cfg, g) && YoungRing(W - cfg.Capacity(), c)
    requires ReturnsZero(cfg.pmode, cfg.ptrans, c.prod, Wrap(cfg.Capacity() + c.cons.tail), t) && Get(c.prod, t).n > 0
    ensures |c.delivered| + cfg.Capacity() - |c.history| < Get(c.prod, t).n
    ensures !cfg.ptrans ==> |c.history| == |c.delivered| + cfg.Capacity()
  {
    var cap := cfg.Capacity();
    DeliveredInOrder(cfg, g);
    NearRing(cfg, g);
    SameAge(c, g, W - cap);
    hide Wrap, ReturnsZero, Rel, Young, SideInv, Near;
    WrapLimit(cap, g.cons.tail);
    RelTails(c, g);
    ZeroExact(cfg.pmode, cfg.ptrans, c.prod, g.prod, g.cons.tail + cap, cap, t);
  }

  lemma DequeueZero<T>(cfg: Config, c: Ring<T>, g: Ring<T>, t: nat)
    requires cfg.size <= W && Inv(cfg, g) && RelRing(c, g) && PairsRing(cfg, g) && YoungRing(W - cfg.Capacity(), c)
    requires ReturnsZero(cfg.cmode, cfg.ctrans, c.cons, c.prod.tail, t) && Get(c.cons, t).n > 0
    ensures Wrap(c.prod.tail - c.cons.head) < Get(c.cons, t).n
    ensures !cfg.ctrans ==> c.prod.tail == c.cons.head
  {
    var cap := cfg.Capacity();
    CountersOrdered(cfg, g);
    NearRing(cfg, g);
    SameAge(c, g, W - cap);
    hide Wrap, ReturnsZero, Rel, Young, SideInv, Near;
    RelTails(c, g);
    WrapSub(g.prod.tail, g.cons.head);
    ZeroExact(cfg.cmode, cfg.ctrans, c.cons, g.cons, g.prod.tail, cap, t);
  }

  /** A 0 that the 32-bit ring returns is truthful as long as no loaded head grows
      2^32 - capacity positions old: at the load of the opposite tail enqueue finds fewer
      free positions than asked for, none unless the ring is transactional... */
  lemma EnqueueZeroTruthful<T>(cfg: Config, k: nat, slots: seq<T>, run: seq<Step<T>>, c: Ring<T>, t: nat)
    requires k <= 32 && cfg.size == Pow2(k) == |slots| && cfg.size <= W
    requires Runs32(cfg, Initial(slots), run, c, W - cfg.Capacity())
    requires ReturnsZero(cfg.pmode, cfg.ptrans, c.prod, Wrap(cfg.Capacity() + c.cons.tail), t) && Get(c.prod, t).n > 0
    ensures |c.delivered| + cfg.Capacity() - |c.history| < Get(c.prod, t).n
    ensures !cfg.ptrans ==> |c.history| == |c.delivered| + cfg.Capacity()
  {
    hide Pow2, Wrap, Runs, Runs32, ReturnsZero, RelRing, PairsRing, YoungRing, AsRun, Entered, Left, Queue, Inv;
    LastYoung(cfg, Initial(slots), run, c, W - cfg.Capacity());
    var g := Run32FromEmpty(true, cfg, k, slots, run, c);
    EnqueueZero(cfg, c, g, t);
  }

  /** ... and dequeue fewer published and unclaimed elements, none unless transactional. */
  lemma DequeueZeroTruthful<T>(cfg: Config, k: nat, slots: seq<T>, run: seq<Step<T>>, c: Ring<T>, t: nat)
    requires k <= 32 && cfg.size == Pow2(k) == |slots| && cfg.size <= W
    requires Runs32(cfg, Initial(slots), run, c, W - cfg.Capacity())
    requires ReturnsZero(cfg.cmode, cfg.ctrans, c.cons, c.prod.tail, t) && Get(c.cons, t).n > 0
    ensures Wrap(c.prod.tail - c.cons.head) < Get(c.cons, t).n
    ensures !cfg.ctrans ==> c.prod.tail == c.cons.head
  {
    hide Pow2, Wrap, Runs, Runs32, ReturnsZero, RelRing, PairsRing, YoungRing, AsRun, Entered, Left, Queue, Inv;
    LastYoung(cfg, Initial(slots), run, c, W - cfg.Capacity());
    var g := Run32FromEmpty(true, cfg, k, slots, run, c);
    DequeueZero(cfg, c, g, t);
  }

  lemma RelTails<T>(c: Ring<T>, g: Ring<T>)
    requires RelRing(c, g)
    ensures c.prod.tail == Wrap(g.prod.tail) && c.cons.tail == Wrap(g.cons.tail) && c.cons.head == Wrap(g.cons.head)
  {
  }

  lemma {:induction false} LastYoung<T>(cfg: Config, c: Ring<T>, run: seq<Step<T>>, c': Ring<T>, age: int)
    requires Runs32(cfg, c, run, c', age)
    ensures YoungRing(age, c')
    decreases |run|
  {
    hide CanStep32, DoStep32, YoungRing;
    if run != [] {
      LastYoung(cfg, DoStep32(cfg, c, run[0]), run[1..], c', age);
    }
  }
}
