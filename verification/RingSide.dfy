/** One side of the ring: a head and a tail shared by any number of threads, each of
    which reserves positions by moving the head, works on them, and publishes them by
    moving the tail.  Producers and consumers run this same protocol; they differ only
    in the limit the head may reach, which the other side's tail sets.  Positions are
    counted without wrap-around. */
module RingSide {

  /** RingSyncType without the unimplemented relaxed-tail mode. */
  datatype Mode = MT | ST | HTS

  /** What a thread knows, at each point between two shared accesses.  `at` is not part of
      it: it remembers how many positions had been reserved when the head was loaded. */
  datatype Local =
    | Idle
    | HasHead(n: nat, seen: nat, seenTail: nat, at: nat)
    | HasLimit(n: nat, seen: nat, seenTail: nat, limit: nat, at: nat)
    | Owns(lo: nat, hi: nat, done: nat)

  /** `owner` remembers which thread reserved each position. */
  datatype Side = Side(head: nat, tail: nat, threads: map<nat, Local>, owner: seq<nat>)

  datatype Event =
    | Begin(t: nat, n: nat)   // load the head (and, in HTS mode, the tail in the same word)
    | Reload(t: nat)          // load it again: hts_head_wait, or the top of the consumer loop
    | Limit(t: nat)           // load the other side's tail
    | Fail(t: nat)            // nothing to take: return 0
    | GiveUp(t: nat)          // return 0 although there may be something to take
    | Reserve(t: nat)         // the compare-and-swap succeeds, or the plain store of ST mode
    | Retry(t: nat)           // the compare-and-swap fails and loads the current value
    | Copy(t: nat)            // copy one element
    | Publish(t: nat)         // store the tail

  function Get(s: Side, t: nat): Local {
    if t in s.threads then s.threads[t] else Idle
  }

  /** How many positions a thread takes of `free` when it asked for n. */
  function Take(n: nat, free: int, transactional: bool): int {
    if n > free then (if transactional then 0 else free) else n
  }

  /** The compare-and-swap of a mode succeeds (ST stores unconditionally). */
  predicate Swaps(mode: Mode, s: Side, seen: nat, seenTail: nat) {
    match mode
    case MT => s.head == seen
    case HTS => s.head == seen && s.tail == seenTail
    case ST => true
  }

  /** In ST mode the caller promises that one thread at a time uses this side. */
  ghost predicate AloneBut(mode: Mode, s: Side, t: nat) {
    mode.ST? ==> forall u {:trigger Get(s, u)} :: u != t ==> Get(s, u).Idle?
  }

  ghost predicate Enabled(mode: Mode, tr: bool, s: Side, limit: nat, e: Event) {
    var l := Get(s, e.t);
    match e
    case Begin(t, n) => l.Idle? && AloneBut(mode, s, t)
    case Reload(_) => l.HasHead?
    case Limit(_) => l.HasHead? && (mode.HTS? ==> l.seen == l.seenTail)
    case Fail(_) => l.HasLimit? && Take(l.n, l.limit - l.seen, tr) == 0
    case GiveUp(_) => l.HasLimit?
    case Reserve(_) => l.HasLimit? && Take(l.n, l.limit - l.seen, tr) > 0 && Swaps(mode, s, l.seen, l.seenTail)
    case Retry(_) => l.HasLimit? && Take(l.n, l.limit - l.seen, tr) > 0 && !Swaps(mode, s, l.seen, l.seenTail)
    case Copy(_) => l.Owns? && l.lo + l.done < l.hi
    case Publish(_) => l.Owns? && l.lo + l.done == l.hi && (mode.MT? ==> s.tail == l.lo)
  }

  function Put(s: Side, t: nat, l: Local): Side {
    s.(threads := s.threads[t := l])
  }

  function Apply(mode: Mode, tr: bool, s: Side, limit: nat, e: Event): Side
    requires Enabled(mode, tr, s, limit, e)
  {
    var l := Get(s, e.t);
    match e
    case Begin(t, n) => Put(s, t, HasHead(n, s.head, s.tail, |s.owner|))
    case Reload(t) => Put(s, t, HasHead(l.n, s.head, s.tail, |s.owner|))
    case Limit(t) => Put(s, t, HasLimit(l.n, l.seen, l.seenTail, limit, l.at))
    case Fail(t) => Put(s, t, Idle)
    case GiveUp(t) => Put(s, t, Idle)
    case Retry(t) => Put(s, t, HasHead(l.n, s.head, s.tail, |s.owner|))
    case Reserve(t) =>
      var hi := l.seen + Take(l.n, l.limit - l.seen, tr);
      Put(s, t, Owns(l.seen, hi, 0)).(head := hi, owner := s.owner + seq(hi - l.seen, _ => t))
    case Copy(t) => Put(s, t, l.(done := l.done + 1))
    case Publish(t) =>
      Put(s, t, Idle).(tail := l.hi)
  }

  // ----- the invariant -----

  ghost predicate ThreadOk(mode: Mode, s: Side, limit: nat, t: nat) {
    match Get(s, t)
    case Idle => true
    case HasHead(n, seen, ot, at) =>
      && at == seen
      && ot <= seen <= s.head && seen <= limit && ot <= s.tail && (mode.ST? ==> seen == s.head == s.tail)
    case HasLimit(n, seen, ot, lim, at) =>
      && at == seen
      && ot <= seen <= s.head && seen <= lim <= limit && ot <= s.tail
      && (mode.ST? ==> seen == s.head == s.tail) && (mode.HTS? ==> seen == ot)
    case Owns(lo, hi, done) =>
      && s.tail <= lo < hi <= s.head && lo + done <= hi
      && (!mode.MT? ==> lo == s.tail && hi == s.head)
      && (forall p {:trigger s.owner[p]} :: lo <= p < hi && p < |s.owner| ==> s.owner[p] == t)
  }

  /** A position in flight belongs to the thread that reserved it. */
  ghost predicate OwnerOk(s: Side, p: nat) {
    s.tail <= p < s.head && p < |s.owner| ==>
      var l := Get(s, s.owner[p]);
      l.Owns? && l.lo <= p < l.hi
  }

  ghost predicate Exclusive(mode: Mode, s: Side, t: nat, u: nat) {
    mode.ST? && t != u ==> Get(s, t).Idle? || Get(s, u).Idle?
  }

  ghost predicate SideInv(mode: Mode, s: Side, limit: nat) {
    && s.tail <= s.head <= limit && |s.owner| == s.head
    && (forall t {:trigger ThreadOk(mode, s, limit, t)} :: ThreadOk(mode, s, limit, t))
    && (forall p {:trigger OwnerOk(s, p)} :: OwnerOk(s, p))
    && (forall t, u {:trigger Exclusive(mode, s, t, u)} :: Exclusive(mode, s, t, u))
  }

  lemma LimitGrows(mode: Mode, s: Side, limit: nat, limit': nat)
    requires SideInv(mode, s, limit) && limit <= limit'
    ensures SideInv(mode, s, limit')
  {
    forall t
      ensures ThreadOk(mode, s, limit', t)
    {
      assert ThreadOk(mode, s, limit, t);
    }
  }

  /** In ST mode, between calls, nothing is in flight. */
  lemma IdleIsEmpty(mode: Mode, s: Side, limit: nat, t: nat)
    requires SideInv(mode, s, limit) && AloneBut(mode, s, t) && Get(s, t).Idle?
    ensures mode.ST? ==> s.tail == s.head
  {
    assert OwnerOk(s, s.tail);
  }

  /** Steps that change neither head nor tail. */
  lemma QuietStep(mode: Mode, tr: bool, s: Side, limit: nat, e: Event)
    requires SideInv(mode, s, limit) && Enabled(mode, tr, s, limit, e)
    requires !e.Reserve? && !e.Publish?
    ensures SideInv(mode, Apply(mode, tr, s, limit, e), limit)
  {
    var s' := Apply(mode, tr, s, limit, e);
    forall t: nat
      ensures ThreadOk(mode, s', limit, t)
    {
      assert ThreadOk(mode, s, limit, t);
      if e.Begin? {
        IdleIsEmpty(mode, s, limit, e.t);
      }
    }
    forall p: nat
      ensures OwnerOk(s', p)
    {
      assert OwnerOk(s, p);
    }
    forall t: nat, u: nat
      ensures Exclusive(mode, s', t, u)
    {
      assert Exclusive(mode, s, t, u);
      assert e.Begin? && mode.ST? && t != e.t ==> Get(s, t).Idle?;
      assert e.Begin? && mode.ST? && u != e.t ==> Get(s, u).Idle?;
    }
  }

  /** Outside MT mode a thread can reserve only when nothing is in flight. */
  lemma NothingInFlight(mode: Mode, tr: bool, s: Side, limit: nat, e: Event)
    requires SideInv(mode, s, limit) && Enabled(mode, tr, s, limit, e) && e.Reserve?
    ensures Get(s, e.t).seen == s.head && (!mode.MT? ==> s.tail == s.head)
    ensures !mode.MT? ==> forall u {:trigger Get(s, u)} :: !Get(s, u).Owns?
  {
    assert ThreadOk(mode, s, limit, e.t);
    forall u: nat
      ensures !mode.MT? ==> !Get(s, u).Owns?
    {
      assert ThreadOk(mode, s, limit, u);
    }
  }

  lemma ReserveStep(mode: Mode, tr: bool, s: Side, limit: nat, e: Event)
    requires SideInv(mode, s, limit) && Enabled(mode, tr, s, limit, e) && e.Reserve?
    ensures SideInv(mode, Apply(mode, tr, s, limit, e), limit)
  {
    NothingInFlight(mode, tr, s, limit, e);
    var s' := Apply(mode, tr, s, limit, e);
    assert ThreadOk(mode, s, limit, e.t);
    forall t: nat
      ensures ThreadOk(mode, s', limit, t)
    {
      assert ThreadOk(mode, s, limit, t) && Exclusive(mode, s, t, e.t);
    }
    forall p: nat
      ensures OwnerOk(s', p)
    {
      assert OwnerOk(s, p);
    }
    forall t: nat, u: nat
      ensures Exclusive(mode, s', t, u)
    {
      assert Exclusive(mode, s, t, u);
    }
  }

  /** In every mode the thread that may publish owns the oldest position in flight. */
  lemma PublisherIsOldest(mode: Mode, tr: bool, s: Side, limit: nat, e: Event)
    requires SideInv(mode, s, limit) && Enabled(mode, tr, s, limit, e) && e.Publish?
    ensures Get(s, e.t).lo == s.tail < Get(s, e.t).hi <= s.head
  {
    assert ThreadOk(mode, s, limit, e.t);
  }

  /** Two threads never hold a common position. */
  lemma OwnersDisjoint(mode: Mode, s: Side, limit: nat, t: nat, u: nat)
    requires SideInv(mode, s, limit) && t != u && Get(s, t).Owns? && Get(s, u).Owns?
    ensures mode.MT? && (Get(s, t).hi <= Get(s, u).lo || Get(s, u).hi <= Get(s, t).lo)
  {
    assert ThreadOk(mode, s, limit, t) && ThreadOk(mode, s, limit, u);
    var a, b := Get(s, t), Get(s, u);
    var p := if a.lo <= b.lo then b.lo else a.lo;
    assert a.lo <= p < a.hi ==> s.owner[p] == t;
    assert b.lo <= p < b.hi ==> s.owner[p] == u;
  }

  lemma PublishStep(mode: Mode, tr: bool, s: Side, limit: nat, e: Event)
    requires SideInv(mode, s, limit) && Enabled(mode, tr, s, limit, e) && e.Publish?
    ensures SideInv(mode, Apply(mode, tr, s, limit, e), limit)
  {
    PublisherIsOldest(mode, tr, s, limit, e);
    var s' := Apply(mode, tr, s, limit, e);
    forall t: nat
      ensures ThreadOk(mode, s', limit, t)
    {
      assert ThreadOk(mode, s, limit, t) && Exclusive(mode, s, t, e.t);
      if t != e.t && Get(s, t).Owns? {
        OwnersDisjoint(mode, s, limit, t, e.t);
      }
    }
    forall p: nat
      ensures OwnerOk(s', p)
    {
      assert OwnerOk(s, p);
    }
    forall t: nat, u: nat
      ensures Exclusive(mode, s', t, u)
    {
      assert Exclusive(mode, s, t, u);
    }
  }

  /** Every step of every thread in every mode keeps the side's invariant; head and
      tail only grow. */
  lemma SideStep(mode: Mode, tr: bool, s: Side, limit: nat, e: Event)
    requires SideInv(mode, s, limit) && Enabled(mode, tr, s, limit, e)
    ensures SideInv(mode, Apply(mode, tr, s, limit, e), limit)
    ensures s.head <= Apply(mode, tr, s, limit, e).head && s.tail <= Apply(mode, tr, s, limit, e).tail
  {
    hide SideInv;
    if e.Reserve? {
      ReserveStep(mode, tr, s, limit, e);
      NothingInFlight(mode, tr, s, limit, e);
    } else if e.Publish? {
      PublishStep(mode, tr, s, limit, e);
      PublisherIsOldest(mode, tr, s, limit, e);
    } else {
      QuietStep(mode, tr, s, limit, e);
    }
  }

  // ----- consequences -----

  /** HTS and ST: at most one thread is between its head move and its tail store. */
  lemma SingleInFlight(mode: Mode, s: Side, limit: nat, t: nat, u: nat)
    requires SideInv(mode, s, limit) && !mode.MT? && Get(s, t).Owns? && Get(s, u).Owns?
    ensures t == u
  {
    if t != u {
      OwnersDisjoint(mode, s, limit, t, u);
    }
  }

  /** Head and tail differ exactly while some thread is in flight. */
  lemma InFlightIff(mode: Mode, s: Side, limit: nat)
    requires SideInv(mode, s, limit)
    ensures s.head != s.tail <==> exists t {:trigger Get(s, t)} :: Get(s, t).Owns?
  {
    if s.head != s.tail {
      assert OwnerOk(s, s.tail);
      assert Get(s, s.owner[s.tail]).Owns?;
    }
    forall t: nat | Get(s, t).Owns?
      ensures s.head != s.tail
    {
      assert ThreadOk(mode, s, limit, t);
    }
  }

  /** The wait of update_tail cannot deadlock: while anything is in flight, the thread
      that owns the oldest position can copy or publish. */
  lemma SomeoneCanMove(mode: Mode, tr: bool, s: Side, limit: nat) returns (t: nat)
    requires SideInv(mode, s, limit) && s.tail < s.head
    ensures Get(s, t).Owns? && Get(s, t).lo == s.tail
    ensures Enabled(mode, tr, s, limit, Copy(t)) || Enabled(mode, tr, s, limit, Publish(t))
  {
    assert OwnerOk(s, s.tail);
    t := s.owner[s.tail];
    assert ThreadOk(mode, s, limit, t);
  }

  /** update_tail waits for its turn and then stores: once the tail has reached a thread's
      reservation no other thread moves the tail, so that waiting and storing may count as
      one step. */
  lemma TailWaits(mode: Mode, tr: bool, s: Side, limit: nat, e: Event, t: nat)
    requires SideInv(mode, s, limit) && Enabled(mode, tr, s, limit, e) && e.t != t
    requires Get(s, t).Owns? && Get(s, t).lo == s.tail
    ensures var s' := Apply(mode, tr, s, limit, e); s'.tail == s.tail && Get(s', t) == Get(s, t)
  {
    assert ThreadOk(mode, s, limit, t);
    if e.Publish? {
      PublisherIsOldest(mode, tr, s, limit, e);
      OwnersDisjoint(mode, s, limit, t, e.t);
    }
  }

  /** A call starts from the current head, and so does a call whose compare-and-swap was lost. */
  lemma StartsFromHead(mode: Mode, tr: bool, s: Side, limit: nat, e: Event)
    requires Enabled(mode, tr, s, limit, e) && (e.Begin? || e.Reload? || e.Retry?)
    ensures var l, s' := Get(Apply(mode, tr, s, limit, e), e.t), Apply(mode, tr, s, limit, e);
            && l.HasHead? && l.seen == s.head && l.seenTail == s.tail
            && l.n == (if e.Begin? then e.n else Get(s, e.t).n)
            && s'.head == s.head && s'.tail == s.tail
  {
  }

  /** What an attempt to take n positions gets of `free` that are there. */
  ghost predicate Gets(n: nat, free: nat, tr: bool, k: nat) {
    if n <= free then k == n else if tr then k == 0 else k == free
  }

  /** An attempt nobody disturbs: a thread whose loaded head is the current one, with nothing
      in flight in HTS mode, loads the limit and then takes what it gets at once, or returns
      0 when that is nothing. */
  lemma AttemptSucceeds(mode: Mode, tr: bool, s: Side, limit: nat, t: nat, n: nat, at: nat, k: nat)
    requires Get(s, t) == HasHead(n, s.head, s.tail, at) && s.head <= limit && (mode.HTS? ==> s.head == s.tail)
    requires Gets(n, limit - s.head, tr, k)
    ensures Enabled(mode, tr, s, limit, Limit(t))
    ensures var s1 := Apply(mode, tr, s, limit, Limit(t));
            && s1.head == s.head && s1.tail == s.tail
            && if k == 0 then Enabled(mode, tr, s1, limit, Fail(t)) else
                 && Enabled(mode, tr, s1, limit, Reserve(t))
                 && var s2 := Apply(mode, tr, s1, limit, Reserve(t));
                    s2.head == s.head + k && s2.tail == s.tail && Get(s2, t) == Owns(s.head, s.head + k, 0)
  {
  }

  /** After a lost compare-and-swap the next attempt succeeds unless the head moves again. */
  lemma RetrySucceeds(mode: Mode, tr: bool, s: Side, limit: nat, t: nat, k: nat)
    requires SideInv(mode, s, limit) && Enabled(mode, tr, s, limit, Retry(t)) && (mode.HTS? ==> s.head == s.tail)
    requires Gets(Get(s, t).n, limit - s.head, tr, k) && k > 0
    ensures var s1 := Apply(mode, tr, s, limit, Retry(t));
            && Enabled(mode, tr, s1, limit, Limit(t))
            && var s2 := Apply(mode, tr, s1, limit, Limit(t));
               && Enabled(mode, tr, s2, limit, Reserve(t))
               && Apply(mode, tr, s2, limit, Reserve(t)).head == s.head + k
  {
    var s1 := Apply(mode, tr, s, limit, Retry(t));
    StartsFromHead(mode, tr, s, limit, Retry(t));
    AttemptSucceeds(mode, tr, s1, limit, t, Get(s, t).n, Get(s1, t).at, k);
  }

  /** No thread is ever without a step: it can begin, load what it needs next, decide in
      exactly one way, copy, or publish, except that it waits for the tail to reach its
      reservation and, to begin in ST mode, for the others to be idle. */
  lemma NobodyStuck(mode: Mode, tr: bool, s: Side, limit: nat, t: nat, n: nat)
    requires SideInv(mode, s, limit)
    ensures match Get(s, t)
            case Idle => AloneBut(mode, s, t) ==> Enabled(mode, tr, s, limit, Begin(t, n))
            case HasHead(_, seen, seenTail, _) =>
              if mode.HTS? && seen != seenTail then Enabled(mode, tr, s, limit, Reload(t))
              else Enabled(mode, tr, s, limit, Limit(t))
            case HasLimit(_, _, _, _, _) =>
              var f, r, y := Enabled(mode, tr, s, limit, Fail(t)), Enabled(mode, tr, s, limit, Reserve(t)),
                             Enabled(mode, tr, s, limit, Retry(t));
              (f || r || y) && !(f && r) && !(f && y) && !(r && y)
            case Owns(lo, hi, done) =>
              if lo + done < hi then Enabled(mode, tr, s, limit, Copy(t))
              else (mode.MT? ==> s.tail == lo) ==> Enabled(mode, tr, s, limit, Publish(t))
  {
    assert ThreadOk(mode, s, limit, t);
  }

  /** A returned 0 is truthful even with a stale head: when the other side's tail was
      loaded, fewer positions than asked for (none, unless the ring is transactional)
      were left below the limit. */
  lemma ZeroIsTruthful(mode: Mode, tr: bool, s: Side, limit: nat, t: nat)
    requires SideInv(mode, s, limit) && Enabled(mode, tr, s, limit, Limit(t))
    requires Get(s, t).n > 0 && Take(Get(s, t).n, limit - Get(s, t).seen, tr) == 0
    ensures limit - s.head < Get(s, t).n
    ensures !tr ==> s.head == limit
  {
    assert ThreadOk(mode, s, limit, t);
  }
}
