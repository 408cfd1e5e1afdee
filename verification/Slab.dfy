/** The slab size-class cache: thread-local stacks of freed blocks, one per class of eight
    bytes, over blocks obtained from operator new.  Every block starts with an eight-byte
    header naming its class. */
module Slab {
  import opened Arithmetic
  import opened RingMask

  const TWO_32: nat := 0x1_0000_0000
  const TWO_64: nat := 0x1_0000_0000_0000_0000
  const LOOKUP_MAX_CLASS: nat := 512
  const SLAB_OVERHEAD: nat := 8

  /** ROUNDUP in 64-bit arithmetic: `((~x + 1) & 7) + x`. */
  function RoundUp(size: nat): nat
    requires size < TWO_64
  {
    (BitAnd((TWO_64 - 1 - size + 1) % TWO_64, 7) + size) % TWO_64
  }

  /** size2ind returns a uint32_t. */
  function Size2Ind(rsize: nat): nat {
    rsize / 8 % TWO_32
  }

  function Index(size: nat): nat
    requires size < TWO_64
  {
    Size2Ind(RoundUp(size))
  }

  /** What operator new is asked for on a miss. */
  function Bytes(size: nat): nat
    requires size < TWO_64
  {
    (RoundUp(size) + SLAB_OVERHEAD) % TWO_64
  }

  lemma MaskSeven(x: nat)
    ensures BitAnd(x, 7) == x % 8
  {
    Pow2Values();
    hide BitAnd, Pow2;
    MaskIsMod(x, 3);
  }

  /** The least multiple of eight at or above the size, except that it wraps to 0 for the
      last seven sizes. */
  lemma RoundUpMeaning(size: nat)
    requires size < TWO_64
    ensures size <= TWO_64 - 8 ==> size <= RoundUp(size) < size + 8 && RoundUp(size) % 8 == 0
    ensures size > TWO_64 - 8 ==> RoundUp(size) == 0
  {
    hide BitAnd;
    var neg := (TWO_64 - 1 - size + 1) % TWO_64;
    MaskSeven(neg);
    assert size > 0 ==> neg == TWO_64 - size;
  }

  /** operator new is given room for the header except for eight sizes just below 2^64. */
  lemma HeaderFitsIff(size: nat)
    requires size < TWO_64
    ensures Bytes(size) >= SLAB_OVERHEAD <==> !(TWO_64 - 16 < size <= TWO_64 - 8)
  {
    RoundUpMeaning(size);
    hide RoundUp;
  }

  /** A request below 2^35 bytes gets the index of its own class. */
  lemma IndexExact(size: nat)
    requires size <= 8 * TWO_32 - 8
    ensures RoundUp(size) == 8 * Index(size) && Bytes(size) == 8 * Index(size) + SLAB_OVERHEAD
    ensures size <= 8 * Index(size) < size + 8
  {
    RoundUpMeaning(size);
    hide RoundUp;
  }

  /** Blocks are named by the address operator new returned; the user's pointer is eight
      bytes further.  `blocks` gives the bytes obtained for every block not yet returned by
      operator delete, `live` the blocks the program holds. */
  datatype Pool = Pool(cache: map<(nat, nat), seq<nat>>, header: map<nat, nat>,
                       blocks: map<nat, nat>, live: set<nat>)

  /** tcache_[c] of thread t, the top last. */
  function Stack(p: Pool, t: nat, c: nat): seq<nat> {
    if (t, c) in p.cache then p.cache[(t, c)] else []
  }

  predicate Hit(p: Pool, t: nat, size: nat)
    requires size < TWO_64
  {
    Index(size) < LOOKUP_MAX_CLASS && Stack(p, t, Index(size)) != []
  }

  ghost predicate DisjointRanges(b: nat, n: nat, c: nat, m: nat) {
    b + n <= c || c + m <= b
  }

  /** What operator new promises: memory not overlapping any block it has handed out. */
  ghost predicate FreshMemory(p: Pool, b: nat, n: nat) {
    b !in p.blocks && forall c {:trigger p.blocks[c]} :: c in p.blocks ==> DisjointRanges(b, n, c, p.blocks[c])
  }

  /** An operation of thread t; `base` is what operator new would return. */
  datatype Op = Alloc(t: nat, size: nat, base: nat) | Dealloc(t: nat, b: nat)

  /** No double free, no foreign pointer; operator new gives room for the header. */
  ghost predicate Enabled(p: Pool, op: Op) {
    match op
    case Alloc(t, size, base) =>
      && size < TWO_64 && Bytes(size) >= SLAB_OVERHEAD
      && (!Hit(p, t, size) ==> FreshMemory(p, base, Bytes(size)))
    case Dealloc(_, b) => b in p.live && b in p.header
  }

  /** The block on top of a stack. */
  function Top(p: Pool, t: nat, c: nat): nat
    requires Stack(p, t, c) != []
  {
    Stack(p, t, c)[|Stack(p, t, c)| - 1]
  }

  function Returned(p: Pool, t: nat, size: nat, base: nat): nat
    requires size < TWO_64
  {
    if Hit(p, t, size) then Top(p, t, Index(size)) else base
  }

  function Popped(p: Pool, t: nat, c: nat): Pool
    requires Stack(p, t, c) != []
  {
    var st := Stack(p, t, c);
    p.(cache := p.cache[(t, c) := st[..|st| - 1]], live := p.live + {st[|st| - 1]})
  }

  function Obtained(p: Pool, size: nat, base: nat): Pool
    requires size < TWO_64
  {
    p.(header := p.header[base := if Index(size) < LOOKUP_MAX_CLASS then Index(size) else LOOKUP_MAX_CLASS],
       blocks := p.blocks[base := Bytes(size)],
       live := p.live + {base})
  }

  function Pushed(p: Pool, t: nat, b: nat): Pool
    requires b in p.header
  {
    p.(cache := p.cache[(t, p.header[b]) := Stack(p, t, p.header[b]) + [b]], live := p.live - {b})
  }

  function Deleted(p: Pool, b: nat): Pool {
    p.(header := p.header - {b}, blocks := p.blocks - {b}, live := p.live - {b})
  }

  function Next(p: Pool, op: Op): Pool
    requires Enabled(p, op)
  {
    match op
    case Alloc(t, size, base) => if Hit(p, t, size) then Popped(p, t, Index(size)) else Obtained(p, size, base)
    case Dealloc(t, b) => if p.header[b] < LOOKUP_MAX_CLASS then Pushed(p, t, b) else Deleted(p, b)
  }

  // ----- the invariant -----

  /** A place in a cache. */
  datatype Place = Place(t: nat, c: nat, i: nat)

  ghost predicate At(p: Pool, x: Place, b: nat) {
    x.i < |Stack(p, x.t, x.c)| && Stack(p, x.t, x.c)[x.i] == b
  }

  ghost predicate Cached(p: Pool, b: nat) {
    exists x :: At(p, x, b)
  }

  /** A block is in one place only: live, or at one position of one thread's cache. */
  ghost predicate PlaceOk(p: Pool, x: Place) {
    forall b {:trigger At(p, x, b)} :: At(p, x, b) ==>
      && b in p.blocks && b in p.header && b !in p.live
      && p.header[b] == x.c < LOOKUP_MAX_CLASS
      && forall y {:trigger At(p, y, b)} :: At(p, y, b) ==> x == y
  }

  /** A block of class c has at least 8c bytes for the user. */
  ghost predicate BlockOk(p: Pool, b: nat)
    requires b in p.blocks
  {
    && b in p.header && SLAB_OVERHEAD <= p.blocks[b] < TWO_64
    && (p.header[b] < LOOKUP_MAX_CLASS ==> p.blocks[b] >= 8 * p.header[b] + SLAB_OVERHEAD)
    && (b in p.live || Cached(p, b))
    && forall c {:trigger p.blocks[c]} :: c in p.blocks && c != b ==> DisjointRanges(b, p.blocks[b], c, p.blocks[c])
  }

  ghost predicate Inv(p: Pool) {
    && p.live <= p.blocks.Keys && p.header.Keys == p.blocks.Keys
    && (forall x {:trigger PlaceOk(p, x)} :: PlaceOk(p, x))
    && (forall b {:trigger BlockOk(p, b)} :: b in p.blocks ==> BlockOk(p, b))
  }

  /** A block of class c has exactly 8c bytes, and one above the classes at least as many
      as the last class would. */
  ghost predicate Exact(p: Pool, b: nat)
    requires b in p.blocks && b in p.header
  {
    if p.header[b] < LOOKUP_MAX_CLASS then p.blocks[b] == 8 * p.header[b] + SLAB_OVERHEAD
    else p.blocks[b] >= 8 * LOOKUP_MAX_CLASS + SLAB_OVERHEAD
  }

  ghost predicate AllExact(p: Pool) {
    forall b {:trigger Exact(p, b)} :: b in p.blocks && b in p.header ==> Exact(p, b)
  }

  // ----- each operation keeps the invariant -----

  lemma PoppedInv(p: Pool, t: nat, c: nat)
    requires Inv(p) && Stack(p, t, c) != []
    ensures Inv(Popped(p, t, c))
  {
    var p', st := Popped(p, t, c), Stack(p, t, c);
    var top := Place(t, c, |st| - 1);
    var b := st[|st| - 1];
    assert At(p, top, b) && PlaceOk(p, top);
    assert forall x, d {:trigger At(p', x, d)} :: At(p', x, d) <==> At(p, x, d) && x != top;
    forall x
      ensures PlaceOk(p', x)
    {
      assert PlaceOk(p, x);
    }
    forall d | d in p'.blocks
      ensures BlockOk(p', d)
    {
      assert BlockOk(p, d);
      if d !in p'.live {
        var x :| At(p, x, d);
        assert At(p', x, d);
      }
    }
  }

  lemma ObtainedInv(p: Pool, size: nat, base: nat)
    requires Inv(p) && size < TWO_64 && Bytes(size) >= SLAB_OVERHEAD && FreshMemory(p, base, Bytes(size))
    ensures Inv(Obtained(p, size, base))
  {
    var p' := Obtained(p, size, base);
    BytesCover(size);
    hide Bytes, Index;
    assert forall x, d {:trigger At(p', x, d)} :: At(p', x, d) <==> At(p, x, d);
    forall x
      ensures PlaceOk(p', x)
    {
      assert PlaceOk(p, x);
    }
    forall d | d in p'.blocks
      ensures BlockOk(p', d)
    {
      if d != base {
        assert BlockOk(p, d);
        if d !in p'.live {
          var x :| At(p, x, d);
          assert At(p', x, d);
        }
      }
    }
  }

  /** However the index was truncated, the bytes obtained cover the class it names. */
  lemma BytesCover(size: nat)
    requires size < TWO_64 && Bytes(size) >= SLAB_OVERHEAD
    ensures Bytes(size) >= 8 * Index(size) + SLAB_OVERHEAD
    ensures Bytes(size) >= size + SLAB_OVERHEAD <==> size <= TWO_64 - 16
    ensures Bytes(size) < TWO_64
  {
    RoundUpMeaning(size);
    hide RoundUp;
  }

  lemma PushedInv(p: Pool, t: nat, b: nat)
    requires Inv(p) && b in p.live && b in p.header && p.header[b] < LOOKUP_MAX_CLASS
    ensures Inv(Pushed(p, t, b))
  {
    var p', c := Pushed(p, t, b), p.header[b];
    var top := Place(t, c, |Stack(p, t, c)|);
    assert At(p', top, b);
    forall y
      ensures !At(p, y, b)
    {
      assert PlaceOk(p, y);
    }
    assert forall x, d {:trigger At(p', x, d)} :: At(p', x, d) <==> At(p, x, d) || (x == top && d == b);
    forall x
      ensures PlaceOk(p', x)
    {
      assert PlaceOk(p, x);
    }
    forall d | d in p'.blocks
      ensures BlockOk(p', d)
    {
      assert BlockOk(p, d);
      if d != b && d !in p'.live {
        var x :| At(p, x, d);
        assert At(p', x, d);
      }
    }
  }

  lemma DeletedInv(p: Pool, b: nat)
    requires Inv(p) && b in p.live
    ensures Inv(Deleted(p, b))
  {
    var p' := Deleted(p, b);
    assert forall x, d {:trigger At(p', x, d)} :: At(p', x, d) <==> At(p, x, d);
    forall x
      ensures PlaceOk(p', x)
    {
      assert PlaceOk(p, x);
    }
    forall d | d in p'.blocks
      ensures BlockOk(p', d)
    {
      assert BlockOk(p, d);
      if d !in p'.live {
        var x :| At(p, x, d);
        assert At(p', x, d);
      }
    }
  }

  /** Every operation of every thread keeps the ownership invariant, whatever the sizes. */
  lemma StepInv(p: Pool, op: Op)
    requires Inv(p) && Enabled(p, op)
    ensures Inv(Next(p, op))
  {
    hide Inv, Popped, Obtained, Pushed, Deleted;
    match op
    case Alloc(t, size, base) =>
      if Hit(p, t, size) {
        PoppedInv(p, t, Index(size));
      } else {
        ObtainedInv(p, size, base);
      }
    case Dealloc(t, b) =>
      if p.header[b] < LOOKUP_MAX_CLASS {
        PushedInv(p, t, b);
      } else {
        DeletedInv(p, b);
      }
  }

  /** Requests below 2^35 bytes keep every class exact. */
  ghost predicate Modest(op: Op) {
    op.Alloc? ==> op.size <= 8 * TWO_32 - 8
  }

  lemma StepExact(p: Pool, op: Op)
    requires Inv(p) && AllExact(p) && Enabled(p, op) && Modest(op)
    ensures AllExact(Next(p, op))
  {
    var p' := Next(p, op);
    if op.Alloc? {
      IndexExact(op.size);
    }
    hide Index, Bytes, PlaceOk, BlockOk;
    forall b | b in p'.blocks && b in p'.header
      ensures Exact(p', b)
    {
      assert b in p.blocks && b in p.header ==> Exact(p, b);
    }
  }

  // ----- what a caller gets -----

  /** The bytes behind the returned pointer cover the request. */
  ghost predicate Fits(p: Pool, op: Op)
    requires op.Alloc? && Enabled(p, op)
  {
    var b := Returned(p, op.t, op.size, op.base);
    b in Next(p, op).blocks && op.size + SLAB_OVERHEAD <= Next(p, op).blocks[b]
  }

  lemma ReturnedIsNew(p: Pool, op: Op)
    requires Inv(p) && op.Alloc? && Enabled(p, op)
    ensures var b := Returned(p, op.t, op.size, op.base);
            && b !in p.live && Next(p, op).live == p.live + {b}
            && b in Next(p, op).blocks && b in Next(p, op).header
            && (Hit(p, op.t, op.size) ==> b in p.blocks && b in p.header && p.header[b] == Index(op.size)
                                          && Next(p, op).blocks == p.blocks)
            && (!Hit(p, op.t, op.size) ==> Next(p, op).blocks[b] == Bytes(op.size))
  {
    hide Index, Bytes;
    if Hit(p, op.t, op.size) {
      var st := Stack(p, op.t, Index(op.size));
      var top := Place(op.t, Index(op.size), |st| - 1);
      assert At(p, top, st[|st| - 1]) && PlaceOk(p, top);
    }
  }

  /** After any history at all, a request below 2^35 bytes gets a block that is not in use
      and large enough, whichever thread freed it. */
  lemma AllocFits(p: Pool, op: Op)
    requires Inv(p) && op.Alloc? && Enabled(p, op) && Modest(op)
    ensures Returned(p, op.t, op.size, op.base) !in p.live
    ensures Fits(p, op)
  {
    ReturnedIsNew(p, op);
    IndexExact(op.size);
    var b := Returned(p, op.t, op.size, op.base);
    assert b in p.blocks ==> BlockOk(p, b);
    hide Index, Bytes, Next, Returned, Inv;
  }

  /** After any history, a request of any size fits exactly when rounding does not wrap and
      its truncated index does not hit a cached block that is too small. */
  lemma AllocFitsIff(p: Pool, op: Op)
    requires Inv(p) && op.Alloc? && Enabled(p, op)
    ensures Hit(p, op.t, op.size) ==> Top(p, op.t, Index(op.size)) in p.blocks
    ensures Fits(p, op) <==>
              && op.size <= TWO_64 - 16
              && (op.size <= 8 * TWO_32 - 8 || !Hit(p, op.t, op.size)
                  || op.size + SLAB_OVERHEAD <= p.blocks[Top(p, op.t, Index(op.size))])
  {
    ReturnedIsNew(p, op);
    BytesCover(op.size);
    HeaderFitsIff(op.size);
    var b := Returned(p, op.t, op.size, op.base);
    assert b in p.blocks ==> BlockOk(p, b);
    if op.size <= 8 * TWO_32 - 8 {
      AllocFits(p, op);
    }
    hide Next, Inv, Index, Bytes, Stack;
  }

  /** Where every class is exact, which requests below 2^35 bytes guarantee, a request of any
      size fits exactly when rounding does not wrap and its truncated index hits no cached
      block at all. */
  lemma ExactFitsIff(p: Pool, op: Op)
    requires Inv(p) && AllExact(p) && op.Alloc? && Enabled(p, op)
    ensures Fits(p, op) <==>
              op.size <= TWO_64 - 16 && (op.size <= 8 * TWO_32 - 8 || !Hit(p, op.t, op.size))
  {
    AllocFitsIff(p, op);
    ReturnedIsNew(p, op);
    var b := Returned(p, op.t, op.size, op.base);
    assert b in p.blocks && b in p.header ==> Exact(p, b);
    hide Next, Inv, AllExact, Index, Bytes, Fits, Stack;
  }

  /** Blocks in use never share a byte. */
  lemma LiveApart(p: Pool, b: nat, c: nat)
    requires Inv(p) && b in p.live && c in p.live && b != c
    ensures b in p.blocks && c in p.blocks && DisjointRanges(b, p.blocks[b], c, p.blocks[c])
  {
    assert BlockOk(p, b);
  }

  /** Every block is in use or at exactly one place of one thread's cache, and a cached
      block is in the stack its header names. */
  lemma OnePlace(p: Pool, b: nat)
    requires Inv(p) && b in p.blocks
    ensures b in p.live <==> !Cached(p, b)
    ensures forall x, y {:trigger At(p, x, b), At(p, y, b)} ::
              At(p, x, b) && At(p, y, b) ==> x == y && x.c == p.header[b]
  {
    assert BlockOk(p, b);
    forall x, y | At(p, x, b) && At(p, y, b)
      ensures x == y && x.c == p.header[b] && b !in p.live
    {
      assert PlaceOk(p, x);
    }
  }

  /** Freeing and then asking for the same class on one thread gives the block back and
      restores the pool. */
  lemma FreeThenAlloc(p: Pool, t: nat, b: nat, size: nat, base: nat)
    requires Inv(p) && Enabled(p, Dealloc(t, b)) && p.header[b] < LOOKUP_MAX_CLASS
    requires size <= 8 * TWO_32 - 8 && Index(size) == p.header[b]
    ensures var q := Next(p, Dealloc(t, b));
            && Enabled(q, Alloc(t, size, base)) && Returned(q, t, size, base) == b
            && SamePool(Next(q, Alloc(t, size, base)), p)
  {
    IndexExact(size);
    hide Index, Bytes, Inv, Popped, Pushed;
    PushPop(p, t, b);
  }

  lemma PushPop(p: Pool, t: nat, b: nat)
    requires b in p.live && b in p.header
    ensures var q, c := Pushed(p, t, b), p.header[b];
            && Stack(q, t, c) == Stack(p, t, c) + [b]
            && SamePool(Popped(q, t, c), p)
  {
    var q, c := Pushed(p, t, b), p.header[b];
    assert Stack(q, t, c) == Stack(p, t, c) + [b];
    var r := Popped(q, t, c);
    assert r.live == p.live;
    forall t', c'
      ensures Stack(r, t', c') == Stack(p, t', c')
    {
    }
  }

  /** The index of every size that does not wrap: its number of eight-byte units, modulo 2^32. */
  lemma IndexTruncated(size: nat)
    requires size <= TWO_64 - 8
    ensures Index(size) == (size + 7) / 8 % TWO_32
  {
    RoundUpMeaning(size);
    hide RoundUp;
  }

  /** A block obtained for one size and freed serves the next request on that thread whose
      index is the same, truncated or not. */
  lemma FreshThenReused(p: Pool, t: nat, size: nat, base: nat, size': nat, base': nat)
    requires Inv(p) && Enabled(p, Alloc(t, size, base)) && !Hit(p, t, size)
    requires size' < TWO_64 && Bytes(size') >= SLAB_OVERHEAD
    requires Index(size') == Index(size) < LOOKUP_MAX_CLASS
    ensures var q := Next(p, Alloc(t, size, base));
            && Enabled(q, Dealloc(t, base))
            && var q1 := Next(q, Dealloc(t, base));
               Hit(q1, t, size') && Enabled(q1, Alloc(t, size', base')) && Returned(q1, t, size', base') == base
  {
    hide Index, Bytes, Inv;
    var q := Next(p, Alloc(t, size, base));
    var q1 := Next(q, Dealloc(t, base));
    assert Stack(q1, t, Index(size)) == Stack(q, t, Index(size)) + [base];
  }

  /** Equal except that an empty stack may be listed or not. */
  ghost predicate SamePool(p: Pool, q: Pool) {
    && p.header == q.header && p.blocks == q.blocks && p.live == q.live
    && forall t, c {:trigger Stack(p, t, c)} {:trigger Stack(q, t, c)} :: Stack(p, t, c) == Stack(q, t, c)
  }

  /** An operation touches the caches of its own thread only. */
  lemma OwnCacheOnly(p: Pool, op: Op, t: nat, c: nat)
    requires Enabled(p, op) && t != op.t
    ensures Stack(Next(p, op), t, c) == Stack(p, t, c)
  {
    hide Index, Bytes;
  }

  // ----- runs -----

  ghost predicate Runs(p: Pool, run: seq<Op>, p': Pool)
    decreases |run|
  {
    if run == [] then p' == p else Enabled(p, run[0]) && Runs(Next(p, run[0]), run[1..], p')
  }

  function Empty(): (p: Pool)
    ensures Inv(p) && AllExact(p)
  {
    var p := Pool(map[], map[], map[], {});
    p
  }

  /** Over every interleaving of operations of any threads. */
  lemma {:induction false} RunInv(p: Pool, run: seq<Op>, p': Pool)
    requires Inv(p) && Runs(p, run, p')
    ensures Inv(p')
    ensures AllExact(p) && (forall i {:trigger Modest(run[i])} :: 0 <= i < |run| ==> Modest(run[i])) ==> AllExact(p')
    decreases |run|
  {
    hide Inv, AllExact, Enabled, Next;
    if run != [] {
      StepInv(p, run[0]);
      if AllExact(p) && Modest(run[0]) {
        StepExact(p, run[0]);
      }
      RunInv(Next(p, run[0]), run[1..], p');
      assert forall i {:trigger Modest(run[1..][i])} :: 0 <= i < |run| - 1 ==> run[1..][i] == run[i + 1];
      if forall i {:trigger Modest(run[i])} :: 0 <= i < |run| ==> Modest(run[i]) {
        assert Modest(run[0]);
        forall i | 0 <= i < |run| - 1
          ensures Modest(run[1..][i])
        {
          assert Modest(run[i + 1]);
        }
      }
    }
  }

  ghost predicate Misfits(p: Pool, op: Op) {
    op.Alloc? && Enabled(p, op) && !Fits(p, op)
  }

  /** A request for 2^35 + 8 bytes after a block of class 1 was freed: the truncated index
      is 1 and the eight-byte block is handed out. */
  lemma TruncatedIndexMisfits()
    ensures exists p :: Runs(Empty(), [Alloc(0, 8, 0), Dealloc(0, 0)], p) && Misfits(p, Alloc(0, 8 * TWO_32 + 8, 100))
  {
    IndexExact(8);
    RoundUpMeaning(8 * TWO_32 + 8);
    HeaderFitsIff(8 * TWO_32 + 8);
    hide RoundUp, Bytes;
    assert Index(8) == 1 && Index(8 * TWO_32 + 8) == 1;
    hide Index;
    var a, d := Alloc(0, 8, 0), Dealloc(0, 0);
    var p0 := Empty();
    assert Stack(p0, 0, 1) == [];
    assert Enabled(p0, a);
    var p1 := Next(p0, a);
    StepInv(p0, a);
    StepExact(p0, a);
    assert Enabled(p1, d);
    var p2 := Next(p1, d);
    StepInv(p1, d);
    StepExact(p1, d);
    assert Stack(p2, 0, 1) == [0];
    var run := [a, d];
    assert Hit(p2, 0, 8 * TWO_32 + 8);
    ExactFitsIff(p2, Alloc(0, 8 * TWO_32 + 8, 100));
    assert Runs(p2, run[1..][1..], p2);
    assert Runs(p1, run[1..], p2);
    assert Runs(p0, run, p2) && Misfits(p2, Alloc(0, 8 * TWO_32 + 8, 100));
  }

  // ----- the allocator -----

  /** The thread-local stacks and the headers, with what operator new has handed out. */
  class SlabPoolAllocator {
    var tcache: map<(nat, nat), seq<nat>>
    var header: map<nat, nat>
    ghost var blocks: map<nat, nat>
    ghost var live: set<nat>

    ghost function View(): Pool
      reads this
    {
      Pool(tcache, header, blocks, live)
    }

    constructor ()
      ensures View() == Empty()
    {
      tcache := map[];
      header := map[];
      blocks := map[];
      live := {};
    }

    /** slab_alloc on thread t; the returned block's pointer is at b + 8. */
    method Alloc(t: nat, size: nat, base: nat) returns (b: nat)
      requires Inv(View()) && Enabled(View(), Op.Alloc(t, size, base))
      modifies this
      ensures View() == Next(old(View()), Op.Alloc(t, size, base)) && Inv(View())
      ensures b !in old(live) && live == old(live) + {b} && b in blocks
      ensures size <= 8 * TWO_32 - 8 ==> size + SLAB_OVERHEAD <= blocks[b]
    {
      ghost var p, op := View(), Op.Alloc(t, size, base);
      StepInv(p, op);
      ReturnedIsNew(p, op);
      if Modest(op) {
        AllocFits(p, op);
      }
      hide Inv, Index, Bytes;
      var ind := Index(size);
      if ind < LOOKUP_MAX_CLASS && (t, ind) in tcache && tcache[(t, ind)] != [] {
        var st := tcache[(t, ind)];
        b := st[|st| - 1];
        tcache := tcache[(t, ind) := st[..|st| - 1]];
      } else {
        b := base;
        blocks := blocks[b := Bytes(size)];
        header := header[b := if ind < LOOKUP_MAX_CLASS then ind else LOOKUP_MAX_CLASS];
      }
      live := live + {b};
    }

    /** slab_dealloc on thread t. */
    method Dealloc(t: nat, b: nat)
      requires Inv(View()) && Enabled(View(), Op.Dealloc(t, b))
      modifies this
      ensures View() == Next(old(View()), Op.Dealloc(t, b)) && Inv(View())
      ensures live == old(live) - {b}
    {
      StepInv(View(), Op.Dealloc(t, b));
      hide Inv, Index, Bytes;
      var ind := header[b];
      if ind < LOOKUP_MAX_CLASS {
        tcache := tcache[(t, ind) := (if (t, ind) in tcache then tcache[(t, ind)] else []) + [b]];
      } else {
        blocks := blocks - {b};
        header := header - {b};
      }
      live := live - {b};
    }
  }
}
