/** Block headers in memory, and which granules the allocator may write. */
module TlsfHeaders {
  import opened TlsfMapping
  import opened TlsfHeap
  import opened TlsfIndex

  // ----- the size word -----

  /** The size in bytes with FREE_BLOCK in bit 0 and PREV_FREE in bit 1. */
  function Word(size: nat, free: bool, prevFree: bool): nat {
    16 * size + (if free then 1 else 0) + (if prevFree then 2 else 0)
  }

  predicate IsFree(w: nat) { w % 2 == 1 }
  predicate IsPrevFree(w: nat) { w / 2 % 2 == 1 }

  /** `size & BLOCK_SIZE`: clears the three low bits. */
  function Bytes(w: nat): nat { w - w % 8 }

  function OrFree(w: nat): nat { if IsFree(w) then w else w + 1 }
  function AndNotFree(w: nat): nat { if IsFree(w) then w - 1 else w }
  function OrPrevFree(w: nat): nat { if IsPrevFree(w) then w else w + 2 }
  function AndNotPrevFree(w: nat): nat { if IsPrevFree(w) then w - 2 else w }

  /** `size & PREV_STATE` */
  function PrevState(w: nat): nat { if IsPrevFree(w) then 2 else 0 }

  lemma WordFields(n: nat, f: bool, p: bool)
    ensures var w := Word(n, f, p);
            && IsFree(w) == f && IsPrevFree(w) == p && Bytes(w) == 16 * n
            && OrFree(w) == Word(n, true, p) && AndNotFree(w) == Word(n, false, p)
            && OrPrevFree(w) == Word(n, f, true) && AndNotPrevFree(w) == Word(n, f, false)
            && PrevState(w) == (if p then 2 else 0)
  {
  }

  // ----- headers -----

  ghost predicate PrevFree(bs: Blocks, a: nat)
    requires a in bs
  {
    bs[a].prev in bs && bs[bs[a].prev].free
  }

  /** The header of block a is right: size, both flags, and prev_hdr when it is valid. */
  ghost predicate Hdr(m: Memory, bs: Blocks, a: nat)
    requires a in bs
  {
    && a < |m|
    && m[a].hi == Word(bs[a].size, bs[a].free, PrevFree(bs, a))
    && (PrevFree(bs, a) ==> m[a].lo == bs[a].prev)
  }

  /** Size and FREE flag of block a are right. */
  ghost predicate Tagged(m: Memory, bs: Blocks, a: nat)
    requires a in bs
  {
    a < |m| && m[a].hi == Word(bs[a].size, bs[a].free, IsPrevFree(m[a].hi))
  }

  /** PREV_FREE flag and prev_hdr of block a are right. */
  ghost predicate Backed(m: Memory, bs: Blocks, a: nat)
    requires a in bs
  {
    a < |m| && IsPrevFree(m[a].hi) == PrevFree(bs, a) && (PrevFree(bs, a) ==> m[a].lo == bs[a].prev)
  }

  ghost predicate HeadersBut(m: Memory, bs: Blocks, ex: set<nat>) {
    forall a {:trigger Hdr(m, bs, a)} :: a in bs && a !in ex ==> Hdr(m, bs, a)
  }

  lemma HdrSplits(m: Memory, bs: Blocks, a: nat)
    requires a in bs
    ensures Hdr(m, bs, a) <==> Tagged(m, bs, a) && Backed(m, bs, a)
  {
    hide IsPrevFree, Word;
    WordFields(bs[a].size, bs[a].free, PrevFree(bs, a));
  }

  // ----- where writes land -----

  /** m' differs from m only in the first payload granule of free blocks. */
  ghost predicate OnlySlots(m: Memory, m': Memory, bs: Blocks) {
    && |m'| == |m|
    && (forall g {:trigger m'[g]} :: 0 <= g < |m| && m'[g] != m[g] ==> g > 0 && g - 1 in bs && bs[g - 1].free)
  }

  /** m' differs from m only in headers and inside block b. */
  ghost predicate OnlyZone(m: Memory, m': Memory, bs: Blocks, b: nat)
    requires b in bs
  {
    && |m'| == |m|
    && (forall g {:trigger m'[g]} :: 0 <= g < |m| && m'[g] != m[g] ==> g in bs || b < g < Next(bs, b))
  }

  ghost predicate KeptAt(live: map<nat, nat>, m: Memory, m': Memory, a: nat)
    requires a in live
  {
    forall g {:trigger m'[g]} :: a < g <= a + live[a] && g < |m| && g < |m'| ==> m'[g] == m[g]
  }

  /** No payload granule of the live blocks changed. */
  ghost predicate Kept(live: map<nat, nat>, m: Memory, m': Memory) {
    |m'| == |m| && forall a {:trigger KeptAt(live, m, m', a)} :: a in live ==> KeptAt(live, m, m', a)
  }

  lemma KeptTransitive(live: map<nat, nat>, m: Memory, m1: Memory, m2: Memory)
    requires Kept(live, m, m1) && Kept(live, m1, m2)
    ensures Kept(live, m, m2)
  {
    forall a | a in live
      ensures KeptAt(live, m, m2, a)
    {
      assert KeptAt(live, m, m1, a) && KeptAt(live, m1, m2, a);
    }
  }

  /** The first granule of a free block is no header and in no live payload. */
  lemma SlotPrivate(h: Heap, x: nat)
    requires Tiled(h.blocks, h.first, h.last) && x in h.blocks && x != h.last
    ensures x + 1 !in h.blocks
    ensures forall a :: a in h.blocks && a < x + 1 < Next(h.blocks, a) ==> a == x
  {
    assert LinkOk(h.blocks, h.first, h.last, x);
    NoBlockInside(h.blocks, h.first, h.last, x, x + 1);
    forall a | a in h.blocks && a < x + 1 < Next(h.blocks, a)
      ensures a == x
    {
      assert Apart(h.blocks, a, x);
    }
  }

  lemma SlotsKeepHeaders(m: Memory, m': Memory, h: Heap, ex: set<nat>)
    requires Tiled(h.blocks, h.first, h.last) && !h.blocks[h.last].free
    requires OnlySlots(m, m', h.blocks) && HeadersBut(m, h.blocks, ex)
    ensures HeadersBut(m', h.blocks, ex)
    ensures forall a :: a in h.blocks && a < |m| ==> m'[a] == m[a]
  {
    hide Word;
    forall a | a in h.blocks && a < |m|
      ensures m'[a] == m[a]
    {
      if m'[a] != m[a] {
        SlotPrivate(h, a - 1);
      }
    }
    forall a | a in h.blocks && a !in ex
      ensures Hdr(m', h.blocks, a)
    {
      assert Hdr(m, h.blocks, a);
    }
  }

  lemma SlotsKeepLive(m: Memory, m': Memory, h: Heap)
    requires Tiled(h.blocks, h.first, h.last) && !h.blocks[h.last].free && OnlySlots(m, m', h.blocks)
    ensures Kept(Live(h), m, m')
  {
    forall a | a in Live(h)
      ensures KeptAt(Live(h), m, m', a)
    {
      forall g | a < g <= a + Live(h)[a] && g < |m|
        ensures m'[g] == m[g]
      {
        if m'[g] != m[g] {
          SlotPrivate(h, g - 1);
        }
      }
    }
  }

  lemma ZoneKeepsLive(m: Memory, m': Memory, h: Heap, b: nat)
    requires Tiled(h.blocks, h.first, h.last) && b in h.blocks && OnlyZone(m, m', h.blocks, b)
    ensures Kept(Live(h) - {b}, m, m')
  {
    var live := Live(h) - {b};
    forall a | a in live
      ensures KeptAt(live, m, m', a)
    {
      assert Apart(h.blocks, a, b) && Apart(h.blocks, b, a);
      forall g | a < g <= a + live[a] && g < |m|
        ensures m'[g] == m[g]
      {
        NoBlockInside(h.blocks, h.first, h.last, a, g);
      }
    }
  }

  /** Writes to headers and inside the unlisted block b leave the index alone. */
  lemma ZoneKeepsIndex(ix: Index, m': Memory, h: Heap, b: nat, ex: set<nat>)
    requires Tiled(h.blocks, h.first, h.last) && b in h.blocks && !h.blocks[h.last].free
    requires IndexedBut(h.blocks, h.lists, ex) && (b in ex || !h.blocks[b].free)
    requires IndexOk(ix, h.lists) && OnlyZone(ix.mem, m', h.blocks, b)
    ensures IndexOk(ix.(mem := m'), h.lists)
  {
    hide ClassOf;
    var ix' := ix.(mem := m');
    forall c | 0 <= c < CLASSES
      ensures ClassOk(ix', h.lists, c)
    {
      assert ClassOk(ix, h.lists, c) && ListOk(h.blocks, h.lists, c) && Absent(h.lists, c, ex);
      forall a | a in h.lists[c] && a + 1 < |m'|
        ensures m'[a + 1] == ix.mem[a + 1]
      {
        assert Filed(h.blocks, a, c);
        SlotPrivate(h, a);
      }
      ChainFrame(ix.mem, m', h.lists[c]);
    }
    forall fl, sl | 0 <= fl < REAL_FLI && 0 <= sl < MAX_SLI
      ensures BitOk(ix', h.lists, fl, sl)
    {
      assert BitOk(ix, h.lists, fl, sl);
    }
    forall fl | 0 <= fl < 32
      ensures RowBitOk(ix', fl)
    {
      assert RowBitOk(ix, fl);
    }
  }
}
