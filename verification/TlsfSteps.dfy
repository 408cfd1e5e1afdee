/** The steps of malloc_ex, free_ex and realloc_ex on memory, each against the step
    of the heap it stands for. */
module TlsfSteps {
  import opened Sequences
  import opened TlsfMapping
  import opened TlsfHeap
  import opened TlsfIndex
  import opened TlsfHeaders

  /** Memory and index represent heap h, but for the headers in ex. */
  ghost predicate RepBut(ix: Index, h: Heap, ex: set<nat>) {
    |ix.mem| == h.last + 1 && HeadersBut(ix.mem, h.blocks, ex) && IndexOk(ix, h.lists)
  }

  ghost predicate Rep(ix: Index, h: Heap) {
    RepBut(ix, h, {})
  }

  /** MAPPING_INSERT of a block's size names the block's list. */
  lemma MapsToClass(h: Heap, b: nat)
    requires Tiled(h.blocks, h.first, h.last) && h.last < MAX_GRANULES && b in h.blocks
    ensures 16 * h.blocks[b].size < LIMIT
    ensures var mi := MappingInsert(16 * h.blocks[b].size);
            && 0 <= mi.fl < REAL_FLI && 0 <= mi.sl < MAX_SLI
            && ClassOf(h.blocks[b].size) == 32 * mi.fl + mi.sl
  {
    hide MappingInsert, ClassOf;
    SizeBounded(h, b);
    ClassSandwich(16 * h.blocks[b].size);
  }

  /** The slots written when a listed block is unlinked belong to free blocks. */
  lemma ExtractSlots(ix: Index, h: Heap, ex: set<nat>, fl: nat, sl: nat, i: nat)
    requires IndexedBut(h.blocks, h.lists, ex) && IndexOk(ix, h.lists)
    requires fl < REAL_FLI && sl < MAX_SLI && i < |h.lists[32 * fl + sl]|
    requires Usable(ix, h.lists[32 * fl + sl][i], fl, sl) && LinksInside(ix.mem, h.lists[32 * fl + sl][i])
    ensures OnlySlots(ix.mem, Extract(ix, h.lists[32 * fl + sl][i], fl, sl).mem, h.blocks)
  {
    hide ClassOf;
    var l := h.lists[32 * fl + sl];
    assert ClassOk(ix, h.lists, 32 * fl + sl) && Node(ix.mem, l, i) && ListOk(h.blocks, h.lists, 32 * fl + sl);
    assert Filed(h.blocks, l[i], 32 * fl + sl);
    assert i > 0 ==> Filed(h.blocks, l[i - 1], 32 * fl + sl);
    assert i + 1 < |l| ==> Filed(h.blocks, l[i + 1], 32 * fl + sl);
  }

  /** EXTRACT_BLOCK on a free block takes it out of its list. */
  lemma ExtractRep(ix: Index, h: Heap, ex: set<nat>, b: nat, fl: nat, sl: nat)
    requires IndexedBut(h.blocks, h.lists, ex) && IndexOk(ix, h.lists)
    requires b in h.blocks && h.blocks[b].free && b !in ex
    requires fl < REAL_FLI && sl < MAX_SLI && 32 * fl + sl == ClassOf(h.blocks[b].size)
    ensures Usable(ix, b, fl, sl) && LinksInside(ix.mem, b)
    ensures IndexOk(Extract(ix, b, fl, sl), Drop(h, b).lists)
    ensures OnlySlots(ix.mem, Extract(ix, b, fl, sl).mem, h.blocks)
  {
    hide ClassOf;
    var c := 32 * fl + sl;
    assert Listed(h.blocks, h.lists, b);
    var l := h.lists[c];
    var i :| 0 <= i < |l| && l[i] == b;
    IndexedDistinct(h.blocks, h.lists, ex);
    ExtractOk(ix, h.lists, fl, sl, i);
    ExtractSlots(ix, h, ex, fl, sl, i);
    assert NoDup(l);
    UnlinkAt(l, i);
  }

  lemma InsertSlots(ix: Index, h: Heap, ex: set<nat>, b: nat, fl: nat, sl: nat)
    requires IndexedBut(h.blocks, h.lists, ex) && IndexOk(ix, h.lists)
    requires b in h.blocks && h.blocks[b].free && Usable(ix, b, fl, sl)
    requires ix.matrix[32 * fl + sl] != 0 ==> ix.matrix[32 * fl + sl] + 1 < |ix.mem|
    ensures OnlySlots(ix.mem, Insert(ix, b, fl, sl).mem, h.blocks)
  {
    hide ClassOf;
    var c := 32 * fl + sl;
    var l := h.lists[c];
    assert ClassOk(ix, h.lists, c) && ListOk(h.blocks, h.lists, c);
    assert l != [] ==> Filed(h.blocks, l[0], c);
  }

  /** INSERT_BLOCK on an unlisted free block puts it at the head of its list. */
  lemma InsertRep(ix: Index, h: Heap, ex: set<nat>, b: nat, fl: nat, sl: nat)
    requires IndexedBut(h.blocks, h.lists, ex) && IndexOk(ix, h.lists)
    requires b in h.blocks && h.blocks[b].free && b in ex && 0 < b && b + 1 < |ix.mem|
    requires fl < REAL_FLI && sl < MAX_SLI && 32 * fl + sl == ClassOf(h.blocks[b].size)
    ensures Usable(ix, b, fl, sl)
    ensures ix.matrix[32 * fl + sl] != 0 ==> ix.matrix[32 * fl + sl] + 1 < |ix.mem|
    ensures IndexOk(Insert(ix, b, fl, sl), Enlist(h, b).lists)
    ensures OnlySlots(ix.mem, Insert(ix, b, fl, sl).mem, h.blocks)
  {
    hide ClassOf;
    IndexedDistinct(h.blocks, h.lists, ex);
    forall c | 0 <= c < CLASSES
      ensures b !in h.lists[c]
    {
      assert Absent(h.lists, c, ex);
    }
    InsertOk(ix, h.lists, b, fl, sl);
    InsertSlots(ix, h, ex, b, fl, sl);
  }

  // ----- header steps -----

  /** The header of a and everything it describes is as before. */
  ghost predicate SameHdr(m: Memory, bs: Blocks, m': Memory, bs': Blocks, a: nat)
    requires a in bs'
  {
    && a in bs && |m'| == |m| && (a < |m| ==> m'[a] == m[a])
    && bs'[a] == bs[a] && PrevFree(bs', a) == PrevFree(bs, a)
  }

  lemma SameHdrKeeps(m: Memory, bs: Blocks, m': Memory, bs': Blocks, a: nat)
    requires a in bs' && SameHdr(m, bs, m', bs', a)
    ensures Hdr(m, bs, a) <==> Hdr(m', bs', a)
  {
    hide Word;
  }

  /** b->size |= FREE_BLOCK.  The successor's PREV_FREE flag is not looked at. */
  lemma ReleaseHdr(m: Memory, h: Heap, b: nat)
    requires Mid(h, b) && |m| == h.last + 1 && !h.blocks[b].free
    requires HeadersBut(m, h.blocks, {Next(h.blocks, b)}) && Tagged(m, h.blocks, Next(h.blocks, b))
    ensures b < |m|
    ensures var m', bs' := StoreHi(m, b, OrFree(m[b].hi)), SetFree(h.blocks, b, true);
            HeadersBut(m', bs', {Next(h.blocks, b)}) && Tagged(m', bs', Next(h.blocks, b))
  {
    hide IndexedBut, CoalescedBut, Word, OrFree, IsPrevFree;
    var bs, nx := h.blocks, Next(h.blocks, b);
    assert Hdr(m, bs, b) && LinkOk(bs, h.first, h.last, b);
    var m', bs' := StoreHi(m, b, OrFree(m[b].hi)), SetFree(bs, b, true);
    WordFields(bs[b].size, false, PrevFree(bs, b));
    forall a | a in bs' && a != nx
      ensures Hdr(m', bs', a)
    {
      assert Hdr(m, bs, a) && LinkOk(bs, h.first, h.last, a);
      if a != b {
        SameHdrKeeps(m, bs, m', bs', a);
      }
    }
  }

  /** b->size += size of the successor and its header. */
  lemma JoinNextHdr(m: Memory, h: Heap, b: nat)
    requires Mid(h, b) && |m| == h.last + 1 && h.blocks[b].free && h.blocks[Next(h.blocks, b)].free
    requires Next(h.blocks, Next(h.blocks, b)) in h.blocks
    requires HeadersBut(m, h.blocks, {Next(h.blocks, b)}) && Tagged(m, h.blocks, Next(h.blocks, b))
    ensures var nx := Next(h.blocks, b);
            var m' := StoreHi(m, b, m[b].hi + Bytes(m[nx].hi) + 16);
            var bs', nn := Merge(h.blocks, b), Next(h.blocks, nx);
            HeadersBut(m', bs', {nn}) && Tagged(m', bs', nn)
  {
    hide IndexedBut, CoalescedBut, IsPrevFree, Bytes;
    var bs, nx := h.blocks, Next(h.blocks, b);
    var nn := Next(bs, nx);
    assert LinkOk(bs, h.first, h.last, b) && LinkOk(bs, h.first, h.last, nx) && LinkOk(bs, h.first, h.last, nn);
    assert Hdr(m, bs, b) && Hdr(m, bs, nn);
    HdrSplits(m, bs, nn);
    WordFields(bs[nx].size, true, IsPrevFree(m[nx].hi));
    var m', bs' := StoreHi(m, b, m[b].hi + Bytes(m[nx].hi) + 16), Merge(bs, b);
    forall a | a in bs' && a != nn
      ensures Hdr(m', bs', a)
    {
      assert Hdr(m, bs, a) && LinkOk(bs, h.first, h.last, a);
      if a != b {
        SameHdrKeeps(m, bs, m', bs', a);
      }
    }
  }

  /** The predecessor's size grows by b and its header. */
  lemma JoinPrevHdr(m: Memory, h: Heap, b: nat)
    requires Mid(h, b) && |m| == h.last + 1 && h.blocks[b].free && h.blocks[h.blocks[b].prev].free
    requires HeadersBut(m, h.blocks, {Next(h.blocks, b)}) && Tagged(m, h.blocks, Next(h.blocks, b))
    ensures var p := h.blocks[b].prev;
            && p < |m| && b < |m| && m[b].lo == p && IsPrevFree(m[b].hi)
            && var m' := StoreHi(m, p, m[p].hi + Bytes(m[b].hi) + 16);
            var bs', nx := Merge(h.blocks, p), Next(h.blocks, b);
            HeadersBut(m', bs', {nx}) && Tagged(m', bs', nx)
  {
    hide IndexedBut, CoalescedBut, IsPrevFree, Bytes;
    var bs, nx, p := h.blocks, Next(h.blocks, b), h.blocks[b].prev;
    assert LinkOk(bs, h.first, h.last, b) && LinkOk(bs, h.first, h.last, nx) && LinkOk(bs, h.first, h.last, p);
    assert Hdr(m, bs, b) && Hdr(m, bs, p);
    WordFields(bs[b].size, true, true);
    var m', bs' := StoreHi(m, p, m[p].hi + Bytes(m[b].hi) + 16), Merge(bs, p);
    forall a | a in bs' && a != nx
      ensures Hdr(m', bs', a)
    {
      assert Hdr(m, bs, a) && LinkOk(bs, h.first, h.last, a);
      if a != p {
        SameHdrKeeps(m, bs, m', bs', a);
      }
    }
  }

  /** The successor learns that b is free. */
  lemma FlagNextHdr(m: Memory, h: Heap, b: nat)
    requires Mid(h, b) && |m| == h.last + 1 && h.blocks[b].free
    requires HeadersBut(m, h.blocks, {Next(h.blocks, b)}) && Tagged(m, h.blocks, Next(h.blocks, b))
    ensures var nx := Next(h.blocks, b);
            HeadersBut(StoreLo(StoreHi(m, nx, OrPrevFree(m[nx].hi)), nx, b), h.blocks, {})
  {
    hide IndexedBut, CoalescedBut, IsPrevFree, OrPrevFree, Word;
    var bs, nx := h.blocks, Next(h.blocks, b);
    var m' := StoreLo(StoreHi(m, nx, OrPrevFree(m[nx].hi)), nx, b);
    assert LinkOk(bs, h.first, h.last, b);
    WordFields(bs[nx].size, bs[nx].free, IsPrevFree(m[nx].hi));
    forall a | a in bs
      ensures Hdr(m', bs, a)
    {
      if a != nx {
        assert Hdr(m, bs, a);
      }
    }
  }

  /** malloc_ex without a split: the block and its successor's flag. */
  lemma UseHdr(m: Memory, h: Heap, b: nat)
    requires Mid(h, b) && |m| == h.last + 1 && h.blocks[b].free && HeadersBut(m, h.blocks, {})
    ensures b < |m| && Next(h.blocks, b) < |m|
    ensures var nx := Next(h.blocks, b);
            var m' := StoreHi(m, nx, AndNotPrevFree(m[nx].hi));
            HeadersBut(StoreHi(m', b, AndNotFree(m'[b].hi)), SetFree(h.blocks, b, false), {})
  {
    hide IndexedBut, CoalescedBut, AndNotPrevFree, AndNotFree, Word;
    var bs, nx := h.blocks, Next(h.blocks, b);
    assert LinkOk(bs, h.first, h.last, b) && Hdr(m, bs, b) && Hdr(m, bs, nx);
    var m1 := StoreHi(m, nx, AndNotPrevFree(m[nx].hi));
    var m', bs' := StoreHi(m1, b, AndNotFree(m1[b].hi)), SetFree(bs, b, false);
    WordFields(bs[nx].size, bs[nx].free, true);
    WordFields(bs[b].size, true, PrevFree(bs, b));
    forall a | a in bs'
      ensures Hdr(m', bs', a)
    {
      assert Hdr(m, bs, a) && LinkOk(bs, h.first, h.last, a);
      if a != b && a != nx {
        SameHdrKeeps(m, bs, m', bs', a);
      }
    }
  }

  /** The header writes of a split up to the list insertion: the remainder's size,
      then prev_hdr and PREV_FREE of the block after it. */
  function SplitRest(m: Memory, b2: nat, rest: nat, nx: nat): (m': Memory)
    requires b2 < |m| && nx < |m|
    ensures |m'| == |m|
  {
    var m1 := StoreLo(StoreHi(m, b2, 16 * rest + 1), nx, b2);
    StoreHi(m1, nx, OrPrevFree(m1[nx].hi))
  }

  /** The last write of a split: b's new size, keeping its PREV_STATE. */
  function Resized(m: Memory, b: nat, n: nat): (m': Memory)
    requires b < |m|
    ensures |m'| == |m|
  {
    StoreHi(m, b, 16 * n + PrevState(m[b].hi))
  }

  /** The header writes of a split: the remainder, its successor, and b itself. */
  function SplitMem(m: Memory, b: nat, n: nat, rest: nat, nx: nat): (m': Memory)
    requires b < |m| && b + 1 + n < |m| && nx < |m|
    ensures |m'| == |m|
  {
    Resized(SplitRest(m, b + 1 + n, rest, nx), b, n)
  }

  /** malloc_ex does not set PREV_FREE after a split: it is set already. */
  lemma FlagAlreadySet(m: Memory, b2: nat, rest: nat, nx: nat)
    requires b2 < |m| && nx < |m| && b2 != nx && IsPrevFree(m[nx].hi)
    ensures SplitRest(m, b2, rest, nx) == StoreLo(StoreHi(m, b2, 16 * rest + 1), nx, b2)
  {
    hide IsPrevFree;
    var m1 := StoreLo(StoreHi(m, b2, 16 * rest + 1), nx, b2);
    assert m1[nx].hi == m[nx].hi;
    assert StoreHi(m1, nx, m1[nx].hi) == m1;
  }

  lemma SplitHdr(m: Memory, h: Heap, b: nat, n: nat)
    requires Mid(h, b) && |m| == h.last + 1 && !h.blocks[b].free && 1 <= n && n + 2 <= h.blocks[b].size
    requires HeadersBut(m, h.blocks, {b, Next(h.blocks, b)})
    requires Tagged(m, h.blocks, Next(h.blocks, b)) && Backed(m, h.blocks, b)
    ensures HeadersBut(SplitMem(m, b, n, h.blocks[b].size - n - 1, Next(h.blocks, b)), Split(h.blocks, b, n), {})
  {
    hide IndexedBut, CoalescedBut, IsPrevFree, OrPrevFree, PrevState;
    var bs, nx, b2 := h.blocks, Next(h.blocks, b), b + 1 + n;
    assert LinkOk(bs, h.first, h.last, b) && LinkOk(bs, h.first, h.last, nx);
    NoBlockInside(bs, h.first, h.last, b, b2);
    var rest := bs[b].size - n - 1;
    var m', bs' := SplitMem(m, b, n, rest, nx), Split(bs, b, n);
    WordFields(bs[nx].size, bs[nx].free, IsPrevFree(m[nx].hi));
    PrevStateOf(m[b].hi);
    forall a | a in bs'
      ensures Hdr(m', bs', a)
    {
      if a != b && a != nx && a != b2 {
        assert Hdr(m, bs, a) && LinkOk(bs, h.first, h.last, a);
        SameHdrKeeps(m, bs, m', bs', a);
      }
    }
  }

  lemma PrevStateOf(w: nat)
    ensures PrevState(w) == if IsPrevFree(w) then 2 else 0
  {
  }

  /** The header writes of growing into a free successor. */
  function GrowMem(m: Memory, b: nat, nx: nat, nn: nat): Memory
    requires b < |m| && nx < |m| && nn < |m|
  {
    var m1 := StoreHi(m, b, m[b].hi + Bytes(m[nx].hi) + 16);
    var m2 := StoreLo(m1, nn, b);
    StoreHi(m2, nn, AndNotPrevFree(m2[nn].hi))
  }

  lemma GrowHdr(m: Memory, h: Heap, b: nat)
    requires Mid(h, b) && |m| == h.last + 1 && !h.blocks[b].free && h.blocks[Next(h.blocks, b)].free
    requires HeadersBut(m, h.blocks, {}) && Next(h.blocks, Next(h.blocks, b)) in h.blocks
    ensures b < |m| && Next(h.blocks, b) < |m| && Next(h.blocks, Next(h.blocks, b)) < |m|
    ensures HeadersBut(GrowMem(m, b, Next(h.blocks, b), Next(h.blocks, Next(h.blocks, b))), Merge(h.blocks, b), {})
  {
    hide IndexedBut, CoalescedBut, AndNotPrevFree, Bytes;
    var bs, nx := h.blocks, Next(h.blocks, b);
    var nn := Next(bs, nx);
    assert LinkOk(bs, h.first, h.last, b) && LinkOk(bs, h.first, h.last, nx) && LinkOk(bs, h.first, h.last, nn);
    assert Hdr(m, bs, b) && Hdr(m, bs, nx) && Hdr(m, bs, nn);
    WordFields(bs[nx].size, true, false);
    WordFields(bs[nn].size, bs[nn].free, true);
    var m', bs' := GrowMem(m, b, nx, nn), Merge(bs, b);
    forall a | a in bs'
      ensures Hdr(m', bs', a)
    {
      assert Hdr(m, bs, a) && LinkOk(bs, h.first, h.last, a);
      if a != b && a != nn {
        SameHdrKeeps(m, bs, m', bs', a);
      }
    }
  }

  // ----- whole steps: index, headers and live payloads together -----

  /** free_ex under way on the free, unlisted block b: its successor's PREV_FREE flag
      and prev_hdr are still to be written. */
  ghost predicate Freeing(ix: Index, h: Heap, b: nat) {
    && Mid(h, b) && h.blocks[b].free
    && RepBut(ix, h, {Next(h.blocks, b)}) && Tagged(ix.mem, h.blocks, Next(h.blocks, b))
  }

  /** What free_ex needs of the block it is given. */
  ghost predicate Freeable(ix: Index, h: Heap, b: nat) {
    && Wf(h) && b in Live(h) && Mid(h, b)
    && RepBut(ix, h, {Next(h.blocks, b)}) && Tagged(ix.mem, h.blocks, Next(h.blocks, b))
  }

  function FreeStartMem(m: Memory, b: nat): Memory
    requires b + 1 < |m|
  {
    StoreHi(StoreLo(StoreHi(m, b, OrFree(m[b].hi)), b + 1, 0), b + 1, 0)
  }

  lemma FreeStart(ix: Index, h: Heap, b: nat)
    requires Freeable(ix, h, b)
    ensures b + 1 < |ix.mem|
    ensures Freeing(ix.(mem := FreeStartMem(ix.mem, b)), Recolor(h, b, true), b)
    ensures Kept(Live(h) - {b}, ix.mem, FreeStartMem(ix.mem, b))
    ensures Live(Recolor(h, b, true)) == Live(h) - {b}
  {
    ReleaseMid(h, b);
    ReleaseHdr(ix.mem, h, b);
    var h' := Recolor(h, b, true);
    var nx := Next(h.blocks, b);
    assert b + 1 < nx <= h.last by {
      assert LinkOk(h.blocks, h.first, h.last, b) && LinkOk(h.blocks, h.first, h.last, nx);
    }
    var m' := FreeStartMem(ix.mem, b);
    NoBlockInside(h.blocks, h.first, h.last, b, b + 1);
    assert OnlyZone(ix.mem, m', h.blocks, b);
    ZoneKeepsIndex(ix, m', h, b, {b});
    ZoneKeepsLive(ix.mem, m', h, b);
    HeadersSkip(StoreHi(ix.mem, b, OrFree(ix.mem[b].hi)), m', h', b + 1, {nx});
    hide Mid, Live, IndexOk, HeadersBut, Word, Wf;
  }

  /** A write inside a block leaves the headers right. */
  lemma HeadersSkip(m: Memory, m': Memory, h: Heap, g: nat, ex: set<nat>)
    requires HeadersBut(m, h.blocks, ex) && |m'| == |m| && g !in h.blocks
    requires forall k :: 0 <= k < |m| && k != g ==> m'[k] == m[k]
    ensures HeadersBut(m', h.blocks, ex)
  {
    hide Word;
    forall a | a in h.blocks && a !in ex
      ensures Hdr(m', h.blocks, a)
    {
      assert Hdr(m, h.blocks, a);
    }
  }

  /** The list slots written while b is in no list. */
  lemma SlotStep(ix: Index, ix': Index, h: Heap, ex: set<nat>)
    requires Tiled(h.blocks, h.first, h.last) && CoalescedEnds(h) && |ix.mem| == h.last + 1
    requires OnlySlots(ix.mem, ix'.mem, h.blocks) && HeadersBut(ix.mem, h.blocks, ex)
    ensures HeadersBut(ix'.mem, h.blocks, ex) && Kept(Live(h), ix.mem, ix'.mem)
    ensures forall a :: a in h.blocks ==> a < |ix.mem| && ix'.mem[a] == ix.mem[a]
  {
    SlotsKeepHeaders(ix.mem, ix'.mem, h, ex);
    SlotsKeepLive(ix.mem, ix'.mem, h);
    forall a | a in h.blocks
      ensures a < |ix.mem| && ix'.mem[a] == ix.mem[a]
    {
      assert LinkOk(h.blocks, h.first, h.last, a);
    }
  }

  ghost predicate CoalescedEnds(h: Heap) {
    h.last in h.blocks && !h.blocks[h.last].free
  }

  /** EXTRACT_BLOCK of block x while the header work on block b is pending. */
  lemma ExtractStep(ix: Index, h: Heap, b: nat, x: nat, fl: nat, sl: nat, ex: set<nat>)
    requires Mid(h, b) && RepBut(ix, h, ex) && x in h.blocks && h.blocks[x].free && x != b
    requires fl < REAL_FLI && sl < MAX_SLI && 32 * fl + sl == ClassOf(h.blocks[x].size)
    ensures Usable(ix, x, fl, sl) && LinksInside(ix.mem, x)
    ensures RepBut(Extract(ix, x, fl, sl), Drop(h, x), ex)
    ensures Kept(Live(h), ix.mem, Extract(ix, x, fl, sl).mem)
    ensures forall a :: a in h.blocks ==> a < |ix.mem| && Extract(ix, x, fl, sl).mem[a] == ix.mem[a]
  {
    ExtractRep(ix, h, {b}, x, fl, sl);
    SlotStep(ix, Extract(ix, x, fl, sl), h, ex);
    hide ClassOf, Extract, Live, IndexOk, HeadersBut, Tiled, IndexedBut, CoalescedBut, Unfile;
  }

  /** free_ex absorbing the free successor. */
  lemma FreeNextStep(ix: Index, h: Heap, b: nat, fl: nat, sl: nat)
    requires Freeing(ix, h, b) && h.blocks[Next(h.blocks, b)].free
    requires fl < REAL_FLI && sl < MAX_SLI && 32 * fl + sl == ClassOf(h.blocks[Next(h.blocks, b)].size)
    ensures var nx := Next(h.blocks, b);
            && Usable(ix, nx, fl, sl) && LinksInside(ix.mem, nx) && b < |ix.mem|
            && var ix1 := Extract(ix, nx, fl, sl);
            |ix1.mem| == |ix.mem|
            && var m := StoreHi(ix1.mem, b, ix1.mem[b].hi + Bytes(ix1.mem[nx].hi) + 16);
            && Freeing(ix1.(mem := m), AbsorbNext(h, b), b)
            && Kept(Live(h), ix.mem, m)
  {
    hide Tiled, CoalescedBut, Extract, Word, IsPrevFree, Bytes, Unfile, ClassOf, IndexOk, HeadersBut, Live;
    var nx := Next(h.blocks, b);
    ExtractStep(ix, h, b, nx, fl, sl, {nx});
    var ix1, h1 := Extract(ix, nx, fl, sl), Drop(h, nx);
    JoinNextMid(h, b);
    JoinNextHdr(ix1.mem, h, b);
    FreeNextFrame(ix, ix1, h, b);
  }

  lemma FreeNextFrame(ix: Index, ix1: Index, h: Heap, b: nat)
    requires Freeing(ix, h, b) && h.blocks[Next(h.blocks, b)].free
    requires RepBut(ix1, Drop(h, Next(h.blocks, b)), {Next(h.blocks, b)})
    requires Kept(Live(h), ix.mem, ix1.mem)
    ensures b < |ix1.mem| && Next(h.blocks, b) < |ix1.mem|
    ensures var m := StoreHi(ix1.mem, b, ix1.mem[b].hi + Bytes(ix1.mem[Next(h.blocks, b)].hi) + 16);
            && IndexOk(ix1.(mem := m), Drop(h, Next(h.blocks, b)).lists)
            && Kept(Live(h), ix.mem, m)
  {
    var nx := Next(h.blocks, b);
    var h1 := Drop(h, nx);
    assert LinkOk(h.blocks, h.first, h.last, b) && LinkOk(h.blocks, h.first, h.last, nx);
    var m := StoreHi(ix1.mem, b, ix1.mem[b].hi + Bytes(ix1.mem[nx].hi) + 16);
    UnfileIndexed(h.blocks, h.lists, {b}, nx);
    ZoneKeepsIndex(ix1, m, h1, b, {b} + {nx});
    ZoneKeepsLive(ix1.mem, m, h1, b);
    assert Live(h1) - {b} == Live(h) by {
      hide Tiled, IndexedBut, CoalescedBut, Unfile;
    }
    KeptTransitive(Live(h), ix.mem, ix1.mem, m);
  }

  /** free_ex absorbed by the free predecessor. */
  lemma FreePrevStep(ix: Index, h: Heap, b: nat, fl: nat, sl: nat)
    requires Freeing(ix, h, b) && h.blocks[h.blocks[b].prev].free
    requires fl < REAL_FLI && sl < MAX_SLI && 32 * fl + sl == ClassOf(h.blocks[h.blocks[b].prev].size)
    ensures var p := h.blocks[b].prev;
            && Usable(ix, p, fl, sl) && LinksInside(ix.mem, p) && b < |ix.mem|
            && Next(h.blocks, p) in h.blocks && Next(h.blocks, Next(h.blocks, p)) in h.blocks
            && var ix1 := Extract(ix, p, fl, sl);
            |ix1.mem| == |ix.mem|
            && var m := StoreHi(ix1.mem, p, ix1.mem[p].hi + Bytes(ix1.mem[b].hi) + 16);
            && Freeing(ix1.(mem := m), Join(Drop(h, p), p), p)
            && Kept(Live(h), ix.mem, m)
  {
    hide Extract, Live, IndexOk, Word, Bytes, Unfile, ClassOf, IsPrevFree, IndexedBut, CoalescedBut, HeadersBut;
    var p, nx := h.blocks[b].prev, Next(h.blocks, b);
    assert p != b by {
      assert LinkOk(h.blocks, h.first, h.last, b);
    }
    ExtractStep(ix, h, b, p, fl, sl, {nx});
    var ix1 := Extract(ix, p, fl, sl);
    JoinPrevMid(h, b);
    JoinPrevHdr(ix1.mem, h, b);
    FreePrevFrame(ix, ix1, h, b);
    hide Mid, Tiled;
  }

  lemma FreePrevFrame(ix: Index, ix1: Index, h: Heap, b: nat)
    requires Freeing(ix, h, b) && h.blocks[h.blocks[b].prev].free
    requires RepBut(ix1, Drop(h, h.blocks[b].prev), {Next(h.blocks, b)})
    requires Kept(Live(h), ix.mem, ix1.mem)
    ensures b < |ix1.mem| && h.blocks[b].prev < |ix1.mem|
    ensures var p := h.blocks[b].prev;
            var m := StoreHi(ix1.mem, p, ix1.mem[p].hi + Bytes(ix1.mem[b].hi) + 16);
            && IndexOk(ix1.(mem := m), Drop(h, p).lists)
            && Kept(Live(h), ix.mem, m)
  {
    var p := h.blocks[b].prev;
    var h1 := Drop(h, p);
    assert LinkOk(h.blocks, h.first, h.last, b) && LinkOk(h.blocks, h.first, h.last, p);
    var m := StoreHi(ix1.mem, p, ix1.mem[p].hi + Bytes(ix1.mem[b].hi) + 16);
    UnfileIndexed(h.blocks, h.lists, {b}, p);
    ZoneKeepsIndex(ix1, m, h1, p, {b} + {p});
    ZoneKeepsLive(ix1.mem, m, h1, p);
    assert Live(h1) - {p} == Live(h) by {
      hide Tiled, IndexedBut, CoalescedBut, Unfile;
    }
    KeptTransitive(Live(h), ix.mem, ix1.mem, m);
  }

  /** Writes to headers only. */
  lemma HeaderOnlyStep(ix: Index, m': Memory, h: Heap, ex: set<nat>)
    requires Tiled(h.blocks, h.first, h.last) && CoalescedEnds(h) && !h.blocks[h.first].free
    requires IndexedBut(h.blocks, h.lists, ex) && IndexOk(ix, h.lists) && |m'| == |ix.mem|
    requires forall g {:trigger m'[g]} :: 0 <= g < |m'| && m'[g] != ix.mem[g] ==> g in h.blocks
    ensures IndexOk(ix.(mem := m'), h.lists) && Kept(Live(h), ix.mem, m')
  {
    ZoneKeepsIndex(ix, m', h, h.first, ex);
    ZoneKeepsLive(ix.mem, m', h, h.first);
    assert Live(h) - {h.first} == Live(h);
  }

  /** free_ex listing the result and telling the successor. */
  lemma FreeFinish(ix: Index, h: Heap, b: nat, fl: nat, sl: nat)
    requires Freeing(ix, h, b) && !h.blocks[Next(h.blocks, b)].free && !h.blocks[h.blocks[b].prev].free
    requires fl < REAL_FLI && sl < MAX_SLI && 32 * fl + sl == ClassOf(h.blocks[b].size)
    ensures Usable(ix, b, fl, sl) && Next(h.blocks, b) < |ix.mem|
    ensures ix.matrix[32 * fl + sl] != 0 ==> ix.matrix[32 * fl + sl] + 1 < |ix.mem|
    ensures var nx, ix1 := Next(h.blocks, b), Insert(ix, b, fl, sl);
            |ix1.mem| == |ix.mem|
            && var m := StoreLo(StoreHi(ix1.mem, nx, OrPrevFree(ix1.mem[nx].hi)), nx, b);
            Wf(Enlist(h, b)) && Rep(ix1.(mem := m), Enlist(h, b)) && Kept(Live(h), ix.mem, m)
  {
    var nx := Next(h.blocks, b);
    assert b + 1 < nx <= h.last && 0 < b by {
      assert LinkOk(h.blocks, h.first, h.last, b) && LinkOk(h.blocks, h.first, h.last, nx);
    }
    InsertRep(ix, h, {b}, b, fl, sl);
    var ix1, h1 := Insert(ix, b, fl, sl), Enlist(h, b);
    SlotStep(ix, ix1, h, {nx});
    EnlistMid(h, b);
    assert Tagged(ix1.mem, h.blocks, nx) by {
      hide Insert, Word, IsPrevFree;
    }
    FlagNextHdr(ix1.mem, h, b);
    var m := StoreLo(StoreHi(ix1.mem, nx, OrPrevFree(ix1.mem[nx].hi)), nx, b);
    HeaderOnlyStep(ix1, m, h1, {}) by {
      hide Insert, File, ClassOf, OrPrevFree;
    }
    KeptTransitive(Live(h), ix.mem, ix1.mem, m);
    hide Insert, Live, IndexOk, HeadersBut, Mid, Word, File, ClassOf, OrPrevFree, Tiled, IndexedBut, CoalescedBut, Wf;
  }

  // ----- malloc_ex -----

  /** EXTRACT_BLOCK_HDR of the chosen block. */
  lemma TakeStep(ix: Index, h: Heap, b: nat, fl: nat, sl: nat)
    requires Wf(h) && Rep(ix, h) && b in h.blocks && h.blocks[b].free
    requires fl < REAL_FLI && sl < MAX_SLI && 32 * fl + sl == ClassOf(h.blocks[b].size)
    requires h.lists[32 * fl + sl] != [] && h.lists[32 * fl + sl][0] == b
    ensures Usable(ix, b, fl, sl) && LinksInside(ix.mem, b)
    ensures Rep(ExtractHdr(ix, b, fl, sl), Drop(h, b)) && Mid(Drop(h, b), b)
    ensures Kept(Live(h), ix.mem, ExtractHdr(ix, b, fl, sl).mem)
  {
    ExtractRep(ix, h, {}, b, fl, sl);
    ExtractHead(ix, h.lists, fl, sl);
    SlotStep(ix, Extract(ix, b, fl, sl), h, {});
    DropMid(h, b);
    hide Extract, ExtractHdr, Live, IndexOk, HeadersBut, Mid, Word, Unfile, ClassOf, Tiled, IndexedBut, CoalescedBut;
  }

  /** malloc_ex handing out the whole block. */
  lemma UseStep(ix: Index, h: Heap, b: nat)
    requires Mid(h, b) && Rep(ix, h) && h.blocks[b].free
    ensures b < |ix.mem| && Next(h.blocks, b) < |ix.mem|
    ensures var nx := Next(h.blocks, b);
            var m1 := StoreHi(ix.mem, nx, AndNotPrevFree(ix.mem[nx].hi));
            var m := StoreHi(m1, b, AndNotFree(m1[b].hi));
            RepBut(ix.(mem := m), Recolor(h, b, false), {}) && Kept(Live(h), ix.mem, m)
  {
    var nx := Next(h.blocks, b);
    UseHdr(ix.mem, h, b);
    var m1 := StoreHi(ix.mem, nx, AndNotPrevFree(ix.mem[nx].hi));
    var m := StoreHi(m1, b, AndNotFree(m1[b].hi));
    HeaderOnlyStep(ix, m, h, {b});
    hide Live, IndexOk, HeadersBut, Mid, AndNotPrevFree, AndNotFree;
  }

  // ----- splitting a used block -----

  /** A used block b about to be cut: its own size field and its successor's
      PREV_FREE flag and prev_hdr may be out of date. */
  ghost predicate Cutting(ix: Index, h: Heap, b: nat) {
    && Mid(h, b) && !h.blocks[b].free && !h.blocks[Next(h.blocks, b)].free
    && RepBut(ix, h, {b, Next(h.blocks, b)})
    && Tagged(ix.mem, h.blocks, Next(h.blocks, b)) && Backed(ix.mem, h.blocks, b)
  }

  lemma RepCutting(ix: Index, h: Heap, b: nat)
    requires Mid(h, b) && !h.blocks[b].free && !h.blocks[Next(h.blocks, b)].free && Rep(ix, h)
    ensures Cutting(ix, h, b)
  {
    hide Tiled, IndexedBut, CoalescedBut, IndexOk, Word, IsPrevFree;
    var nx := Next(h.blocks, b);
    assert Hdr(ix.mem, h.blocks, b) && Hdr(ix.mem, h.blocks, nx);
    HdrSplits(ix.mem, h.blocks, b);
    HdrSplits(ix.mem, h.blocks, nx);
  }

  /** Sizes and positions around a split. */
  lemma SplitBounds(h: Heap, b: nat, n: nat)
    requires Mid(h, b) && 1 <= n && n + 2 <= h.blocks[b].size
    ensures 0 < b && b + n + 2 < Next(h.blocks, b) + 1 && Next(h.blocks, b) <= h.last
  {
    assert LinkOk(h.blocks, h.first, h.last, b) && LinkOk(h.blocks, h.first, h.last, Next(h.blocks, b));
  }

  lemma SplitFrame(ix: Index, h: Heap, b: nat, n: nat)
    requires Cutting(ix, h, b) && 1 <= n && n + 2 <= h.blocks[b].size
    ensures b + 2 + n < |ix.mem| && Next(h.blocks, b) < |ix.mem|
    ensures var m := SplitMem(ix.mem, b, n, h.blocks[b].size - n - 1, Next(h.blocks, b));
            && IndexOk(ix.(mem := m), h.lists)
            && Kept(Live(h)[b := n], ix.mem, m)
  {
    hide OrPrevFree, PrevState, Word;
    SplitBounds(h, b, n);
    var nx := Next(h.blocks, b);
    var m := SplitMem(ix.mem, b, n, h.blocks[b].size - n - 1, nx);
    assert OnlyZone(ix.mem, m, h.blocks, b);
    ZoneKeepsIndex(ix, m, h, b, {b});
    ZoneKeepsLive(ix.mem, m, h, b);
    var live := Live(h)[b := n];
    hide Tiled, IndexedBut, CoalescedBut, IndexOk, HeadersBut;
    forall a | a in live
      ensures KeptAt(live, ix.mem, m, a)
    {
      if a != b {
        assert KeptAt(Live(h) - {b}, ix.mem, m, a);
      }
    }
  }

  lemma SplitStep(ix: Index, h: Heap, b: nat, n: nat, fl: nat, sl: nat)
    requires Cutting(ix, h, b) && 1 <= n && n + 2 <= h.blocks[b].size
    requires fl < REAL_FLI && sl < MAX_SLI && 32 * fl + sl == ClassOf(h.blocks[b].size - n - 1)
    ensures b + 2 + n < |ix.mem| && Next(h.blocks, b) < |ix.mem|
    ensures var m := SplitMem(ix.mem, b, n, h.blocks[b].size - n - 1, Next(h.blocks, b));
            && Usable(ix.(mem := m), b + 1 + n, fl, sl)
            && (ix.matrix[32 * fl + sl] != 0 ==>
                  ix.matrix[32 * fl + sl] + 1 < |ix.mem| && ix.matrix[32 * fl + sl] + 1 != b)
            && var ix' := Insert(ix.(mem := m), b + 1 + n, fl, sl);
            && Rep(ix', Trim(h, b, n)) && Kept(Live(h)[b := n], ix.mem, ix'.mem)
  {
    hide OrPrevFree, PrevState, Word, ClassOf;
    var b2, nx := b + 1 + n, Next(h.blocks, b);
    SplitBounds(h, b, n);
    SplitFrame(ix, h, b, n);
    SplitHdr(ix.mem, h, b, n);
    var m := SplitMem(ix.mem, b, n, h.blocks[b].size - n - 1, nx);
    var ix1, h1 := ix.(mem := m), h.(blocks := Split(h.blocks, b, n));
    SplitTiled(h.blocks, h.first, h.last, b, n);
    SplitIndexed(h, b, n);
    HeadNotBefore(ix, h, b, fl, sl);
    TrimLive(h, b, n);
    SplitListed(ix, ix1, h, h1, b, n, fl, sl);
    hide Tiled, IndexedBut, CoalescedBut, IndexOk, HeadersBut, Mid, Live, Insert, SplitMem;
  }

  /** The remainder of a split goes to its list. */
  lemma SplitListed(ix: Index, ix1: Index, h: Heap, h1: Heap, b: nat, n: nat, fl: nat, sl: nat)
    requires Mid(h, b) && 1 <= n && n + 2 <= h.blocks[b].size
    requires h1 == h.(blocks := Split(h.blocks, b, n)) && ix1 == ix.(mem := ix1.mem)
    requires Tiled(h1.blocks, h.first, h.last) && IndexedBut(h1.blocks, h.lists, {b + 1 + n})
    requires RepBut(ix1, h1, {}) && Live(Trim(h, b, n)) == Live(h)[b := n]
    requires fl < REAL_FLI && sl < MAX_SLI && 32 * fl + sl == ClassOf(h.blocks[b].size - n - 1)
    requires Kept(Live(h)[b := n], ix.mem, ix1.mem)
    ensures Usable(ix1, b + 1 + n, fl, sl)
    ensures ix.matrix[32 * fl + sl] != 0 ==> ix.matrix[32 * fl + sl] + 1 < |ix1.mem|
    ensures var ix' := Insert(ix1, b + 1 + n, fl, sl);
            Rep(ix', Trim(h, b, n)) && Kept(Live(h)[b := n], ix.mem, ix'.mem)
  {
    hide ClassOf;
    var b2 := b + 1 + n;
    SplitBounds(h, b, n);
    InsertRep(ix1, h1, {b2}, b2, fl, sl);
    var ix' := Insert(ix1, b2, fl, sl);
    assert Live(h1) == Live(Trim(h, b, n)) by {
      hide Tiled, IndexedBut, CoalescedBut, IndexOk, HeadersBut, File;
      SameLive(h1, Trim(h, b, n));
    }
    SlotStep(ix1, ix', h1, {}) by {
      NoBlockInside(h.blocks, h.first, h.last, b, b2);
    }
    KeptTransitive(Live(h1), ix.mem, ix1.mem, ix'.mem);
    hide Tiled, IndexedBut, CoalescedBut, IndexOk, HeadersBut, Mid, Live, Insert, File;
  }

  /** A listed block does not end right before a header. */
  lemma HeadNotBefore(ix: Index, h: Heap, b: nat, fl: nat, sl: nat)
    requires Mid(h, b) && IndexOk(ix, h.lists) && fl < REAL_FLI && sl < MAX_SLI
    ensures ix.matrix[32 * fl + sl] != 0 ==> ix.matrix[32 * fl + sl] + 1 != b
  {
    hide ClassOf;
    var c := 32 * fl + sl;
    var l := h.lists[c];
    assert ClassOk(ix, h.lists, c) && ListOk(h.blocks, h.lists, c);
    if l != [] {
      assert Filed(h.blocks, l[0], c);
      SlotPrivate(h, l[0]);
    }
  }

  /** INSERT_BLOCK of one block and a header write of another do not interfere. */
  lemma InsertCommutes(ix: Index, b2: nat, fl: nat, sl: nat, b: nat, w: nat)
    requires Usable(ix, b2, fl, sl) && b < |ix.mem| && b != b2 + 1
    requires ix.matrix[32 * fl + sl] != 0 ==> ix.matrix[32 * fl + sl] + 1 < |ix.mem| && ix.matrix[32 * fl + sl] + 1 != b
    ensures Insert(ix, b2, fl, sl).mem[b] == ix.mem[b]
    ensures Insert(ix.(mem := StoreHi(ix.mem, b, w)), b2, fl, sl)
         == Insert(ix, b2, fl, sl).(mem := StoreHi(Insert(ix, b2, fl, sl).mem, b, w))
  {
    var head := ix.matrix[32 * fl + sl];
    assert InsertMem(StoreHi(ix.mem, b, w), b2, head) == StoreHi(InsertMem(ix.mem, b2, head), b, w);
  }

  /** The writes of a split in program order: remainder, successor, list, block. */
  lemma SplitSequence(ix: Index, h: Heap, b: nat, n: nat, fl: nat, sl: nat, ix3: Index)
    requires b in h.blocks && Next(h.blocks, b) in h.blocks && |h.lists| == CLASSES
    requires Cutting(ix, h, b) && 1 <= n && n + 2 <= h.blocks[b].size
    requires fl < REAL_FLI && sl < MAX_SLI && 32 * fl + sl == ClassOf(h.blocks[b].size - n - 1)
    requires b + 1 + n < |ix.mem| && Next(h.blocks, b) < |ix.mem|
    requires ix3 == ix.(mem := SplitRest(ix.mem, b + 1 + n, h.blocks[b].size - n - 1, Next(h.blocks, b)))
    ensures Usable(ix3, b + 1 + n, fl, sl)
    ensures ix3.matrix[32 * fl + sl] != 0 ==> ix3.matrix[32 * fl + sl] + 1 < |ix3.mem|
    ensures b < |Insert(ix3, b + 1 + n, fl, sl).mem|
    ensures var ix4 := Insert(ix3, b + 1 + n, fl, sl);
            && Rep(ix4.(mem := Resized(ix4.mem, b, n)), Trim(h, b, n))
            && Kept(Live(h)[b := n], ix.mem, Resized(ix4.mem, b, n))
  {
    hide Cutting, ClassOf, Rep, Kept, PrevState, IsPrevFree, Live, Insert, Trim, SplitRest, StoreHi, OrPrevFree;
    SplitStep(ix, h, b, n, fl, sl);
    InsertCommutes(ix3, b + 1 + n, fl, sl, b, 16 * n + PrevState(ix3.mem[b].hi));
  }

  // ----- realloc_ex in place -----

  /** The shrink path takes the free successor out of its list; no header is written yet. */
  lemma ShrinkJoin(ix: Index, h: Heap, b: nat, fl: nat, sl: nat)
    requires Mid(h, b) && !h.blocks[b].free && Rep(ix, h) && h.blocks[Next(h.blocks, b)].free
    requires fl < REAL_FLI && sl < MAX_SLI && 32 * fl + sl == ClassOf(h.blocks[Next(h.blocks, b)].size)
    ensures var nx := Next(h.blocks, b);
            && Usable(ix, nx, fl, sl) && LinksInside(ix.mem, nx)
            && Cutting(Extract(ix, nx, fl, sl), AbsorbNext(h, b), b)
            && Kept(Live(h), ix.mem, Extract(ix, nx, fl, sl).mem)
            && forall a :: a in h.blocks ==> a < |ix.mem| && Extract(ix, nx, fl, sl).mem[a] == ix.mem[a]
  {
    hide ClassOf, Extract, Word, IsPrevFree, Unfile;
    var nx := Next(h.blocks, b);
    ExtractStep(ix, h, b, nx, fl, sl, {});
    JoinNextMid(h, b);
    JoinedHdrs(Extract(ix, nx, fl, sl).mem, h, b);
    hide Tiled, IndexedBut, CoalescedBut, IndexOk, Live, Mid, HeadersBut;
  }

  lemma JoinedHdrs(m: Memory, h: Heap, b: nat)
    requires Mid(h, b) && !h.blocks[b].free && h.blocks[Next(h.blocks, b)].free
    requires HeadersBut(m, h.blocks, {}) && Next(h.blocks, Next(h.blocks, b)) in h.blocks
    ensures var bs', nn := Merge(h.blocks, b), Next(h.blocks, Next(h.blocks, b));
            HeadersBut(m, bs', {b, nn}) && Tagged(m, bs', nn) && Backed(m, bs', b)
  {
    hide IndexedBut, CoalescedBut, IsPrevFree, Word;
    var bs, nx := h.blocks, Next(h.blocks, b);
    var nn := Next(bs, nx);
    assert LinkOk(bs, h.first, h.last, b) && LinkOk(bs, h.first, h.last, nx) && LinkOk(bs, h.first, h.last, nn);
    assert Hdr(m, bs, b) && Hdr(m, bs, nn);
    HdrSplits(m, bs, b);
    HdrSplits(m, bs, nn);
    var bs' := Merge(bs, b);
    forall a | a in bs' && a != b && a != nn
      ensures Hdr(m, bs', a)
    {
      assert Hdr(m, bs, a) && LinkOk(bs, h.first, h.last, a);
      SameHdrKeeps(m, bs, m, bs', a);
    }
  }

  /** The grow path joins b with its free successor and rewrites the headers. */
  lemma GrowStep(ix: Index, h: Heap, b: nat, fl: nat, sl: nat)
    requires Mid(h, b) && !h.blocks[b].free && Rep(ix, h) && h.blocks[Next(h.blocks, b)].free
    requires fl < REAL_FLI && sl < MAX_SLI && 32 * fl + sl == ClassOf(h.blocks[Next(h.blocks, b)].size)
    ensures var nx := Next(h.blocks, b);
            && Usable(ix, nx, fl, sl) && LinksInside(ix.mem, nx) && Next(h.blocks, nx) in h.blocks
            && Next(h.blocks, nx) < |ix.mem|
            && var ix1 := Extract(ix, nx, fl, sl);
            |ix1.mem| == |ix.mem|
            && (forall a :: a in h.blocks ==> a < |ix.mem| && ix1.mem[a] == ix.mem[a])
            && var m := GrowMem(ix1.mem, b, nx, Next(h.blocks, nx));
            && Rep(ix1.(mem := m), AbsorbNext(h, b)) && Kept(Live(h), ix.mem, m)
  {
    hide ClassOf, Extract, Word, Bytes, AndNotPrevFree, Unfile;
    var nx := Next(h.blocks, b);
    ExtractStep(ix, h, b, nx, fl, sl, {});
    JoinNextMid(h, b);
    var ix1, h1 := Extract(ix, nx, fl, sl), Drop(h, nx);
    GrowHdr(ix1.mem, h, b);
    var m := GrowMem(ix1.mem, b, nx, Next(h.blocks, nx));
    UnfileIndexed(h.blocks, h.lists, {b}, nx);
    HeaderOnlyStep(ix1, m, h1, {b} + {nx});
    SameLive(h, h1);
    KeptTransitive(Live(h), ix.mem, ix1.mem, m);
    hide Tiled, IndexedBut, CoalescedBut, IndexOk, Live, Mid, HeadersBut;
  }
}
