/** The allocator: a pool of memory whose fields the operations update in place. */
module TlsfPool {
  import opened TlsfMapping
  import opened TlsfBits
  import opened TlsfHeap
  import opened TlsfIndex
  import opened TlsfHeaders
  import opened TlsfSteps
  import opened TlsfRequests
  import TlsfTheorems

  lemma ReadTag(m: Memory, bs: Blocks, a: nat)
    requires a in bs && Tagged(m, bs, a)
    ensures a < |m| && Bytes(m[a].hi) == 16 * bs[a].size && IsFree(m[a].hi) == bs[a].free
    ensures a + 1 + Bytes(m[a].hi) / 16 == Next(bs, a)
  {
    hide Bytes, IsFree, IsPrevFree, Word;
    WordFields(bs[a].size, bs[a].free, IsPrevFree(m[a].hi));
  }

  lemma ReadHdr(m: Memory, bs: Blocks, a: nat, ex: set<nat>)
    requires a in bs && a !in ex && HeadersBut(m, bs, ex)
    ensures a < |m| && Bytes(m[a].hi) == 16 * bs[a].size && IsFree(m[a].hi) == bs[a].free
    ensures a + 1 + Bytes(m[a].hi) / 16 == Next(bs, a)
    ensures IsPrevFree(m[a].hi) == PrevFree(bs, a) && (PrevFree(bs, a) ==> m[a].lo == bs[a].prev)
  {
    hide Bytes, IsFree, IsPrevFree, Word;
    assert Hdr(m, bs, a);
    WordFields(bs[a].size, bs[a].free, PrevFree(bs, a));
  }

  lemma ReadPrev(ix: Index, h: Heap, b: nat)
    requires Freeing(ix, h, b) && h.blocks[h.blocks[b].prev].free
    ensures var p := h.blocks[b].prev; p < |ix.mem| && Bytes(ix.mem[p].hi) == 16 * h.blocks[p].size
  {
    hide IndexedBut, CoalescedBut, Bytes, IsFree, IsPrevFree, Word, IndexOk;
    assert LinkOk(h.blocks, h.first, h.last, b);
    ReadHdr(ix.mem, h.blocks, h.blocks[b].prev, {Next(h.blocks, b)});
  }

  lemma MidLists(h: Heap, b: nat)
    requires Mid(h, b)
    ensures |h.lists| == CLASSES
  {
  }

  lemma AbsorbsNothing(h: Heap, b: nat)
    requires Mid(h, b)
    ensures !h.blocks[Next(h.blocks, b)].free ==> AbsorbNext(h, b) == h
  {
    hide Tiled, CoalescedBut, IndexedBut;
  }

  /** INSERT_BLOCK writes no header of a block in the pool. */
  lemma InsertKeepsHeader(ix: Index, h: Heap, b: nat, fl: nat, sl: nat)
    requires Freeing(ix, h, b)
    requires fl < REAL_FLI && sl < MAX_SLI && 32 * fl + sl == ClassOf(h.blocks[b].size)
    requires Usable(ix, b, fl, sl)
    requires ix.matrix[32 * fl + sl] != 0 ==> ix.matrix[32 * fl + sl] + 1 < |ix.mem|
    ensures b < |ix.mem| && Insert(ix, b, fl, sl).mem[b] == ix.mem[b]
  {
    hide ClassOf;
    InsertSlots(ix, h, {b}, b, fl, sl);
    SlotsKeepHeaders(ix.mem, Insert(ix, b, fl, sl).mem, h, {Next(h.blocks, b)});
  }

  /** The chosen block, marked used in the heap while its header still says free. */
  lemma ChosenCutting(ix: Index, h: Heap, b: nat)
    requires Mid(h, b) && Rep(ix, h) && h.blocks[b].free
    requires !h.blocks[Next(h.blocks, b)].free && !h.blocks[h.blocks[b].prev].free
    ensures Cutting(ix, Recolor(h, b, false), b)
  {
    var h1, nx := Recolor(h, b, false), Next(h.blocks, b);
    UseMid(h, b);
    LiveMid(h1, b);
    hide IndexedBut, CoalescedBut, Word, IsPrevFree, IndexOk, Wf, Live;
    assert Hdr(ix.mem, h.blocks, b) && Hdr(ix.mem, h.blocks, nx);
    assert LinkOk(h.blocks, h.first, h.last, b) && LinkOk(h.blocks, h.first, h.last, nx);
    HdrSplits(ix.mem, h.blocks, b);
    HdrSplits(ix.mem, h.blocks, nx);
    forall a | a in h1.blocks && a != b && a != nx
      ensures Hdr(ix.mem, h1.blocks, a)
    {
      assert Hdr(ix.mem, h.blocks, a) && LinkOk(h.blocks, h.first, h.last, a);
      SameHdrKeeps(ix.mem, h.blocks, ix.mem, h1.blocks, a);
    }
  }

  /** The remainder of a split maps to its class. */
  lemma RestClass(h: Heap, b: nat, n: nat)
    requires Mid(h, b) && 1 <= n && n + 2 <= h.blocks[b].size
    ensures var rest := h.blocks[b].size - n - 1;
            && 16 * rest < LIMIT
            && var mi := MappingInsert(16 * rest);
            0 <= mi.fl < REAL_FLI && 0 <= mi.sl < MAX_SLI && ClassOf(rest) == 32 * mi.fl + mi.sl
  {
    hide MappingInsert;
    SizeBounded(h, b);
    ClassSandwich(16 * (h.blocks[b].size - n - 1));
  }

  /** What malloc_ex reads before it cuts the chosen block, and what the cut amounts to. */
  lemma ChosenReady(ix: Index, h: Heap, b: nat, n: nat)
    requires Mid(h, b) && Rep(ix, h) && h.blocks[b].free && 1 <= n
    requires !h.blocks[Next(h.blocks, b)].free && !h.blocks[h.blocks[b].prev].free
    requires h.blocks[b].size >= n + 2
    ensures var h1, nx, rest := Recolor(h, b, false), Next(h.blocks, b), h.blocks[b].size - n - 1;
            && b < |ix.mem| && Bytes(ix.mem[b].hi) == 16 * h.blocks[b].size
            && b + 1 + Bytes(ix.mem[b].hi) / 16 == nx < |ix.mem| && IsPrevFree(ix.mem[nx].hi)
            && b in h1.blocks && h1.blocks[b].size == h.blocks[b].size && Next(h1.blocks, b) == nx
            && nx in h1.blocks && |h1.lists| == CLASSES
            && Cutting(ix, h1, b) && Wf(h1) && Mid(h1, b) && Wf(Trim(h1, b, n))
            && b !in Live(h) && Live(h1) == Live(h)[b := h.blocks[b].size]
            && 16 * rest < LIMIT
            && var mi := MappingInsert(16 * rest);
            0 <= mi.fl < REAL_FLI && 0 <= mi.sl < MAX_SLI && ClassOf(rest) == 32 * mi.fl + mi.sl
  {
    hide Bytes, IsPrevFree, Word, ClassOf, MappingInsert, Tiled, CoalescedBut, HeadersBut, IndexOk, Wf, Trim;
    var h1 := Recolor(h, b, false);
    ChosenCutting(ix, h, b);
    RestClass(h1, b, n);
    UseMid(h, b);
    TrimMid(h1, b, n);
    ReadHdr(ix.mem, h.blocks, b, {});
    ReadHdr(ix.mem, h.blocks, Next(h.blocks, b), {});
  }

  /** The list FIND_SUITABLE_BLOCK names is the chosen block's own. */
  lemma ChosenClass(h: Heap, size: nat, d: nat)
    requires Wf(h) && Rounded(size) <= MAX_REQUEST
    requires 0 <= SearchClass(Rounded(size)) <= CLASSES && d == FirstFit(h.lists, SearchClass(Rounded(size))) < CLASSES
    ensures var b := Chosen(h, size);
            && b == h.lists[d][0] && b != 0 && b in h.blocks && h.blocks[b].free && ClassOf(h.blocks[b].size) == d
            && h.blocks[b].size >= Want(size) >= 1
  {
    ChosenFits(h, size);
    WantRounded(size);
    hide ClassOf, Want, Rounded, MappingSearch, SearchClass;
    var b := h.lists[d][0];
    assert ListOk(h.blocks, h.lists, d) && Filed(h.blocks, b, d);
    assert LinkOk(h.blocks, h.first, h.last, b);
  }

  /** What the outcome of the search says about malloc_ex. */
  lemma Searched(h: Heap, size: nat, fl: int, sl: int, b: nat)
    requires Wf(h) && Rounded(size) <= MAX_REQUEST
    requires fl == MappingSearch(Rounded(size)).fl && sl == MappingSearch(Rounded(size)).sl
    requires 0 <= fl < REAL_FLI && 0 <= sl < MAX_SLI
    requires b == var d := FirstFit(h.lists, 32 * fl + sl); if d == CLASSES then 0 else h.lists[d][0]
    ensures b == Chosen(h, size) && (b == 0 ==> Malloc(h, size) == Outcome(h, 0))
    ensures var d := FirstFit(h.lists, 32 * fl + sl);
            b != 0 ==>
              && d < CLASSES && h.lists[d] != [] && h.lists[d][0] == b
              && b in h.blocks && h.blocks[b].free && ClassOf(h.blocks[b].size) == d
              && h.blocks[b].size >= Want(size) >= 1
  {
    hide ClassOf, Want, Rounded, MappingSearch;
    var d := FirstFit(h.lists, SearchClass(Rounded(size)));
    if d < CLASSES {
      ChosenClass(h, size, d);
    }
    hide Wf, Trim, Claim;
  }

  lemma RepIndex(ix: Index, h: Heap)
    requires Wf(h) && Rep(ix, h)
    ensures IndexOk(ix, h.lists) && |h.lists| == CLASSES
  {
  }

  /** Everything malloc_ex relies on once FIND_SUITABLE_BLOCK has found b. */
  lemma MallocReady(ix: Index, h: Heap, size: nat, b: nat, fl: nat, sl: nat)
    requires Wf(h) && Rep(ix, h) && Rounded(size) <= MAX_REQUEST
    requires fl < REAL_FLI && sl < MAX_SLI && b == Chosen(h, size) && b != 0 && b in h.blocks && h.blocks[b].free
    requires h.lists[32 * fl + sl] != [] && h.lists[32 * fl + sl][0] == b
    requires ClassOf(h.blocks[b].size) == 32 * fl + sl && h.blocks[b].size >= Want(size) >= 1
    ensures Usable(ix, b, fl, sl) && LinksInside(ix.mem, b)
    ensures var h1, ix1, n := Drop(h, b), ExtractHdr(ix, b, fl, sl), Want(size);
            && Mid(h1, b) && Rep(ix1, h1) && Kept(Live(h), ix.mem, ix1.mem) && Live(h1) == Live(h)
            && h1.blocks == h.blocks && |h1.lists| == CLASSES
            && Next(h.blocks, b) in h.blocks && !h.blocks[Next(h.blocks, b)].free
            && h.blocks[b].prev in h.blocks && !h.blocks[h.blocks[b].prev].free
            && b < |ix1.mem| && Bytes(ix1.mem[b].hi) == 16 * h.blocks[b].size
            && Wf(Recolor(h1, b, false)) && Mid(Recolor(h1, b, false), b)
            && Malloc(h, size) == Outcome(Trim(Recolor(h1, b, false), b, n), b + 1)
  {
    TakeStep(ix, h, b, fl, sl);
    FreeNeighbours(h, b);
    DropMid(h, b);
    ClaimWf(h, b);
    ReadHdr(ExtractHdr(ix, b, fl, sl).mem, h.blocks, b, {});
    hide ClassOf, Want, Rounded, Chosen, ExtractHdr, Live, IndexOk, HeadersBut;
    hide Tiled, IndexedBut, CoalescedBut, Unfile, Bytes, Trim, Kept;
  }

  lemma KeptShrinks(live: map<nat, nat>, live': map<nat, nat>, m: Memory, m': Memory)
    requires Kept(live, m, m')
    requires forall a :: a in live' ==> a in live && live'[a] <= live[a]
    ensures Kept(live', m, m')
  {
    forall a | a in live'
      ensures KeptAt(live', m, m', a)
    {
      assert KeptAt(live, m, m', a);
    }
  }

  /** A live block of a valid pool can be freed. */
  lemma LiveFreeable(ix: Index, h: Heap, b: nat)
    requires Wf(h) && Rep(ix, h) && b in Live(h)
    ensures Freeable(ix, h, b)
  {
    LiveMid(h, b);
    hide Tiled, IndexedBut, CoalescedBut, IndexOk, Word, IsPrevFree;
    assert Hdr(ix.mem, h.blocks, Next(h.blocks, b));
    HdrSplits(ix.mem, h.blocks, Next(h.blocks, b));
  }

  /** What realloc_ex reads of a live block and its successor. */
  lemma LiveRead(ix: Index, h: Heap, b: nat)
    requires Wf(h) && Rep(ix, h) && b in Live(h)
    ensures b in h.blocks && Next(h.blocks, b) in h.blocks && |h.lists| == CLASSES && Mid(h, b)
    ensures !h.blocks[b].free && Live(h)[b] == h.blocks[b].size
    ensures var nx := Next(h.blocks, b);
            && b < |ix.mem| && nx < |ix.mem|
            && Bytes(ix.mem[b].hi) == 16 * h.blocks[b].size && b + 1 + Bytes(ix.mem[b].hi) / 16 == nx
            && Bytes(ix.mem[nx].hi) == 16 * h.blocks[nx].size && IsFree(ix.mem[nx].hi) == h.blocks[nx].free
            && nx + 1 + Bytes(ix.mem[nx].hi) / 16 == Next(h.blocks, nx)
            && (h.blocks[nx].free ==> Next(h.blocks, nx) in h.blocks && h.blocks[nx].size >= 1)
    ensures var nx := Next(h.blocks, b);
            && 16 * h.blocks[nx].size < LIMIT
            && var mi := MappingInsert(16 * h.blocks[nx].size);
            0 <= mi.fl < REAL_FLI && 0 <= mi.sl < MAX_SLI && ClassOf(h.blocks[nx].size) == 32 * mi.fl + mi.sl
  {
    LiveMid(h, b);
    var nx := Next(h.blocks, b);
    ReadHdr(ix.mem, h.blocks, b, {});
    ReadHdr(ix.mem, h.blocks, nx, {});
    MapsToClass(h, nx);
    assert LinkOk(h.blocks, h.first, h.last, nx);
    hide Bytes, IsFree, IsPrevFree, ClassOf, MappingInsert, IndexedBut, CoalescedBut, IndexOk;
  }

  lemma UsedReady(ix: Index, h: Heap, b: nat, n: nat)
    requires Cutting(ix, h, b) && 1 <= n && n + 2 <= h.blocks[b].size
    ensures b + 1 + n < |ix.mem| && Next(h.blocks, b) < |ix.mem| && Wf(Trim(h, b, n))
    ensures var rest := h.blocks[b].size - n - 1;
            && 16 * rest < LIMIT
            && var mi := MappingInsert(16 * rest);
            0 <= mi.fl < REAL_FLI && 0 <= mi.sl < MAX_SLI && ClassOf(rest) == 32 * mi.fl + mi.sl
  {
    hide MappingInsert, ClassOf;
    SplitBounds(h, b, n);
    TrimMid(h, b, n);
    RestClass(h, b, n);
    hide Tiled, IndexedBut, CoalescedBut, IndexOk, Wf;
  }

  lemma ShrinkReady(ix: Index, h: Heap, b: nat, n: nat)
    requires Wf(h) && Rep(ix, h) && b in Live(h) && 1 <= n <= Live(h)[b] && Mid(h, b)
    ensures var h1, nx := AbsorbNext(h, b), Next(h.blocks, b);
            && Mid(h1, b) && b in h1.blocks && Next(h1.blocks, b) in h1.blocks && |h1.lists| == CLASSES
            && Live(h1) == Live(h)[b := h1.blocks[b].size]
            && (h.blocks[nx].free ==>
                  && h1.blocks[b].size == h.blocks[b].size + 1 + h.blocks[nx].size
                  && Next(h1.blocks, b) == Next(h.blocks, nx) && h1.blocks[b].size >= n + 2)
            && (!h.blocks[nx].free ==>
                  h1 == h && Cutting(ix, h, b) && (h.blocks[b].size < n + 2 ==> Trim(h, b, n) == h))
  {
    AbsorbNextMid(h, b);
    if !h.blocks[Next(h.blocks, b)].free {
      RepCutting(ix, h, b);
    } else {
      hide IndexedBut, CoalescedBut;
      assert LinkOk(h.blocks, h.first, h.last, Next(h.blocks, b));
    }
    hide Tiled, IndexedBut, CoalescedBut, IndexOk, HeadersBut, Live, Wf;
  }

  lemma GrowReady(h: Heap, b: nat, n: nat)
    requires Wf(h) && b in Live(h) && Live(h)[b] < n && Mid(h, b) && FitsInPlace(h, b, n)
    ensures h.blocks[Next(h.blocks, b)].free
    ensures var h1 := AbsorbNext(h, b);
            && Mid(h1, b) && b in h1.blocks && Next(h1.blocks, b) in h1.blocks && |h1.lists| == CLASSES
            && !h1.blocks[b].free && !h1.blocks[Next(h1.blocks, b)].free && Wf(h1)
            && Live(h1) == Live(h)[b := h1.blocks[b].size]
            && Next(h1.blocks, b) == Next(h.blocks, Next(h.blocks, b))
            && (h1.blocks[b].size < n + 2 ==> Trim(h1, b, n) == h1)
  {
    AbsorbNextMid(h, b);
    CloseUsed(AbsorbNext(h, b), b);
    hide Tiled, IndexedBut, CoalescedBut, Live;
  }

  /** The size word after b absorbed its successor leads to the block after that. */
  lemma GrownSize(ix: Index, h: Heap, b: nat, w: nat)
    requires Mid(h, b) && Rep(ix, h) && b < |ix.mem| && Next(h.blocks, b) < |ix.mem|
    requires w == ix.mem[b].hi + Bytes(ix.mem[Next(h.blocks, b)].hi) + 16
    ensures b + 1 + Bytes(w) / 16 == Next(h.blocks, Next(h.blocks, b))
  {
    hide IndexedBut, CoalescedBut, IsPrevFree, IsFree, IndexOk;
    var nx := Next(h.blocks, b);
    assert Hdr(ix.mem, h.blocks, b);
    ReadHdr(ix.mem, h.blocks, nx, {});
    assert w == Word(h.blocks[b].size + 1 + h.blocks[nx].size, h.blocks[b].free, PrevFree(h.blocks, b));
    WordFields(h.blocks[b].size + 1 + h.blocks[nx].size, h.blocks[b].free, PrevFree(h.blocks, b));
    hide Bytes, Word;
  }

  /** The joined block, read back, is ready to be cut. */
  lemma JoinedRead(ix: Index, h: Heap, b: nat)
    requires Mid(h, b) && !h.blocks[b].free && !h.blocks[Next(h.blocks, b)].free && Rep(ix, h)
    ensures Cutting(ix, h, b) && b < |ix.mem|
    ensures Bytes(ix.mem[b].hi) == 16 * h.blocks[b].size && b + 1 + Bytes(ix.mem[b].hi) / 16 == Next(h.blocks, b)
  {
    RepCutting(ix, h, b);
    ReadHdr(ix.mem, h.blocks, b, {});
    hide Tiled, IndexedBut, CoalescedBut, IndexOk, Bytes, Cutting;
  }

  lemma RoundedGranules(n: nat)
    requires n >= 1
    ensures Rounded(16 * n) == 16 * n
  {
  }

  /** After the allocation of a move: the old block is still live, apart from the new one. */
  lemma MoveReady(ix: Index, h: Heap, h1: Heap, b: nat, p: nat, n: nat)
    requires Wf(h1) && Rep(ix, h1) && b in Live(h) && Live(h)[b] < n && n >= 1 && 16 * n <= MAX_REQUEST
    requires Gained(Live(h), Live(h1), p) && Rounded(16 * n) == 16 * n && Live(h1)[p] >= Want(16 * n)
    ensures b in Live(h1) && Live(h1)[b] == Live(h)[b] && b != p && p in Live(h1) && Live(h1)[p] >= n
    ensures b < |ix.mem| && Bytes(ix.mem[b].hi) == 16 * Live(h)[b]
    ensures p + n < |ix.mem| && b + Live(h)[b] < |ix.mem|
    ensures p + n <= b || b + Live(h)[b] <= p
  {
    WantRounded(16 * n);
    hide Want, Rounded;
    assert b in Live(h1) && p in Live(h1);
    ReadHdr(ix.mem, h1.blocks, b, {});
    hide IndexedBut, CoalescedBut, IndexOk, HeadersBut, Bytes;
    assert LinkOk(h1.blocks, h1.first, h1.last, b) && LinkOk(h1.blocks, h1.first, h1.last, p);
    assert Apart(h1.blocks, b, p) && Apart(h1.blocks, p, b);
    assert Apart(h1.blocks, b, h1.last) && Apart(h1.blocks, p, h1.last);
  }

  /** Writing the payload of a live block disturbs nothing else. */
  lemma CopyKeeps(ix: Index, h: Heap, p: nat, m': Memory)
    requires Wf(h) && Rep(ix, h) && p in Live(h) && |m'| == |ix.mem|
    requires forall g {:trigger m'[g]} :: 0 <= g < |m'| && !(p < g <= p + Live(h)[p]) ==> m'[g] == ix.mem[g]
    ensures Rep(ix.(mem := m'), h) && Kept(Live(h) - {p}, ix.mem, m')
  {
    assert OnlyZone(ix.mem, m', h.blocks, p);
    ZoneKeepsIndex(ix, m', h, p, {});
    ZoneKeepsLive(ix.mem, m', h, p);
    hide IndexedBut, CoalescedBut, IndexOk, Word;
    forall a | a in h.blocks
      ensures Hdr(m', h.blocks, a)
    {
      assert Hdr(ix.mem, h.blocks, a) && Apart(h.blocks, p, a);
    }
  }

  /** k granules of payload after p in m' are those after b in m. */
  ghost predicate SameContents(m: Memory, b: nat, m': Memory, p: nat, k: nat) {
    && b + k < |m| && p + k < |m'|
    && forall g {:trigger m'[g]} :: p < g <= p + k ==> m'[g] == m[b + (g - p)]
  }

  /** The bytes of a moved block, followed through the allocation, the copy and the free. */
  lemma MovedContents(h: Heap, h1: Heap, b: nat, p: nat, m0: Memory, m1: Memory, m2: Memory, m3: Memory)
    requires b in Live(h) && Gained(Live(h), Live(h1), p) && b != p && Live(h1)[p] >= Live(h)[b]
    requires Kept(Live(h), m0, m1) && Kept(Live(h1) - {p}, m1, m2) && Kept(Live(h1) - {b}, m2, m3)
    requires b + Live(h)[b] < |m0| && p + Live(h)[b] < |m0| && |m1| == |m0| && |m2| == |m0| && |m3| == |m0|
    requires forall g :: p + 1 <= g < p + 1 + Live(h)[b] ==> m2[g] == m1[b + 1 + (g - (p + 1))]
    ensures Kept(Live(h) - {b}, m0, m3)
    ensures SameContents(m0, b, m3, p, Live(h)[b])
  {
    hide Live;
    var live := Live(h) - {b};
    KeptShrinks(Live(h), live, m0, m1);
    KeptShrinks(Live(h1) - {p}, live, m1, m2);
    KeptShrinks(Live(h1) - {b}, live, m2, m3);
    KeptTransitive(live, m0, m1, m2);
    KeptTransitive(live, m0, m2, m3);
    assert KeptAt(Live(h1) - {b}, m2, m3, p) && KeptAt(Live(h), m0, m1, b);
    forall g | p < g <= p + Live(h)[b]
      ensures m3[g] == m0[b + (g - p)]
    {
      assert m2[g] == m1[b + 1 + (g - (p + 1))];
      assert m1[b + (g - p)] == m0[b + (g - p)] && m3[g] == m2[g];
    }
  }

  lemma KeptRefl(live: map<nat, nat>, m: Memory)
    ensures Kept(live, m, m)
  {
  }

  /** In place, the granules kept of block b are its own. */
  lemma KeptContents(ix: Index, h: Heap, live: map<nat, nat>, b: nat, m': Memory)
    requires Wf(h) && Rep(ix, h) && b in Live(h) && b in live && live[b] <= Live(h)[b]
    requires Kept(live, ix.mem, m')
    ensures SameContents(ix.mem, b, m', b, live[b])
  {
    hide IndexedBut, CoalescedBut, IndexOk, HeadersBut;
    assert Apart(h.blocks, b, h.last) && LinkOk(h.blocks, h.first, h.last, b);
    assert KeptAt(live, ix.mem, m', b);
  }

  // ----- the initial pool -----

  const TLSF_GRANULES := 392  // ROUNDUP_SIZE(sizeof(tlsf_t)) / 16, sizeof(tlsf_t) = 6264
  const MIN_POOL := 6264 + 16 * 8

  /** The area after process_area: descriptor, one used block, sentinel. */
  function FreshHeap(granules: nat): Heap
    requires granules >= 400
  {
    var first := TLSF_GRANULES;
    Heap(map[first := Block(1, false, 0),
             first + 2 := Block(granules - 396, false, first),
             granules - 1 := Block(0, false, first + 2)],
         seq(CLASSES, _ => []), first, granules - 1)
  }

  lemma FreshTiled(granules: nat)
    requires 400 <= granules <= MAX_GRANULES
    ensures var h := FreshHeap(granules); Tiled(h.blocks, h.first, h.last)
  {
    var h := FreshHeap(granules);
    forall a | a in h.blocks
      ensures LinkOk(h.blocks, h.first, h.last, a)
    {
    }
    forall a, b | a in h.blocks && b in h.blocks
      ensures Apart(h.blocks, a, b)
    {
    }
  }

  lemma FreshWf(granules: nat)
    requires 400 <= granules <= MAX_GRANULES
    ensures Wf(FreshHeap(granules)) && Live(FreshHeap(granules)) == map[TLSF_GRANULES + 2 := granules - 396]
  {
    FreshTiled(granules);
    hide ClassOf;
    var h := FreshHeap(granules);
    forall c | 0 <= c < CLASSES
      ensures ListOk(h.blocks, h.lists, c) && Absent(h.lists, c, {})
    {
      assert h.lists[c] == [];
    }
    hide Tiled;
  }

  /** An all-zero index has empty lists. */
  lemma FreshIndexOk(ix: Index, lists: Lists)
    requires lists == seq(CLASSES, _ => []) && ix.matrix == seq(CLASSES, _ => 0)
    requires ix.sl == seq(REAL_FLI, _ => 0) && ix.fl == 0
    ensures IndexOk(ix, lists)
  {
    hide Bit;
    ZeroBits(0);
    forall c | 0 <= c < CLASSES
      ensures ClassOk(ix, lists, c)
    {
      assert lists[c] == [];
    }
    forall fl, sl | 0 <= fl < REAL_FLI && 0 <= sl < MAX_SLI
      ensures BitOk(ix, lists, fl, sl)
    {
      assert lists[32 * fl + sl] == [] && ix.sl[fl] == 0;
    }
    forall fl | 0 <= fl < 32
      ensures RowBitOk(ix, fl)
    {
    }
  }

  /** process_area leaves the sentinel's PREV_FREE flag set ahead of the free. */
  lemma FreshFreeable(ix: Index, granules: nat)
    requires 400 <= granules <= MAX_GRANULES && |ix.mem| == granules
    requires ix.matrix == seq(CLASSES, _ => 0) && ix.sl == seq(REAL_FLI, _ => 0) && ix.fl == 0
    requires ix.mem[TLSF_GRANULES].hi == 16 && ix.mem[TLSF_GRANULES + 2].hi == 16 * (granules - 396)
    requires ix.mem[granules - 1].hi == 2
    ensures Freeable(ix, FreshHeap(granules), TLSF_GRANULES + 2)
  {
    var h, b := FreshHeap(granules), TLSF_GRANULES + 2;
    FreshWf(granules);
    FreshIndexOk(ix, h.lists);
    LiveMid(h, b);
    hide Wf, Mid, IndexOk, Live;
    assert Hdr(ix.mem, h.blocks, TLSF_GRANULES) && Hdr(ix.mem, h.blocks, b);
  }

  lemma InitialRead(ix: Index, h: Heap, b: nat)
    requires Wf(h) && Rep(ix, h) && b in h.blocks
    ensures b < |ix.mem| && Bytes(ix.mem[b].hi) == 16 * h.blocks[b].size
  {
    ReadHdr(ix.mem, h.blocks, b, {});
  }

  class Pool {
    var mem: Memory
    var matrix: seq<nat>
    var slBitmap: seq<bv32>
    var flBitmap: bv32
    ghost var heap: Heap

    ghost function Ix(): Index
      reads this
    {
      Index(mem, matrix, slBitmap, flBitmap)
    }

    /** The pool represents a well-formed heap. */
    ghost predicate Valid()
      reads this
    {
      Wf(heap) && Rep(Ix(), heap)
    }

    /** INSERT_BLOCK. */
    method InsertBlock(b: nat, fl: nat, sl: nat)
      requires Usable(Ix(), b, fl, sl)
      requires matrix[32 * fl + sl] != 0 ==> matrix[32 * fl + sl] + 1 < |mem|
      modifies this`mem, this`matrix, this`slBitmap, this`flBitmap
      ensures Ix() == Insert(old(Ix()), b, fl, sl)
    {
      var c := 32 * fl + sl;
      mem := StoreLo(mem, b + 1, 0);
      mem := StoreHi(mem, b + 1, matrix[c]);
      if matrix[c] != 0 {
        mem := StoreLo(mem, matrix[c] + 1, b);
      }
      matrix := matrix[c := b];
      slBitmap := slBitmap[fl := SetBit(slBitmap[fl], sl)];
      flBitmap := SetBit(flBitmap, fl);
    }

    /** EXTRACT_BLOCK. */
    method ExtractBlock(b: nat, fl: nat, sl: nat)
      requires Usable(Ix(), b, fl, sl) && LinksInside(mem, b)
      modifies this`mem, this`matrix, this`slBitmap, this`flBitmap
      ensures Ix() == Extract(old(Ix()), b, fl, sl)
    {
      var c := 32 * fl + sl;
      var prev, next := mem[b + 1].lo, mem[b + 1].hi;
      if next != 0 {
        mem := StoreLo(mem, next + 1, prev);
      }
      if prev != 0 {
        mem := StoreHi(mem, prev + 1, next);
      }
      if matrix[c] == b {
        matrix := matrix[c := next];
        if matrix[c] == 0 {
          slBitmap := slBitmap[fl := ClearBit(slBitmap[fl], sl)];
          if slBitmap[fl] == 0 {
            flBitmap := ClearBit(flBitmap, fl);
          }
        }
      }
      mem := StoreLo(mem, b + 1, 0);
      mem := StoreHi(mem, b + 1, 0);
    }

    /** EXTRACT_BLOCK_HDR. */
    method ExtractBlockHdr(b: nat, fl: nat, sl: nat)
      requires Usable(Ix(), b, fl, sl) && LinksInside(mem, b)
      modifies this`mem, this`matrix, this`slBitmap, this`flBitmap
      ensures Ix() == ExtractHdr(old(Ix()), b, fl, sl)
    {
      var c := 32 * fl + sl;
      matrix := matrix[c := mem[b + 1].hi];
      if matrix[c] != 0 {
        mem := StoreLo(mem, matrix[c] + 1, 0);
      } else {
        slBitmap := slBitmap[fl := ClearBit(slBitmap[fl], sl)];
        if slBitmap[fl] == 0 {
          flBitmap := ClearBit(flBitmap, fl);
        }
      }
      mem := StoreLo(mem, b + 1, 0);
      mem := StoreHi(mem, b + 1, 0);
    }

    /** FIND_SUITABLE_BLOCK: the head of the least non-empty list from (fl, sl) on. */
    method FindSuitableBlock(fl: nat, sl: nat) returns (b: nat, fl': int, sl': int)
      requires IndexOk(Ix(), heap.lists) && fl < REAL_FLI && sl < MAX_SLI
      ensures var d := FirstFit(heap.lists, 32 * fl + sl);
              if d == CLASSES then b == 0 else
                && 0 <= fl' < REAL_FLI && 0 <= sl' < MAX_SLI && d == 32 * fl' + sl'
                && b == heap.lists[d][0]
    {
      hide From, LsBit, Bit;
      FoundInRow(Ix(), heap.lists, fl, sl);
      fl', sl', b := fl, sl, 0;
      var tmp := From(slBitmap[fl], sl);
      if tmp != 0 {
        sl' := LsBit(tmp);
        b := matrix[32 * fl' + sl'];
        assert ClassOk(Ix(), heap.lists, 32 * fl' + sl');
      } else {
        FoundAbove(Ix(), heap.lists, fl);
        fl' := LsBit(From(flBitmap, fl + 1));
        if fl' > 0 {
          sl' := LsBit(slBitmap[fl']);
          b := matrix[32 * fl' + sl'];
          assert ClassOk(Ix(), heap.lists, 32 * fl' + sl');
        }
      }
    }
  
    /** The part of free_ex that absorbs a free successor. */
    method CoalesceNext(b: nat)
      requires Freeing(Ix(), heap, b)
      modifies this
      ensures heap == AbsorbNext(old(heap), b) && Freeing(Ix(), heap, b)
      ensures Kept(Live(old(heap)), old(mem), mem)
    {
      hide Bytes, IsFree, Extract, Live, ClassOf, MappingInsert, IndexedBut, CoalescedBut;
      hide HeadersBut, IndexOk, Word, Tagged, AbsorbNext;
      ghost var h := heap;
      ReadHdr(mem, heap.blocks, b, {Next(heap.blocks, b)});
      var tmp := b + 1 + Bytes(mem[b].hi) / 16;
      ReadTag(mem, heap.blocks, tmp);
      AbsorbsNothing(h, b);
      if IsFree(mem[tmp].hi) {
        MapsToClass(h, tmp);
        var mi := MappingInsert(Bytes(mem[tmp].hi));
        FreeNextStep(Ix(), h, b, mi.fl, mi.sl);
        ExtractBlock(tmp, mi.fl, mi.sl);
        mem := StoreHi(mem, b, mem[b].hi + Bytes(mem[tmp].hi) + 16);
        heap := AbsorbNext(h, b);
      }
    }
  
    /** The part of free_ex that lets a free predecessor absorb b. */
    method CoalescePrev(b: nat) returns (b': nat)
      requires Freeing(Ix(), heap, b) && !heap.blocks[Next(heap.blocks, b)].free
      modifies this
      ensures var p := old(heap.blocks[b].prev);
              if old(heap).blocks[p].free then
                && b' == p && Next(old(heap).blocks, p) == b && Next(old(heap).blocks, b) in old(heap).blocks
                && heap == Join(Drop(old(heap), p), p)
              else b' == b && heap == old(heap)
      ensures Freeing(Ix(), heap, b') && Live(heap) == Live(old(heap))
      ensures !heap.blocks[Next(heap.blocks, b')].free && !heap.blocks[heap.blocks[b'].prev].free
      ensures Kept(Live(old(heap)), old(mem), mem)
    {
      hide Bytes, IsFree, IsPrevFree, Extract, Live, ClassOf, MappingInsert, IndexedBut, CoalescedBut;
      hide HeadersBut, IndexOk, Word, Tagged;
      ghost var h := heap;
      ReadHdr(mem, heap.blocks, b, {Next(heap.blocks, b)});
      MidLists(h, b);
      b' := b;
      if IsPrevFree(mem[b].hi) {
        var tmp := mem[b].lo;
        ReadPrev(Ix(), h, b);
        MapsToClass(h, tmp);
        var mi := MappingInsert(Bytes(mem[tmp].hi));
        FreePrevStep(Ix(), h, b, mi.fl, mi.sl);
        JoinPrevMid(h, b);
        ExtractBlock(tmp, mi.fl, mi.sl);
        mem := StoreHi(mem, tmp, mem[tmp].hi + Bytes(mem[b].hi) + 16);
        heap := Join(Drop(h, tmp), tmp);
        b' := tmp;
      }
    }

    /** free_ex. */
    method FreeEx(ptr: nat)
      requires ptr != 0 ==> Freeable(Ix(), heap, ptr - 1)
      modifies this
      ensures ptr == 0 ==> Ix() == old(Ix()) && heap == old(heap)
      ensures ptr != 0 ==>
                && Valid() && heap == Free(old(heap), ptr)
                && Kept(Live(old(heap)) - {ptr - 1}, old(mem), mem)
    {
      if ptr == 0 {
        return;
      }
      var b := ptr - 1;
      ghost var h0, m0 := heap, mem;
      FreeStart(Ix(), heap, b);
      mem := StoreHi(mem, b, OrFree(mem[b].hi));
      mem := StoreLo(mem, b + 1, 0);
      mem := StoreHi(mem, b + 1, 0);
      heap := Recolor(heap, b, true);
      ghost var h1, m1 := heap, mem;
      ghost var live := Live(h1);
      AbsorbNextMid(h1, b);
      hide Bytes, IsFree, IsPrevFree, OrFree, OrPrevFree, Insert, RepBut, Live;
      hide ClassOf, MappingInsert, IndexedBut, CoalescedBut, Mid, Wf, Free;
      CoalesceNext(b);
      ghost var m2 := mem;
      KeptTransitive(live, m0, m1, m2);
      var b' := CoalescePrev(b);
      ghost var m3 := mem;
      KeptTransitive(live, m0, m2, m3);
      FinishFree(b');
      KeptTransitive(live, m0, m3, mem);
    }

    /** The end of free_ex: list b and tell its successor. */
    method FinishFree(b: nat)
      requires Freeing(Ix(), heap, b)
      requires !heap.blocks[Next(heap.blocks, b)].free && !heap.blocks[heap.blocks[b].prev].free
      modifies this
      ensures Valid() && heap == Enlist(old(heap), b)
      ensures Kept(Live(old(heap)), old(mem), mem)
    {
      hide Bytes, IsFree, OrPrevFree, Insert, Live, ClassOf, MappingInsert, IndexedBut, CoalescedBut;
      hide HeadersBut, IndexOk, Word, Wf, Enlist;
      ghost var h := heap;
      ReadHdr(mem, h.blocks, b, {Next(h.blocks, b)});
      MidLists(h, b);
      MapsToClass(h, b);
      var mi := MappingInsert(Bytes(mem[b].hi));
      FreeFinish(Ix(), h, b, mi.fl, mi.sl);
      ghost var ix1 := Insert(Ix(), b, mi.fl, mi.sl);
      InsertKeepsHeader(Ix(), h, b, mi.fl, mi.sl);
      InsertBlock(b, mi.fl, mi.sl);
      var tmp := b + 1 + Bytes(mem[b].hi) / 16;
      mem := StoreHi(mem, tmp, OrPrevFree(mem[tmp].hi));
      mem := StoreLo(mem, tmp, b);
      heap := Enlist(h, b);
    }
  
    /** malloc_ex cutting the chosen block b, which is out of its list: n granules for
        the client, the rest back to the free lists. */
    method SplitChosen(b: nat, n: nat)
      requires b in heap.blocks && Next(heap.blocks, b) in heap.blocks && |heap.lists| == CLASSES
      requires Mid(heap, b) && Rep(Ix(), heap) && heap.blocks[b].free && 1 <= n
      requires !heap.blocks[Next(heap.blocks, b)].free && !heap.blocks[heap.blocks[b].prev].free
      requires heap.blocks[b].size >= n + 2
      modifies this
      ensures Wf(Recolor(old(heap), b, false)) && Mid(Recolor(old(heap), b, false), b)
      ensures heap == Trim(Recolor(old(heap), b, false), b, n) && Valid()
      ensures Kept(Live(old(heap)), old(mem), mem)
    {
      hide Bytes, IsFree, PrevState, IsPrevFree, OrPrevFree, Insert, Rep, Kept;
      hide Live, ClassOf, MappingInsert, Mid, Wf, Cutting, Recolor, Trim;
      ghost var h, ix := heap, Ix();
      ghost var h1 := Recolor(h, b, false);
      ChosenReady(ix, h, b, n);
      var next := b + 1 + Bytes(mem[b].hi) / 16;
      var tmp := Bytes(mem[b].hi) - 16 * n - 16;
      var b2 := b + 1 + n;
      var mi := MappingInsert(tmp);
      FlagAlreadySet(ix.mem, b2, h.blocks[b].size - n - 1, next);
      mem := StoreHi(mem, b2, tmp + 1);
      mem := StoreLo(mem, next, b2);
      hide StoreHi, StoreLo, SplitRest;
      SplitSequence(ix, h1, b, n, mi.fl, mi.sl, Ix());
      InsertBlock(b2, mi.fl, mi.sl);
      mem := Resized(mem, b, n);
      heap := Trim(h1, b, n);
      KeptShrinks(Live(h1)[b := n], Live(h), ix.mem, mem);
    }
  
    /** malloc_ex handing out the whole chosen block. */
    method UseChosen(b: nat)
      requires b in heap.blocks && Mid(heap, b) && Rep(Ix(), heap) && heap.blocks[b].free
      modifies this
      ensures heap == Recolor(old(heap), b, false) && Rep(Ix(), heap)
      ensures Kept(Live(old(heap)), old(mem), mem)
    {
      ghost var h := heap;
      ReadHdr(mem, h.blocks, b, {});
      UseStep(Ix(), h, b);
      hide Bytes, AndNotFree, AndNotPrevFree, Mid, HeadersBut, IndexOk, Live, Kept;
      var next := b + 1 + Bytes(mem[b].hi) / 16;
      mem := StoreHi(mem, next, AndNotPrevFree(mem[next].hi));
      mem := StoreHi(mem, b, AndNotFree(mem[b].hi));
      heap := Recolor(h, b, false);
    }

    /** malloc_ex: what the client gets is measured in bytes of its request, no live payload
        changes, and a failed call changes nothing at all. */
    method MallocEx(size: nat) returns (ptr: nat)
      requires Valid() && size <= MAX_REQUEST
      modifies this
      ensures Rounded(size) <= MAX_REQUEST
      ensures Valid() && Outcome(heap, ptr) == Malloc(old(heap), size)
      ensures MallocMeets(old(heap), size, Outcome(heap, ptr))
      ensures Kept(Live(old(heap)), old(mem), mem)
      ensures ptr == 0 ==> Ix() == old(Ix())
    {
      hide ClassOf, Want, Rounded, Chosen, ExtractHdr, Wf, RepBut, Live;
      hide Bytes, Kept, Mid, Drop, Malloc, MappingSearch, FirstFit;
      ghost var h, ix := heap, Ix();
      MallocServes(h, size);
      hide MallocMeets;
      var r := Rounded(size);
      SearchInMatrix(r);
      WantRounded(size);
      RepIndex(ix, h);
      var m := MappingSearch(r);
      var b, fl, sl := FindSuitableBlock(m.fl, m.sl);
      Searched(h, size, m.fl, m.sl, b);
      if b == 0 {
        KeptRefl(Live(h), mem);
        return 0;
      }
      MallocReady(ix, h, size, b, fl, sl);
      ExtractBlockHdr(b, fl, sl);
      heap := Drop(h, b);
      ghost var m1 := mem;
      if Bytes(mem[b].hi) - m.size >= 32 {
        SplitChosen(b, m.size / 16);
      } else {
        UseChosen(b);
      }
      KeptTransitive(Live(h), ix.mem, m1, mem);
      ptr := b + 1;
    }
  
    /** realloc_ex cutting the used block b after n granules; `next` is its successor
        and `total` its size in bytes. */
    method SplitUsed(b: nat, n: nat, total: nat, next: nat)
      requires b in heap.blocks && Next(heap.blocks, b) in heap.blocks && |heap.lists| == CLASSES
      requires Cutting(Ix(), heap, b) && 1 <= n && n + 2 <= heap.blocks[b].size
      requires total == 16 * heap.blocks[b].size && next == Next(heap.blocks, b)
      modifies this
      ensures heap == Trim(old(heap), b, n) && Valid()
      ensures Kept(Live(old(heap))[b := n], old(mem), mem)
    {
      hide Cutting, ClassOf, Rep, Kept, Live, Insert, Trim, Wf, MappingInsert, Bytes, OrPrevFree, Resized;
      ghost var h, ix := heap, Ix();
      UsedReady(ix, h, b, n);
      var tmp := total - 16 * n - 16;
      var b2 := b + 1 + n;
      mem := StoreHi(mem, b2, tmp + 1);
      mem := StoreLo(mem, next, b2);
      mem := StoreHi(mem, next, OrPrevFree(mem[next].hi));
      assert mem == SplitRest(ix.mem, b2, h.blocks[b].size - n - 1, next);
      hide StoreHi, StoreLo, SplitRest;
      var mi := MappingInsert(tmp);
      SplitSequence(ix, h, b, n, mi.fl, mi.sl, Ix());
      InsertBlock(b2, mi.fl, mi.sl);
      mem := Resized(mem, b, n);
      heap := Trim(h, b, n);
    }
  
    /** realloc_ex with room in b itself: a free successor is absorbed first, and then
        always split off again. */
    method ShrinkInPlace(b: nat, n: nat)
      requires Valid() && b in Live(heap) && 1 <= n <= Live(heap)[b]
      modifies this
      ensures Mid(old(heap), b) && Mid(AbsorbNext(old(heap), b), b)
      ensures heap == Trim(AbsorbNext(old(heap), b), b, n) && Valid()
      ensures Kept(Live(old(heap))[b := n], old(mem), mem)
    {
      hide Bytes, IsFree, ClassOf, MappingInsert, Extract, Rep, Kept, Live, Wf, Mid, Cutting, Trim, AbsorbNext;
      ghost var h, ix := heap, Ix();
      LiveRead(ix, h, b);
      ShrinkReady(ix, h, b, n);
      var tmp := Bytes(mem[b].hi);
      var next := b + 1 + Bytes(mem[b].hi) / 16;
      if IsFree(mem[next].hi) {
        var mi := MappingInsert(Bytes(mem[next].hi));
        ShrinkJoin(ix, h, b, mi.fl, mi.sl);
        ExtractBlock(next, mi.fl, mi.sl);
        tmp := tmp + Bytes(mem[next].hi) + 16;
        next := next + 1 + Bytes(mem[next].hi) / 16;
        heap := AbsorbNext(h, b);
      } else {
        KeptRefl(Live(h), mem);
      }
      ghost var h1, m1 := heap, mem;
      assert Live(h1)[b := n] == Live(h)[b := n];
      if tmp - 16 * n >= 32 {
        SplitUsed(b, n, tmp, next);
      } else {
        KeptRefl(Live(h)[b := n], mem);
      }
      KeptShrinks(Live(h), Live(h)[b := n], ix.mem, m1);
      KeptTransitive(Live(h)[b := n], ix.mem, m1, mem);
    }
  
    /** realloc_ex growing into a free successor. */
    method GrowInPlace(b: nat, n: nat)
      requires Valid() && b in Live(heap) && Live(heap)[b] < n
      requires Mid(heap, b) && FitsInPlace(heap, b, n)
      modifies this
      ensures Mid(AbsorbNext(old(heap), b), b)
      ensures heap == Trim(AbsorbNext(old(heap), b), b, n) && Valid()
      ensures Kept(Live(old(heap)), old(mem), mem)
    {
      hide Bytes, IsFree, ClassOf, MappingInsert, Extract, Rep, Kept;
      hide Live, Wf, Mid, Cutting, Trim, AbsorbNext, AndNotPrevFree;
      ghost var h, ix := heap, Ix();
      LiveRead(ix, h, b);
      GrowReady(h, b, n);
      var next := b + 1 + Bytes(mem[b].hi) / 16;
      var mi := MappingInsert(Bytes(mem[next].hi));
      GrowStep(ix, h, b, mi.fl, mi.sl);
      ExtractBlock(next, mi.fl, mi.sl);
      ghost var m0 := mem;
      mem := StoreHi(mem, b, mem[b].hi + Bytes(mem[next].hi) + 16);
      var next' := b + 1 + Bytes(mem[b].hi) / 16;
      GrownSize(ix, h, b, mem[b].hi);
      mem := StoreLo(mem, next', b);
      mem := StoreHi(mem, next', AndNotPrevFree(mem[next'].hi));
      assert mem == GrowMem(m0, b, next, next');
      hide GrowMem, StoreHi, StoreLo;
      ghost var h1, m1 := AbsorbNext(h, b), mem;
      heap := h1;
      JoinedRead(Ix(), h1, b);
      var tmp := Bytes(mem[b].hi);
      if tmp - 16 * n >= 32 {
        SplitUsed(b, n, tmp, next');
        assert Live(h1)[b := n] == Live(h)[b := n];
        KeptShrinks(Live(h)[b := n], Live(h), m1, mem);
        KeptTransitive(Live(h), ix.mem, m1, mem);
      }
    }
  
    /** memcpy of k granules between disjoint ranges. */
    method CopyGranules(dst: nat, src: nat, k: nat)
      requires dst + k <= |mem| && src + k <= |mem| && (dst + k <= src || src + k <= dst)
      modifies this`mem
      ensures |mem| == old(|mem|)
      ensures forall g :: dst <= g < dst + k ==> mem[g] == old(mem)[src + (g - dst)]
      ensures forall g :: 0 <= g < |mem| && !(dst <= g < dst + k) ==> mem[g] == old(mem)[g]
    {
      for i := 0 to k
        invariant |mem| == old(|mem|)
        invariant forall g :: dst <= g < dst + i ==> mem[g] == old(mem)[src + (g - dst)]
        invariant forall g :: 0 <= g < |mem| && !(dst <= g < dst + i) ==> mem[g] == old(mem)[g]
      {
        mem := mem[dst + i := mem[src + i]];
      }
    }

    /** realloc_ex with no room in place: allocate, copy, free. */
    method MoveBlock(b: nat, n: nat) returns (ptr: nat)
      requires Valid() && b in Live(heap) && Live(heap)[b] < n && 16 * n <= MAX_REQUEST
      modifies this
      ensures Valid() && Outcome(heap, ptr) == Move(old(heap), b, n)
      ensures ptr == 0 ==> Ix() == old(Ix())
      ensures ptr != 0 ==>
                && Kept(Live(old(heap)) - {b}, old(mem), mem)
                && SameContents(old(mem), b, mem, ptr - 1, old(Live(heap)[b]))
    {
      hide Bytes, Malloc, Release, Live, Wf, Want, Rounded, Rep, Freeable;
      ghost var h, m0 := heap, mem;
      MoveCorrect(h, b, n);
      RoundedGranules(n);
      MallocCorrect(h, 16 * n);
      ptr := MallocEx(16 * n);
      if ptr == 0 {
        return;
      }
      ghost var h1, ix1 := heap, Ix();
      MoveReady(ix1, h, h1, b, ptr - 1, n);
      var cpsize := if Bytes(mem[b].hi) > 16 * n then 16 * n else Bytes(mem[b].hi);
      CopyGranules(ptr, b + 1, cpsize / 16);
      ghost var m2 := mem;
      CopyKeeps(ix1, h1, ptr - 1, m2);
      LiveFreeable(Ix(), h1, b);
      FreeEx(b + 1);
      MovedContents(h, h1, b, ptr - 1, m0, ix1.mem, m2, mem);
    }
  
    /** realloc_ex: the result's first min(old, new) granules are the old block's, no
        other live payload changes, and a failed call changes nothing at all. */
    method ReallocEx(ptr: nat, size: nat) returns (r: nat)
      requires Valid() && size <= MAX_REQUEST && (ptr != 0 ==> ptr - 1 in Live(heap))
      modifies this
      ensures Rounded(size) <= MAX_REQUEST
      ensures Valid() && Outcome(heap, r) == Realloc(old(heap), ptr, size)
      ensures ReallocMeets(old(heap), ptr, size, Outcome(heap, r))
      ensures size != 0 && r != 0 ==> r - 1 in Live(heap) && 16 * Live(heap)[r - 1] >= size
      ensures r == 0 && size != 0 ==> Ix() == old(Ix())
      ensures Kept(if ptr == 0 then Live(old(heap)) else Live(old(heap)) - {ptr - 1}, old(mem), mem)
      ensures ptr != 0 && r != 0 ==>
                var s, n := old(Live(heap)[ptr - 1]), Rounded(size) / 16;
                SameContents(old(mem), ptr - 1, mem, r - 1, if n < s then n else s)
    {
      hide ReallocMeets, MallocMeets, Wf, Live, Rep, Malloc, Release, Resize, Rounded, Kept, SameContents, Freeable;
      ghost var h, ix := heap, Ix();
      ReallocServes(h, ptr, size);
      ReallocHolds(h, ptr, size);
      KeptRefl(Live(h), mem);
      if ptr == 0 {
        r := 0;
        if size != 0 {
          r := MallocEx(size);
        }
        return;
      }
      if size == 0 {
        LiveFreeable(ix, h, ptr - 1);
        FreeEx(ptr);
        return 0;
      }
      RoundedWhole(size);
      r := ResizeBlock(ptr - 1, Rounded(size) / 16);
    }

    /** realloc_ex on a live block b, for n granules. */
    method ResizeBlock(b: nat, n: nat) returns (r: nat)
      requires Valid() && b in Live(heap) && 1 <= n && 16 * n <= MAX_REQUEST
      modifies this
      ensures Valid() && Outcome(heap, r) == Resize(old(heap), b, n)
      ensures r == 0 ==> Ix() == old(Ix())
      ensures Kept(Live(old(heap)) - {b}, old(mem), mem)
      ensures r != 0 ==>
                SameContents(old(mem), b, mem, r - 1, if n < old(Live(heap)[b]) then n else old(Live(heap)[b]))
    {
      hide Bytes, IsFree, Live, Wf, Mid, Rep, AbsorbNext, Trim, Move, ClassOf, MappingInsert;
      ghost var h, ix := heap, Ix();
      LiveRead(ix, h, b);
      var next := b + 1 + Bytes(mem[b].hi) / 16;
      var size := Bytes(mem[b].hi);
      if 16 * n <= size {
        ShrinkInPlace(b, n);
        KeptContents(ix, h, Live(h)[b := n], b, mem);
        KeptShrinks(Live(h)[b := n], Live(h) - {b}, ix.mem, mem);
        return b + 1;
      }
      if IsFree(mem[next].hi) {
        if 16 * n <= size + Bytes(mem[next].hi) {
          GrowInPlace(b, n);
          KeptContents(ix, h, Live(h), b, mem);
          KeptShrinks(Live(h), Live(h) - {b}, ix.mem, mem);
          return b + 1;
        }
      }
      r := MoveBlock(b, n);
      KeptRefl(Live(h) - {b}, ix.mem);
    }

    /** The pool's memory, not yet initialised. */
    constructor (pool: Memory)
      ensures mem == pool
    {
      mem, matrix, slBitmap, flBitmap := pool, [], [], 0;
      heap := Heap(map[], [], 0, 0);
    }

    /** process_area on the granules from `area` to the end of the pool: descriptor,
        one used block, sentinel. */
    method ProcessArea(area: nat) returns (ib: nat)
      requires area + 8 <= |mem|
      modifies this`mem
      ensures ib == area && |mem| == old(|mem|)
      ensures mem[ib].hi == 16 && mem[ib + 2].hi == 16 * (|mem| - area - 4)
      ensures mem[|mem| - 1] == Cell(ib + 2, 2) && mem[ib + 1] == Cell(|mem| - 1, 0)
    {
      ib := area;
      mem := StoreHi(mem, ib, 16);
      var b := ib + 1 + Bytes(mem[ib].hi) / 16;
      mem := StoreHi(mem, b, 16 * (|mem| - area) - 3 * 16 - Bytes(mem[ib].hi));
      mem := mem[b + 1 := Cell(0, 0)];
      var lb := b + 1 + Bytes(mem[b].hi) / 16;
      mem := mem[lb := Cell(b, 2)];
      mem := mem[ib + 1 := Cell(lb, 0)];
    }

    /** init_memory_pool: -1 if the pool is too small for the control structure;
        otherwise one free block holding all the rest, whose size is returned. */
    method InitMemoryPool() returns (r: int)
      requires |mem| <= MAX_GRANULES
      modifies this
      ensures r == -1 <==> 16 * old(|mem|) < MIN_POOL
      ensures r == -1 ==> Ix() == old(Ix())
      ensures r != -1 ==>
                && Valid() && Live(heap) == map[] && |mem| == old(|mem|)
                && heap.first == TLSF_GRANULES && heap.last == |mem| - 1
                && TLSF_GRANULES + 2 in heap.blocks && heap.blocks[TLSF_GRANULES + 2].free
                && r == 16 * heap.blocks[TLSF_GRANULES + 2].size == 16 * (|mem| - 396)
    {
      if |mem| == 0 || 16 * |mem| < MIN_POOL {
        return -1;
      }
      matrix := seq(CLASSES, _ => 0);
      slBitmap := seq(REAL_FLI, _ => 0);
      flBitmap := 0;
      var ib := ProcessArea(TLSF_GRANULES);
      var b := ib + 2;
      FreshFreeable(Ix(), |mem|);
      FreshWf(|mem|);
      heap := FreshHeap(|mem|);
      hide Release, Freeable, Wf, Rep, Live, Bytes;
      ReleaseCorrect(heap, b);
      assert map[b := |mem| - 396] - {b} == map[];
      FreeEx(b + 1);
      TlsfTheorems.QuiescentHeap(heap);
      InitialRead(Ix(), heap, b);
      r := Bytes(mem[b].hi);
    }
  }
}
