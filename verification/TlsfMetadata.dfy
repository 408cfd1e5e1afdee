/** Every word of bookkeeping is determined by the heap it represents, so two pools that
    represent the same heap hold the same words. */
module TlsfMetadata {
  import opened TlsfMapping
  import opened TlsfBits
  import opened TlsfHeap
  import opened TlsfIndex
  import opened TlsfHeaders
  import opened TlsfSteps
  import opened TlsfPool
  import opened TlsfRequests
  import TlsfTheorems

  lemma SameRow(ix: Index, ix': Index, lists: Lists, fl: nat)
    requires IndexOk(ix, lists) && IndexOk(ix', lists) && fl < REAL_FLI
    ensures ix.sl[fl] == ix'.sl[fl]
  {
    hide Bit;
    forall j | 0 <= j < 32
      ensures SameAt(ix.sl[fl], ix'.sl[fl], j)
    {
      assert BitOk(ix, lists, fl, j) && BitOk(ix', lists, fl, j);
    }
    SameBits(ix.sl[fl], ix'.sl[fl]);
  }

  /** List heads and both bitmap levels are determined by the lists. */
  lemma SameIndex(ix: Index, ix': Index, lists: Lists)
    requires IndexOk(ix, lists) && IndexOk(ix', lists)
    ensures ix.matrix == ix'.matrix && ix.sl == ix'.sl && ix.fl == ix'.fl
  {
    hide Bit;
    forall c | 0 <= c < CLASSES
      ensures ix.matrix[c] == ix'.matrix[c]
    {
      assert ClassOk(ix, lists, c) && ClassOk(ix', lists, c);
    }
    forall fl | 0 <= fl < REAL_FLI
      ensures ix.sl[fl] == ix'.sl[fl]
    {
      SameRow(ix, ix', lists, fl);
    }
    forall j | 0 <= j < 32
      ensures SameAt(ix.fl, ix'.fl, j)
    {
      assert RowBitOk(ix, j) && RowBitOk(ix', j);
    }
    SameBits(ix.fl, ix'.fl);
  }

  /** The words that mean something: heads and bitmaps; of every header the size word, and
      prev_hdr where the block before is free; of every free block both list links. */
  ghost predicate SameMetadata(ix: Index, ix': Index, bs: Blocks) {
    && ix.matrix == ix'.matrix && ix.sl == ix'.sl && ix.fl == ix'.fl && |ix.mem| == |ix'.mem|
    && (forall a {:trigger SameWords(ix.mem, ix'.mem, bs, a)} :: a in bs ==> SameWords(ix.mem, ix'.mem, bs, a))
  }

  ghost predicate SameWords(m: Memory, m': Memory, bs: Blocks, a: nat)
    requires a in bs
  {
    && a < |m| && a < |m'| && m[a].hi == m'[a].hi
    && (PrevFree(bs, a) ==> m[a].lo == m'[a].lo)
    && (bs[a].free ==> a + 1 < |m| && a + 1 < |m'| && m[a + 1] == m'[a + 1])
  }

  lemma SameLinks(ix: Index, ix': Index, h: Heap, a: nat)
    requires Wf(h) && IndexOk(ix, h.lists) && IndexOk(ix', h.lists) && a in h.blocks && h.blocks[a].free
    ensures a + 1 < |ix.mem| && a + 1 < |ix'.mem| && ix.mem[a + 1] == ix'.mem[a + 1]
  {
    hide ClassOf;
    var c := ClassOf(h.blocks[a].size);
    FreeIsListed(h, a);
    var i :| 0 <= i < |h.lists[c]| && h.lists[c][i] == a;
    assert ClassOk(ix, h.lists, c) && ClassOk(ix', h.lists, c);
    assert Node(ix.mem, h.lists[c], i) && Node(ix'.mem, h.lists[c], i);
  }

  lemma FreeIsListed(h: Heap, a: nat)
    requires Wf(h) && a in h.blocks && h.blocks[a].free
    ensures 0 <= ClassOf(h.blocks[a].size) < CLASSES == |h.lists| && a in h.lists[ClassOf(h.blocks[a].size)]
  {
    hide ClassOf;
    assert Listed(h.blocks, h.lists, a);
  }

  lemma MetadataDetermined(ix: Index, ix': Index, h: Heap)
    requires Wf(h) && Rep(ix, h) && Rep(ix', h)
    ensures SameMetadata(ix, ix', h.blocks)
  {
    SameIndex(ix, ix', h.lists);
    hide Wf, IndexOk, Word;
    forall a | a in h.blocks
      ensures SameWords(ix.mem, ix'.mem, h.blocks, a)
    {
      assert Hdr(ix.mem, h.blocks, a) && Hdr(ix'.mem, h.blocks, a);
      if h.blocks[a].free {
        SameLinks(ix, ix', h, a);
      }
    }
  }

  /** What holds after malloc_ex succeeded, ahead of the free_ex. */
  lemma JustAllocated(h: Heap, size: nat, o: Outcome, ix: Index)
    requires Wf(h) && Rounded(size) <= MAX_REQUEST && o == Malloc(h, size) && o.ptr != 0
    requires Wf(o.heap) && Rep(ix, o.heap)
    ensures Freeable(ix, o.heap, o.ptr - 1) && Free(o.heap, o.ptr) == h
    ensures Live(o.heap) - {o.ptr - 1} == Live(h)
  {
    hide Wf, Malloc, Release, Live, Want, Rounded, Rep, Freeable;
    TlsfTheorems.MallocThenFree(h, size, o);
    MallocCorrect(h, size);
    LiveFreeable(ix, o.heap, o.ptr - 1);
  }

  lemma FailedKeeps(h: Heap, size: nat)
    requires Wf(h) && Rounded(size) <= MAX_REQUEST && Malloc(h, size).ptr == 0
    ensures Malloc(h, size).heap == h
  {
    hide Wf, Malloc, Live, Want, Rounded;
    MallocCorrect(h, size);
  }

  /** malloc_ex followed at once by free_ex of the result: every word of bookkeeping is
      back, and no payload that was live has changed. */
  method MallocFree(p: Pool, size: nat)
    requires p.Valid() && size <= MAX_REQUEST
    modifies p
    ensures p.Valid() && p.heap == old(p.heap)
    ensures SameMetadata(old(p.Ix()), p.Ix(), p.heap.blocks)
    ensures Kept(Live(p.heap), old(p.mem), p.mem)
  {
    hide Malloc, Live, Wf, Rounded, Rep, Freeable, Free, Kept, SameMetadata;
    ghost var h, ix := p.heap, p.Ix();
    var ptr := p.MallocEx(size);
    ghost var m1 := p.mem;
    if ptr != 0 {
      JustAllocated(h, size, Outcome(p.heap, ptr), p.Ix());
      p.FreeEx(ptr);
      KeptTransitive(Live(h), ix.mem, m1, p.mem);
    } else {
      FailedKeeps(h, size);
    }
    MetadataDetermined(ix, p.Ix(), h);
  }

  /** The operations of a run are what the allocator does: after each of them the pool
      represents the next heap of the run, and no payload is touched but that of the block
      given up. */
  method Perform(p: Pool, op: TlsfTheorems.Op) returns (ptr: nat)
    requires p.Valid() && TlsfTheorems.Legal(p.heap, op)
    modifies p
    ensures p.Valid() && p.heap == TlsfTheorems.Apply(old(p.heap), op)
    ensures Kept(if op.DoMalloc? || op.ptr == 0 then Live(old(p.heap)) else Live(old(p.heap)) - {op.ptr - 1},
                 old(p.mem), p.mem)
  {
    hide Malloc, Live, Wf, Rounded, Rep, Freeable, Kept, MallocMeets, ReallocMeets;
    ptr := 0;
    match op {
      case DoMalloc(size) =>
        RoundedLeast(size);
        ptr := p.MallocEx(size);
      case DoFree(b) =>
        if b != 0 {
          LiveFreeable(p.Ix(), p.heap, b - 1);
        }
        KeptRefl(Live(p.heap), p.mem);
        p.FreeEx(b);
      case DoRealloc(b, size) =>
        RoundedLeast(size);
        ptr := p.ReallocEx(b, size);
    }
  }

  /** A whole run, operation by operation. */
  method PerformAll(p: Pool, run: seq<TlsfTheorems.Op>)
    requires p.Valid() && exists h :: TlsfTheorems.Runs(p.heap, run, h)
    modifies p
    ensures p.Valid() && TlsfTheorems.Runs(old(p.heap), run, p.heap)
  {
    hide Wf, Rep, TlsfTheorems.Legal, TlsfTheorems.Apply;
    ghost var goal :| TlsfTheorems.Runs(p.heap, run, goal);
    var i := 0;
    while i < |run|
      invariant 0 <= i <= |run| && p.Valid() && TlsfTheorems.Runs(p.heap, run[i..], goal)
    {
      assert run[i..][0] == run[i] && run[i..][1..] == run[i + 1..];
      var _ := Perform(p, run[i]);
      i := i + 1;
    }
  }
}
