/** What every run of the allocator keeps, and what its operations undo. */
module TlsfTheorems {
  import opened TlsfMapping
  import opened TlsfHeap

  // ----- one operation undone by another -----

  lemma UnlinkHead(l: seq<nat>, a: nat)
    ensures Unlink([a] + l, a) == l
  {
  }

  /** Listing an unlisted block at the head and taking it out again. */
  lemma DropEnlisted(h: Heap, b: nat)
    requires b in h.blocks && |h.lists| == CLASSES
    ensures Drop(Enlist(h, b), b) == h
  {
    hide ClassOf;
    var c := ClassOf(h.blocks[b].size);
    UnlinkHead(h.lists[c], b);
    assert h.lists[c := [b] + h.lists[c]][c := h.lists[c]] == h.lists;
  }

  /** Taking the head of a list out and listing it again. */
  lemma EnlistDropped(h: Heap, b: nat)
    requires b in h.blocks && |h.lists| == CLASSES
    requires h.lists[ClassOf(h.blocks[b].size)] != [] && h.lists[ClassOf(h.blocks[b].size)][0] == b
    ensures Enlist(Drop(h, b), b) == h
  {
    hide ClassOf;
    var c := ClassOf(h.blocks[b].size);
    var l := h.lists[c];
    assert l == [b] + l[1..];
    assert h.lists[c := l[1..]][c := l] == h.lists;
  }

  /** Splitting a block and joining it with the remainder. */
  lemma MergeSplit(bs: Blocks, first: nat, last: nat, b: nat, n: nat)
    requires Tiled(bs, first, last) && b in bs && Around(bs, b) && 1 <= n && n + 2 <= bs[b].size
    ensures var sp := Split(bs, b, n);
            && Next(sp, b) == b + 1 + n && b + 1 + n in sp && Next(sp, b + 1 + n) in sp
            && Merge(sp, b) == bs
  {
    var b2, nx := b + 1 + n, Next(bs, b);
    NoBlockInside(bs, first, last, b, b2);
    var sp := Split(bs, b, n);
    var bs' := Merge(sp, b);
    assert bs'.Keys == bs.Keys;
    assert bs'[b] == bs[b] && bs'[nx] == bs[nx];
  }

  /** Releasing a block that has no free neighbour. */
  lemma ReleaseAlone(h: Heap, b: nat)
    requires Wf(h) && b in h.blocks && h.blocks[b].free
    requires h.lists[ClassOf(h.blocks[b].size)] != [] && h.lists[ClassOf(h.blocks[b].size)][0] == b
    ensures Wf(Claim(h, b)) && b in Live(Claim(h, b))
    ensures Release(Claim(h, b), b) == h
  {
    ClaimWf(h, b);
    FreeNeighbours(h, b);
    EnlistDropped(h, b);
    var h' := Claim(h, b);
    assert Recolor(h', b, true) == Drop(h, b) by {
      assert SetFree(h'.blocks, b, true) == h.blocks;
    }
    hide Wf, ClassOf, Live, Mid, Enlist, Drop;
  }

  /** What release does depends on the block only through its join with the successor. */
  lemma ReleaseByJoin(h: Heap, k: Heap, b: nat)
    requires Wf(h) && b in Live(h) && Wf(k) && b in Live(k)
    requires Mid(Recolor(h, b, true), b) && Mid(Recolor(k, b, true), b)
    requires AbsorbNext(Recolor(h, b, true), b) == AbsorbNext(Recolor(k, b, true), b)
    ensures Release(h, b) == Release(k, b)
  {
    hide Wf, ClassOf, Live, Mid, Enlist, Drop, AbsorbNext, Recolor, Join;
  }

  /** Marking a trimmed block free and joining it with the remainder. */
  lemma TrimJoined(h: Heap, b: nat, n: nat)
    requires Wf(h) && b in h.blocks && Mid(h, b) && h.blocks[b].size >= n + 2 && 1 <= n
    requires !h.blocks[b].free && !h.blocks[Next(h.blocks, b)].free
    ensures var t := Trim(h, b, n);
            b in t.blocks && (Mid(Recolor(t, b, true), b) ==> AbsorbNext(Recolor(t, b, true), b) == Recolor(h, b, true))
  {
    var b2, h1, t := b + 1 + n, Recolor(h, b, true), Trim(h, b, n);
    var s1 := h1.(blocks := Split(h1.blocks, b, n));
    SetFreeTiled(h.blocks, h.first, h.last, b, true);
    hide IndexedBut, CoalescedBut, ClassOf, Live, Tiled;
    MergeSplit(h1.blocks, h.first, h.last, b, n);
    assert Recolor(t, b, true) == Enlist(s1, b2) by {
      assert SetFree(Split(h.blocks, b, n), b, true) == Split(SetFree(h.blocks, b, true), b, n);
    }
    DropEnlisted(s1, b2);
    hide Enlist, Drop, Split, Merge;
  }

  /** Splitting a live block and releasing it is releasing it whole. */
  lemma ReleaseTrimmed(h: Heap, b: nat, n: nat)
    requires Wf(h) && b in Live(h) && Mid(h, b) && !h.blocks[Next(h.blocks, b)].free && 1 <= n
    ensures Wf(Trim(h, b, n)) && b in Live(Trim(h, b, n))
    ensures Release(Trim(h, b, n), b) == Release(h, b)
  {
    TrimMid(h, b, n);
    if h.blocks[b].size >= n + 2 {
      var t := Trim(h, b, n);
      ReleaseMid(t, b);
      ReleaseMid(h, b);
      TrimJoined(h, b, n);
      AbsorbNothing(h, b);
      hide Wf, Mid, Trim, Release, AbsorbNext, Live, Recolor;
      ReleaseByJoin(t, h, b);
    }
  }

  lemma AbsorbNothing(h: Heap, b: nat)
    requires Mid(h, b) && !h.blocks[Next(h.blocks, b)].free && Mid(Recolor(h, b, true), b)
    ensures AbsorbNext(Recolor(h, b, true), b) == Recolor(h, b, true)
  {
    hide Tiled, IndexedBut, CoalescedBut;
  }

  lemma MallocIs(h: Heap, size: nat)
    requires Wf(h) && Rounded(size) <= MAX_REQUEST
    ensures Malloc(h, size).ptr != 0 ==>
            var b := Chosen(h, size);
            && b in h.blocks && h.blocks[b].free
            && h.lists[ClassOf(h.blocks[b].size)] != [] && h.lists[ClassOf(h.blocks[b].size)][0] == b
            && Mid(Claim(h, b), b) && !Claim(h, b).blocks[Next(Claim(h, b).blocks, b)].free
            && Malloc(h, size) == Outcome(Trim(Claim(h, b), b, Want(size)), b + 1)
  {
    ChosenFits(h, size);
    var b := Chosen(h, size);
    if b != 0 {
      ClaimWf(h, b);
    }
    hide Wf, Want, Chosen, Rounded, Claim, Trim, Live, ClassOf, Release, Mid;
  }

  /** malloc_ex followed at once by free_ex of the result restores the heap: the
      blocks, and the free lists with their order. */
  lemma MallocThenFree(h: Heap, size: nat, o: Outcome)
    requires Wf(h) && Rounded(size) <= MAX_REQUEST
    requires o == Malloc(h, size) && o.ptr != 0
    ensures Wf(o.heap) && o.ptr - 1 in Live(o.heap)
    ensures Free(o.heap, o.ptr) == h
  {
    assert |h.lists| == CLASSES;
    hide Wf, Want, Chosen, Rounded, Claim, Trim, Live, ClassOf, Release, Malloc, Mid;
    MallocIs(h, size);
    var b := Chosen(h, size);
    ReleaseAlone(h, b);
    WantRounded(size);
    ReleaseTrimmed(Claim(h, b), b, Want(size));
  }

  // ----- the layout is determined by what is live -----

  ghost predicate SameClients(h: Heap, k: Heap) {
    Wf(h) && Wf(k) && h.first == k.first && h.last == k.last && Live(h) == Live(k)
  }

  /** A gap of k at a reaches no further than the same gap of h. */
  lemma GapBounded(h: Heap, k: Heap, a: nat)
    requires SameClients(h, k)
    requires a in h.blocks && h.blocks[a].free && a in k.blocks
    ensures k.blocks[a].size <= h.blocks[a].size
  {
    hide IndexedBut;
    FreeNeighbours(h, a);
    var y := Next(h.blocks, a);
    assert y == h.last || y in Live(h);
    assert y == h.last || y in Live(k);
    assert Apart(k.blocks, a, y);
  }

  lemma {:induction false} BlockShared(h: Heap, k: Heap, a: nat)
    requires SameClients(h, k) && a in h.blocks
    ensures a in k.blocks && k.blocks[a] == h.blocks[a]
    decreases a
  {
    hide IndexedBut;
    assert LinkOk(h.blocks, h.first, h.last, a);
    if a != h.first {
      var p := h.blocks[a].prev;
      BlockShared(h, k, p);
      assert LinkOk(h.blocks, h.first, h.last, p) && LinkOk(k.blocks, k.first, k.last, p);
      if a != h.last {
        if h.blocks[a].free {
          assert a !in Live(h) && a !in Live(k);
          GapBounded(h, k, a);
          GapBounded(k, h, a);
        } else {
          assert a in Live(h) && a in Live(k);
        }
      }
    }
  }

  /** The physical partition is a function of the live blocks alone: two heaps that
      reached the same live blocks by any histories have the same blocks. */
  lemma LayoutCanonical(h: Heap, k: Heap)
    requires SameClients(h, k)
    ensures h.blocks == k.blocks
  {
    forall a | a in h.blocks
      ensures a in k.blocks && k.blocks[a] == h.blocks[a]
    {
      BlockShared(h, k, a);
    }
    forall a | a in k.blocks
      ensures a in h.blocks
    {
      BlockShared(k, h, a);
    }
  }

  // ----- conservation -----

  /** The blocks met when walking from a to the sentinel. */
  function Walk(h: Heap, a: nat): seq<nat>
    requires Wf(h) && a in h.blocks
    decreases h.last - a
  {
    if a == h.last then [a] else
      assert LinkOk(h.blocks, h.first, h.last, a);
      assert LinkOk(h.blocks, h.first, h.last, Next(h.blocks, a));
      [a] + Walk(h, Next(h.blocks, a))
  }

  /** Headers and payloads of a sequence of blocks, in granules. */
  function Total(h: Heap, w: seq<nat>): nat {
    if w == [] then 0 else (if w[0] in h.blocks then 1 + h.blocks[w[0]].size else 0) + Total(h, w[1..])
  }

  /** The walk from a visits every block from a on and its sizes sum to the distance. */
  lemma {:induction false} WalkTotal(h: Heap, a: nat)
    requires Wf(h) && a in h.blocks
    ensures forall x: nat :: x in Walk(h, a) <==> x in h.blocks && x >= a
    ensures Total(h, Walk(h, a)) == h.last + 1 - a
    decreases h.last - a
  {
    assert LinkOk(h.blocks, h.first, h.last, a);
    if a != h.last {
      var nx := Next(h.blocks, a);
      assert LinkOk(h.blocks, h.first, h.last, nx);
      WalkTotal(h, nx);
      assert Walk(h, a)[1..] == Walk(h, nx);
      hide Wf;
      forall x: nat
        ensures x in Walk(h, a) <==> x in h.blocks && x >= a
      {
        WalkStep(h, a, x);
      }
    } else {
      forall x: nat
        ensures x in Walk(h, a) <==> x in h.blocks && x >= a
      {
        assert x in h.blocks ==> LinkOk(h.blocks, h.first, h.last, x);
      }
    }
  }

  lemma WalkStep(h: Heap, a: nat, x: nat)
    requires Wf(h) && a in h.blocks && a != h.last && Next(h.blocks, a) in h.blocks
    requires x in Walk(h, Next(h.blocks, a)) <==> x in h.blocks && x >= Next(h.blocks, a)
    ensures x in Walk(h, a) <==> x in h.blocks && x >= a
  {
    assert Walk(h, a) == [a] + Walk(h, Next(h.blocks, a));
    assert x in h.blocks ==> Apart(h.blocks, a, x);
  }

  /** With nothing live the whole area is one free block again. */
  lemma QuiescentHeap(h: Heap)
    requires Wf(h) && Live(h) == map[] && h.first + 4 <= h.last
    ensures h.blocks == map[
              h.first := Block(1, false, 0),
              h.first + 2 := Block(h.last - h.first - 3, true, h.first),
              h.last := Block(0, false, h.first + 2)]
  {
    hide IndexedBut;
    var b := h.first + 2;
    assert LinkOk(h.blocks, h.first, h.last, h.first) && b in h.blocks;
    forall x | x in h.blocks
      ensures x == h.first || x == h.last || h.blocks[x].free
    {
      assert x !in Live(h);
    }
    FreeNeighbours(h, b);
    assert Next(h.blocks, b) == h.last;
    forall x | x in h.blocks
      ensures x == h.first || x == b || x == h.last
    {
      assert LinkOk(h.blocks, h.first, h.last, x) && Apart(h.blocks, h.first, x) && Apart(h.blocks, b, x);
    }
  }

  // ----- runs -----

  datatype Op = DoMalloc(size: nat) | DoFree(ptr: nat) | DoRealloc(ptr: nat, size: nat)

  /** What a client owes: requests within the mapped range, and only null or live pointers. */
  ghost predicate Legal(h: Heap, op: Op) {
    match op
    case DoMalloc(size) => Rounded(size) <= MAX_REQUEST
    case DoFree(ptr) => ptr != 0 ==> ptr - 1 in Live(h)
    case DoRealloc(ptr, size) => Rounded(size) <= MAX_REQUEST && (ptr != 0 ==> ptr - 1 in Live(h))
  }

  function Apply(h: Heap, op: Op): Heap
    requires Wf(h) && Legal(h, op)
  {
    match op
    case DoMalloc(size) => Malloc(h, size).heap
    case DoFree(ptr) => Free(h, ptr)
    case DoRealloc(ptr, size) => Realloc(h, ptr, size).heap
  }

  lemma ApplyWf(h: Heap, op: Op)
    requires Wf(h) && Legal(h, op)
    ensures Wf(Apply(h, op)) && Apply(h, op).first == h.first && Apply(h, op).last == h.last
  {
    hide Wf, Malloc, Release, Resize;
    match op
    case DoMalloc(size) =>
      MallocCorrect(h, size);
    case DoFree(ptr) =>
      if ptr != 0 {
        ReleaseCorrect(h, ptr - 1);
      }
    case DoRealloc(ptr, size) =>
      if ptr == 0 {
        MallocCorrect(h, size);
      } else if size == 0 {
        ReleaseCorrect(h, ptr - 1);
      } else {
        ResizeCorrect(h, ptr - 1, Rounded(size) / 16);
      }
  }

  /** h' is reached from h by the operations of `run`, each legal when it is made. */
  ghost predicate Runs(h: Heap, run: seq<Op>, h': Heap)
    requires Wf(h)
    decreases |run|
  {
    if run == [] then h' == h else
      && Legal(h, run[0])
      && (ApplyWf(h, run[0]); Runs(Apply(h, run[0]), run[1..], h'))
  }

  /** Every run keeps the heap well formed and the area where it was. */
  lemma {:induction false} RunWf(h: Heap, run: seq<Op>, h': Heap)
    requires Wf(h) && Runs(h, run, h')
    ensures Wf(h') && h'.first == h.first && h'.last == h.last
    decreases |run|
  {
    if run != [] {
      ApplyWf(h, run[0]);
      RunWf(Apply(h, run[0]), run[1..], h');
    }
  }

  /** Over every run: live payloads are pairwise disjoint and inside the area, and
      headers and payloads of all blocks sum to the same number of granules. */
  lemma RunSafe(h: Heap, run: seq<Op>, h': Heap)
    requires Wf(h) && Runs(h, run, h')
    ensures Wf(h')
    ensures forall a, b :: a in Live(h') && b in Live(h') && a < b ==> a + Live(h')[a] < b
    ensures forall a :: a in Live(h') ==> h.first < a && a + Live(h')[a] < h.last
    ensures Total(h', Walk(h', h'.first)) == Total(h, Walk(h, h.first))
  {
    RunWf(h, run, h');
    WalkTotal(h', h'.first);
    WalkTotal(h, h.first);
    hide Walk, Total, IndexedBut, CoalescedBut, Runs;
    forall a, b | a in Live(h') && b in Live(h') && a < b
      ensures a + Live(h')[a] < b
    {
      assert Apart(h'.blocks, a, b);
    }
    forall a | a in Live(h')
      ensures h.first < a && a + Live(h')[a] < h.last
    {
      assert LinkOk(h'.blocks, h'.first, h'.last, a) && Apart(h'.blocks, a, h'.last);
    }
  }

  /** A run that ends with the live blocks it began with ends with the same partition. */
  lemma RunReturns(h: Heap, run: seq<Op>, h': Heap)
    requires Wf(h) && Runs(h, run, h') && Live(h') == Live(h)
    ensures h'.blocks == h.blocks
  {
    RunWf(h, run, h');
    LayoutCanonical(h, h');
  }
}
