/** What malloc_ex and realloc_ex owe to a request, in bytes: the block a client is given
    against the size it asked for. */
module TlsfRequests {
  import opened TlsfMapping
  import opened TlsfHeap

  /** A size a block can have. */
  predicate Grain(v: nat) {
    v % 16 == 0 && v >= 16
  }

  /** u is the least size of a block that holds `size` bytes. */
  ghost predicate LeastGrain(size: nat, u: nat) {
    Grain(u) && u >= size && forall v: nat {:trigger Grain(v)} :: Grain(v) && v >= size ==> u <= v
  }

  /** w is the least lower bound of a class that is not below u. */
  ghost predicate LeastBound(u: nat, w: nat) {
    && (exists c: nat :: ClassLow(c) == w) && w >= u
    && forall c: nat {:trigger ClassLow(c)} :: ClassLow(c) >= u ==> w <= ClassLow(c)
  }

  lemma RoundedLeast(size: nat)
    ensures LeastGrain(size, Rounded(size))
    ensures Rounded(size) <= MAX_REQUEST <==> size <= MAX_REQUEST
  {
    var u := Rounded(size);
    forall v: nat | Grain(v) && v >= size
      ensures u <= v
    {
    }
  }

  lemma RoundedWhole(size: nat)
    ensures 1 <= Rounded(size) / 16 && 16 * (Rounded(size) / 16) == Rounded(size)
  {
    hide Rounded;
    RoundedLeast(size);
  }

  /** The rounding of a request wastes less than one part in 32. */
  function Waste(u: nat): nat {
    if u < 128 then 0 else (u - 32) / 32
  }

  lemma WantLeast(size: nat)
    requires Rounded(size) <= MAX_REQUEST
    ensures LeastBound(Rounded(size), 16 * Want(size))
    ensures Rounded(size) <= 16 * Want(size) <= Rounded(size) + Waste(Rounded(size))
  {
    hide Rounded, MappingSearch, SearchClass, ClassLow, Want;
    WantRounded(size);
    SearchRounds(Rounded(size));
    var u, d := Rounded(size), SearchClass(Rounded(size));
    forall c: nat | ClassLow(c) >= u
      ensures 16 * Want(size) <= ClassLow(c)
    {
      if c < d {
        ClassLowMonotone(c, d - 1);
      } else {
        ClassLowMonotone(d, c);
      }
    }
  }

  /** Both are determined. */
  lemma RequestIs(size: nat, u: nat, w: nat)
    requires size <= MAX_REQUEST && LeastGrain(size, u) && LeastBound(u, w)
    ensures u == Rounded(size) <= MAX_REQUEST && w == 16 * Want(size) && u <= w <= u + Waste(u)
  {
    hide Rounded, Want, ClassLow, Waste;
    RoundedLeast(size);
    WantLeast(size);
    assert Grain(u) && Grain(Rounded(size));
    assert exists c: nat :: ClassLow(c) == w;
    assert exists c: nat :: ClassLow(c) == 16 * Want(size);
  }

  /** No free block has w bytes. */
  ghost predicate NoneAsLarge(h: Heap, w: nat) {
    forall a {:trigger h.blocks[a]} :: a in h.blocks && h.blocks[a].free ==> 16 * h.blocks[a].size < w
  }

  lemma NoneAsLargeIs(h: Heap, n: nat)
    ensures NoneAsLarge(h, 16 * n) <==> forall a :: a in h.blocks && h.blocks[a].free ==> h.blocks[a].size < n
  {
  }

  /** b heads its free list, and no lower list holds a block of w bytes. */
  ghost predicate GoodFitHead(h: Heap, w: nat, b: nat) {
    && b in h.blocks && h.blocks[b].free && 16 * h.blocks[b].size >= w
    && 0 <= ClassOf(h.blocks[b].size) < |h.lists|
    && h.lists[ClassOf(h.blocks[b].size)] != [] && h.lists[ClassOf(h.blocks[b].size)][0] == b
    && forall a {:trigger h.blocks[a]} ::
         a in h.blocks && h.blocks[a].free && 16 * h.blocks[a].size >= w
         ==> ClassOf(h.blocks[b].size) <= ClassOf(h.blocks[a].size)
  }

  /** malloc_ex on a request whose block size is u and whose class bound is w: it takes the
      first block of the least list that holds one of w bytes, and the client gets the front
      of it. */
  ghost predicate Served(h: Heap, size: nat, u: nat, w: nat, o: Outcome) {
    && Wf(o.heap) && (o.ptr == 0 <==> NoneAsLarge(h, w))
    && (o.ptr == 0 ==> o.heap == h)
    && (o.ptr != 0 ==>
          && Gained(Live(h), Live(o.heap), o.ptr - 1) && GoodFitHead(h, w, o.ptr - 1)
          && var s := 16 * Live(o.heap)[o.ptr - 1]; size <= s && w <= s <= w + 16 && s <= u + Waste(u) + 16)
  }

  ghost predicate MallocMeets(h: Heap, size: nat, o: Outcome) {
    forall u: nat, w: nat {:trigger LeastGrain(size, u), LeastBound(u, w)} ::
      LeastGrain(size, u) && LeastBound(u, w) ==> Served(h, size, u, w, o)
  }

  /** The block handed out starts where the chosen free block started. */
  lemma MallocTakes(h: Heap, size: nat)
    requires Wf(h) && Rounded(size) <= MAX_REQUEST
    ensures Malloc(h, size).ptr != 0 ==> GoodFitHead(h, 16 * Want(size), Malloc(h, size).ptr - 1)
  {
    ChosenFits(h, size);
    hide Wf, Chosen, Claim, Trim, Want, Rounded;
    var b := Chosen(h, size);
    if b != 0 {
      ListedClass(h, b);
      hide ClassOf;
    }
  }

  lemma ListedClass(h: Heap, b: nat)
    requires Wf(h) && b in h.blocks
    ensures 0 <= ClassOf(h.blocks[b].size) < CLASSES == |h.lists|
  {
    SizeBounded(h, b);
    ClassSandwich(16 * h.blocks[b].size);
  }

  lemma ServedIs(h: Heap, size: nat)
    requires Wf(h) && size <= MAX_REQUEST && Rounded(size) <= MAX_REQUEST
    ensures Served(h, size, Rounded(size), 16 * Want(size), Malloc(h, size))
  {
    hide Rounded, Want, Wf, Malloc, Live, NoneAsLarge, GoodFitHead, MappingSearch, Waste;
    MallocCorrect(h, size);
    MallocTakes(h, size);
    NoneAsLargeIs(h, Want(size));
    WantLeast(size);
  }

  /** For every heap and every request within the limit. */
  lemma MallocServes(h: Heap, size: nat)
    requires Wf(h) && size <= MAX_REQUEST
    ensures Rounded(size) <= MAX_REQUEST && MallocMeets(h, size, Malloc(h, size))
  {
    hide Rounded, Want, Wf, Malloc, Served, LeastGrain, LeastBound;
    RoundedLeast(size);
    ServedIs(h, size);
    forall u: nat, w: nat | LeastGrain(size, u) && LeastBound(u, w)
      ensures Served(h, size, u, w, Malloc(h, size))
    {
      RequestIs(size, u, w);
    }
  }

  /** realloc_ex of the live block b to a non-zero size: in place exactly when b, or b and a
      free successor, hold u bytes; otherwise it moves, and fails exactly when malloc_ex
      would. */
  ghost predicate Refitted(h: Heap, b: nat, size: nat, u: nat, w: nat, o: Outcome)
    requires b in h.blocks && Next(h.blocks, b) in h.blocks
  {
    var was, nx := 16 * h.blocks[b].size, h.blocks[Next(h.blocks, b)];
    && Wf(o.heap)
    && (o.ptr == 0 ==> o.heap == h)
    && (o.ptr != 0 ==>
          Replaced(Live(h), Live(o.heap), b, o.ptr - 1) && 16 * Live(o.heap)[o.ptr - 1] >= size)
    && if u <= was || (nx.free && u <= was + 16 * nx.size) then
         && o.ptr == b + 1 && b in Live(o.heap)
         && u <= 16 * Live(o.heap)[b] <= u + 16 && (u <= was && nx.free ==> 16 * Live(o.heap)[b] == u)
       else
         && (o.ptr == 0 <==> NoneAsLarge(h, w))
         && (o.ptr != 0 ==> o.ptr != b + 1 && w <= 16 * Live(o.heap)[o.ptr - 1] <= w + 16)
  }

  ghost predicate ReallocMeets(h: Heap, ptr: nat, size: nat, o: Outcome) {
    && (ptr == 0 && size != 0 ==> MallocMeets(h, size, o))
    && (ptr == 0 && size == 0 ==> o == Outcome(h, 0))
    && (ptr != 0 && size == 0 ==> o.ptr == 0 && Wf(o.heap) && Live(o.heap) == Live(h) - {ptr - 1})
    && (ptr != 0 && size != 0 ==>
          && ptr - 1 in h.blocks && Next(h.blocks, ptr - 1) in h.blocks
          && forall u: nat, w: nat {:trigger LeastGrain(size, u), LeastBound(u, w)} ::
               LeastGrain(size, u) && LeastBound(u, w) ==> Refitted(h, ptr - 1, size, u, w, o))
  }

  lemma ResizeMeets(h: Heap, b: nat, size: nat, u: nat, w: nat)
    requires Wf(h) && b in Live(h) && size <= MAX_REQUEST && LeastGrain(size, u) && LeastBound(u, w)
    ensures b in h.blocks && Next(h.blocks, b) in h.blocks
    ensures u / 16 >= 1 && 16 * (u / 16) == u <= MAX_REQUEST
    ensures Refitted(h, b, size, u, w, Resize(h, b, u / 16))
  {
    RequestIs(size, u, w);
    var n := u / 16;
    assert Grain(u) && 16 * n == u;
    assert Rounded(16 * n) == 16 * n && w == 16 * Want(16 * n);
    LiveMid(h, b);
    ResizeCorrect(h, b, n);
    NoneAsLargeIs(h, Want(16 * n));
    if FitsInPlace(h, b, n) {
      ResizeInPlace(h, b, n);
    } else {
      MoveCorrect(h, b, n);
    }
    hide Rounded, Want, Wf, Live, LeastGrain, LeastBound, NoneAsLarge, AbsorbNext, Trim, Move, Mid, Waste;
  }

  /** For every heap, pointer and size within the limit. */
  lemma ReallocServes(h: Heap, ptr: nat, size: nat)
    requires Wf(h) && size <= MAX_REQUEST && (ptr != 0 ==> ptr - 1 in Live(h))
    ensures Rounded(size) <= MAX_REQUEST && ReallocMeets(h, ptr, size, Realloc(h, ptr, size))
  {
    RoundedLeast(size);
    hide Wf, Live, LeastBound, Refitted, MallocMeets, Malloc, Resize, Release, Rounded, Served;
    if ptr == 0 && size != 0 {
      MallocServes(h, size);
    } else if ptr != 0 && size == 0 {
      ReleaseCorrect(h, ptr - 1);
    } else if ptr != 0 {
      LiveBlock(h, ptr - 1);
      forall u: nat, w: nat | LeastGrain(size, u) && LeastBound(u, w)
        ensures Refitted(h, ptr - 1, size, u, w, Realloc(h, ptr, size))
      {
        RequestIs(size, u, w);
        ResizeMeets(h, ptr - 1, size, u, w);
      }
    }
  }

  lemma LiveBlock(h: Heap, b: nat)
    requires Wf(h) && b in Live(h)
    ensures b in h.blocks && Next(h.blocks, b) in h.blocks
  {
    LiveMid(h, b);
    hide Wf;
  }

  /** The size and the bound of a request exist, so that what is promised for them is not
      promised in vain. */
  lemma RequestHas(size: nat) returns (u: nat, w: nat)
    requires size <= MAX_REQUEST
    ensures LeastGrain(size, u) && LeastBound(u, w) && u <= w <= u + Waste(u)
  {
    RoundedLeast(size);
    WantLeast(size);
    u, w := Rounded(size), 16 * Want(size);
  }

  /** Whatever realloc_ex returns for a non-zero size is a live block of that size. */
  lemma ReallocHolds(h: Heap, ptr: nat, size: nat)
    requires Wf(h) && size <= MAX_REQUEST && Rounded(size) <= MAX_REQUEST && (ptr != 0 ==> ptr - 1 in Live(h))
    ensures var o := Realloc(h, ptr, size);
            size != 0 && o.ptr != 0 ==> o.ptr - 1 in Live(o.heap) && 16 * Live(o.heap)[o.ptr - 1] >= size
  {
    hide Wf, Live, LeastGrain, LeastBound, Realloc, Rounded, ReallocMeets, MallocMeets;
    ReallocServes(h, ptr, size);
    if size != 0 && ptr == 0 {
      ReallocServed(h, size, Realloc(h, ptr, size));
    } else if size != 0 {
      ReallocRefitted(h, ptr, size, Realloc(h, ptr, size));
    }
  }

  lemma ReallocServed(h: Heap, size: nat, o: Outcome)
    requires size != 0 && size <= MAX_REQUEST && ReallocMeets(h, 0, size, o)
    ensures o.ptr != 0 ==> o.ptr - 1 in Live(o.heap) && 16 * Live(o.heap)[o.ptr - 1] >= size
  {
    hide Wf, Live, LeastGrain, LeastBound, GoodFitHead, NoneAsLarge, Waste;
    var u, w := RequestHas(size);
    assert Served(h, size, u, w, o);
  }

  lemma ReallocRefitted(h: Heap, ptr: nat, size: nat, o: Outcome)
    requires size != 0 && ptr != 0 && size <= MAX_REQUEST && ReallocMeets(h, ptr, size, o)
    ensures o.ptr != 0 ==> o.ptr - 1 in Live(o.heap) && 16 * Live(o.heap)[o.ptr - 1] >= size
  {
    hide Wf, Live, LeastGrain, LeastBound, NoneAsLarge, Waste;
    var u, w := RequestHas(size);
    assert Refitted(h, ptr - 1, size, u, w, o);
  }
}
