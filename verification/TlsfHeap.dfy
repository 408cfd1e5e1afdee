/** The heap as the allocator's clients see it: blocks tiling the pool in
    physical order and the free lists.  Addresses and sizes count 16-byte
    granules; a block at `a` has its header in granule `a` and its payload in
    the `size` granules that follow. */
module TlsfHeap {
  import opened Sequences
  import opened TlsfMapping

  datatype Block = Block(size: nat, free: bool, prev: nat)
  type Blocks = map<nat, Block>

  /** GET_NEXT_BLOCK: the physical successor of a block. */
  function Next(bs: Blocks, a: nat): nat
    requires a in bs
  {
    a + 1 + bs[a].size
  }

  /** Block a touches the blocks before and after it. */
  ghost predicate LinkOk(bs: Blocks, first: nat, last: nat, a: nat)
    requires a in bs
  {
    && first <= a <= last
    && (a != last ==> bs[a].size >= 1 && Next(bs, a) in bs && bs[Next(bs, a)].prev == a)
    && (a != first ==> bs[a].prev in bs && bs[a].prev < a && Next(bs, bs[a].prev) == a)
  }

  ghost predicate Apart(bs: Blocks, a: nat, b: nat)
    requires a in bs && b in bs
  {
    a < b ==> Next(bs, a) <= b
  }

  /** The blocks tile the area from `first`, the one-granule area descriptor, up to
      the sentinel `last`. */
  ghost predicate Tiled(bs: Blocks, first: nat, last: nat) {
    && first in bs && last in bs && 0 < first < last && bs[last].size == 0
    && bs[first].size == 1 && bs[first].prev == 0
    && (forall a {:trigger LinkOk(bs, first, last, a)} :: a in bs ==> LinkOk(bs, first, last, a))
    && (forall a, b {:trigger Apart(bs, a, b)} :: a in bs && b in bs ==> Apart(bs, a, b))
  }

  function SetFree(bs: Blocks, a: nat, f: bool): Blocks
    requires a in bs
  {
    bs[a := bs[a].(free := f)]
  }

  /** Cuts block a after n granules; the remainder becomes a free block. */
  function Split(bs: Blocks, a: nat, n: nat): Blocks
    requires a in bs && n + 2 <= bs[a].size && Next(bs, a) in bs
  {
    var b2 := a + 1 + n;
    var nx := Next(bs, a);
    bs[a := bs[a].(size := n)][b2 := Block(bs[a].size - n - 1, true, a)][nx := bs[nx].(prev := b2)]
  }

  /** Joins block a with its physical successor. */
  function Merge(bs: Blocks, a: nat): Blocks
    requires a in bs && Next(bs, a) in bs && Next(bs, Next(bs, a)) in bs
  {
    var nx := Next(bs, a);
    var nn := Next(bs, nx);
    (bs - {nx})[a := bs[a].(size := bs[a].size + 1 + bs[nx].size)][nn := bs[nn].(prev := a)]
  }

  lemma SetFreeTiled(bs: Blocks, first: nat, last: nat, a: nat, f: bool)
    requires Tiled(bs, first, last) && a in bs
    ensures Tiled(SetFree(bs, a, f), first, last)
  {
    var bs' := SetFree(bs, a, f);
    forall x | x in bs'
      ensures LinkOk(bs', first, last, x)
    {
      assert LinkOk(bs, first, last, x);
    }
    forall x, y | x in bs' && y in bs'
      ensures Apart(bs', x, y)
    {
      assert Apart(bs, x, y);
    }
  }

  /** No block starts inside another one. */
  lemma NoBlockInside(bs: Blocks, first: nat, last: nat, a: nat, g: nat)
    requires Tiled(bs, first, last) && a in bs && a < g < Next(bs, a)
    ensures g !in bs
  {
    assert g in bs ==> Apart(bs, a, g);
  }

  lemma SplitTiled(bs: Blocks, first: nat, last: nat, a: nat, n: nat)
    requires Tiled(bs, first, last) && a in bs && a != first && a != last && 1 <= n && n + 2 <= bs[a].size
    requires Next(bs, a) in bs
    ensures Tiled(Split(bs, a, n), first, last)
  {
    var bs' := Split(bs, a, n);
    var b2 := a + 1 + n;
    var nx := Next(bs, a);
    assert LinkOk(bs, first, last, a);
    NoBlockInside(bs, first, last, a, b2);
    assert LinkOk(bs, first, last, nx);
    forall x | x in bs'
      ensures LinkOk(bs', first, last, x)
    {
      if x != b2 {
        assert LinkOk(bs, first, last, x);
      }
    }
    SplitApart(bs, first, last, a, n);
  }

  lemma SplitApart(bs: Blocks, first: nat, last: nat, a: nat, n: nat)
    requires Tiled(bs, first, last) && a in bs && a != last && 1 <= n && n + 2 <= bs[a].size
    requires Next(bs, a) in bs
    ensures forall x, y {:trigger Apart(Split(bs, a, n), x, y)} ::
              x in Split(bs, a, n) && y in Split(bs, a, n) ==> Apart(Split(bs, a, n), x, y)
  {
    var bs' := Split(bs, a, n);
    var b2 := a + 1 + n;
    forall x, y | x in bs' && y in bs'
      ensures Apart(bs', x, y)
    {
      var x0 := if x == b2 then a else x;
      var y0 := if y == b2 then a else y;
      assert Apart(bs, x0, y0) && Apart(bs, a, x0);
    }
  }

  lemma MergeTiled(bs: Blocks, first: nat, last: nat, a: nat)
    requires Tiled(bs, first, last) && a in bs && a != first && a != last && Next(bs, a) != last
    requires Next(bs, a) in bs && Next(bs, Next(bs, a)) in bs
    ensures Tiled(Merge(bs, a), first, last)
  {
    var bs' := Merge(bs, a);
    var nx := Next(bs, a);
    var nn := Next(bs, nx);
    assert LinkOk(bs, first, last, a) && LinkOk(bs, first, last, nx) && LinkOk(bs, first, last, nn);
    forall x | x in bs'
      ensures LinkOk(bs', first, last, x)
    {
      assert LinkOk(bs, first, last, x);
    }
    MergeApart(bs, first, last, a);
  }

  lemma MergeApart(bs: Blocks, first: nat, last: nat, a: nat)
    requires Tiled(bs, first, last) && a in bs && a != last && Next(bs, a) != last
    requires Next(bs, a) in bs && Next(bs, Next(bs, a)) in bs
    ensures forall x, y {:trigger Apart(Merge(bs, a), x, y)} ::
              x in Merge(bs, a) && y in Merge(bs, a) ==> Apart(Merge(bs, a), x, y)
  {
    var bs' := Merge(bs, a);
    var nx := Next(bs, a);
    forall x, y | x in bs' && y in bs'
      ensures Apart(bs', x, y)
    {
      assert Apart(bs, x, y);
      if x == a {
        assert Apart(bs, nx, y);
      }
    }
  }

  /** A free block is followed by a used one. */
  ghost predicate AloneFree(bs: Blocks, a: nat)
    requires a in bs
  {
    bs[a].free ==> Next(bs, a) in bs && !bs[Next(bs, a)].free
  }

  /** Neither end is free and no two neighbours are both free, except perhaps x and a neighbour. */
  ghost predicate CoalescedBut(bs: Blocks, first: nat, last: nat, x: nat) {
    && first in bs && last in bs && !bs[first].free && !bs[last].free
    && (forall a {:trigger AloneFree(bs, a)} :: a in bs && a != x && Next(bs, a) != x ==> AloneFree(bs, a))
  }

  ghost predicate Coalesced(bs: Blocks, first: nat, last: nat) {
    CoalescedBut(bs, first, last, 0)
  }

  lemma SetFreeCoalesced(bs: Blocks, first: nat, last: nat, a: nat, f: bool)
    requires Tiled(bs, first, last) && Coalesced(bs, first, last) && a in bs && a != first && a != last
    ensures CoalescedBut(SetFree(bs, a, f), first, last, a)
    ensures !f ==> Coalesced(SetFree(bs, a, f), first, last)
  {
    var bs' := SetFree(bs, a, f);
    forall x | x in bs' && ((x != a && Next(bs', x) != a) || !f)
      ensures AloneFree(bs', x)
    {
      assert LinkOk(bs, first, last, x);
      assert AloneFree(bs, x);
    }
  }

  /** Joining x with its successor leaves every other pair of neighbours as it was. */
  lemma MergeCoalesced(bs: Blocks, first: nat, last: nat, a: nat, x: nat)
    requires Tiled(bs, first, last) && CoalescedBut(bs, first, last, x)
    requires a in bs && a != last && Next(bs, a) in bs && Next(bs, a) != last && Next(bs, Next(bs, a)) in bs
    requires (a == x || Next(bs, a) == x) && a != first
    ensures CoalescedBut(Merge(bs, a), first, last, a)
  {
    var bs' := Merge(bs, a);
    var nx := Next(bs, a);
    var nn := Next(bs, nx);
    assert LinkOk(bs, first, last, a) && LinkOk(bs, first, last, nx) && LinkOk(bs, first, last, nn);
    forall y | y in bs' && y != a && Next(bs', y) != a
      ensures AloneFree(bs', y)
    {
      assert LinkOk(bs, first, last, y);
      assert AloneFree(bs, y);
    }
  }

  lemma CloseCoalesced(bs: Blocks, first: nat, last: nat, a: nat)
    requires Tiled(bs, first, last) && CoalescedBut(bs, first, last, a)
    requires a in bs && a != first && a != last
    requires Next(bs, a) in bs && bs[a].prev in bs
    requires bs[a].free ==> !bs[Next(bs, a)].free && !bs[bs[a].prev].free
    ensures Coalesced(bs, first, last)
  {
    assert LinkOk(bs, first, last, a);
    forall y | y in bs
      ensures AloneFree(bs, y)
    {
      assert LinkOk(bs, first, last, y);
      if y != a && Next(bs, y) != a {
        assert AloneFree(bs, y);
      }
    }
  }

  /** Cutting a used block whose successor is used keeps free blocks apart. */
  lemma SplitCoalesced(bs: Blocks, first: nat, last: nat, a: nat, n: nat)
    requires Tiled(bs, first, last) && CoalescedBut(bs, first, last, a)
    requires a in bs && a != last && 1 <= n && n + 2 <= bs[a].size && Next(bs, a) in bs
    requires !bs[a].free && !bs[Next(bs, a)].free
    ensures Coalesced(Split(bs, a, n), first, last)
  {
    var bs' := Split(bs, a, n);
    var b2 := a + 1 + n;
    var nx := Next(bs, a);
    assert LinkOk(bs, first, last, a) && LinkOk(bs, first, last, nx);
    NoBlockInside(bs, first, last, a, b2);
    forall y | y in bs'
      ensures AloneFree(bs', y)
    {
      if y != b2 {
        assert LinkOk(bs, first, last, y);
        assert y != a && Next(bs, y) != a ==> AloneFree(bs, y);
      }
    }
  }

  // ----- the free lists -----

  type Lists = seq<seq<nat>>

  /** The class of a block of n granules; pools stay below 2^30 bytes. */
  function ClassOf(n: nat): (c: nat)
    ensures c < CLASSES
  {
    if 16 * n < LIMIT then ClassSandwich(16 * n); Class(16 * n) else 0
  }

  /** Block a is free and belongs in list c. */
  ghost predicate Filed(bs: Blocks, a: nat, c: nat) {
    a in bs && bs[a].free && ClassOf(bs[a].size) == c
  }

  ghost predicate ListOk(bs: Blocks, lists: Lists, c: nat)
    requires c < |lists|
  {
    && NoDup(lists[c])
    && (forall a {:trigger Filed(bs, a, c)} :: a in lists[c] ==> Filed(bs, a, c))
  }

  ghost predicate Listed(bs: Blocks, lists: Lists, a: nat)
    requires a in bs && |lists| == CLASSES
  {
    bs[a].free ==> a in lists[ClassOf(bs[a].size)]
  }

  ghost predicate Absent(lists: Lists, c: nat, ex: set<nat>)
    requires c < |lists|
  {
    forall a :: a in ex ==> a !in lists[c]
  }

  /** Every free block outside `ex` is in exactly the list of its class, once;
      the blocks in `ex` are in no list. */
  ghost predicate IndexedBut(bs: Blocks, lists: Lists, ex: set<nat>) {
    && |lists| == CLASSES
    && (forall c {:trigger ListOk(bs, lists, c)} :: 0 <= c < CLASSES ==> ListOk(bs, lists, c))
    && (forall c {:trigger Absent(lists, c, ex)} :: 0 <= c < CLASSES ==> Absent(lists, c, ex))
    && (forall a {:trigger Listed(bs, lists, a)} :: a in bs && a !in ex ==> Listed(bs, lists, a))
  }

  function Unlink(l: seq<nat>, a: nat): seq<nat> {
    if l == [] then [] else if l[0] == a then l[1..] else [l[0]] + Unlink(l[1..], a)
  }

  function File(lists: Lists, n: nat, a: nat): Lists
    requires |lists| == CLASSES
  {
    lists[ClassOf(n) := [a] + lists[ClassOf(n)]]
  }

  function Unfile(lists: Lists, n: nat, a: nat): Lists
    requires |lists| == CLASSES
  {
    lists[ClassOf(n) := Unlink(lists[ClassOf(n)], a)]
  }

  lemma {:induction false} UnlinkKeeps(l: seq<nat>, a: nat)
    requires NoDup(l)
    ensures NoDup(Unlink(l, a)) && a !in Unlink(l, a)
    ensures forall x :: x != a ==> (x in Unlink(l, a) <==> x in l)
  {
    if l != [] {
      assert l == [l[0]] + l[1..] && l[0] !in l[1..];
      UnlinkKeeps(l[1..], a);
      assert l[0] != a ==> l[0] !in Unlink(l[1..], a);
    }
  }

  lemma {:induction false} UnlinkAt(l: seq<nat>, i: nat)
    requires NoDup(l) && i < |l|
    ensures Unlink(l, l[i]) == l[..i] + l[i + 1..]
  {
    if i > 0 {
      UnlinkAt(l[1..], i - 1);
      assert l[1..][..i - 1] == l[1..i] && l[1..][i..] == l[i + 1..];
      assert [l[0]] + l[1..i] == l[..i];
    }
  }

  lemma UnfileIndexed(bs: Blocks, lists: Lists, ex: set<nat>, a: nat)
    requires IndexedBut(bs, lists, ex) && a in bs && bs[a].free
    ensures IndexedBut(bs, Unfile(lists, bs[a].size, a), ex + {a})
  {
    hide ClassOf;
    var d := ClassOf(bs[a].size);
    var lists' := Unfile(lists, bs[a].size, a);
    assert ListOk(bs, lists, d);
    UnlinkKeeps(lists[d], a);
    forall c | 0 <= c < CLASSES
      ensures ListOk(bs, lists', c) && Absent(lists', c, ex + {a})
    {
      assert ListOk(bs, lists, c) && Absent(lists, c, ex);
      assert a in lists[c] ==> Filed(bs, a, c);
    }
    forall x | x in bs && x !in ex + {a}
      ensures Listed(bs, lists', x)
    {
      assert Listed(bs, lists, x);
    }
  }

  lemma FileIndexed(bs: Blocks, lists: Lists, ex: set<nat>, a: nat)
    requires IndexedBut(bs, lists, ex) && a in bs && bs[a].free && a in ex
    ensures IndexedBut(bs, File(lists, bs[a].size, a), ex - {a})
  {
    hide ClassOf;
    var lists' := File(lists, bs[a].size, a);
    forall c | 0 <= c < CLASSES
      ensures ListOk(bs, lists', c) && Absent(lists', c, ex - {a})
    {
      assert ListOk(bs, lists, c) && Absent(lists, c, ex);
    }
    forall x | x in bs && x !in ex - {a}
      ensures Listed(bs, lists', x)
    {
      if x != a {
        assert Listed(bs, lists, x);
      }
    }
  }

  /** Changing only unlisted blocks, and adding or dropping unlisted ones, keeps the lists right. */
  lemma Reindexed(bs: Blocks, bs': Blocks, lists: Lists, ex: set<nat>, ex': set<nat>)
    requires IndexedBut(bs, lists, ex)
    requires forall c :: 0 <= c < CLASSES ==> Absent(lists, c, ex')
    requires forall a :: a in bs && a !in ex ==>
               (bs[a].free ==> a in bs' && bs'[a].free && bs'[a].size == bs[a].size)
    requires forall a :: a in bs' && a !in ex' && bs'[a].free ==>
               a in bs && a !in ex && bs[a].free && bs'[a].size == bs[a].size
    ensures IndexedBut(bs', lists, ex')
  {
    hide ClassOf;
    forall c | 0 <= c < CLASSES
      ensures ListOk(bs', lists, c)
    {
      assert ListOk(bs, lists, c) && Absent(lists, c, ex);
      forall a | a in lists[c]
        ensures Filed(bs', a, c)
      {
        assert Filed(bs, a, c);
      }
    }
    forall a | a in bs' && a !in ex'
      ensures Listed(bs', lists, a)
    {
      if bs'[a].free {
        assert Listed(bs, lists, a);
      }
    }
  }

  // ----- the heap and its operations -----

  datatype Heap = Heap(blocks: Blocks, lists: Lists, first: nat, last: nat)

  const MAX_GRANULES := 0x400_0000

  ghost predicate Wf(h: Heap) {
    && Tiled(h.blocks, h.first, h.last)
    && Coalesced(h.blocks, h.first, h.last)
    && IndexedBut(h.blocks, h.lists, {})
    && h.last < MAX_GRANULES
  }

  /** The used blocks handed out to clients, with their sizes. */
  function Live(h: Heap): map<nat, nat> {
    map a | a in h.blocks && !h.blocks[a].free && a != h.first && a != h.last :: h.blocks[a].size
  }

  /** The least non-empty class at or above c; CLASSES when there is none. */
  function FirstFit(lists: Lists, c: nat): (d: nat)
    requires |lists| == CLASSES && c <= CLASSES
    ensures c <= d <= CLASSES
    ensures d < CLASSES ==> lists[d] != []
    ensures forall e :: c <= e < d ==> lists[e] == []
    decreases CLASSES - c
  {
    if c == CLASSES || lists[c] != [] then c else FirstFit(lists, c + 1)
  }

  /** ROUNDUP_SIZE with the minimum of one granule, in bytes. */
  function Rounded(size: nat): nat {
    if size < 16 then 16 else (size + 15) / 16 * 16
  }

  /** The granules a request is rounded up to. */
  function Want(size: nat): nat
    requires Rounded(size) <= MAX_REQUEST
  {
    MappingSearch(Rounded(size)).size / 16
  }

  /** The block malloc_ex takes: the head of the least non-empty class at or
      above the request's; 0 when there is none. */
  function Chosen(h: Heap, size: nat): nat
    requires Rounded(size) <= MAX_REQUEST && |h.lists| == CLASSES
  {
    SearchInMatrix(Rounded(size));
    var d := FirstFit(h.lists, SearchClass(Rounded(size)));
    if d == CLASSES then 0 else h.lists[d][0]
  }

  /** A heap in the middle of an operation on block b: b is in no list, and
      b alone may have a free neighbour while being free itself. */
  ghost predicate Mid(h: Heap, b: nat) {
    && Tiled(h.blocks, h.first, h.last)
    && CoalescedBut(h.blocks, h.first, h.last, b)
    && IndexedBut(h.blocks, h.lists, {b})
    && h.last < MAX_GRANULES
    && b in h.blocks && b != h.first && b != h.last
    && Around(h.blocks, b)
  }

  /** The neighbours of b are blocks. */
  ghost predicate Around(bs: Blocks, b: nat)
    requires b in bs
  {
    bs[b].size >= 1 && Next(bs, b) in bs && bs[b].prev in bs && bs[Next(bs, b)].prev == b && Next(bs, bs[b].prev) == b
  }

  lemma InnerBlock(h: Heap, b: nat)
    requires Tiled(h.blocks, h.first, h.last) && b in h.blocks && b != h.first && b != h.last
    ensures Around(h.blocks, b)
  {
    assert LinkOk(h.blocks, h.first, h.last, b);
  }

  function Recolor(h: Heap, b: nat, f: bool): Heap
    requires b in h.blocks
  {
    h.(blocks := SetFree(h.blocks, b, f))
  }

  /** Takes the free block b out of its list. */
  function Drop(h: Heap, b: nat): Heap
    requires b in h.blocks && |h.lists| == CLASSES
  {
    h.(lists := Unfile(h.lists, h.blocks[b].size, b))
  }

  /** Puts b at the head of its list. */
  function Enlist(h: Heap, b: nat): Heap
    requires b in h.blocks && |h.lists| == CLASSES
  {
    h.(lists := File(h.lists, h.blocks[b].size, b))
  }

  /** Joins block a with its successor. */
  function Join(h: Heap, a: nat): Heap
    requires a in h.blocks && Next(h.blocks, a) in h.blocks && Next(h.blocks, Next(h.blocks, a)) in h.blocks
  {
    h.(blocks := Merge(h.blocks, a))
  }

  /** Cuts the used block b after n granules and lists the remainder, if it has
      room for a header and one granule. */
  function Trim(h: Heap, b: nat, n: nat): Heap
    requires b in h.blocks && |h.lists| == CLASSES && Next(h.blocks, b) in h.blocks
  {
    if h.blocks[b].size >= n + 2 then
      Enlist(h.(blocks := Split(h.blocks, b, n)), b + 1 + n)
    else
      h
  }

  // Effects of the steps on the invariant

  lemma WeakenCoalesced(bs: Blocks, first: nat, last: nat, b: nat)
    requires Tiled(bs, first, last) && Coalesced(bs, first, last)
    ensures CoalescedBut(bs, first, last, b)
  {
    forall x | x in bs
      ensures AloneFree(bs, x)
    {
      assert LinkOk(bs, first, last, x);
    }
  }

  /** Two heaps with the same used blocks have the same live blocks. */
  lemma SameLive(h: Heap, h': Heap)
    requires h'.first == h.first && h'.last == h.last
    requires forall a :: a in h.blocks && !h.blocks[a].free ==>
               a in h'.blocks && !h'.blocks[a].free && h'.blocks[a].size == h.blocks[a].size
    requires forall a :: a in h'.blocks && !h'.blocks[a].free ==> a in h.blocks && !h.blocks[a].free
    ensures Live(h') == Live(h)
  {
  }

  lemma DropMid(h: Heap, b: nat)
    requires Wf(h) && b in h.blocks && h.blocks[b].free
    ensures Mid(Drop(h, b), b) && Live(Drop(h, b)) == Live(h)
  {
    UnfileIndexed(h.blocks, h.lists, {}, b);
    assert {} + {b} == {b};
    InnerBlock(h, b);
    WeakenCoalesced(h.blocks, h.first, h.last, b);
    SameLive(h, Drop(h, b));
    hide ClassOf, Tiled, Unfile, IndexedBut, CoalescedBut, Live;
  }

  /** A block taken out of its list and marked used. */
  lemma UseMid(h: Heap, b: nat)
    requires Mid(h, b) && h.blocks[b].free
    requires !h.blocks[Next(h.blocks, b)].free && !h.blocks[h.blocks[b].prev].free
    ensures Wf(Recolor(h, b, false)) && Live(Recolor(h, b, false)) == Live(h)[b := h.blocks[b].size]
  {
    var h' := Recolor(h, b, false);
    CloseCoalesced(h.blocks, h.first, h.last, b);
    SetFreeTiled(h.blocks, h.first, h.last, b, false);
    SetFreeCoalesced(h.blocks, h.first, h.last, b, false);
    Reindexed(h.blocks, h'.blocks, h.lists, {b}, {}) by {
      hide ClassOf;
      assert forall c :: 0 <= c < CLASSES ==> Absent(h.lists, c, {});
    }
    hide ClassOf, Tiled, IndexedBut, CoalescedBut;
  }

  lemma UnlistedUsed(h: Heap, b: nat)
    requires Wf(h) && b in h.blocks && !h.blocks[b].free
    ensures IndexedBut(h.blocks, h.lists, {b})
  {
    hide ClassOf;
    forall c | 0 <= c < CLASSES
      ensures Absent(h.lists, c, {b})
    {
      assert ListOk(h.blocks, h.lists, c);
      assert b in h.lists[c] ==> Filed(h.blocks, b, c);
    }
    Reindexed(h.blocks, h.blocks, h.lists, {}, {b});
  }

  lemma LiveMid(h: Heap, b: nat)
    requires Wf(h) && b in Live(h)
    ensures Mid(h, b)
  {
    UnlistedUsed(h, b);
    InnerBlock(h, b);
    WeakenCoalesced(h.blocks, h.first, h.last, b);
    hide ClassOf, Tiled, IndexedBut, CoalescedBut;
  }

  /** A live block marked free. */
  lemma ReleaseMid(h: Heap, b: nat)
    requires Wf(h) && b in Live(h)
    ensures Mid(Recolor(h, b, true), b) && Live(Recolor(h, b, true)) == Live(h) - {b}
  {
    var h' := Recolor(h, b, true);
    SetFreeTiled(h.blocks, h.first, h.last, b, true);
    SetFreeCoalesced(h.blocks, h.first, h.last, b, true);
    UnlistedUsed(h, b);
    InnerBlock(h', b);
    Reindexed(h.blocks, h'.blocks, h.lists, {b}, {b}) by {
      hide ClassOf;
    }
    hide ClassOf, Tiled, IndexedBut, CoalescedBut;
  }

  lemma CloseUsed(h: Heap, b: nat)
    requires Mid(h, b) && !h.blocks[b].free
    ensures Wf(h)
  {
    CloseCoalesced(h.blocks, h.first, h.last, b);
    Reindexed(h.blocks, h.blocks, h.lists, {b}, {}) by {
      hide ClassOf;
      assert forall c :: 0 <= c < CLASSES ==> Absent(h.lists, c, {});
    }
    hide ClassOf, Tiled, IndexedBut, CoalescedBut;
  }

  lemma EnlistMid(h: Heap, b: nat)
    requires Mid(h, b) && h.blocks[b].free
    requires !h.blocks[Next(h.blocks, b)].free && !h.blocks[h.blocks[b].prev].free
    ensures Wf(Enlist(h, b)) && Live(Enlist(h, b)) == Live(h)
  {
    CloseCoalesced(h.blocks, h.first, h.last, b);
    FileIndexed(h.blocks, h.lists, {b}, b);
    assert {b} - {b} == {};
    SameLive(h, Enlist(h, b));
    hide ClassOf, Tiled, IndexedBut, CoalescedBut, File, Live;
  }

  /** The lists when the unlisted blocks a and Next(a) are joined. */
  lemma JoinIndexed(h: Heap, a: nat)
    requires Tiled(h.blocks, h.first, h.last) && a in h.blocks && a != h.first
    requires Next(h.blocks, a) in h.blocks && Next(h.blocks, Next(h.blocks, a)) in h.blocks
    requires IndexedBut(h.blocks, h.lists, {a, Next(h.blocks, a)})
    requires Next(h.blocks, a) != h.last
    ensures IndexedBut(Join(h, a).blocks, h.lists, {a})
  {
    hide ClassOf;
    var nx := Next(h.blocks, a);
    forall c | 0 <= c < CLASSES
      ensures Absent(h.lists, c, {a})
    {
      assert Absent(h.lists, c, {a, nx});
    }
    Reindexed(h.blocks, Join(h, a).blocks, h.lists, {a, nx}, {a}) by {
      hide IndexedBut, Tiled;
    }
  }

  lemma JoinNextMid(h: Heap, b: nat)
    requires Mid(h, b) && h.blocks[Next(h.blocks, b)].free
    ensures Next(h.blocks, Next(h.blocks, b)) in h.blocks
    ensures var h' := Join(Drop(h, Next(h.blocks, b)), b);
            && Mid(h', b) && !h'.blocks[Next(h'.blocks, b)].free
            && h'.blocks[b].free == h.blocks[b].free && h'.blocks[b].prev == h.blocks[b].prev
            && h'.blocks[h.blocks[b].prev].free == h.blocks[h.blocks[b].prev].free
            && h'.blocks[b].size == h.blocks[b].size + 1 + h.blocks[Next(h.blocks, b)].size
            && Live(h') == (if h.blocks[b].free then Live(h) else Live(h)[b := h'.blocks[b].size])
  {
    var bs, nx := h.blocks, Next(h.blocks, b);
    InnerBlock(h, nx);
    var h1 := Drop(h, nx);
    UnfileIndexed(bs, h.lists, {b}, nx);
    assert {b} + {nx} == {b, nx};
    JoinIndexed(h1, b);
    MergeTiled(bs, h.first, h.last, b);
    MergeCoalesced(bs, h.first, h.last, b, b);
    var h' := Join(h1, b);
    InnerBlock(h', b);
    JoinNextFacts(h, b);
    hide ClassOf, Tiled, IndexedBut, CoalescedBut, Unfile, Live;
  }

  lemma JoinNextFacts(h: Heap, b: nat)
    requires Mid(h, b) && h.blocks[Next(h.blocks, b)].free
    requires Next(h.blocks, Next(h.blocks, b)) in h.blocks
    ensures var h' := Join(Drop(h, Next(h.blocks, b)), b);
            && Next(h'.blocks, b) in h'.blocks && !h'.blocks[Next(h'.blocks, b)].free
            && h'.blocks[b].free == h.blocks[b].free && h'.blocks[b].prev == h.blocks[b].prev
            && h.blocks[b].prev in h'.blocks
            && h'.blocks[h.blocks[b].prev].free == h.blocks[h.blocks[b].prev].free
            && h'.blocks[b].size == h.blocks[b].size + 1 + h.blocks[Next(h.blocks, b)].size
            && Live(h') == (if h.blocks[b].free then Live(h) else Live(h)[b := h'.blocks[b].size])
  {
    hide ClassOf, IndexedBut, Unfile;
    var bs, nx := h.blocks, Next(h.blocks, b);
    assert LinkOk(bs, h.first, h.last, nx) && LinkOk(bs, h.first, h.last, b);
    assert AloneFree(bs, nx);
  }

  lemma JoinPrevMid(h: Heap, b: nat)
    requires Mid(h, b) && h.blocks[b].free && h.blocks[h.blocks[b].prev].free
    ensures var p := h.blocks[b].prev;
            var h' := Join(Drop(h, p), p);
            && Mid(h', p) && h'.blocks[p].free && Next(h'.blocks, p) == Next(h.blocks, b)
            && !h'.blocks[h'.blocks[p].prev].free && Live(h') == Live(h)
            && h'.blocks[Next(h'.blocks, p)].free == h.blocks[Next(h.blocks, b)].free
            && h'.blocks[p].size == h.blocks[p].size + 1 + h.blocks[b].size
  {
    var bs, p := h.blocks, h.blocks[b].prev;
    InnerBlock(h, p);
    var h1 := Drop(h, p);
    UnfileIndexed(bs, h.lists, {b}, p);
    assert {b} + {p} == {p, b};
    JoinIndexed(h1, p);
    MergeTiled(bs, h.first, h.last, p);
    MergeCoalesced(bs, h.first, h.last, p, b);
    var h' := Join(h1, p);
    InnerBlock(h', p);
    JoinPrevFacts(h, b);
    hide ClassOf, Tiled, IndexedBut, CoalescedBut, Unfile, Live;
  }

  lemma JoinPrevFacts(h: Heap, b: nat)
    requires Mid(h, b) && h.blocks[b].free && h.blocks[h.blocks[b].prev].free
    ensures var p := h.blocks[b].prev;
            var h' := Join(Drop(h, p), p);
            && h'.blocks[p].free && Next(h'.blocks, p) == Next(h.blocks, b)
            && Next(h'.blocks, p) in h'.blocks && h'.blocks[p].prev in h'.blocks
            && !h'.blocks[h'.blocks[p].prev].free && Live(h') == Live(h)
            && h'.blocks[Next(h'.blocks, p)].free == h.blocks[Next(h.blocks, b)].free
            && h'.blocks[p].size == h.blocks[p].size + 1 + h.blocks[b].size
  {
    var bs, p := h.blocks, h.blocks[b].prev;
    assert |h.lists| == CLASSES;
    hide ClassOf, IndexedBut, Unfile;
    assert LinkOk(bs, h.first, h.last, p) && LinkOk(bs, h.first, h.last, b);
    assert LinkOk(bs, h.first, h.last, bs[p].prev);
    assert AloneFree(bs, bs[p].prev);
    SameLive(h, Join(Drop(h, p), p));
  }

  lemma SplitIndexed(h: Heap, b: nat, n: nat)
    requires Mid(h, b) && 1 <= n && n + 2 <= h.blocks[b].size && !h.blocks[b].free
    ensures IndexedBut(Split(h.blocks, b, n), h.lists, {b + 1 + n})
  {
    hide ClassOf;
    var b2 := b + 1 + n;
    NoBlockInside(h.blocks, h.first, h.last, b, b2);
    forall c | 0 <= c < CLASSES
      ensures Absent(h.lists, c, {b2})
    {
      assert ListOk(h.blocks, h.lists, c);
      assert b2 in h.lists[c] ==> Filed(h.blocks, b2, c);
    }
    Reindexed(h.blocks, Split(h.blocks, b, n), h.lists, {b}, {b2}) by {
      hide IndexedBut, Tiled;
    }
  }

  lemma TrimMid(h: Heap, b: nat, n: nat)
    requires Mid(h, b) && 1 <= n && !h.blocks[b].free && !h.blocks[Next(h.blocks, b)].free
    ensures Wf(Trim(h, b, n))
    ensures Live(Trim(h, b, n)) == Live(h)[b := if h.blocks[b].size >= n + 2 then n else h.blocks[b].size]
  {
    if h.blocks[b].size >= n + 2 {
      var h1, b2 := h.(blocks := Split(h.blocks, b, n)), b + 1 + n;
      SplitTiled(h.blocks, h.first, h.last, b, n);
      SplitCoalesced(h.blocks, h.first, h.last, b, n);
      SplitIndexed(h, b, n);
      FileIndexed(h1.blocks, h1.lists, {b2}, b2);
      assert {b2} - {b2} == {};
      TrimLive(h, b, n);
      hide ClassOf, Tiled, IndexedBut, CoalescedBut, File, Live;
    } else {
      CloseUsed(h, b);
    }
  }

  lemma TrimLive(h: Heap, b: nat, n: nat)
    requires Mid(h, b) && 1 <= n && !h.blocks[b].free && h.blocks[b].size >= n + 2
    ensures Live(Trim(h, b, n)) == Live(h)[b := n]
  {
    hide ClassOf, IndexedBut, File;
    NoBlockInside(h.blocks, h.first, h.last, b, b + 1 + n);
  }

  // ----- the allocator's operations as functions of the heap -----

  datatype Outcome = Outcome(heap: Heap, ptr: nat)

  /** Every block lies inside the pool, so its size has a class. */
  lemma SizeBounded(h: Heap, a: nat)
    requires Tiled(h.blocks, h.first, h.last) && h.last < MAX_GRANULES && a in h.blocks
    ensures a + h.blocks[a].size <= h.last && 16 * h.blocks[a].size < LIMIT
    ensures ClassOf(h.blocks[a].size) == Class(16 * h.blocks[a].size)
  {
    hide Class;
    assert LinkOk(h.blocks, h.first, h.last, a) && Apart(h.blocks, a, h.last);
  }

  lemma WantRounded(size: nat)
    requires Rounded(size) <= MAX_REQUEST
    ensures 16 * Want(size) == MappingSearch(Rounded(size)).size >= Rounded(size) >= size
    ensures Want(size) >= 1 && Rounded(size) % 16 == 0
  {
    hide MappingSearch;
    SearchRounds(Rounded(size));
  }

  /** A free block fits a request exactly when its list is searched. */
  lemma FitsByClass(h: Heap, size: nat, a: nat)
    requires Wf(h) && Rounded(size) <= MAX_REQUEST && a in h.blocks
    ensures h.blocks[a].size >= Want(size) <==> ClassOf(h.blocks[a].size) >= SearchClass(Rounded(size))
  {
    hide Class, MappingSearch, SearchClass, ClassOf, Want, Rounded;
    SizeBounded(h, a);
    WantRounded(size);
    GoodFit(Rounded(size), 16 * h.blocks[a].size);
  }

  /** Good fit: malloc_ex finds nothing exactly when no free block is as large as
      the rounded request; otherwise it takes the head of the least class that
      holds a large enough block. */
  lemma ChosenFits(h: Heap, size: nat)
    requires Wf(h) && Rounded(size) <= MAX_REQUEST
    ensures Chosen(h, size) == 0 <==>
              forall a :: a in h.blocks && h.blocks[a].free ==> h.blocks[a].size < Want(size)
    ensures var b := Chosen(h, size);
            b != 0 ==>
              && b in h.blocks && h.blocks[b].free && h.blocks[b].size >= Want(size)
              && h.lists[ClassOf(h.blocks[b].size)] != [] && h.lists[ClassOf(h.blocks[b].size)][0] == b
              && forall a :: a in h.blocks && h.blocks[a].free && h.blocks[a].size >= Want(size)
                   ==> ClassOf(h.blocks[b].size) <= ClassOf(h.blocks[a].size)
  {
    SearchInMatrix(Rounded(size));
    hide ClassOf, Want, MappingSearch, Rounded;
    var c := SearchClass(Rounded(size));
    var d := FirstFit(h.lists, c);
    forall a | a in h.blocks && h.blocks[a].free
      ensures ClassOf(h.blocks[a].size) >= c ==> d <= ClassOf(h.blocks[a].size) && d < CLASSES
      ensures h.blocks[a].size >= Want(size) <==> ClassOf(h.blocks[a].size) >= c
    {
      FitsByClass(h, size, a);
      assert Listed(h.blocks, h.lists, a);
    }
    if d < CLASSES {
      var b := h.lists[d][0];
      assert ListOk(h.blocks, h.lists, d);
      assert Filed(h.blocks, b, d);
      assert LinkOk(h.blocks, h.first, h.last, b);
    }
  }

  /** The neighbours of a free block are used. */
  lemma FreeNeighbours(h: Heap, b: nat)
    requires Wf(h) && b in h.blocks && h.blocks[b].free
    ensures Around(h.blocks, b) && !h.blocks[Next(h.blocks, b)].free && !h.blocks[h.blocks[b].prev].free
  {
    hide IndexedBut;
    InnerBlock(h, b);
    assert LinkOk(h.blocks, h.first, h.last, h.blocks[b].prev) && LinkOk(h.blocks, h.first, h.last, b);
    assert AloneFree(h.blocks, b) && AloneFree(h.blocks, h.blocks[b].prev);
  }

  /** The free block b taken out of its list and marked used. */
  function Claim(h: Heap, b: nat): Heap
    requires b in h.blocks && |h.lists| == CLASSES
  {
    Recolor(Drop(h, b), b, false)
  }

  lemma ClaimWf(h: Heap, b: nat)
    requires Wf(h) && b in h.blocks && h.blocks[b].free
    ensures Wf(Claim(h, b)) && Live(Claim(h, b)) == Live(h)[b := h.blocks[b].size]
    ensures Mid(Claim(h, b), b) && !Claim(h, b).blocks[Next(Claim(h, b).blocks, b)].free
  {
    DropMid(h, b);
    FreeNeighbours(h, b);
    UseMid(Drop(h, b), b);
    LiveMid(Claim(h, b), b);
    hide Tiled, IndexedBut, CoalescedBut, Live, Unfile;
  }

  /** malloc_ex. */
  function Malloc(h: Heap, size: nat): Outcome
    requires Wf(h) && Rounded(size) <= MAX_REQUEST
  {
    var b := Chosen(h, size);
    if b == 0 then Outcome(h, 0) else
      ChosenFits(h, size);
      ClaimWf(h, b);
      Outcome(Trim(Claim(h, b), b, Want(size)), b + 1)
  }

  /** Block p was received; nothing else changed. */
  ghost predicate Gained(live: map<nat, nat>, live': map<nat, nat>, p: nat) {
    p !in live && p in live' && live' == live[p := live'[p]]
  }

  /** What malloc_ex promises: the heap stays well formed; it fails exactly when no
      free block is as large as the rounded request and then changes nothing;
      otherwise the client gains one block, of the rounded size or one granule more. */
  ghost predicate MallocOk(h: Heap, size: nat, o: Outcome)
    requires Rounded(size) <= MAX_REQUEST
  {
    && Wf(o.heap) && o.heap.first == h.first && o.heap.last == h.last
    && (o.ptr == 0 <==> forall a :: a in h.blocks && h.blocks[a].free ==> h.blocks[a].size < Want(size))
    && (o.ptr == 0 ==> o.heap == h)
    && (o.ptr != 0 ==>
          && Gained(Live(h), Live(o.heap), o.ptr - 1)
          && Want(size) <= Live(o.heap)[o.ptr - 1] <= Want(size) + 1
          && 16 * Live(o.heap)[o.ptr - 1] >= size)
  }

  lemma MallocCorrect(h: Heap, size: nat)
    requires Wf(h) && Rounded(size) <= MAX_REQUEST
    ensures MallocOk(h, size, Malloc(h, size))
  {
    ChosenFits(h, size);
    WantRounded(size);
    var b := Chosen(h, size);
    if b != 0 {
      ClaimWf(h, b);
      TrimMid(Claim(h, b), b, Want(size));
      var s := Claim(h, b).blocks[b].size;
      assert s == h.blocks[b].size && b !in Live(h);
      var t := Trim(Claim(h, b), b, Want(size));
      assert t.first == h.first && t.last == h.last;
      hide Wf, Mid, ClassOf, Claim, Want, Rounded, Chosen, Trim, Live;
    }
  }

  /** free_ex on the block b: marks it free, absorbs a free successor, is absorbed
      by a free predecessor, and lists the result at the head of its class. */
  function Release(h: Heap, b: nat): Heap
    requires Wf(h) && b in Live(h)
  {
    ReleaseMid(h, b);
    var h1 := Recolor(h, b, true);
    var h2 := AbsorbNext(h1, b);
    AbsorbNextMid(h1, b);
    var p := h2.blocks[b].prev;
    if h2.blocks[p].free then
      JoinPrevMid(h2, b);
      Enlist(Join(Drop(h2, p), p), p)
    else
      Enlist(h2, b)
  }

  /** Joins b with its successor if that is free. */
  function AbsorbNext(h: Heap, b: nat): Heap
    requires Mid(h, b)
  {
    var nx := Next(h.blocks, b);
    if h.blocks[nx].free then
      JoinNextMid(h, b);
      Join(Drop(h, nx), b)
    else
      h
  }

  lemma AbsorbNextMid(h: Heap, b: nat)
    requires Mid(h, b)
    ensures var h' := AbsorbNext(h, b);
            && Mid(h', b) && !h'.blocks[Next(h'.blocks, b)].free
            && h'.first == h.first && h'.last == h.last
            && h'.blocks[b].free == h.blocks[b].free && h'.blocks[b].prev == h.blocks[b].prev
            && h'.blocks[h.blocks[b].prev].free == h.blocks[h.blocks[b].prev].free
            && h'.blocks[b].size >= h.blocks[b].size
            && (h.blocks[Next(h.blocks, b)].free ==>
                  h'.blocks[b].size == h.blocks[b].size + 1 + h.blocks[Next(h.blocks, b)].size)
            && (!h.blocks[Next(h.blocks, b)].free ==> h' == h)
            && Live(h') == (if h.blocks[b].free then Live(h) else Live(h)[b := h'.blocks[b].size])
  {
    if h.blocks[Next(h.blocks, b)].free {
      JoinNextMid(h, b);
      hide Tiled, IndexedBut, CoalescedBut, Drop, Live;
    } else if !h.blocks[b].free {
      assert b in Live(h) && Live(h)[b] == h.blocks[b].size;
    }
  }

  /** free_ex keeps the heap well formed and takes exactly b from the client. */
  lemma ReleaseCorrect(h: Heap, b: nat)
    requires Wf(h) && b in Live(h)
    ensures Wf(Release(h, b)) && Live(Release(h, b)) == Live(h) - {b}
    ensures Release(h, b).first == h.first && Release(h, b).last == h.last
  {
    ReleaseMid(h, b);
    var h1 := Recolor(h, b, true);
    AbsorbNextMid(h1, b);
    var h2 := AbsorbNext(h1, b);
    if h2.blocks[h2.blocks[b].prev].free {
      var p := h2.blocks[b].prev;
      JoinPrevMid(h2, b);
      EnlistMid(Join(Drop(h2, p), p), p);
    } else {
      EnlistMid(h2, b);
    }
    hide Wf, Mid, Live, AbsorbNext, Drop, Join, Recolor;
  }

  /** free_ex: a null pointer is ignored. */
  function Free(h: Heap, ptr: nat): Heap
    requires Wf(h) && (ptr != 0 ==> ptr - 1 in Live(h))
  {
    if ptr == 0 then h else Release(h, ptr - 1)
  }

  /** n granules fit in b, or in b and a free successor (whose header the source's
      test does not count). */
  predicate FitsInPlace(h: Heap, b: nat, n: nat)
    requires b in h.blocks && Next(h.blocks, b) in h.blocks
  {
    var nx := h.blocks[Next(h.blocks, b)];
    n <= h.blocks[b].size || (nx.free && n <= h.blocks[b].size + nx.size)
  }

  /** Allocate, copy and release. */
  function Move(h: Heap, b: nat, n: nat): Outcome
    requires Wf(h) && b in Live(h) && 1 <= n && 16 * n <= MAX_REQUEST
  {
    var o := Malloc(h, 16 * n);
    MallocCorrect(h, 16 * n);
    if o.ptr == 0 then o else Outcome(Release(o.heap, b), o.ptr)
  }

  /** realloc_ex on the live block b with a request that rounds to n granules. */
  function Resize(h: Heap, b: nat, n: nat): Outcome
    requires Wf(h) && b in Live(h) && 1 <= n && 16 * n <= MAX_REQUEST
  {
    LiveMid(h, b);
    if FitsInPlace(h, b, n) then
      AbsorbNextMid(h, b);
      Outcome(Trim(AbsorbNext(h, b), b, n), b + 1)
    else
      Move(h, b, n)
  }

  /** realloc_ex. */
  function Realloc(h: Heap, ptr: nat, size: nat): Outcome
    requires Wf(h) && Rounded(size) <= MAX_REQUEST && (ptr != 0 ==> ptr - 1 in Live(h))
  {
    if ptr == 0 then
      if size != 0 then Malloc(h, size) else Outcome(h, 0)
    else if size == 0 then
      Outcome(Free(h, ptr), 0)
    else
      Resize(h, ptr - 1, Rounded(size) / 16)
  }

  /** Block b was given up and block p received in its place; nothing else changed. */
  ghost predicate Replaced(live: map<nat, nat>, live': map<nat, nat>, b: nat, p: nat) {
    p in live' && live' == (live - {b})[p := live'[p]] && (p == b || p !in live)
  }

  /** In place, the block ends with n granules or one more, and with exactly n if a
      shrink absorbed a free successor: that is always split off again. */
  lemma ResizeInPlace(h: Heap, b: nat, n: nat)
    requires Wf(h) && b in Live(h) && 1 <= n && 16 * n <= MAX_REQUEST
    requires Mid(h, b) && FitsInPlace(h, b, n)
    ensures var o := Resize(h, b, n);
            && o.ptr == b + 1 && Wf(o.heap) && o.heap.first == h.first && o.heap.last == h.last
            && Replaced(Live(h), Live(o.heap), b, b) && n <= Live(o.heap)[b] <= n + 1
            && (n <= h.blocks[b].size && h.blocks[Next(h.blocks, b)].free ==> Live(o.heap)[b] == n)
  {
    AbsorbNextMid(h, b);
    var h1 := AbsorbNext(h, b);
    TrimMid(h1, b, n);
    assert Live(h)[b] == h.blocks[b].size;
    assert h.blocks[Next(h.blocks, b)].free ==> h.blocks[Next(h.blocks, b)].size >= 1 by {
      hide IndexedBut;
      assert LinkOk(h.blocks, h.first, h.last, Next(h.blocks, b));
    }
    hide Wf, Mid, Live, AbsorbNext, Trim, Move;
  }

  ghost predicate MoveOk(h: Heap, b: nat, n: nat, o: Outcome)
    requires Rounded(16 * n) <= MAX_REQUEST
  {
    && Wf(o.heap) && o.heap.first == h.first && o.heap.last == h.last
    && (o.ptr == 0 ==> o.heap == h)
    && (o.ptr == 0 <==> forall a :: a in h.blocks && h.blocks[a].free ==> h.blocks[a].size < Want(16 * n))
    && (o.ptr != 0 ==>
          && o.ptr - 1 != b && Replaced(Live(h), Live(o.heap), b, o.ptr - 1)
          && Want(16 * n) <= Live(o.heap)[o.ptr - 1] <= Want(16 * n) + 1)
  }

  lemma MoveCorrect(h: Heap, b: nat, n: nat)
    requires Wf(h) && b in Live(h) && 1 <= n && 16 * n <= MAX_REQUEST
    ensures MoveOk(h, b, n, Move(h, b, n))
  {
    hide Malloc, Release, Want, Live, Wf;
    MallocCorrect(h, 16 * n);
    var o := Malloc(h, 16 * n);
    if o.ptr != 0 {
      ReleaseCorrect(o.heap, b);
    }
  }

  /** What realloc_ex promises of a live block b: a successful call replaces b by one
      block of at least n granules and leaves every other live block alone; a failed
      one changes nothing; shrinking never fails and never moves; and it fails exactly when
      there is no room in place and no free block as large as the rounded request. */
  ghost predicate ResizeOk(h: Heap, b: nat, n: nat, o: Outcome)
    requires b in h.blocks && Mid(h, b) && Rounded(16 * n) <= MAX_REQUEST
  {
    && Wf(o.heap) && o.heap.first == h.first && o.heap.last == h.last
    && (o.ptr == 0 ==> o.heap == h)
    && (o.ptr != 0 ==> Replaced(Live(h), Live(o.heap), b, o.ptr - 1) && Live(o.heap)[o.ptr - 1] >= n)
    && (n <= h.blocks[b].size ==> o.ptr == b + 1)
    && (o.ptr == 0 <==>
          && !FitsInPlace(h, b, n)
          && forall a :: a in h.blocks && h.blocks[a].free ==> h.blocks[a].size < Want(16 * n))
  }

  lemma ResizeCorrect(h: Heap, b: nat, n: nat)
    requires Wf(h) && b in Live(h) && 1 <= n && 16 * n <= MAX_REQUEST
    ensures Mid(h, b) && ResizeOk(h, b, n, Resize(h, b, n))
  {
    LiveMid(h, b);
    if FitsInPlace(h, b, n) {
      ResizeInPlace(h, b, n);
    } else {
      WantRounded(16 * n);
      MoveCorrect(h, b, n);
    }
    hide Wf, Mid, Live, Trim, AbsorbNext, Move, Want, Rounded;
  }
}
