/** The allocator's bookkeeping as it lies in memory: doubly linked free lists
    threaded through the payloads of free blocks, the `matrix` of list heads and
    the two bitmap levels; and what INSERT_BLOCK, EXTRACT_BLOCK and
    EXTRACT_BLOCK_HDR do to it. */
module TlsfIndex {
  import opened Sequences
  import opened TlsfMapping
  import opened TlsfBits
  import opened TlsfHeap

  /** One 16-byte granule, two machine words.  A header granule holds (prev_hdr, size
      and flags); the first payload granule of a free block holds (prev, next). */
  datatype Cell = Cell(lo: nat, hi: nat)
  type Memory = seq<Cell>

  datatype Index = Index(mem: Memory, matrix: seq<nat>, sl: seq<bv32>, fl: bv32)

  function StoreLo(m: Memory, g: nat, w: nat): Memory
    requires g < |m|
  {
    m[g := m[g].(lo := w)]
  }

  function StoreHi(m: Memory, g: nat, w: nat): Memory
    requires g < |m|
  {
    m[g := m[g].(hi := w)]
  }

  // ----- what the bookkeeping represents -----

  /** The i-th member of list l is linked to its neighbours in the list. */
  ghost predicate Node(m: Memory, l: seq<nat>, i: nat)
    requires i < |l|
  {
    && 0 < l[i] && l[i] + 1 < |m|
    && m[l[i] + 1].lo == (if i == 0 then 0 else l[i - 1])
    && m[l[i] + 1].hi == (if i + 1 == |l| then 0 else l[i + 1])
  }

  ghost predicate Chain(m: Memory, l: seq<nat>) {
    forall i {:trigger Node(m, l, i)} :: 0 <= i < |l| ==> Node(m, l, i)
  }

  function Head(l: seq<nat>): nat {
    if l == [] then 0 else l[0]
  }

  ghost predicate ClassOk(ix: Index, lists: Lists, c: nat)
    requires c < |lists| && c < |ix.matrix|
  {
    Chain(ix.mem, lists[c]) && ix.matrix[c] == Head(lists[c])
  }

  ghost predicate BitOk(ix: Index, lists: Lists, fl: nat, sl: nat)
    requires |lists| == CLASSES && |ix.sl| == REAL_FLI && fl < REAL_FLI && sl < MAX_SLI
  {
    Bit(ix.sl[fl], sl) <==> lists[32 * fl + sl] != []
  }

  ghost predicate RowBitOk(ix: Index, fl: nat)
    requires |ix.sl| == REAL_FLI
  {
    Bit(ix.fl, fl) <==> fl < REAL_FLI && ix.sl[fl] != 0
  }

  /** Heads, chains and both bitmap levels agree with the lists. */
  ghost predicate IndexOk(ix: Index, lists: Lists) {
    && |lists| == CLASSES && |ix.matrix| == CLASSES && |ix.sl| == REAL_FLI
    && (forall c {:trigger ClassOk(ix, lists, c)} :: 0 <= c < CLASSES ==> ClassOk(ix, lists, c))
    && (forall fl, sl {:trigger BitOk(ix, lists, fl, sl)} ::
          0 <= fl < REAL_FLI && 0 <= sl < MAX_SLI ==> BitOk(ix, lists, fl, sl))
    && (forall fl {:trigger RowBitOk(ix, fl)} :: 0 <= fl < 32 ==> RowBitOk(ix, fl))
  }

  /** No two list positions hold the same block. */
  ghost predicate Distinct(lists: Lists) {
    && (forall c {:trigger NoDup(lists[c])} :: 0 <= c < |lists| ==> NoDup(lists[c]))
    && (forall c, d, a {:trigger a in lists[c], a in lists[d]} ::
          0 <= c < |lists| && 0 <= d < |lists| && a in lists[c] && a in lists[d] ==> c == d)
  }

  lemma IndexedDistinct(bs: Blocks, lists: Lists, ex: set<nat>)
    requires IndexedBut(bs, lists, ex)
    ensures Distinct(lists)
  {
    hide ClassOf;
    forall c | 0 <= c < |lists|
      ensures NoDup(lists[c])
    {
      assert ListOk(bs, lists, c);
    }
    forall c, d, a | 0 <= c < |lists| && 0 <= d < |lists| && a in lists[c] && a in lists[d]
      ensures c == d
    {
      assert ListOk(bs, lists, c) && ListOk(bs, lists, d);
      assert Filed(bs, a, c) && Filed(bs, a, d);
    }
  }

  // ----- FIND_SUITABLE_BLOCK -----

  lemma RowEmpty(ix: Index, lists: Lists, fl: nat, lo: nat, hi: nat)
    requires IndexOk(ix, lists) && fl < REAL_FLI && lo <= hi <= 32
    requires forall j :: lo <= j < hi ==> !Bit(ix.sl[fl], j)
    ensures forall e :: 32 * fl + lo <= e < 32 * fl + hi ==> lists[e] == []
  {
    hide Bit;
    forall e | 32 * fl + lo <= e < 32 * fl + hi
      ensures lists[e] == []
    {
      assert BitOk(ix, lists, fl, e - 32 * fl);
    }
  }

  lemma RowsEmpty(ix: Index, lists: Lists, lo: nat, hi: nat)
    requires IndexOk(ix, lists) && lo <= hi <= REAL_FLI
    requires forall r :: lo <= r < hi ==> !Bit(ix.fl, r)
    ensures forall e :: 32 * lo <= e < 32 * hi ==> lists[e] == []
  {
    hide Bit;
    forall e | 32 * lo <= e < 32 * hi
      ensures lists[e] == []
    {
      var r := e / 32;
      assert RowBitOk(ix, r) && !Bit(ix.fl, r);
      ZeroBits(ix.sl[r]);
      assert BitOk(ix, lists, r, e - 32 * r);
    }
  }

  /** The first search: a bit at or above sl in row fl. */
  lemma FoundInRow(ix: Index, lists: Lists, fl: nat, sl: nat)
    requires IndexOk(ix, lists) && fl < REAL_FLI && sl < MAX_SLI
    ensures From(ix.sl[fl], sl) != 0 ==>
              var r := LsBit(From(ix.sl[fl], sl));
              0 <= r < 32 && FirstFit(lists, 32 * fl + sl) == 32 * fl + r
    ensures From(ix.sl[fl], sl) == 0 ==> forall e :: 32 * fl + sl <= e < 32 * fl + 32 ==> lists[e] == []
  {
    hide Bit, From, LsBit;
    var x := From(ix.sl[fl], sl);
    LsBitLowest(x);
    ZeroBits(x);
    var r := if x == 0 then 32 else LsBit(x);
    forall j | sl <= j < r
      ensures !Bit(ix.sl[fl], j)
    {
      FromBit(ix.sl[fl], sl, j);
    }
    if x != 0 {
      FromBit(ix.sl[fl], sl, r);
      assert BitOk(ix, lists, fl, r);
    }
    RowEmpty(ix, lists, fl, sl, if r < sl then sl else r);
  }

  /** The second search: the first non-empty row above fl and its lowest bit. */
  lemma FoundAbove(ix: Index, lists: Lists, fl: nat)
    requires IndexOk(ix, lists) && fl < REAL_FLI
    ensures var x := From(ix.fl, fl + 1);
            var r := LsBit(x);
            if r <= 0 then FirstFit(lists, 32 * fl + 32) == CLASSES else
              && fl < r < REAL_FLI && 0 <= LsBit(ix.sl[r]) < 32
              && FirstFit(lists, 32 * fl + 32) == 32 * r + LsBit(ix.sl[r])
  {
    hide Bit, From, LsBit;
    var x := From(ix.fl, fl + 1);
    LsBitLowest(x);
    ZeroBits(x);
    var r := LsBit(x);
    if x == 0 {
      forall j | fl < j < REAL_FLI
        ensures !Bit(ix.fl, j)
      {
        FromBit(ix.fl, fl + 1, j);
      }
      RowsEmpty(ix, lists, fl + 1, REAL_FLI);
    } else {
      FromBit(ix.fl, fl + 1, r);
      assert RowBitOk(ix, r);
      forall j | fl < j < r
        ensures !Bit(ix.fl, j)
      {
        FromBit(ix.fl, fl + 1, j);
      }
      RowsEmpty(ix, lists, fl + 1, r);
      var s := LsBit(ix.sl[r]);
      LsBitLowest(ix.sl[r]);
      assert BitOk(ix, lists, r, s);
      RowEmpty(ix, lists, r, 0, s);
    }
  }

  // ----- the three list macros -----

  function InsertMem(m: Memory, b: nat, head: nat): Memory
    requires b + 1 < |m| && (head != 0 ==> head + 1 < |m|)
  {
    var m1 := StoreHi(StoreLo(m, b + 1, 0), b + 1, head);
    if head != 0 then StoreLo(m1, head + 1, b) else m1
  }

  predicate Usable(ix: Index, b: nat, fl: nat, sl: nat) {
    && fl < REAL_FLI && sl < MAX_SLI && |ix.matrix| == CLASSES && |ix.sl| == REAL_FLI
    && 0 < b && b + 1 < |ix.mem|
  }

  /** INSERT_BLOCK. */
  function Insert(ix: Index, b: nat, fl: nat, sl: nat): (ix': Index)
    requires Usable(ix, b, fl, sl)
    requires ix.matrix[32 * fl + sl] != 0 ==> ix.matrix[32 * fl + sl] + 1 < |ix.mem|
    ensures |ix'.mem| == |ix.mem|
  {
    var c := 32 * fl + sl;
    Index(InsertMem(ix.mem, b, ix.matrix[c]), ix.matrix[c := b],
          ix.sl[fl := SetBit(ix.sl[fl], sl)], SetBit(ix.fl, fl))
  }

  /** Clears the bit of an emptied list, and the row's bit when the row is empty. */
  function ClearBits(ix: Index, fl: nat, sl: nat): Index
    requires |ix.sl| == REAL_FLI && fl < REAL_FLI && sl < MAX_SLI
  {
    var x := ClearBit(ix.sl[fl], sl);
    ix.(sl := ix.sl[fl := x], fl := if x == 0 then ClearBit(ix.fl, fl) else ix.fl)
  }

  function UnlinkMem(m: Memory, b: nat, p: nat, nx: nat): Memory
    requires b + 1 < |m| && (p != 0 ==> p + 1 < |m|) && (nx != 0 ==> nx + 1 < |m|)
  {
    var m1 := if nx != 0 then StoreLo(m, nx + 1, p) else m;
    var m2 := if p != 0 then StoreHi(m1, p + 1, nx) else m1;
    StoreHi(StoreLo(m2, b + 1, 0), b + 1, 0)
  }

  predicate LinksInside(m: Memory, b: nat) {
    b + 1 < |m| && (m[b + 1].lo != 0 ==> m[b + 1].lo + 1 < |m|) && (m[b + 1].hi != 0 ==> m[b + 1].hi + 1 < |m|)
  }

  /** EXTRACT_BLOCK. */
  function Extract(ix: Index, b: nat, fl: nat, sl: nat): (ix': Index)
    requires Usable(ix, b, fl, sl) && LinksInside(ix.mem, b)
    ensures |ix'.mem| == |ix.mem|
  {
    var c := 32 * fl + sl;
    var p, nx := ix.mem[b + 1].lo, ix.mem[b + 1].hi;
    var ix1 := ix.(mem := UnlinkMem(ix.mem, b, p, nx));
    if ix.matrix[c] != b then ix1 else
      var ix2 := ix1.(matrix := ix.matrix[c := nx]);
      if nx == 0 then ClearBits(ix2, fl, sl) else ix2
  }

  /** EXTRACT_BLOCK_HDR, for the head of a list. */
  function ExtractHdr(ix: Index, b: nat, fl: nat, sl: nat): (ix': Index)
    requires Usable(ix, b, fl, sl) && LinksInside(ix.mem, b)
    ensures |ix'.mem| == |ix.mem|
  {
    var c := 32 * fl + sl;
    var nx := ix.mem[b + 1].hi;
    var ix1 := ix.(mem := UnlinkMem(ix.mem, b, 0, nx), matrix := ix.matrix[c := nx]);
    if nx == 0 then ClearBits(ix1, fl, sl) else ix1
  }

  lemma ChainFrame(m: Memory, m': Memory, l: seq<nat>)
    requires Chain(m, l) && |m'| == |m|
    requires forall a :: a in l && a + 1 < |m| ==> m'[a + 1] == m[a + 1]
    ensures Chain(m', l)
  {
    forall i | 0 <= i < |l|
      ensures Node(m', l, i)
    {
      assert Node(m, l, i) && l[i] in l;
    }
  }

  lemma InsertChain(m: Memory, l: seq<nat>, b: nat)
    requires Chain(m, l) && NoDup(l) && b !in l && 0 < b && b + 1 < |m| && Head(l) + 1 < |m|
    ensures Chain(InsertMem(m, b, Head(l)), [b] + l)
  {
    var m', l' := InsertMem(m, b, Head(l)), [b] + l;
    forall i | 0 <= i < |l'|
      ensures Node(m', l', i)
    {
      if i > 0 {
        assert Node(m, l, i - 1) && Node(m, l, 0);
      }
    }
  }

  lemma InsertOk(ix: Index, lists: Lists, b: nat, fl: nat, sl: nat)
    requires IndexOk(ix, lists) && Distinct(lists) && Usable(ix, b, fl, sl)
    requires forall c :: 0 <= c < CLASSES ==> b !in lists[c]
    ensures ix.matrix[32 * fl + sl] != 0 ==> ix.matrix[32 * fl + sl] + 1 < |ix.mem|
    ensures IndexOk(Insert(ix, b, fl, sl), lists[32 * fl + sl := [b] + lists[32 * fl + sl]])
  {
    hide Bit, SetBit;
    var c := 32 * fl + sl;
    var l := lists[c];
    assert ClassOk(ix, lists, c);
    assert l != [] ==> Node(ix.mem, l, 0);
    var ix', lists' := Insert(ix, b, fl, sl), lists[c := [b] + l];
    forall d | 0 <= d < CLASSES
      ensures ClassOk(ix', lists', d)
    {
      assert ClassOk(ix, lists, d);
      if d == c {
        InsertChain(ix.mem, l, b);
      } else {
        assert l != [] ==> Head(l) in lists[c] && Head(l) !in lists[d];
        ChainFrame(ix.mem, ix'.mem, lists[d]);
      }
    }
    InsertBits(ix, lists, b, fl, sl);
  }

  lemma InsertBits(ix: Index, lists: Lists, b: nat, fl: nat, sl: nat)
    requires IndexOk(ix, lists) && Usable(ix, b, fl, sl)
    requires ix.matrix[32 * fl + sl] != 0 ==> ix.matrix[32 * fl + sl] + 1 < |ix.mem|
    ensures var ix', lists' := Insert(ix, b, fl, sl), lists[32 * fl + sl := [b] + lists[32 * fl + sl]];
            && (forall f, s {:trigger BitOk(ix', lists', f, s)} ::
                  0 <= f < REAL_FLI && 0 <= s < MAX_SLI ==> BitOk(ix', lists', f, s))
            && (forall f {:trigger RowBitOk(ix', f)} :: 0 <= f < 32 ==> RowBitOk(ix', f))
  {
    hide Bit, SetBit, InsertMem;
    var c := 32 * fl + sl;
    var ix', lists' := Insert(ix, b, fl, sl), lists[c := [b] + lists[c]];
    forall f, s | 0 <= f < REAL_FLI && 0 <= s < MAX_SLI
      ensures BitOk(ix', lists', f, s)
    {
      assert BitOk(ix, lists, f, s);
      SetBitBit(ix.sl[fl], sl, s);
    }
    SetBitBit(ix.sl[fl], sl, sl);
    ZeroBits(ix'.sl[fl]);
    forall f | 0 <= f < 32
      ensures RowBitOk(ix', f)
    {
      assert RowBitOk(ix, f);
      SetBitBit(ix.fl, fl, f);
    }
  }

  /** After the i-th member is unlinked, its former neighbours are linked to each other. */
  lemma ExtractNode(m: Memory, l: seq<nat>, i: nat, m': Memory, k: nat)
    requires NoDup(l) && i < |l| && k < |l| && k != i && Node(m, l, i) && Node(m, l, k)
    requires (i > 0 ==> Node(m, l, i - 1)) && (i + 1 < |l| ==> Node(m, l, i + 1))
    requires m' == UnlinkMem(m, l[i], m[l[i] + 1].lo, m[l[i] + 1].hi)
    ensures var l' := l[..i] + l[i + 1..];
            Node(m', l', if k < i then k else k - 1)
  {
    assert k + 1 < |l| ==> l[k + 1] != l[k];
    assert i > 0 ==> l[i - 1] != l[i];
  }

  lemma ExtractChain(m: Memory, l: seq<nat>, i: nat)
    requires Chain(m, l) && NoDup(l) && i < |l|
    ensures LinksInside(m, l[i]) && 0 < l[i]
    ensures Chain(UnlinkMem(m, l[i], m[l[i] + 1].lo, m[l[i] + 1].hi), l[..i] + l[i + 1..])
  {
    assert Node(m, l, i);
    assert i > 0 ==> Node(m, l, i - 1);
    assert i + 1 < |l| ==> Node(m, l, i + 1);
    var m' := UnlinkMem(m, l[i], m[l[i] + 1].lo, m[l[i] + 1].hi);
    var l' := l[..i] + l[i + 1..];
    hide UnlinkMem, NoDup;
    forall j | 0 <= j < |l'|
      ensures Node(m', l', j)
    {
      var k := if j < i then j else j + 1;
      assert Node(m, l, k);
      ExtractNode(m, l, i, m', k);
    }
  }

  lemma ExtractFrame(m: Memory, l: seq<nat>, i: nat, l2: seq<nat>)
    requires Chain(m, l) && i < |l| && Chain(m, l2)
    requires forall a :: a in l2 ==> a !in l
    requires LinksInside(m, l[i])
    ensures Chain(UnlinkMem(m, l[i], m[l[i] + 1].lo, m[l[i] + 1].hi), l2)
  {
    assert Node(m, l, i);
    var m' := UnlinkMem(m, l[i], m[l[i] + 1].lo, m[l[i] + 1].hi);
    assert i > 0 ==> l[i - 1] in l;
    assert i + 1 < |l| ==> l[i + 1] in l;
    ChainFrame(m, m', l2);
  }

  lemma ExtractClass(ix: Index, lists: Lists, fl: nat, sl: nat, i: nat, d: nat)
    requires IndexOk(ix, lists) && Distinct(lists) && fl < REAL_FLI && sl < MAX_SLI && i < |lists[32 * fl + sl]|
    requires d < CLASSES
    requires var b := lists[32 * fl + sl][i]; Usable(ix, b, fl, sl) && LinksInside(ix.mem, b)
    ensures ClassOk(Extract(ix, lists[32 * fl + sl][i], fl, sl),
                    lists[32 * fl + sl := lists[32 * fl + sl][..i] + lists[32 * fl + sl][i + 1..]], d)
  {
    hide Bit, ClearBit;
    var c := 32 * fl + sl;
    var l := lists[c];
    assert ClassOk(ix, lists, c) && ClassOk(ix, lists, d) && NoDup(l);
    if d == c {
      ExtractChain(ix.mem, l, i);
      assert Node(ix.mem, l, i);
      assert i > 0 ==> l[i] != l[0];
    } else {
      ExtractFrame(ix.mem, l, i, lists[d]);
    }
    hide UnlinkMem, Chain, NoDup;
  }

  lemma ExtractOk(ix: Index, lists: Lists, fl: nat, sl: nat, i: nat)
    requires IndexOk(ix, lists) && Distinct(lists) && fl < REAL_FLI && sl < MAX_SLI && i < |lists[32 * fl + sl]|
    ensures var b := lists[32 * fl + sl][i];
            && Usable(ix, b, fl, sl) && LinksInside(ix.mem, b)
            && IndexOk(Extract(ix, b, fl, sl),
                       lists[32 * fl + sl := lists[32 * fl + sl][..i] + lists[32 * fl + sl][i + 1..]])
  {
    hide Bit, ClearBit, UnlinkMem, NoDup;
    var c := 32 * fl + sl;
    var l := lists[c];
    assert ClassOk(ix, lists, c) && NoDup(l);
    ExtractChain(ix.mem, l, i);
    assert Node(ix.mem, l, i);
    hide ClassOk, Chain;
    var ix', lists' := Extract(ix, l[i], fl, sl), lists[c := l[..i] + l[i + 1..]];
    forall d | 0 <= d < CLASSES
      ensures ClassOk(ix', lists', d)
    {
      ExtractClass(ix, lists, fl, sl, i, d);
    }
    ExtractBits(ix, lists, fl, sl, i);
  }

  lemma ExtractBits(ix: Index, lists: Lists, fl: nat, sl: nat, i: nat)
    requires IndexOk(ix, lists) && fl < REAL_FLI && sl < MAX_SLI && i < |lists[32 * fl + sl]|
    requires NoDup(lists[32 * fl + sl])
    requires var b := lists[32 * fl + sl][i]; Usable(ix, b, fl, sl) && LinksInside(ix.mem, b)
    ensures var ix' := Extract(ix, lists[32 * fl + sl][i], fl, sl);
            var lists' := lists[32 * fl + sl := lists[32 * fl + sl][..i] + lists[32 * fl + sl][i + 1..]];
            && (forall f, s {:trigger BitOk(ix', lists', f, s)} ::
                  0 <= f < REAL_FLI && 0 <= s < MAX_SLI ==> BitOk(ix', lists', f, s))
            && (forall f {:trigger RowBitOk(ix', f)} :: 0 <= f < 32 ==> RowBitOk(ix', f))
  {
    hide Bit, ClearBit, UnlinkMem;
    var c := 32 * fl + sl;
    var l := lists[c];
    var ix', lists' := Extract(ix, l[i], fl, sl), lists[c := l[..i] + l[i + 1..]];
    assert ClassOk(ix, lists, c) && Node(ix.mem, l, i);
    assert i + 1 < |l| ==> Node(ix.mem, l, i + 1);
    assert i > 0 ==> l[i] != l[0];
    forall f, s | 0 <= f < REAL_FLI && 0 <= s < MAX_SLI
      ensures BitOk(ix', lists', f, s)
    {
      assert BitOk(ix, lists, f, s);
      ClearBitBit(ix.sl[fl], sl, s);
    }
    forall f | 0 <= f < 32
      ensures RowBitOk(ix', f)
    {
      assert RowBitOk(ix, f);
      ClearBitBit(ix.fl, fl, f);
      if f == fl {
        assert BitOk(ix, lists, fl, sl);
        ZeroBits(ix.sl[fl]);
      }
    }
  }

  /** At the head of a list EXTRACT_BLOCK_HDR does what EXTRACT_BLOCK does. */
  lemma ExtractHead(ix: Index, lists: Lists, fl: nat, sl: nat)
    requires IndexOk(ix, lists) && fl < REAL_FLI && sl < MAX_SLI && lists[32 * fl + sl] != []
    ensures var b := lists[32 * fl + sl][0];
            && Usable(ix, b, fl, sl) && LinksInside(ix.mem, b)
            && ExtractHdr(ix, b, fl, sl) == Extract(ix, b, fl, sl)
  {
    hide Bit, ClearBit;
    var l := lists[32 * fl + sl];
    assert ClassOk(ix, lists, 32 * fl + sl) && Node(ix.mem, l, 0);
    assert |l| > 1 ==> Node(ix.mem, l, 1);
  }
}
