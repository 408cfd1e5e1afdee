/** The ring as one thread at a time uses it: enqueue and dequeue as they are written,
    with wrapping counters, masked indices and the unrolled copies. */
module RingBuffer {
  import opened Arithmetic
  import opened RingMask
  import opened RingCopy
  import opened RingSide
  import opened Ring32

  /** The slot of a position. */
  function At(p: nat, size: nat): (j: nat)
    requires size > 0
    ensures j < size
  {
    p % size
  }

  /** The elements at positions lo up to hi. */
  function Window<T>(slots: seq<T>, lo: nat, hi: nat): (q: seq<T>)
    requires |slots| > 0 && lo <= hi
    ensures |q| == hi - lo
  {
    seq(hi - lo, i requires 0 <= i < hi - lo => slots[At(lo + i, |slots|)])
  }

  /** Writing the slot of position hi appends to a window that leaves a slot free. */
  lemma WindowPushed<T>(slots: seq<T>, lo: nat, hi: nat, x: T)
    requires |slots| > 0 && lo <= hi < lo + |slots|
    ensures Window(slots[At(hi, |slots|) := x], lo, hi + 1) == Window(slots, lo, hi) + [x]
  {
    hide At;
    var w, w' := Window(slots, lo, hi) + [x], Window(slots[At(hi, |slots|) := x], lo, hi + 1);
    forall i | 0 <= i < |w|
      ensures w'[i] == w[i]
    {
      if i < hi - lo {
        PositionsApart(lo + i, hi, |slots|);
      }
    }
  }

  lemma PositionsApart(p: nat, q: nat, size: nat)
    requires size > 0 && p < q < p + size
    ensures At(p, size) != At(q, size)
  {
    ResiduesDiffer(p, q, size);
  }

  lemma WindowPopped<T>(slots: seq<T>, lo: nat, hi: nat)
    requires |slots| > 0 && lo < hi
    ensures Window(slots, lo, hi) == [slots[At(lo, |slots|)]] + Window(slots, lo + 1, hi)
  {
    hide At;
    var w, w' := Window(slots, lo, hi), Window(slots, lo + 1, hi);
    forall i | 0 < i < hi - lo
      ensures w[i] == w'[i - 1]
    {
      assert lo + i == lo + 1 + (i - 1);
    }
  }

  lemma PlacedOne<T>(s: seq<T>, idx: nat, x: T)
    requires idx < |s|
    ensures Placed(s, idx, [x]) == s[idx := x]
  {
  }

  lemma TakenOne<T>(s: seq<T>, idx: nat)
    requires idx < |s|
    ensures Taken(s, idx, 1) == [s[idx]]
  {
    assert (idx + 0) % |s| == idx;
  }

  /** The masked 32-bit counter is the slot of the unbounded position. */
  lemma MaskedPosition(p: nat, k: nat)
    requires k <= 32
    ensures BitAnd(Wrap(p), Pow2(k) - 1) == At(p, Pow2(k))
  {
    hide Wrap, Pow2, BitAnd;
    MaskIsMod(Wrap(p), k);
    WrapModSize(p, k);
  }

  /** capacity + cons_tail - old_head and prod_tail - old_head in 32 bits. */
  lemma CountsExact(lo: nat, hi: nat, capacity: nat)
    requires lo <= hi <= lo + capacity && capacity < W
    ensures Wrap(capacity + Wrap(lo) - Wrap(hi)) == lo + capacity - hi
    ensures Wrap(Wrap(hi) - Wrap(lo)) == hi - lo
  {
  }

  class Buffer<T> {
    const size: nat
    const mask: nat
    const capacity: nat
    const slots: array<T>
    /** sizeof(T) in bytes, and the transactional template arguments. */
    const esize: nat
    const prodTrans: bool
    const consTrans: bool
    var prodHead: nat
    var prodTail: nat
    var consHead: nat
    var consTail: nat
    /** The counters without wrap-around, and the exponent of the size. */
    ghost var read: nat
    ghost var written: nat
    ghost const k: nat

    ghost predicate Valid()
      reads this
    {
      && k <= 31 && size == Pow2(k) == slots.Length && mask == size - 1 && capacity == mask && size <= 0x8000_0000
      && read <= written <= read + capacity
      && consHead == consTail == Wrap(read) && prodHead == prodTail == Wrap(written)
    }

    ghost function Contents(): seq<T>
      requires Valid()
      reads this, slots
    {
      Window(slots[..], read, written)
    }

    /** init, for a count that is a power of two. */
    constructor (sz: nat, ghost exponent: nat, fill: T, esize: nat, prodTrans: bool, consTrans: bool)
      requires exponent <= 31 && sz == Pow2(exponent) <= 0x8000_0000
      ensures Valid() && fresh(slots) && Contents() == [] && capacity == sz - 1
      ensures this.esize == esize && this.prodTrans == prodTrans && this.consTrans == consTrans
    {
      this.esize, this.prodTrans, this.consTrans := esize, prodTrans, consTrans;
      size := sz;
      mask := sz - 1;
      capacity := sz - 1;
      slots := new T[sz](_ => fill);
      prodHead, prodTail, consHead, consTail := 0, 0, 0, 0;
      read, written, k := 0, 0, exponent;
    }

    /** move_prod_head: reserves n positions; if they are not free, none for a transactional
        ring and otherwise as many as are. */
    method MoveProdHead(n: nat) returns (taken: nat, oldHead: nat, newHead: nat)
      requires Valid() && n < W
      modifies this`prodHead
      ensures taken == Take(n, capacity - |old(Contents())|, prodTrans)
      ensures oldHead == Wrap(written)
      ensures prodHead == if taken == 0 then old(prodHead) else Wrap(written + taken)
      ensures taken != 0 ==> newHead == prodHead
    {
      oldHead := prodHead;
      newHead := oldHead;
      CountsExact(read, written, capacity);
      var freeEntries := Wrap(capacity + consTail - oldHead);
      taken := n;
      if n > freeEntries {
        taken := if prodTrans then 0 else freeEntries;
      }
      if taken == 0 {
        return;
      }
      WrapAdd(written, taken);
      newHead := Wrap(oldHead + taken);
      prodHead := newHead;
    }

    /** move_cons_head: claims n positions; if they are not filled, none for a transactional
        ring and otherwise as many as are. */
    method MoveConsHead(n: nat) returns (taken: nat, oldHead: nat, newHead: nat)
      requires Valid() && n < W
      modifies this`consHead
      ensures taken == Take(n, |old(Contents())|, consTrans)
      ensures oldHead == Wrap(read)
      ensures consHead == if taken == 0 then old(consHead) else Wrap(read + taken)
      ensures taken != 0 ==> newHead == consHead
    {
      oldHead := consHead;
      newHead := oldHead;
      CountsExact(read, written, capacity);
      var entries := Wrap(prodTail - oldHead);
      taken := n;
      if n > entries {
        taken := if consTrans then 0 else entries;
      }
      if taken == 0 {
        return;
      }
      WrapAdd(read, taken);
      newHead := Wrap(oldHead + taken);
      consHead := newHead;
    }

    /** enqueue_elements, chosen by the element size. */
    method StoreEntry(idx: nat, entry: T)
      requires idx < slots.Length <= 0x8000_0000
      modifies slots
      ensures slots[..] == Placed(old(slots[..]), idx, [entry])
    {
      if esize == 8 {
        EnqueueElems64(slots, idx, [entry]);
      } else if esize == 16 {
        EnqueueElems128(slots, idx, [entry]);
      } else {
        EnqueueElems32(slots, idx, [entry]);
      }
    }

    /** dequeue_elements, chosen by the element size. */
    method FetchEntry(idx: nat, entry: array<T>)
      requires idx < slots.Length <= 0x8000_0000 && entry != slots && entry.Length == 1
      modifies entry
      ensures entry[..1] == Taken(slots[..], idx, 1)
    {
      if esize == 8 {
        DequeueElems64(slots, idx, entry, 1);
      } else if esize == 16 {
        DequeueElems128(slots, idx, entry, 1);
      } else {
        DequeueElems32(slots, idx, entry, 1);
      }
    }

    /** enqueue: 0 exactly when the ring is full, and then nothing changes; otherwise the
        entry is appended. */
    method Enqueue(entry: T) returns (n: nat)
      requires Valid()
      modifies this`prodHead, this`prodTail, this`written, slots
      ensures Valid() && n <= 1
      ensures n == 0 <==> |old(Contents())| == capacity
      ensures Contents() == if n == 0 then old(Contents()) else old(Contents()) + [entry]
    {
      hide BitAnd, Pow2, Placed, Wrap, At;
      ghost var was := slots[..];
      var head, next;
      n, head, next := MoveProdHead(1);
      if n == 0 {
        return;
      }
      MaskedPosition(written, k);
      StoreEntry(BitAnd(head, mask), entry);
      PlacedOne(was, At(written, size), entry);
      WindowPushed(was, read, written, entry);
      prodTail := next;
      written := written + 1;
    }

    /** dequeue: 0 exactly when the ring is empty; otherwise the oldest entry is removed
        and stored in `entry`. */
    method Dequeue(entry: array<T>) returns (n: nat)
      requires Valid() && entry != slots && entry.Length == 1
      modifies this`consHead, this`consTail, this`read, entry
      ensures Valid() && n <= 1
      ensures n == 0 <==> old(Contents()) == []
      ensures n == 0 ==> Contents() == [] && entry[0] == old(entry[0])
      ensures n == 1 ==> old(Contents()) == [entry[0]] + Contents()
    {
      hide BitAnd, Pow2, Taken, Wrap, At;
      var head, next;
      n, head, next := MoveConsHead(1);
      if n == 0 {
        return;
      }
      MaskedPosition(read, k);
      FetchEntry(BitAnd(head, mask), entry);
      TakenOne(slots[..], At(read, size));
      WindowPopped(slots[..], read, written);
      consTail := next;
      read := read + 1;
    }
  }
}
