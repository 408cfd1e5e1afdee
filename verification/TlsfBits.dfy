/** The 32-bit bitmaps of the allocator: `set_bit`, `clear_bit` and `ls_bit`. */
module TlsfBits {
  import opened TlsfMapping

  // The word operations have names so that proofs about one of them need not look
  // into the others.

  function Or(x: bv32, a: bv32): bv32 {
    x | a
  }

  /** x & ~a */
  function Without(x: bv32, a: bv32): bv32 {
    x & !a
  }

  predicate Meets(x: bv32, a: bv32) {
    x & a != 0
  }

  predicate Single(a: bv32) {
    a != 0 && a & (a - 1) == 0
  }

  predicate Less(a: bv32, b: bv32) {
    a < b
  }

  /** 1 << k, tabulated. */
  function One(k: nat): bv32 {
    if k == 0 then 0x1 else if k == 1 then 0x2 else if k == 2 then 0x4 else if k == 3 then 0x8 else
    if k == 4 then 0x10 else if k == 5 then 0x20 else if k == 6 then 0x40 else if k == 7 then 0x80 else
    if k == 8 then 0x100 else if k == 9 then 0x200 else if k == 10 then 0x400 else if k == 11 then 0x800 else
    if k == 12 then 0x1000 else if k == 13 then 0x2000 else if k == 14 then 0x4000 else if k == 15 then 0x8000 else
    if k == 16 then 0x10000 else if k == 17 then 0x20000 else if k == 18 then 0x40000 else if k == 19 then 0x80000 else
    if k == 20 then 0x100000 else if k == 21 then 0x200000 else
    if k == 22 then 0x400000 else if k == 23 then 0x800000 else
    if k == 24 then 0x1000000 else if k == 25 then 0x2000000 else
    if k == 26 then 0x4000000 else if k == 27 then 0x8000000 else
    if k == 28 then 0x10000000 else if k == 29 then 0x20000000 else
    if k == 30 then 0x40000000 else if k == 31 then 0x80000000 else
    0
  }

  predicate Bit(x: bv32, k: nat) {
    Meets(x, One(k))
  }

  function SetBit(x: bv32, k: nat): bv32 {
    Or(x, One(k))
  }

  function ClearBit(x: bv32, k: nat): bv32 {
    Without(x, One(k))
  }

  /** (1 << k) - 1 */
  function Below(a: bv32): bv32 {
    a - 1
  }

  /** x & (~0 << k): keeps the bits from k on. */
  function From(x: bv32, k: nat): bv32 {
    Without(x, Below(One(k)))
  }

  function LowBit(x: bv32): bv32 {
    x & (!x + 1)
  }

  function Lookup(y: bv32): int {
    if y < 256 then Table(y as nat) else -1
  }

  /** `ls_bit`: isolates the lowest set bit and looks up its byte; -1 for 0. */
  function LsBit(x: bv32): int {
    var y := LowBit(x);
    if y <= 0xffff then
      if y <= 0xff then Lookup(y) else Lookup(y >> 8) + 8
    else
      if y <= 0xff_ffff then Lookup(y >> 16) + 16 else Lookup(y >> 24) + 24
  }

  // ----- words -----

  lemma OrDisjoint(x: bv32, a: bv32, b: bv32)
    requires !Meets(a, b)
    ensures Meets(Or(x, b), a) <==> Meets(x, a)
  {
  }

  lemma OrSelf(x: bv32, a: bv32)
    requires a != 0
    ensures Meets(Or(x, a), a)
  {
  }

  lemma WithoutDisjoint(x: bv32, a: bv32, b: bv32)
    requires !Meets(a, b)
    ensures Meets(Without(x, b), a) <==> Meets(x, a)
  {
  }

  lemma WithoutSelf(x: bv32, a: bv32)
    ensures !Meets(Without(x, a), a)
  {
  }

  lemma SinglesApart(a: bv32, b: bv32)
    requires Single(a) && Single(b) && Less(a, b)
    ensures !Meets(a, b) && !Meets(b, a)
  {
  }

  lemma SingleAbove(a: bv32, b: bv32)
    requires Single(a) && Single(b) && (Less(a, b) || a == b)
    ensures !Meets(b, Below(a))
  {
  }

  lemma SingleBelow(x: bv32, a: bv32, b: bv32)
    requires Single(a) && Single(b) && Less(a, b)
    ensures !Meets(Without(x, Below(b)), a)
  {
  }

  lemma LowBitSingle(x: bv32)
    requires x != 0
    ensures Single(LowBit(x)) && Meets(x, LowBit(x))
  {
  }

  lemma BelowLowBit(x: bv32, a: bv32)
    requires Single(a) && Less(a, LowBit(x))
    ensures !Meets(x, a)
  {
  }

  /** Shifting a single bit down by whole bytes. */
  lemma ShiftedSingle(y: bv32)
    requires Single(y)
    ensures 0xff < y <= 0xffff ==> Single(y >> 8) && y >> 8 < 256
    ensures 0xffff < y <= 0xff_ffff ==> Single(y >> 16) && y >> 16 < 256
    ensures 0xff_ffff < y ==> Single(y >> 24) && y >> 24 < 256
  {
  }

  // ----- single bits by position -----

  lemma OneSingle(k: nat)
    requires k < 32
    ensures Single(One(k)) && One(k) != 0
  {
  }

  lemma OneStep(k: nat)
    requires k < 31
    ensures Less(One(k), One(k + 1))
  {
  }

  lemma LessTransitive(a: bv32, b: bv32, c: bv32)
    requires Less(a, b) && Less(b, c)
    ensures Less(a, c)
  {
  }

  lemma {:induction false} OneGrows(j: nat, k: nat)
    requires j < k < 32
    ensures Less(One(j), One(k))
    decreases k
  {
    hide One, Less;
    OneStep(k - 1);
    if j < k - 1 {
      OneGrows(j, k - 1);
      LessTransitive(One(j), One(k - 1), One(k));
    }
  }

  lemma OnesApart(j: nat, k: nat)
    requires j < 32 && k < 32 && j != k
    ensures !Meets(One(j), One(k))
  {
    hide One, Less, Single, Meets;
    OneSingle(j);
    OneSingle(k);
    if j < k {
      OneGrows(j, k);
      SinglesApart(One(j), One(k));
    } else {
      OneGrows(k, j);
      SinglesApart(One(k), One(j));
    }
  }

  lemma LookupSingle(y: bv32)
    requires Single(y) && y < 256
    ensures 0 <= Lookup(y) < 8 && One(Lookup(y)) == y
  {
    assert y == 1 || y == 2 || y == 4 || y == 8 || y == 16 || y == 32 || y == 64 || y == 128;
  }

  lemma OneShifted(k: nat)
    requires k < 8
    ensures One(k + 8) == One(k) << 8 && One(k + 16) == One(k) << 16 && One(k + 24) == One(k) << 24
  {
  }

  lemma LsBitSingle(x: bv32)
    requires x != 0
    ensures 0 <= LsBit(x) < 32 && One(LsBit(x)) == LowBit(x)
  {
    hide One, Lookup, Single;
    LowBitSingle(x);
    var y := LowBit(x);
    ShiftedSingle(y);
    var z := if y <= 0xff then y else if y <= 0xffff then y >> 8 else if y <= 0xff_ffff then y >> 16 else y >> 24;
    LookupSingle(z);
    OneShifted(Lookup(z));
    hide LowBit;
  }

  lemma LsBitZero()
    ensures LsBit(0) == -1
  {
  }

  // ----- what the bitmap operations do, bit by bit -----

  lemma SetBitBit(x: bv32, k: nat, j: nat)
    requires k < 32 && j < 32
    ensures Bit(SetBit(x, k), j) <==> j == k || Bit(x, j)
  {
    hide One, Meets, Or, Single;
    if j == k {
      OneSingle(j);
      OrSelf(x, One(j));
    } else {
      OnesApart(j, k);
      OrDisjoint(x, One(j), One(k));
    }
  }

  lemma ClearBitBit(x: bv32, k: nat, j: nat)
    requires k < 32 && j < 32
    ensures Bit(ClearBit(x, k), j) <==> j != k && Bit(x, j)
  {
    hide One, Meets, Without;
    if j == k {
      WithoutSelf(x, One(j));
    } else {
      OnesApart(j, k);
      WithoutDisjoint(x, One(j), One(k));
    }
  }

  lemma FromBit(x: bv32, k: nat, j: nat)
    requires k < 32 && j < 32
    ensures Bit(From(x, k), j) <==> j >= k && Bit(x, j)
  {
    hide One, Meets, Without, Single, Less, Below;
    OneSingle(j);
    OneSingle(k);
    if j < k {
      OneGrows(j, k);
      SingleBelow(x, One(j), One(k));
    } else {
      if k < j {
        OneGrows(k, j);
      }
      SingleAbove(One(k), One(j));
      WithoutDisjoint(x, One(j), Below(One(k)));
    }
  }

  /** `ls_bit` is the position of the lowest set bit, and -1 when there is none. */
  lemma LsBitLowest(x: bv32)
    ensures x == 0 <==> LsBit(x) == -1
    ensures x != 0 ==> 0 <= LsBit(x) < 32 && Bit(x, LsBit(x)) && forall j :: 0 <= j < LsBit(x) ==> !Bit(x, j)
  {
    hide LsBit, LowBit, One, Single, Less, Meets;
    if x != 0 {
      LsBitSingle(x);
      LowBitSingle(x);
      var r := LsBit(x);
      forall j | 0 <= j < r
        ensures !Bit(x, j)
      {
        OneSingle(j);
        OneGrows(j, r);
        BelowLowBit(x, One(j));
      }
    } else {
      LsBitZero();
    }
  }

  lemma NoBitInZero(a: bv32)
    ensures !Meets(0, a)
  {
  }

  lemma ZeroBits(x: bv32)
    ensures x == 0 <==> forall j :: 0 <= j < 32 ==> !Bit(x, j)
  {
    hide LsBit, One, Meets;
    LsBitLowest(x);
    forall j: nat
      ensures !Bit(0, j)
    {
      NoBitInZero(One(j));
    }
  }

  lemma WithoutZero(x: bv32, y: bv32)
    ensures Without(x, y) == 0 && Without(y, x) == 0 ==> x == y
  {
  }

  lemma LowBitOutside(x: bv32, y: bv32)
    ensures !Meets(y, LowBit(Without(x, y)))
  {
  }

  lemma LowBitInside(x: bv32, y: bv32)
    requires Without(x, y) != 0
    ensures Meets(x, LowBit(Without(x, y)))
  {
    LowBitSingle(Without(x, y));
  }

  ghost predicate SameAt(x: bv32, y: bv32, j: nat) {
    Bit(x, j) == Bit(y, j)
  }

  lemma SubsetBits(x: bv32, y: bv32)
    requires forall j {:trigger SameAt(x, y, j)} :: 0 <= j < 32 ==> SameAt(x, y, j)
    ensures Without(x, y) == 0
  {
    hide LsBit, One, Meets, Without, LowBit;
    var z := Without(x, y);
    if z != 0 {
      LsBitSingle(z);
      LowBitOutside(x, y);
      LowBitInside(x, y);
      var differ := !SameAt(x, y, LsBit(z));
    }
  }

  /** A word is determined by its bits. */
  lemma SameBits(x: bv32, y: bv32)
    requires forall j {:trigger SameAt(x, y, j)} :: 0 <= j < 32 ==> SameAt(x, y, j)
    ensures x == y
  {
    hide Bit, Without;
    forall j | 0 <= j < 32
      ensures SameAt(y, x, j)
    {
      assert SameAt(x, y, j);
    }
    SubsetBits(x, y);
    SubsetBits(y, x);
    WithoutZero(x, y);
  }
}
