/** The slot of a position: `head & mask`, with mask one less than the ring size. */
module RingMask {
  import opened Arithmetic

  /** Bitwise and. */
  function BitAnd(x: nat, y: nat): nat {
    if x == 0 || y == 0 then 0 else 2 * BitAnd(x / 2, y / 2) + (x % 2) * (y % 2)
  }

  ghost predicate PowerOfTwo(n: nat) {
    exists k: nat :: n == Pow2(k)
  }

  function Rem(x: nat, p: nat): nat
    requires p > 0
  {
    x % p
  }

  lemma HalfRem(x: nat, p: nat)
    requires p > 0
    ensures Rem(x, 2 * p) == 2 * Rem(x / 2, p) + x % 2
  {
    var q, r := x / 2 / p, x / 2 % p;
    assert x / 2 == q * p + r;
    assert x == q * (2 * p) + (2 * r + x % 2);
    ModIs(x, 2 * p, q, 2 * r + x % 2);
  }

  lemma MaskStep(x: nat, p: nat)
    requires x > 0 && p > 0
    ensures BitAnd(x, 2 * p - 1) == 2 * BitAnd(x / 2, p - 1) + x % 2
  {
    assert (2 * p - 1) % 2 == 1 && (2 * p - 1) / 2 == p - 1;
  }

  lemma MaskNothing(x: nat, y: nat, p: nat)
    requires p > 0
    ensures BitAnd(x, 0) == 0 && BitAnd(0, y) == 0 && Rem(x, 1) == 0 && Rem(0, p) == 0
  {
  }

  lemma {:induction false} MaskIsRem(x: nat, k: nat)
    ensures BitAnd(x, Pow2(k) - 1) == Rem(x, Pow2(k))
    decreases k
  {
    hide BitAnd, Rem;
    MaskNothing(x, Pow2(k) - 1, Pow2(k));
    if k > 0 && x > 0 {
      MaskIsRem(x / 2, k - 1);
      HalfRem(x, Pow2(k - 1));
      MaskStep(x, Pow2(k - 1));
    }
  }

  /** Masking with 2^k - 1 is the remainder modulo 2^k. */
  lemma MaskIsMod(x: nat, k: nat)
    ensures BitAnd(x, Pow2(k) - 1) == x % Pow2(k)
  {
    MaskIsRem(x, k);
    hide BitAnd, Pow2;
  }

  /** The lowest position whose bit is clear in m. */
  function ZeroBit(m: nat): nat {
    if m % 2 == 0 then 0 else 1 + ZeroBit(m / 2)
  }

  lemma PowerDoubled(n: nat)
    ensures PowerOfTwo(n) ==> PowerOfTwo(2 * n)
  {
    if PowerOfTwo(n) {
      var k: nat :| n == Pow2(k);
      assert 2 * n == Pow2(k + 1);
    }
  }

  lemma TwoIsPower()
    ensures PowerOfTwo(1) && PowerOfTwo(2)
  {
    assert Pow2(0) == 1 && Pow2(1) == 2;
  }

  lemma {:induction false} ZeroBitClear(m: nat)
    requires m > 0 && !PowerOfTwo(m + 1)
    ensures Pow2(ZeroBit(m)) < m && BitAnd(Pow2(ZeroBit(m)), m) == 0
  {
    if m % 2 == 0 {
      assert BitAnd(0, m / 2) == 0;
    } else {
      PowerDoubled(m / 2 + 1);
      TwoIsPower();
      ZeroBitClear(m / 2);
      var p := Pow2(ZeroBit(m));
      assert p % 2 == 0 && p / 2 == Pow2(ZeroBit(m / 2));
    }
  }

  /** `mask` and `capacity` as `init` computes them, in 32 bits: for a count of 0 both are
      2^32 - 1. */
  function Usable(cnt: nat): nat {
    if cnt == 0 then 0xffff_ffff else cnt - 1
  }

  /** The slot of a single element.  With a count of 0 the test for the straight copy fails
      for every index, and the copy that goes round begins again at slot 0. */
  function SlotOf(cnt: nat, p: nat): nat {
    if cnt == 0 then 0 else BitAnd(p, Usable(cnt))
  }

  ghost predicate Differ(cnt: nat, p: nat, q: nat) {
    SlotOf(cnt, p) != SlotOf(cnt, q)
  }

  /** Any two positions that can be in use together have different slots. */
  ghost predicate SlotsApart(cnt: nat) {
    forall p: nat, q: nat :: p < q < p + Usable(cnt) ==> Differ(cnt, p, q)
  }

  lemma PowerApart(k: nat)
    ensures SlotsApart(Pow2(k))
  {
    var size := Pow2(k);
    forall p: nat, q: nat | p < q < p + size - 1
      ensures Differ(size, p, q)
    {
      MaskIsMod(p, k);
      MaskIsMod(q, k);
      ResiduesDiffer(p, q, size);
    }
  }

  /** A ring initialised with `cnt` keeps positions in use apart exactly when cnt is a power
      of two.  `of` passes the raw request on, so for any other count two live elements
      meet in one slot. */
  lemma SlotsApartIff(cnt: nat)
    ensures SlotsApart(cnt) <==> PowerOfTwo(cnt)
  {
    if PowerOfTwo(cnt) {
      var k: nat :| cnt == Pow2(k);
      PowerApart(k);
    } else if cnt == 0 {
      assert !Differ(cnt, 0, 1);
    } else {
      TwoIsPower();
      ZeroBitClear(cnt - 1);
      assert BitAnd(0, cnt - 1) == 0;
      assert !Differ(cnt, 0, Pow2(ZeroBit(cnt - 1)));
    }
  }

  /** With ten slots, positions 0 and 2 share slot 0. */
  lemma TenCollides()
    ensures BitAnd(0, 9) == BitAnd(2, 9) == 0 && !SlotsApart(10)
  {
    assert BitAnd(1, 4) == 0 && BitAnd(0, 9) == 0;
    assert !Differ(10, 0, 2);
  }
}
