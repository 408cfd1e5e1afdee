/** Powers of two, multiples and remainders. */
module Arithmetic {

  function Pow2(k: nat): (p: nat)
    ensures p >= 1
  {
    if k == 0 then 1 else 2 * Pow2(k - 1)
  }

  lemma Pow2Values()
    ensures Pow2(0) == 1 && Pow2(1) == 2 && Pow2(2) == 4 && Pow2(3) == 8
    ensures Pow2(4) == 16 && Pow2(5) == 32 && Pow2(6) == 64 && Pow2(7) == 128
    ensures Pow2(8) == 0x100 && Pow2(9) == 0x200 && Pow2(10) == 0x400 && Pow2(11) == 0x800
    ensures Pow2(12) == 0x1000 && Pow2(13) == 0x2000 && Pow2(14) == 0x4000 && Pow2(15) == 0x8000
    ensures Pow2(16) == 0x1_0000 && Pow2(17) == 0x2_0000 && Pow2(18) == 0x4_0000 && Pow2(19) == 0x8_0000
    ensures Pow2(20) == 0x10_0000 && Pow2(21) == 0x20_0000 && Pow2(22) == 0x40_0000 && Pow2(23) == 0x80_0000
    ensures Pow2(24) == 0x100_0000 && Pow2(25) == 0x200_0000 && Pow2(26) == 0x400_0000 && Pow2(27) == 0x800_0000
    ensures Pow2(28) == 0x1000_0000 && Pow2(29) == 0x2000_0000 && Pow2(30) == 0x4000_0000 && Pow2(31) == 0x8000_0000
    ensures Pow2(32) == 0x1_0000_0000
  {
    assert Pow2(4) == 16;
    assert Pow2(8) == 0x100;
    assert Pow2(12) == 0x1000;
    assert Pow2(16) == 0x1_0000;
    assert Pow2(20) == 0x10_0000;
    assert Pow2(24) == 0x100_0000;
    assert Pow2(28) == 0x1000_0000;
  }

  lemma {:induction false} Pow2Monotone(j: nat, k: nat)
    requires j <= k
    ensures Pow2(j) <= Pow2(k)
    decreases k
  {
    if j < k {
      Pow2Monotone(j, k - 1);
    }
  }

  lemma MultipleIsLarge(k: int, size: int)
    requires k != 0 && size >= 0
    ensures k * size >= size || k * size <= -size
  {
    if k > 0 {
      ProductNonNegative(k - 1, size);
      assert k * size == size + (k - 1) * size;
    } else {
      ProductNonNegative(-k - 1, size);
      assert k * size == -size - (-k - 1) * size;
    }
  }

  lemma ProductNonNegative(x: int, y: int)
    requires x >= 0 && y >= 0
    ensures x * y >= 0
  {
  }

  /** Quotient and remainder are determined by their defining equation. */
  lemma ModIs(x: nat, p: nat, q: nat, r: nat)
    requires x == q * p + r && r < p
    ensures x % p == r && x / p == q
  {
    var a, b := x / p, x % p;
    assert x == a * p + b;
    assert (a - q) * p == a * p - q * p;
    if a != q {
      MultipleIsLarge(a - q, p);
    }
  }

  /** Two different numbers less than `size` apart have different remainders. */
  lemma ResiduesDiffer(p: nat, q: nat, size: nat)
    requires size > 0 && p != q && p < q + size && q < p + size
    ensures p % size != q % size
  {
    var a, b, c, d := p / size, q / size, p % size, q % size;
    assert p == a * size + c && q == b * size + d;
    assert (a - b) * size == a * size - b * size;
    hide *;
    if a != b {
      MultipleIsLarge(a - b, size);
    }
  }

  lemma MulOrdered(x: nat, y: nat, s: nat)
    requires x <= y
    ensures x * s <= y * s
  {
    ProductNonNegative(y - x, s);
    assert (y - x) * s == y * s - x * s;
  }

  lemma MulStrict(x: nat, y: nat, s: nat)
    requires x < y && s > 0
    ensures x * s < y * s
  {
    MulOrdered(x + 1, y, s);
    assert (x + 1) * s == x * s + s;
  }

  lemma MulDistributes(x: nat, y: nat, s: nat)
    ensures (x + y) * s == x * s + y * s
  {
  }
}
