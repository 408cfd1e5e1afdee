/** How many slots `of` allocates for a requested count. */
module RingSize {

  /** x with every bit below its highest set bit set as well. */
  method CombineMs1b(x0: bv32) returns (x: bv32)
    ensures x & (x + 1) == 0 && x0 <= x && (x0 != 0 ==> x >> 1 < x0) && (x0 == 0 ==> x == 0)
  {
    x := x0;
    x := x | (x >> 1);
    x := x | (x >> 2);
    x := x | (x >> 4);
    x := x | (x >> 8);
    x := x | (x >> 16);
  }

  /** r is the least power of two not below x. */
  ghost predicate LeastPower(x: bv32, r: bv32) {
    r != 0 && r & (r - 1) == 0 && x <= r && r >> 1 < x
  }

  /** sqk_align32pow2: the least power of two at or above x; 0 when that is 2^32 or when
      x is 0. */
  method Align32Pow2(x: bv32) returns (r: bv32)
    ensures 0 < x <= 0x8000_0000 ==> LeastPower(x, r)
    ensures x == 0 || x > 0x8000_0000 ==> r == 0
  {
    var y := CombineMs1b(x - 1);
    r := y + 1;
  }

  const RING_SZ_MASK: bv32 := 0x7fff_ffff

  /** The size test of `of`.  The buffer gets `count` slots while the ring is initialised
      with size `cnt`: for cnt below 2^30 that is enough, from there to 2^31 the request is
      refused, and above that `count` wraps to 0 and passes the test. */
  method CheckSize(cnt: bv32) returns (accepted: bool, count: bv32)
    ensures accepted <==> cnt < 0x4000_0000 || cnt >= 0x8000_0000
    ensures accepted && cnt < 0x4000_0000 ==> LeastPower(cnt + 1, count) && cnt < count
    ensures accepted && cnt >= 0x8000_0000 ==> count == 0
  {
    count := Align32Pow2(cnt + 1);
    accepted := !((count - 1) & count != 0 || count > RING_SZ_MASK);
  }
}
