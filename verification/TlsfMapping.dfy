/** The size-class arithmetic of the allocator: `ms_bit`, MAPPING_INSERT and
    MAPPING_SEARCH.  Sizes are in bytes.  A class is the pair (fl, sl) read as
    the single number 32 * fl + sl, its position in the `matrix` of free lists. */
module TlsfMapping {
  import opened Arithmetic

  const SMALL_BLOCK := 128
  const MAX_SLI := 32
  const REAL_FLI := 24
  const CLASSES := 768
  const LIMIT := 0x4000_0000        // 2^MAX_FLI
  const MAX_REQUEST := 0x3F00_0000  // 2^30 - 2^24
  const MAX_MAPPED := 0xFC00_0000   // 2^32 - 2^26: above this the sum overflows ms_bit's int

  /** The 256-entry lookup table of the source: floor of log2, and -1 at 0. */
  function Table(v: nat): int
    requires v < 256
  {
    if v == 0 then -1 else if v < 2 then 0 else if v < 4 then 1 else if v < 8 then 2 else
    if v < 16 then 3 else if v < 32 then 4 else if v < 64 then 5 else if v < 128 then 6 else 7
  }

  /** `ms_bit`: picks one of four bytes, looks it up, adds the byte's offset. */
  function MsBit(x: nat): int
    requires x < 0x1_0000_0000
  {
    if x <= 0xffff then
      if x <= 0xff then Table(x) else Table(x / 0x100) + 8
    else
      if x <= 0xffffff then Table(x / 0x1_0000) + 16 else Table(x / 0x100_0000) + 24
  }

  /** The width of a second-level slice in the row of size s. */
  function Slice(s: nat): (p: nat)
    requires SMALL_BLOCK <= s < 0x1_0000_0000
    ensures 0 < p <= s
  {
    MsBitBounds(s);
    Pow2Monotone(MsBit(s) - 5, MsBit(s));
    Pow2(MsBit(s) - 5)
  }

  lemma SliceRoom(r: nat)
    requires SMALL_BLOCK <= r <= MAX_MAPPED
    ensures r + Slice(r) - 1 < 0x1_0000_0000
    ensures r > MAX_REQUEST ==> r + Slice(r) - 1 >= LIMIT
  {
    Pow2Values();
    MsBitBounds(r);
    Pow2Monotone(MsBit(r) - 5, 26);
    if r > MAX_REQUEST {
      assert MsBit(r) >= 29;
      Pow2Monotone(24, MsBit(r) - 5);
    }
  }

  datatype Mapped = Mapped(size: nat, fl: int, sl: int)

  /** MAPPING_INSERT. */
  function MappingInsert(r: nat): Mapped
    requires r < LIMIT
  {
    if r < SMALL_BLOCK then
      Mapped(r, 0, r / (SMALL_BLOCK / MAX_SLI))
    else
      Mapped(r, MsBit(r) - 6, r / Slice(r) - MAX_SLI)
  }

  /** MAPPING_SEARCH: also returns the size it rounds the request up to.
      `x & ~t` with t + 1 a power of two clears the low bits of x. */
  function MappingSearch(r: nat): Mapped
    requires r <= MAX_MAPPED
  {
    if r < SMALL_BLOCK then
      Mapped(r, 0, r / (SMALL_BLOCK / MAX_SLI))
    else
      SliceRoom(r);
      var t := Slice(r) - 1;
      var x := r + t;
      Mapped(x - x % (t + 1), MsBit(x) - 6, x / Slice(x) - MAX_SLI)
  }

  /** `ms_bit` is the position of the highest set bit. */
  lemma MsBitBounds(x: nat)
    requires 0 < x < 0x1_0000_0000
    ensures 0 <= MsBit(x) < 32
    ensures Pow2(MsBit(x)) <= x < Pow2(MsBit(x) + 1)
    ensures x >= SMALL_BLOCK ==> MsBit(x) >= 7
    ensures x < LIMIT ==> MsBit(x) < 30
  {
    Pow2Values();
  }

  /** The class number of a size. */
  function Class(s: nat): int
    requires s < LIMIT
  {
    var m := MappingInsert(s);
    MAX_SLI * m.fl + m.sl
  }

  /** The class number that a request is searched from. */
  function SearchClass(r: nat): int
    requires r <= MAX_REQUEST
  {
    var m := MappingSearch(r);
    MAX_SLI * m.fl + m.sl
  }

  /** The smallest size of a class, stated without `ms_bit`: below 128 bytes a
      class is 4 bytes wide, and row fl splits [2^(fl+6), 2^(fl+7)) into 32. */
  function ClassLow(c: nat): nat {
    if c < MAX_SLI then 4 * c else (MAX_SLI + c % MAX_SLI) * Pow2(c / MAX_SLI + 1)
  }

  lemma DivBounds(s: nat, p: nat)
    requires p > 0
    ensures s / p * p <= s < (s / p + 1) * p
  {
    assert s == s / p * p + s % p;
  }

  /** Quotient of a number known to lie in the k-th slice of width p. */
  lemma DivInSlice(s: nat, p: nat, k: nat)
    requires p > 0 && k * p <= s < (k + 1) * p
    ensures s / p == k
  {
    DivBounds(s, p);
    var q := s / p;
    if q < k {
      MulOrdered(q + 1, k, p);
    } else if q > k {
      MulOrdered(k + 1, q, p);
    }
  }

  lemma MulCancels(x: nat, y: nat, p: nat)
    requires x * p < y * p
    ensures x < y
  {
    if y <= x {
      MulOrdered(y, x, p);
    }
  }

  /** MAPPING_INSERT of a size of at least 128: the row, the slice width and
      the slice number. */
  lemma InsertRow(s: nat) returns (m: nat, p: nat)
    requires SMALL_BLOCK <= s < LIMIT
    ensures m == MsBit(s) && 7 <= m < 30 && p == Pow2(m - 5) == Slice(s)
    ensures 32 * p <= s < 64 * p && 32 <= s / p < 64
    ensures MappingInsert(s) == Mapped(s, m - 6, s / p - 32)
  {
    MsBitBounds(s);
    m := MsBit(s);
    p := Pow2(m - 5);
    assert Pow2(m) == 32 * p by {
      assert Pow2(m - 3) == 4 * p;
      assert Pow2(m - 1) == 16 * p;
    }
    DivBounds(s, p);
    MulCancels(s / p, 64, p);
    MulCancels(32, s / p + 1, p);
  }

  /** The lower bound of slice q - 32 of row m - 6; q = 64 is the next row. */
  lemma ClassLowAt(m: nat, q: nat)
    requires m >= 7 && 32 <= q <= 64
    ensures ClassLow(32 * (m - 6) + q - 32) == q * Pow2(m - 5)
  {
    var c := 32 * (m - 6) + q - 32;
    if q == 64 {
      assert c / 32 == m - 5 && c % 32 == 0;
      assert Pow2(m - 4) == 2 * Pow2(m - 5);
    } else {
      assert c / 32 == m - 6 && c % 32 == q - 32;
    }
  }

  /** A size lies between the lower bound of its class and that of the next. */
  lemma ClassSandwich(s: nat)
    requires s < LIMIT
    ensures 0 <= Class(s) < CLASSES
    ensures 0 <= MappingInsert(s).fl < REAL_FLI && 0 <= MappingInsert(s).sl < MAX_SLI
    ensures ClassLow(Class(s)) <= s < ClassLow(Class(s) + 1)
  {
    if s < SMALL_BLOCK {
      assert Pow2(2) == 4;
    } else {
      var m, p := InsertRow(s);
      hide MsBit, Pow2;
      DivBounds(s, p);
      ClassLowAt(m, s / p);
      ClassLowAt(m, s / p + 1);
    }
  }

  lemma ClassLowStep(c: nat)
    ensures ClassLow(c) < ClassLow(c + 1)
  {
    if c == 31 {
      assert Pow2(2) == 4;
    } else if c >= 32 {
      var m, q := c / 32 + 6, 32 + c % 32;
      ClassLowAt(m, q);
      ClassLowAt(m, q + 1);
      assert (q + 1) * Pow2(m - 5) == q * Pow2(m - 5) + Pow2(m - 5);
    }
  }

  lemma {:induction false} ClassLowMonotone(c: nat, d: nat)
    requires c <= d
    ensures ClassLow(c) <= ClassLow(d)
    ensures c < d ==> ClassLow(c) < ClassLow(d)
    decreases d
  {
    if c < d {
      ClassLowMonotone(c, d - 1);
      ClassLowStep(d - 1);
    }
  }

  /** A size is in class c or above exactly when it is at least c's lower bound. */
  lemma ClassGalois(s: nat, c: nat)
    requires s < LIMIT
    ensures Class(s) >= c <==> s >= ClassLow(c)
  {
    hide Class, ClassLow;
    ClassSandwich(s);
    if Class(s) >= c {
      ClassLowMonotone(c, Class(s));
    } else {
      ClassLowMonotone(Class(s) + 1, c);
    }
  }

  /** MAPPING_SEARCH adds one slice less one byte and then maps like MAPPING_INSERT. */
  lemma SearchIsInsert(r: nat) returns (m: nat, p: nat, x: nat)
    requires SMALL_BLOCK <= r <= MAX_REQUEST
    ensures 7 <= m < 30 && p == Pow2(m - 5) == Slice(r) && x == r + p - 1 < LIMIT
    ensures 32 * p <= r < 64 * p
    ensures MappingSearch(r).size == x - x % p
    ensures MappingSearch(r).fl == MappingInsert(x).fl && MappingSearch(r).sl == MappingInsert(x).sl
    ensures SearchClass(r) == Class(x)
  {
    hide MsBit, Pow2, Slice;
    m, p := InsertRow(r);
    x := r + p - 1;
    SliceFits(r, m, p);
  }

  /** No rounded request passes the largest class. */
  lemma SliceFits(r: nat, m: nat, p: nat)
    requires r <= MAX_REQUEST && 7 <= m < 30 && p == Pow2(m - 5)
    ensures r + p - 1 < LIMIT
  {
    Pow2Values();
    Pow2Monotone(m - 5, 24);
  }

  lemma {:induction false} SliceMultiple(m: nat)
    requires m >= 7
    ensures Pow2(m - 5) == 4 || Pow2(m - 5) == 8 || Pow2(m - 5) % 16 == 0
  {
    if m == 7 {
      assert Pow2(2) == 4;
    } else {
      SliceMultiple(m - 1);
      assert Pow2(m - 5) == 2 * Pow2(m - 6);
      hide Pow2;
      DoubleMultiple(Pow2(m - 6));
    }
  }

  lemma DoubleMultiple(x: nat)
    requires x == 4 || x == 8 || x % 16 == 0
    ensures 2 * x == 8 || 2 * x % 16 == 0
  {
  }

  /** Which row r + p - 1 is in: r's own row, or the start of the next. */
  lemma RowOf(x: nat, m': nat, p': nat, m: nat, p: nat)
    requires m >= 5 && m' >= 5 && p == Pow2(m - 5) && p' == Pow2(m' - 5)
    requires 32 * p' <= x < 64 * p' && 32 * p <= x < 65 * p
    ensures (m' == m && p' == p) || (m' == m + 1 && p' == 2 * p)
  {
    if m' < m {
      Pow2Monotone(m' - 4, m - 5);
    } else if m' > m + 1 {
      Pow2Monotone(m - 3, m' - 5);
    }
  }

  lemma FloorMultiple(x: nat, p: nat, k: nat)
    requires p > 0 && k * p <= x < (k + 1) * p
    ensures x - x % p == k * p
  {
    DivInSlice(x, p, k);
    assert x == x / p * p + x % p;
  }

  /** x / p is between 32 and 64, and the class of x starts at x / p * p. */
  lemma RoundedClass(x: nat, m: nat, p: nat) returns (k: nat)
    requires 7 <= m < 30 && p == Pow2(m - 5) && 32 * p <= x < 65 * p && x < LIMIT
    ensures 32 <= k <= 64 && k * p <= x < (k + 1) * p
    ensures Class(x) == 32 * (m - 6) + k - 32
  {
    assert x >= SMALL_BLOCK by { Pow2Monotone(2, m - 5); assert Pow2(2) == 4; }
    var m', p' := InsertRow(x);
    RowOf(x, m', p', m, p);
    hide MsBit, Pow2;
    DivBounds(x, p);
    k := x / p;
    MulCancels(32, k + 1, p);
    MulCancels(k, 65, p);
    if m' != m {
      assert k == 64 by {
        MulCancels(64, k + 1, p);
      }
      DivInSlice(x, p', 32);
    } else {
      MulCancels(k, 64, p);
    }
  }

  /** The class found for a request of at least 128 bytes. */
  lemma SearchLarge(r: nat) returns (c0: nat)
    requires SMALL_BLOCK <= r <= MAX_REQUEST
    ensures c0 == SearchClass(r) >= 32
    ensures MappingSearch(r).size == ClassLow(c0)
    ensures ClassLow(c0 - 1) < r <= ClassLow(c0)
    ensures 32 * (ClassLow(c0) - r) <= r - 32
    ensures r % 16 == 0 ==> ClassLow(c0) % 16 == 0
  {
    hide *;
    var m, p, x := SearchIsInsert(r);
    var k := RoundedClass(x, m, p);
    FloorMultiple(x, p, k);
    c0 := SearchClass(r);
    ClassLowAt(m, k);
    assert (k - 1) * p == k * p - p;
    assert ClassLow(c0 - 1) < r by {
      if k > 32 {
        ClassLowAt(m, k - 1);
      } else {
        ClassLowStep(c0 - 1);
      }
    }
    if r % 16 == 0 {
      SliceMultiple(m);
      CeilMultiple(r, p, k);
    }
  }

  lemma CeilMultiple(r: nat, p: nat, k: nat)
    requires p > 0 && k > 0 && (k - 1) * p < r <= k * p && r % 16 == 0
    requires p == 4 || p == 8 || p % 16 == 0
    ensures (k * p) % 16 == 0
  {
    if p % 16 == 0 {
      var j := p / 16;
      assert k * p == 16 * (k * j);
    }
  }

  /** MAPPING_SEARCH rounds a request to the smallest class bound not below it
      and names that class; the waste is below one part in 32. */
  lemma SearchRounds(r: nat)
    requires r <= MAX_REQUEST && r % 16 == 0
    ensures 0 <= SearchClass(r) && MappingSearch(r).size == ClassLow(SearchClass(r)) >= r
    ensures SearchClass(r) > 0 ==> ClassLow(SearchClass(r) - 1) < r
    ensures r < SMALL_BLOCK ==> MappingSearch(r).size == r
    ensures r >= SMALL_BLOCK ==> 32 * (MappingSearch(r).size - r) <= r - 32
    ensures MappingSearch(r).size % 16 == 0
  {
    hide *;
    if r >= SMALL_BLOCK {
      var c0 := SearchLarge(r);
    } else {
      SearchSmall(r);
    }
  }

  lemma SearchSmall(r: nat)
    requires r < SMALL_BLOCK && r % 16 == 0
    ensures 0 <= SearchClass(r) && MappingSearch(r).size == ClassLow(SearchClass(r)) == r
    ensures SearchClass(r) > 0 ==> ClassLow(SearchClass(r) - 1) < r
  {
  }

  /** The rounded class is the only one whose lower bound is the least at or above r. */
  lemma SearchUnique(r: nat, c: nat)
    requires r <= MAX_REQUEST && r % 16 == 0
    requires ClassLow(c) >= r && (c > 0 ==> ClassLow(c - 1) < r)
    ensures SearchClass(r) == c && MappingSearch(r).size == ClassLow(c)
  {
    hide *;
    SearchRounds(r);
    var d := SearchClass(r);
    if c < d {
      ClassLowMonotone(c, d - 1);
    } else if d < c {
      ClassLowMonotone(d, c - 1);
    }
  }

  lemma SearchInMatrix(r: nat)
    requires r <= MAX_REQUEST
    ensures 0 <= MappingSearch(r).fl < REAL_FLI && 0 <= MappingSearch(r).sl < MAX_SLI
  {
    if r >= SMALL_BLOCK {
      var m, p, x := SearchIsInsert(r);
      ClassSandwich(x);
    }
  }

  /** A free block of s bytes is found by the search for r exactly when s is at
      least the rounded request. */
  lemma GoodFit(r: nat, s: nat)
    requires r <= MAX_REQUEST && r % 16 == 0 && s < LIMIT
    ensures Class(s) >= SearchClass(r) <==> s >= MappingSearch(r).size
  {
    hide Class, MappingSearch, ClassLow, SearchClass;
    SearchRounds(r);
    ClassGalois(s, SearchClass(r));
  }

  lemma RoundedWithinLimit(r: nat)
    requires r <= MAX_REQUEST && r % 16 == 0
    ensures MappingSearch(r).size <= MAX_REQUEST
  {
    hide MappingSearch, SearchClass, ClassLow, Pow2;
    SearchRounds(r);
    assert ClassLow(767) == MAX_REQUEST by {
      ClassLowAt(29, 63);
      Pow2Values();
    }
    if SearchClass(r) > 767 {
      ClassLowMonotone(767, SearchClass(r) - 1);
    } else {
      ClassLowMonotone(SearchClass(r), 767);
    }
  }

  /** Searching again from the rounded size changes nothing. */
  lemma SearchIdempotent(r: nat)
    requires r <= MAX_REQUEST && r % 16 == 0
    ensures MappingSearch(r).size <= MAX_REQUEST
    ensures MappingSearch(MappingSearch(r).size) == MappingSearch(r)
  {
    hide MappingSearch, ClassLow;
    RoundedWithinLimit(r);
    SearchRounds(r);
    var r', c := MappingSearch(r).size, SearchClass(r);
    if c > 0 {
      ClassLowStep(c - 1);
    }
    SearchUnique(r', c);
    SearchInMatrix(r);
    SearchInMatrix(r');
  }

  /** A request is mapped to a row that the matrix has exactly when it is within the limit. */
  lemma BeyondMatrix(r: nat)
    requires r <= MAX_MAPPED
    ensures 0 <= MappingSearch(r).fl < REAL_FLI <==> r <= MAX_REQUEST
  {
    if r <= MAX_REQUEST {
      SearchInMatrix(r);
    } else {
      SliceRoom(r);
      var x := r + Slice(r) - 1;
      hide Slice;
      assert MsBit(x) >= 30;
    }
  }
}
