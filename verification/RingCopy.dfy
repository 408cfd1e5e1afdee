/** The copy loops between a caller's elements and the slots, in place and unrolled. */
module RingCopy {
  import opened Arithmetic

  /** How far slot j is after slot idx, going round. */
  function Offset(size: nat, idx: nat, j: nat): nat
    requires idx < size && j < size
  {
    if j >= idx then j - idx else j + size - idx
  }

  const TWO_32 := 0x1_0000_0000

  /** The test `idx + n < size` of every copy, in 32-bit arithmetic. */
  predicate StaysInside(idx: nat, n: nat, size: nat) {
    (idx + n) % TWO_32 < size
  }

  /** The test takes the right branch exactly when the sum does not overflow; when it does,
      the straight branch runs off the end of the buffer. */
  lemma BranchRightIff(idx: nat, n: nat, size: nat)
    requires idx < size < TWO_32 && n <= size
    ensures (StaysInside(idx, n, size) <==> idx + n < size) <==> idx + n < TWO_32
  {
  }

  /** The buffer with xs placed from slot idx on, going round. */
  function Placed<T>(s: seq<T>, idx: nat, xs: seq<T>): seq<T>
    requires idx < |s|
  {
    seq(|s|, j requires 0 <= j < |s| => if Offset(|s|, idx, j) < |xs| then xs[Offset(|s|, idx, j)] else s[j])
  }

  /** The n elements from slot idx on, going round. */
  function Taken<T>(s: seq<T>, idx: nat, n: nat): seq<T>
    requires idx < |s|
  {
    seq(n, k requires 0 <= k < n => s[(idx + k) % |s|])
  }

  // ----- into the ring -----

  lemma PlacedStraight<T>(was: seq<T>, now: seq<T>, idx: nat, xs: seq<T>)
    requires idx + |xs| <= |was| == |now| && idx < |was|
    requires forall j :: 0 <= j < |was| ==> now[j] == if idx <= j < idx + |xs| then xs[j - idx] else was[j]
    ensures now == Placed(was, idx, xs)
  {
  }

  lemma PlacedRound<T>(was: seq<T>, now: seq<T>, idx: nat, xs: seq<T>)
    requires idx < |was| == |now| && |was| - idx <= |xs| <= |was|
    requires forall j :: 0 <= j < |was| ==>
               now[j] == if idx <= j then xs[j - idx]
                         else if j + |was| - idx < |xs| then xs[j + |was| - idx] else was[j]
    ensures now == Placed(was, idx, xs)
  {
  }

  /** The branch of every enqueue copy that goes round the end of the buffer. */
  method PlaceRound<T>(ring: array<T>, idx0: nat, xs: seq<T>)
    requires idx0 < ring.Length && ring.Length - idx0 <= |xs| <= ring.Length
    modifies ring
    ensures ring[..] == Placed(old(ring[..]), idx0, xs)
  {
    hide Placed;
    var size, idx, i := ring.Length, idx0, 0;
    while idx < size
      invariant idx == idx0 + i && idx <= size
      invariant forall j :: 0 <= j < size ==> ring[j] == if idx0 <= j < idx then xs[j - idx0] else old(ring[j])
    {
      ring[idx] := xs[i];
      i, idx := i + 1, idx + 1;
    }
    idx := 0;
    while i < |xs|
      invariant i == size - idx0 + idx && i <= |xs|
      invariant forall j :: 0 <= j < size ==>
                  ring[j] == if idx0 <= j then xs[j - idx0] else if j < idx then xs[j + size - idx0] else old(ring[j])
    {
      ring[idx] := xs[i];
      i, idx := i + 1, idx + 1;
    }
    PlacedRound(old(ring[..]), ring[..], idx0, xs);
  }

  /** The switch on n & 7: the last elements one by one. */
  method FallThrough8<T>(ring: array<T>, idx0: nat, obj: seq<T>, i0: nat)
    requires i0 + |obj| % 8 == |obj| && idx0 + |obj| % 8 <= ring.Length
    modifies ring
    ensures forall j :: 0 <= j < ring.Length ==>
              ring[j] == if idx0 <= j < idx0 + |obj| % 8 then obj[i0 + j - idx0] else old(ring[j])
  {
    var n, idx, i := |obj|, idx0, i0;
    if n % 8 >= 7 {
      ring[idx] := obj[i];
      idx, i := idx + 1, i + 1;
    }
    if n % 8 >= 6 {
      ring[idx] := obj[i];
      idx, i := idx + 1, i + 1;
    }
    if n % 8 >= 5 {
      ring[idx] := obj[i];
      idx, i := idx + 1, i + 1;
    }
    if n % 8 >= 4 {
      ring[idx] := obj[i];
      idx, i := idx + 1, i + 1;
    }
    if n % 8 >= 3 {
      ring[idx] := obj[i];
      idx, i := idx + 1, i + 1;
    }
    if n % 8 >= 2 {
      ring[idx] := obj[i];
      idx, i := idx + 1, i + 1;
    }
    if n % 8 >= 1 {
      ring[idx] := obj[i];
      idx, i := idx + 1, i + 1;
    }
  }

  /** The branch of enqueue_elems_32 that stays inside the buffer: eight elements at a
      time, the rest falling through. */
  method PlaceBy8<T>(ring: array<T>, idx0: nat, obj: seq<T>)
    requires idx0 < ring.Length && idx0 + |obj| < ring.Length
    modifies ring
    ensures ring[..] == Placed(old(ring[..]), idx0, obj)
  {
    hide Placed;
    var n, idx, i := |obj|, idx0, 0;
    while i < n - n % 8
      invariant i % 8 == 0 && i <= n - n % 8 && idx == idx0 + i
      invariant forall j :: 0 <= j < ring.Length ==> ring[j] == if idx0 <= j < idx then obj[j - idx0] else old(ring[j])
    {
      ring[idx] := obj[i];
      ring[idx + 1] := obj[i + 1];
      ring[idx + 2] := obj[i + 2];
      ring[idx + 3] := obj[i + 3];
      ring[idx + 4] := obj[i + 4];
      ring[idx + 5] := obj[i + 5];
      ring[idx + 6] := obj[i + 6];
      ring[idx + 7] := obj[i + 7];
      i, idx := i + 8, idx + 8;
    }
    FallThrough8(ring, idx, obj, i);
    PlacedStraight(old(ring[..]), ring[..], idx0, obj);
  }

  /** The branch of enqueue_elems_64 that stays inside the buffer: four elements at a
      time, the rest falling through. */
  method PlaceBy4<T>(ring: array<T>, idx0: nat, obj: seq<T>)
    requires idx0 < ring.Length && idx0 + |obj| < ring.Length
    modifies ring
    ensures ring[..] == Placed(old(ring[..]), idx0, obj)
  {
    hide Placed;
    var n, idx, i := |obj|, idx0, 0;
    while i < n - n % 4
      invariant i % 4 == 0 && i <= n - n % 4 && idx == idx0 + i
      invariant forall j :: 0 <= j < ring.Length ==> ring[j] == if idx0 <= j < idx then obj[j - idx0] else old(ring[j])
    {
      ring[idx] := obj[i];
      ring[idx + 1] := obj[i + 1];
      ring[idx + 2] := obj[i + 2];
      ring[idx + 3] := obj[i + 3];
      i, idx := i + 4, idx + 4;
    }
    if n % 4 >= 3 {
      ring[idx] := obj[i];
      idx, i := idx + 1, i + 1;
    }
    if n % 4 >= 2 {
      ring[idx] := obj[i];
      idx, i := idx + 1, i + 1;
    }
    if n % 4 >= 1 {
      ring[idx] := obj[i];
      idx, i := idx + 1, i + 1;
    }
    PlacedStraight(old(ring[..]), ring[..], idx0, obj);
  }

  /** The branch of enqueue_elems_128 that stays inside the buffer: two elements at a
      time, the rest falling through. */
  method PlaceBy2<T>(ring: array<T>, idx0: nat, obj: seq<T>)
    requires idx0 < ring.Length && idx0 + |obj| < ring.Length
    modifies ring
    ensures ring[..] == Placed(old(ring[..]), idx0, obj)
  {
    hide Placed;
    var n, idx, i := |obj|, idx0, 0;
    while i < n - n % 2
      invariant i % 2 == 0 && i <= n - n % 2 && idx == idx0 + i
      invariant forall j :: 0 <= j < ring.Length ==> ring[j] == if idx0 <= j < idx then obj[j - idx0] else old(ring[j])
    {
      ring[idx] := obj[i];
      ring[idx + 1] := obj[i + 1];
      i, idx := i + 2, idx + 2;
    }
    if n % 2 >= 1 {
      ring[idx] := obj[i];
      idx, i := idx + 1, i + 1;
    }
    PlacedStraight(old(ring[..]), ring[..], idx0, obj);
  }

  /** enqueue_elems_32. */
  method EnqueueElems32<T>(ring: array<T>, idx: nat, obj: seq<T>)
    requires idx < ring.Length < TWO_32 && |obj| <= ring.Length && idx + |obj| < TWO_32
    modifies ring
    ensures ring[..] == Placed(old(ring[..]), idx, obj)
  {
    if StaysInside(idx, |obj|, ring.Length) {
      PlaceBy8(ring, idx, obj);
    } else {
      PlaceRound(ring, idx, obj);
    }
  }

  /** enqueue_elems_64. */
  method EnqueueElems64<T>(ring: array<T>, idx: nat, obj: seq<T>)
    requires idx < ring.Length < TWO_32 && |obj| <= ring.Length && idx + |obj| < TWO_32
    modifies ring
    ensures ring[..] == Placed(old(ring[..]), idx, obj)
  {
    if StaysInside(idx, |obj|, ring.Length) {
      PlaceBy4(ring, idx, obj);
    } else {
      PlaceRound(ring, idx, obj);
    }
  }

  /** enqueue_elems_128. */
  method EnqueueElems128<T>(ring: array<T>, idx: nat, obj: seq<T>)
    requires idx < ring.Length < TWO_32 && |obj| <= ring.Length && idx + |obj| < TWO_32
    modifies ring
    ensures ring[..] == Placed(old(ring[..]), idx, obj)
  {
    if StaysInside(idx, |obj|, ring.Length) {
      PlaceBy2(ring, idx, obj);
    } else {
      PlaceRound(ring, idx, obj);
    }
  }

  // ----- out of the ring -----

  lemma TakenStraight<T>(s: seq<T>, xs: seq<T>, idx: nat)
    requires idx < |s| && idx + |xs| <= |s|
    requires forall k :: 0 <= k < |xs| ==> xs[k] == s[idx + k]
    ensures xs == Taken(s, idx, |xs|)
  {
    forall k | 0 <= k < |xs|
      ensures xs[k] == s[(idx + k) % |s|]
    {
      RoundOnce(idx + k, |s|);
    }
  }

  lemma TakenRound<T>(s: seq<T>, xs: seq<T>, idx: nat)
    requires idx < |s| && |s| - idx <= |xs| <= |s|
    requires forall k :: 0 <= k < |xs| ==> xs[k] == if idx + k < |s| then s[idx + k] else s[idx + k - |s|]
    ensures xs == Taken(s, idx, |xs|)
  {
    forall k | 0 <= k < |xs|
      ensures xs[k] == s[(idx + k) % |s|]
    {
      RoundOnce(idx + k, |s|);
    }
  }

  /** The branch of every dequeue copy that goes round the end of the buffer. */
  method TakeRound<T>(ring: array<T>, idx0: nat, obj: array<T>, n: nat)
    requires ring != obj && idx0 < ring.Length && ring.Length - idx0 <= n <= ring.Length && n <= obj.Length
    modifies obj
    ensures obj[..n] == Taken(ring[..], idx0, n) && obj[n..] == old(obj[n..])
  {
    hide Taken;
    var size, idx, i := ring.Length, idx0, 0;
    while idx < size
      invariant idx == idx0 + i && idx <= size
      invariant forall k :: 0 <= k < obj.Length ==> obj[k] == if k < i then ring[idx0 + k] else old(obj[k])
    {
      obj[i] := ring[idx];
      i, idx := i + 1, idx + 1;
    }
    idx := 0;
    while i < n
      invariant i == size - idx0 + idx && i <= n
      invariant forall k :: 0 <= k < obj.Length ==>
                  obj[k] == if k < i then (if idx0 + k < size then ring[idx0 + k] else ring[idx0 + k - size])
                            else old(obj[k])
    {
      obj[i] := ring[idx];
      i, idx := i + 1, idx + 1;
    }
    TakenRound(ring[..], obj[..n], idx0);
  }

  /** The switch on n & 7 of dequeue_elems_32. */
  method FallThroughOut8<T>(ring: array<T>, idx0: nat, obj: array<T>, i0: nat, n: nat)
    requires ring != obj && i0 + n % 8 == n <= obj.Length && idx0 + n % 8 <= ring.Length
    modifies obj
    ensures forall k :: 0 <= k < obj.Length ==> obj[k] == if i0 <= k < n then ring[idx0 + k - i0] else old(obj[k])
  {
    var idx, i := idx0, i0;
    if n % 8 >= 7 {
      obj[i] := ring[idx];
      idx, i := idx + 1, i + 1;
    }
    if n % 8 >= 6 {
      obj[i] := ring[idx];
      idx, i := idx + 1, i + 1;
    }
    if n % 8 >= 5 {
      obj[i] := ring[idx];
      idx, i := idx + 1, i + 1;
    }
    if n % 8 >= 4 {
      obj[i] := ring[idx];
      idx, i := idx + 1, i + 1;
    }
    if n % 8 >= 3 {
      obj[i] := ring[idx];
      idx, i := idx + 1, i + 1;
    }
    if n % 8 >= 2 {
      obj[i] := ring[idx];
      idx, i := idx + 1, i + 1;
    }
    if n % 8 >= 1 {
      obj[i] := ring[idx];
      idx, i := idx + 1, i + 1;
    }
  }

  /** The branch of dequeue_elems_32 that stays inside the buffer: eight elements at a time. */
  method TakeBy8<T>(ring: array<T>, idx0: nat, obj: array<T>, n: nat)
    requires ring != obj && idx0 < ring.Length && idx0 + n < ring.Length && n <= obj.Length
    modifies obj
    ensures obj[..n] == Taken(ring[..], idx0, n) && obj[n..] == old(obj[n..])
  {
    hide Taken;
    var idx, i := idx0, 0;
    while i < n - n % 8
      invariant i % 8 == 0 && i <= n - n % 8 && idx == idx0 + i
      invariant forall k :: 0 <= k < obj.Length ==> obj[k] == if k < i then ring[idx0 + k] else old(obj[k])
    {
      obj[i] := ring[idx];
      obj[i + 1] := ring[idx + 1];
      obj[i + 2] := ring[idx + 2];
      obj[i + 3] := ring[idx + 3];
      obj[i + 4] := ring[idx + 4];
      obj[i + 5] := ring[idx + 5];
      obj[i + 6] := ring[idx + 6];
      obj[i + 7] := ring[idx + 7];
      i, idx := i + 8, idx + 8;
    }
    FallThroughOut8(ring, idx, obj, i, n);
    TakenStraight(ring[..], obj[..n], idx0);
  }

  /** dequeue_elems_32. */
  method DequeueElems32<T>(ring: array<T>, idx: nat, obj: array<T>, n: nat)
    requires ring != obj && idx < ring.Length < TWO_32 && n <= ring.Length && n <= obj.Length && idx + n < TWO_32
    modifies obj
    ensures obj[..n] == Taken(ring[..], idx, n) && obj[n..] == old(obj[n..])
  {
    if StaysInside(idx, n, ring.Length) {
      TakeBy8(ring, idx, obj, n);
    } else {
      TakeRound(ring, idx, obj, n);
    }
  }

  /** The switch on n & 3 of dequeue_elems_64. */
  method FallThroughOut4<T>(ring: array<T>, idx0: nat, obj: array<T>, i0: nat, n: nat)
    requires ring != obj && i0 + n % 4 == n <= obj.Length && idx0 + n % 4 <= ring.Length
    modifies obj
    ensures forall k :: 0 <= k < obj.Length ==> obj[k] == if i0 <= k < n then ring[idx0 + k - i0] else old(obj[k])
  {
    var idx, i := idx0, i0;
    if n % 4 >= 3 {
      obj[i] := ring[idx];
      idx, i := idx + 1, i + 1;
    }
    if n % 4 >= 2 {
      obj[i] := ring[idx];
      idx, i := idx + 1, i + 1;
    }
    if n % 4 >= 1 {
      obj[i] := ring[idx];
      idx, i := idx + 1, i + 1;
    }
  }

  /** The branch of dequeue_elems_64 that stays inside the buffer: four elements at a time. */
  method TakeBy4<T>(ring: array<T>, idx0: nat, obj: array<T>, n: nat)
    requires ring != obj && idx0 < ring.Length && idx0 + n < ring.Length && n <= obj.Length
    modifies obj
    ensures obj[..n] == Taken(ring[..], idx0, n) && obj[n..] == old(obj[n..])
  {
    hide Taken;
    var idx, i := idx0, 0;
    while i < n - n % 4
      invariant i % 4 == 0 && i <= n - n % 4 && idx == idx0 + i
      invariant forall k :: 0 <= k < obj.Length ==> obj[k] == if k < i then ring[idx0 + k] else old(obj[k])
    {
      obj[i] := ring[idx];
      obj[i + 1] := ring[idx + 1];
      obj[i + 2] := ring[idx + 2];
      obj[i + 3] := ring[idx + 3];
      i, idx := i + 4, idx + 4;
    }
    FallThroughOut4(ring, idx, obj, i, n);
    TakenStraight(ring[..], obj[..n], idx0);
  }

  /** dequeue_elems_64. */
  method DequeueElems64<T>(ring: array<T>, idx: nat, obj: array<T>, n: nat)
    requires ring != obj && idx < ring.Length < TWO_32 && n <= ring.Length && n <= obj.Length && idx + n < TWO_32
    modifies obj
    ensures obj[..n] == Taken(ring[..], idx, n) && obj[n..] == old(obj[n..])
  {
    if StaysInside(idx, n, ring.Length) {
      TakeBy4(ring, idx, obj, n);
    } else {
      TakeRound(ring, idx, obj, n);
    }
  }

  /** The branch of dequeue_elems_128 that stays inside the buffer: two elements at a time. */
  method TakeBy2<T>(ring: array<T>, idx0: nat, obj: array<T>, n: nat)
    requires ring != obj && idx0 < ring.Length && idx0 + n < ring.Length && n <= obj.Length
    modifies obj
    ensures obj[..n] == Taken(ring[..], idx0, n) && obj[n..] == old(obj[n..])
  {
    hide Taken;
    var idx, i := idx0, 0;
    while i < n - n % 2
      invariant i % 2 == 0 && i <= n - n % 2 && idx == idx0 + i
      invariant forall k :: 0 <= k < obj.Length ==> obj[k] == if k < i then ring[idx0 + k] else old(obj[k])
    {
      obj[i] := ring[idx];
      obj[i + 1] := ring[idx + 1];
      i, idx := i + 2, idx + 2;
    }
    if n % 2 >= 1 {
      obj[i] := ring[idx];
      idx, i := idx + 1, i + 1;
    }
    TakenStraight(ring[..], obj[..n], idx0);
  }

  /** dequeue_elems_128. */
  method DequeueElems128<T>(ring: array<T>, idx: nat, obj: array<T>, n: nat)
    requires ring != obj && idx < ring.Length < TWO_32 && n <= ring.Length && n <= obj.Length && idx + n < TWO_32
    modifies obj
    ensures obj[..n] == Taken(ring[..], idx, n) && obj[n..] == old(obj[n..])
  {
    if StaysInside(idx, n, ring.Length) {
      TakeBy2(ring, idx, obj, n);
    } else {
      TakeRound(ring, idx, obj, n);
    }
  }

  // ----- what the copies amount to -----

  /** Element k lands in slot (idx + k) mod size, and no other slot changes. */
  lemma PlacedModular<T>(s: seq<T>, idx: nat, xs: seq<T>)
    requires idx < |s| && |xs| <= |s|
    ensures forall k :: 0 <= k < |xs| ==> Placed(s, idx, xs)[(idx + k) % |s|] == xs[k]
    ensures forall j :: 0 <= j < |s| && Offset(|s|, idx, j) >= |xs| ==> Placed(s, idx, xs)[j] == s[j]
  {
    forall k | 0 <= k < |xs|
      ensures Placed(s, idx, xs)[(idx + k) % |s|] == xs[k]
    {
      RoundOnce(idx + k, |s|);
    }
  }

  lemma RoundOnce(x: nat, size: nat)
    requires x < 2 * size
    ensures x % size == if x < size then x else x - size
  {
  }

  /** A dequeue copy of what an enqueue copy wrote gives the elements back. */
  lemma TakenPlaced<T>(s: seq<T>, idx: nat, xs: seq<T>)
    requires idx < |s| && |xs| <= |s|
    ensures Taken(Placed(s, idx, xs), idx, |xs|) == xs
  {
    PlacedModular(s, idx, xs);
    hide Placed;
  }

  // ----- elements of several 32-bit words -----

  lemma PlacedStraightIs<T>(s: seq<T>, idx: nat, xs: seq<T>)
    requires idx < |s| && idx + |xs| <= |s|
    ensures Placed(s, idx, xs) == s[..idx] + xs + s[idx + |xs|..]
  {
  }

  lemma PlacedRoundIs<T>(s: seq<T>, idx: nat, xs: seq<T>)
    requires idx < |s| && |s| - idx <= |xs| <= |s|
    ensures Placed(s, idx, xs) == xs[|s| - idx..] + s[|xs| - (|s| - idx)..idx] + xs[..|s| - idx]
  {
  }

  /** Elements of several words each, as the words lie in memory. */
  function Words<T>(es: seq<seq<T>>): seq<T> {
    if es == [] then [] else es[0] + Words(es[1..])
  }

  ghost predicate Uniform<T>(es: seq<seq<T>>, scale: nat) {
    forall i :: 0 <= i < |es| ==> |es[i]| == scale
  }

  lemma {:induction false} WordsConcat<T>(xs: seq<seq<T>>, ys: seq<seq<T>>)
    ensures Words(xs + ys) == Words(xs) + Words(ys)
  {
    hide Words;
    WordsUnfold(xs);
    WordsUnfold(xs + ys);
    if xs == [] {
      assert xs + ys == ys;
    } else {
      WordsConcat(xs[1..], ys);
      assert (xs + ys)[0] == xs[0] && (xs + ys)[1..] == xs[1..] + ys;
      Associative(xs[0], Words(xs[1..]), Words(ys));
    }
  }

  lemma Associative<T>(a: seq<T>, b: seq<T>, c: seq<T>)
    ensures a + (b + c) == (a + b) + c
  {
  }

  lemma WordsUnfold<T>(es: seq<seq<T>>)
    ensures Words(es) == if es == [] then [] else es[0] + Words(es[1..])
  {
  }

  lemma WordsConcat3<T>(xs: seq<seq<T>>, ys: seq<seq<T>>, zs: seq<seq<T>>)
    ensures Words(xs + ys + zs) == Words(xs) + Words(ys) + Words(zs)
  {
    hide Words;
    WordsConcat(xs, ys);
    WordsConcat(xs + ys, zs);
  }

  lemma {:induction false} WordsLength<T>(es: seq<seq<T>>, scale: nat)
    requires Uniform(es, scale)
    ensures |Words(es)| == |es| * scale
  {
    if es != [] {
      WordsLength(es[1..], scale);
      assert |es| * scale == scale + (|es| - 1) * scale;
    }
  }

  /** Cutting at an element is cutting at its first word. */
  lemma WordsCut<T>(es: seq<seq<T>>, scale: nat, i: nat)
    requires Uniform(es, scale) && i <= |es|
    ensures |Words(es)| == |es| * scale && i * scale <= |es| * scale
    ensures Words(es[..i]) == Words(es)[..i * scale] && Words(es[i..]) == Words(es)[i * scale..]
  {
    WordsLength(es, scale);
    WordsLength(es[..i], scale);
    WordsLength(es[i..], scale);
    assert es == es[..i] + es[i..];
    WordsConcat(es[..i], es[i..]);
  }

  lemma WordsSlice<T>(es: seq<seq<T>>, scale: nat, i: nat, j: nat)
    requires Uniform(es, scale) && i <= j <= |es|
    ensures |Words(es)| == |es| * scale && i * scale <= j * scale <= |es| * scale
    ensures Words(es[i..j]) == Words(es)[i * scale..j * scale]
  {
    WordsCut(es, scale, j);
    WordsCut(es[..j], scale, i);
    assert es[..j][i..] == es[i..j];
  }

  /** Copying words round the scaled buffer is copying elements round the buffer. */
  lemma WordsPlaced<T>(es: seq<seq<T>>, idx: nat, xs: seq<seq<T>>, scale: nat)
    requires scale > 0 && idx < |es| && |xs| <= |es| && Uniform(es, scale) && Uniform(xs, scale)
    ensures |Words(xs)| <= |Words(es)| == |es| * scale && idx * scale < |es| * scale
    ensures Placed(Words(es), idx * scale, Words(xs)) == Words(Placed(es, idx, xs))
  {
    WordsLength(es, scale);
    WordsLength(xs, scale);
    MulStrict(idx, |es|, scale);
    MulOrdered(|xs|, |es|, scale);
    if idx + |xs| <= |es| {
      WordsPlacedStraight(es, idx, xs, scale);
    } else {
      WordsPlacedRound(es, idx, xs, scale);
    }
  }

  lemma WordsPlacedStraight<T>(es: seq<seq<T>>, idx: nat, xs: seq<seq<T>>, scale: nat)
    requires scale > 0 && idx < |es| && idx + |xs| <= |es| && Uniform(es, scale) && Uniform(xs, scale)
    requires |Words(es)| == |es| * scale && |Words(xs)| == |xs| * scale && idx * scale < |es| * scale
    ensures Placed(Words(es), idx * scale, Words(xs)) == Words(Placed(es, idx, xs))
  {
    hide Words, Placed, Uniform;
    var j := idx + |xs|;
    PlacedStraightIs(es, idx, xs);
    WordsConcat3(es[..idx], xs, es[j..]);
    WordsCut(es, scale, idx);
    WordsCut(es, scale, j);
    MulDistributes(idx, |xs|, scale);
    StraightAssembled(Words(es), idx * scale, Words(xs), j * scale, Words(es[..idx]), Words(es[j..]));
  }

  lemma StraightAssembled<T>(s: seq<T>, idx: nat, xs: seq<T>, j: nat, before: seq<T>, after: seq<T>)
    requires idx < |s| && j == idx + |xs| <= |s| && before == s[..idx] && after == s[j..]
    ensures Placed(s, idx, xs) == before + xs + after
  {
    hide Placed;
    PlacedStraightIs(s, idx, xs);
  }

  lemma PlacedRoundCut<T>(s: seq<T>, idx: nat, xs: seq<T>, k: nat, m: nat)
    requires k > 0 && |s| == idx + k && |xs| == k + m && m <= idx
    ensures Placed(s, idx, xs) == xs[k..] + s[m..idx] + xs[..k]
  {
    hide Placed;
    PlacedRoundIs(s, idx, xs);
  }

  lemma WordsPlacedRound<T>(es: seq<seq<T>>, idx: nat, xs: seq<seq<T>>, scale: nat)
    requires scale > 0 && idx < |es| && |es| - idx <= |xs| <= |es| && Uniform(es, scale) && Uniform(xs, scale)
    requires |Words(es)| == |es| * scale && |Words(xs)| == |xs| * scale <= |es| * scale && idx * scale < |es| * scale
    ensures Placed(Words(es), idx * scale, Words(xs)) == Words(Placed(es, idx, xs))
  {
    hide Words, Placed;
    var k := |es| - idx;
    var m := |xs| - k;
    MulDistributes(idx, k, scale);
    MulDistributes(k, m, scale);
    PlacedRoundCut(es, idx, xs, k, m);
    WordsCut(xs, scale, k);
    WordsSlice(es, scale, m, idx);
    PlacedRoundCut(Words(es), idx * scale, Words(xs), k * scale, m * scale);
    WordsConcat3(xs[k..], es[m..idx], xs[..k]);
  }

  /** enqueue_elements for an element type of `scale` 32-bit words. */
  method EnqueueElements<T>(ring: array<T>, ghost es: seq<seq<T>>, idx: nat,
                            obj: seq<T>, ghost xs: seq<seq<T>>, scale: nat)
    requires scale > 0 && idx < |es| && |xs| <= |es| && Uniform(es, scale) && Uniform(xs, scale)
    requires ring[..] == Words(es) && obj == Words(xs) && ring.Length < TWO_32 && idx * scale + |obj| < TWO_32
    modifies ring
    ensures ring[..] == Words(Placed(es, idx, xs))
  {
    hide Words, Placed, Uniform;
    WordsPlaced(es, idx, xs, scale);
    EnqueueElems32(ring, idx * scale, obj);
  }

  lemma TakenStraightIs<T>(s: seq<T>, idx: nat, n: nat)
    requires idx < |s| && idx + n <= |s|
    ensures Taken(s, idx, n) == s[idx..idx + n]
  {
    TakenStraight(s, s[idx..idx + n], idx);
  }

  lemma TakenRoundIs<T>(s: seq<T>, idx: nat, k: nat, m: nat)
    requires k > 0 && |s| == idx + k && m <= idx
    ensures Taken(s, idx, k + m) == s[idx..] + s[..m]
  {
    TakenRound(s, s[idx..] + s[..m], idx);
  }

  /** Reading words round the scaled buffer is reading elements round the buffer. */
  lemma WordsTaken<T>(es: seq<seq<T>>, idx: nat, n: nat, scale: nat)
    requires scale > 0 && idx < |es| && n <= |es| && Uniform(es, scale)
    ensures |Words(es)| == |es| * scale && idx * scale < |es| * scale && n * scale <= |es| * scale
    ensures Taken(Words(es), idx * scale, n * scale) == Words(Taken(es, idx, n))
  {
    hide Words, Taken;
    WordsLength(es, scale);
    MulStrict(idx, |es|, scale);
    MulOrdered(n, |es|, scale);
    if idx + n <= |es| {
      WordsSlice(es, scale, idx, idx + n);
      MulDistributes(idx, n, scale);
      TakenStraightIs(es, idx, n);
      TakenStraightIs(Words(es), idx * scale, n * scale);
    } else {
      MulDistributes(|es| - idx, n - (|es| - idx), scale);
      WordsTakenRound(es, idx, |es| - idx, n - (|es| - idx), scale);
    }
  }

  lemma WordsTakenRound<T>(es: seq<seq<T>>, idx: nat, k: nat, m: nat, scale: nat)
    requires scale > 0 && k > 0 && |es| == idx + k && m <= idx && Uniform(es, scale)
    requires |Words(es)| == |es| * scale && idx * scale < |es| * scale
    ensures Taken(Words(es), idx * scale, k * scale + m * scale) == Words(Taken(es, idx, k + m))
  {
    hide Words, Taken;
    MulDistributes(idx, k, scale);
    TakenRoundIs(es, idx, k, m);
    WordsCut(es, scale, idx);
    WordsCut(es, scale, m);
    MulOrdered(m, idx, scale);
    TakenRoundIs(Words(es), idx * scale, k * scale, m * scale);
    WordsConcat(es[idx..], es[..m]);
  }

  /** dequeue_elements for an element type of `scale` 32-bit words. */
  method DequeueElements<T>(ring: array<T>, ghost es: seq<seq<T>>, idx: nat, obj: array<T>, n: nat, scale: nat)
    requires ring != obj && scale > 0 && idx < |es| && n <= |es| && Uniform(es, scale)
    requires ring[..] == Words(es) && ring.Length < TWO_32
    requires n * scale <= obj.Length && idx * scale + n * scale < TWO_32
    modifies obj
    ensures obj[..n * scale] == Words(Taken(es, idx, n)) && obj[n * scale..] == old(obj[n * scale..])
  {
    hide Words, Taken, Uniform;
    WordsTaken(es, idx, n, scale);
    DequeueElems32(ring, idx * scale, obj, n * scale);
  }
}
