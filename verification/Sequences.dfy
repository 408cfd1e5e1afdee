/** Sequences without repetitions. */
module Sequences {

  ghost predicate NoDup(q: seq<nat>) {
    forall i, j :: 0 <= i < j < |q| ==> q[i] != q[j]
  }

  lemma {:induction false} OccursOnce(q: seq<nat>, id: nat)
    requires NoDup(q)
    ensures multiset(q)[id] == if id in q then 1 else 0
  {
    if q != [] {
      assert q == [q[0]] + q[1..];
      OccursOnce(q[1..], id);
    }
  }
}
