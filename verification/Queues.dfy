/** Intrusive tail queues as sequences of the numbers of their members. */
module Queues {
  import opened Wrappers

  ghost predicate NoDup(q: seq<nat>) {
    forall i, j :: 0 <= i < j < |q| ==> q[i] != q[j]
  }

  ghost function SetOf(q: seq<nat>): set<nat> {
    set x | x in q
  }

  /** QTAILQ_REMOVE. */
  function Without(q: seq<nat>, x: nat): seq<nat> {
    if q == [] then [] else if q[0] == x then q[1..] else [q[0]] + Without(q[1..], x)
  }

  lemma {:induction false} WithoutElems(q: seq<nat>, x: nat)
    requires NoDup(q) && x in q
    ensures NoDup(Without(q, x)) && |Without(q, x)| == |q| - 1
    ensures forall y :: y in Without(q, x) <==> y in q && y != x
  {
    if q[0] != x {
      WithoutElems(q[1..], x);
      assert q == [q[0]] + q[1..];
      assert q[0] !in q[1..];
    } else {
      assert q == [x] + q[1..];
    }
  }

  /** The member that follows x, as QTAILQ_FOREACH_SAFE remembers it. */
  function NextIn(q: seq<nat>, x: nat): Option<nat> {
    if q == [] then None
    else if q[0] != x then NextIn(q[1..], x)
    else if |q| > 1 then Some(q[1])
    else None
  }

  /** Removing, and looking past, the first member of what remains of a queue. */
  lemma {:induction false} AtFront(done: seq<nat>, rest: seq<nat>)
    requires rest != [] && rest[0] !in done
    ensures Without(done + rest, rest[0]) == done + rest[1..]
    ensures NextIn(done + rest, rest[0]) == if |rest| > 1 then Some(rest[1]) else None
  {
    if done == [] {
      assert done + rest == rest && done + rest[1..] == rest[1..];
    } else {
      AtFront(done[1..], rest);
      assert (done + rest)[1..] == done[1..] + rest;
      assert [done[0]] + (done[1..] + rest[1..]) == done + rest[1..];
    }
  }
}
