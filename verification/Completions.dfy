/** `nvme_process_cq_cpl` of femu/nvme-io.c: requests come out of a ring, wait in a heap
    ordered by `expire_time`, and are completed once they have expired.  Every completion
    queue is active; an inactive one would make the C loop spin. */
module Completions {
  import opened Queues
  import opened PQueues

  /** No request is lost or duplicated between the ring, the heap and the completions. */
  ghost predicate Conserved(before: set<nat>, after: set<nat>, posted: seq<nat>) {
    NoDup(posted) && SetOf(posted) !! after && SetOf(posted) + after == before
  }

  /** Completions are in order of expiry, the i-th not before the i-th clock sample. */
  ghost predicate OnTime(posted: seq<nat>, expire: seq<nat>, clock: nat -> nat) {
    && (forall i :: 0 <= i < |posted| ==> posted[i] < |expire| && expire[posted[i]] <= clock(i))
    && (forall i, j :: 0 <= i < j < |posted| && posted[j] < |expire| ==>
          posted[i] < |expire| && expire[posted[i]] <= expire[posted[j]])
  }

  /** Everything left expires no earlier than what has been completed. */
  ghost predicate Later(posted: seq<nat>, left: set<nat>, expire: seq<nat>) {
    forall i :: 0 <= i < |posted| ==>
      posted[i] < |expire| && forall e :: e in left ==> e < |expire| && expire[posted[i]] <= expire[e]
  }

  lemma OneMorePosted(before: set<nat>, left: set<nat>, posted: seq<nat>, expire: seq<nat>, clock: nat -> nat, e: nat)
    requires Conserved(before, left, posted) && OnTime(posted, expire, clock) && Later(posted, left, expire)
    requires e in left && e < |expire| && expire[e] <= clock(|posted|)
    requires forall x :: x in left ==> x < |expire| && expire[e] <= expire[x]
    ensures Conserved(before, left - {e}, posted + [e]) && OnTime(posted + [e], expire, clock)
    ensures Later(posted + [e], left - {e}, expire)
  {
    assert SetOf(posted + [e]) == SetOf(posted) + {e};
    assert e !in posted by { assert e !in SetOf(posted); }
  }

  class Poller {
    const pq: PQueue

    constructor (pq: PQueue)
      ensures this.pq == pq
    {
      this.pq := pq;
    }

    /** The first loop: take everything out of the ring. */
    method Collect(ring: seq<nat>)
      requires pq.Valid() && NoDup(ring) && forall e :: e in ring ==> e < pq.pos.Length && e !in pq.Elements()
      modifies pq, pq.d, pq.pos
      ensures pq.Valid() && pq.Elements() == old(pq.Elements()) + SetOf(ring) && (pq.d == old(pq.d) || fresh(pq.d))
    {
      var i := 0;
      ghost var was := pq.Elements();
      while i < |ring|
        invariant i <= |ring| && pq.Valid() && (pq.d == old(pq.d) || fresh(pq.d))
        invariant pq.Elements() == was + SetOf(ring[..i])
      {
        assert ring[i] !in SetOf(ring[..i]) && ring[i] in ring;
        assert ring[..i + 1] == ring[..i] + [ring[i]];
        assert SetOf(ring[..i + 1]) == SetOf(ring[..i]) + {ring[i]};
        pq.Insert(ring[i]);
        i := i + 1;
      }
      assert ring[..i] == ring;
    }

    /** The second loop: complete what has expired.  `clock(i)` is the i-th time the clock is
        read. */
    method Expire(clock: nat -> nat) returns (posted: seq<nat>)
      requires pq.Valid()
      modifies pq, pq.d, pq.pos
      ensures pq.Valid() && Conserved(old(pq.Elements()), pq.Elements(), posted)
      ensures OnTime(posted, pq.pri[..], clock) && Later(posted, pq.Elements(), pq.pri[..])
      ensures forall e :: e in pq.Elements() ==> e < pq.pri.Length && clock(|posted|) < pq.pri[e]
    {
      posted := [];
      ghost var before, expire := pq.Elements(), pq.pri[..];
      assert SetOf([]) == {};
      while true
        invariant pq.Valid() && pq.d == old(pq.d) && pq.pri[..] == expire
        invariant Conserved(before, pq.Elements(), posted)
        invariant OnTime(posted, expire, clock) && Later(posted, pq.Elements(), expire)
        decreases pq.size
      {
        var found, req := pq.Peek();
        if !found {
          break;
        }
        var now := clock(|posted|);
        if now < pq.pri[req] {
          break;
        }
        OneMorePosted(before, pq.Elements(), posted, expire, clock, req);
        posted := posted + [req];
        found, req := pq.Pop();
      }
    }

    /** `nvme_process_cq_cpl`: what comes out of the ring is completed or stays in the heap;
        completions are in order and never early; afterwards everything left expires later
        than the last clock sample. */
    method ProcessCompletions(ring: seq<nat>, clock: nat -> nat) returns (posted: seq<nat>)
      requires pq.Valid() && NoDup(ring) && forall e :: e in ring ==> e < pq.pos.Length && e !in pq.Elements()
      modifies pq, pq.d, pq.pos
      ensures pq.Valid() && Conserved(old(pq.Elements()) + SetOf(ring), pq.Elements(), posted)
      ensures OnTime(posted, pq.pri[..], clock)
      ensures forall e :: e in pq.Elements() ==> e < pq.pri.Length && clock(|posted|) < pq.pri[e]
    {
      Collect(ring);
      posted := Expire(clock);
    }
  }
}
