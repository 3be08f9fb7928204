/** The copy macros of femu/inc/rte_ring.h, unrolled by four and wrapping once, against
    copying one object at a time as the transition system does. */
module RingCopy {
  import opened Arithmetic
  import opened RingModel

  /** The slots after the first n objects have been stored from index `head` on. */
  ghost function PutAll(slots: seq<Ptr>, head: Word, objs: seq<Ptr>, n: nat): (r: seq<Ptr>)
    requires |slots| > 0 && n <= |objs|
    ensures |r| == |slots|
  {
    if n == 0 then slots else PutAll(slots, head, objs, n - 1)[Slot(|slots|, head, n - 1) := objs[n - 1]]
  }

  /** The first n objects from index `head` on. */
  ghost function GetAll(slots: seq<Ptr>, head: Word, n: nat): (r: seq<Ptr>)
    requires |slots| > 0
    ensures |r| == n
  {
    if n == 0 then [] else GetAll(slots, head, n - 1) + [slots[Slot(|slots|, head, n - 1)]]
  }

  lemma SlotBeforeWrap(size: nat, head: Word, k: nat)
    requires size > 0 && First(size, head) + k < size
    ensures Slot(size, head, k) == First(size, head) + k
  {
    hide First;
    DivModUnique(0, First(size, head) + k, size);
  }

  lemma SlotAfterWrap(size: nat, head: Word, k: nat)
    requires size > 0 && size <= First(size, head) + k < 2 * size
    ensures Slot(size, head, k) == First(size, head) + k - size
  {
    hide First;
    DivModUnique(1, First(size, head) + k - size, size);
  }

  /** `ENQUEUE_PTRS`. */
  method EnqueuePtrs(ring: array<Ptr>, head: Word, objs: seq<Ptr>, n: nat)
    requires n < ring.Length && n <= |objs|
    modifies ring
    ensures ring[..] == PutAll(old(ring[..]), head, objs, n)
  {
    if First(ring.Length, head) + n < ring.Length {
      PutStraight(ring, head, objs, n);
    } else {
      PutWrapped(ring, head, objs, n);
    }
  }

  method PutStraight(ring: array<Ptr>, head: Word, objs: seq<Ptr>, n: nat)
    requires 0 < ring.Length && n <= |objs| && First(ring.Length, head) + n < ring.Length
    modifies ring
    ensures ring[..] == PutAll(old(ring[..]), head, objs, n)
  {
    hide Slot, First, PutAll;
    var size := ring.Length;
    var idx := First(size, head);
    var i := 0;
    ghost var was := ring[..];
    PutNone(was, head, objs);
    while i < n - n % 4
      invariant i % 4 == 0 && i <= n && idx == First(size, head) + i
      invariant ring[..] == PutAll(was, head, objs, i)
    {
      PutFour(was, head, objs, i);
      ring[idx] := objs[i];
      ring[idx + 1] := objs[i + 1];
      ring[idx + 2] := objs[i + 2];
      ring[idx + 3] := objs[i + 3];
      i, idx := i + 4, idx + 4;
    }
    while i < n
      invariant n - n % 4 <= i <= n && idx == First(size, head) + i
      invariant ring[..] == PutAll(was, head, objs, i)
    {
      PutOne(was, head, objs, i + 1);
      ring[idx] := objs[i];
      i, idx := i + 1, idx + 1;
    }
  }

  method PutWrapped(ring: array<Ptr>, head: Word, objs: seq<Ptr>, n: nat)
    requires n < ring.Length <= First(ring.Length, head) + n && n <= |objs|
    modifies ring
    ensures ring[..] == PutAll(old(ring[..]), head, objs, n)
  {
    hide Slot, First, PutAll;
    var size := ring.Length;
    var idx := First(size, head);
    var i := 0;
    ghost var was := ring[..];
    PutNone(was, head, objs);
    while idx < size
      invariant idx <= size && i <= n && idx == First(size, head) + i
      invariant ring[..] == PutAll(was, head, objs, i)
    {
      PutOne(was, head, objs, i + 1);
      ring[idx] := objs[i];
      i, idx := i + 1, idx + 1;
    }
    idx := 0;
    while i < n
      invariant i <= n && idx == First(size, head) + i - size
      invariant ring[..] == PutAll(was, head, objs, i)
    {
      PutOneWrapped(was, head, objs, i + 1);
      ring[idx] := objs[i];
      i, idx := i + 1, idx + 1;
    }
  }

  lemma PutNone(slots: seq<Ptr>, head: Word, objs: seq<Ptr>)
    requires |slots| > 0
    ensures PutAll(slots, head, objs, 0) == slots
  {
  }

  /** Four objects stored at once are four objects stored one by one. */
  lemma PutFour(slots: seq<Ptr>, head: Word, objs: seq<Ptr>, i: nat)
    requires i + 4 <= |objs| && |slots| > 0 && First(|slots|, head) + i + 3 < |slots|
    ensures var idx := First(|slots|, head) + i;
            PutAll(slots, head, objs, i + 4)
            == PutAll(slots, head, objs, i)
               [idx := objs[i]][idx + 1 := objs[i + 1]][idx + 2 := objs[i + 2]][idx + 3 := objs[i + 3]]
  {
    hide Slot, First, PutAll;
    PutOne(slots, head, objs, i + 1);
    PutOne(slots, head, objs, i + 2);
    PutOne(slots, head, objs, i + 3);
    PutOne(slots, head, objs, i + 4);
  }

  lemma PutOne(slots: seq<Ptr>, head: Word, objs: seq<Ptr>, n: nat)
    requires 0 < n <= |objs| && |slots| > 0 && First(|slots|, head) + n - 1 < |slots|
    ensures PutAll(slots, head, objs, n) == PutAll(slots, head, objs, n - 1)[First(|slots|, head) + n - 1 := objs[n - 1]]
  {
    SlotBeforeWrap(|slots|, head, n - 1);
  }

  lemma PutOneWrapped(slots: seq<Ptr>, head: Word, objs: seq<Ptr>, n: nat)
    requires 0 < n <= |objs| && |slots| > 0 && |slots| <= First(|slots|, head) + n - 1 < 2 * |slots|
    ensures PutAll(slots, head, objs, n)
            == PutAll(slots, head, objs, n - 1)[First(|slots|, head) + n - 1 - |slots| := objs[n - 1]]
  {
    SlotAfterWrap(|slots|, head, n - 1);
  }

  /** `DEQUEUE_PTRS`. */
  method DequeuePtrs(ring: array<Ptr>, head: Word, table: array<Ptr>, n: nat)
    requires n < ring.Length && n <= table.Length && ring != table
    modifies table
    ensures table[..n] == GetAll(ring[..], head, n) && table[n..] == old(table[n..])
  {
    if First(ring.Length, head) + n < ring.Length {
      GetStraight(ring, head, table, n);
    } else {
      GetWrapped(ring, head, table, n);
    }
  }

  method GetStraight(ring: array<Ptr>, head: Word, table: array<Ptr>, n: nat)
    requires 0 < ring.Length && n <= table.Length && ring != table && First(ring.Length, head) + n < ring.Length
    modifies table
    ensures table[..n] == GetAll(ring[..], head, n) && table[n..] == old(table[n..])
  {
    hide Slot, First, GetAll;
    var size := ring.Length;
    var idx := First(size, head);
    var i := 0;
    GetNone(ring[..], head);
    while i < n - n % 4
      invariant i % 4 == 0 && i <= n && idx == First(size, head) + i
      invariant table[..i] == GetAll(ring[..], head, i) && table[n..] == old(table[n..])
    {
      MoveFour(ring, idx, table, i, head);
      i, idx := i + 4, idx + 4;
    }
    while i < n
      invariant n - n % 4 <= i <= n && idx == First(size, head) + i
      invariant table[..i] == GetAll(ring[..], head, i) && table[n..] == old(table[n..])
    {
      GetOne(ring[..], head, i + 1);
      table[i] := ring[idx];
      i, idx := i + 1, idx + 1;
    }
  }

  /** The body of the unrolled loop. */
  method MoveFour(ring: array<Ptr>, idx: nat, table: array<Ptr>, i: nat, ghost head: Word)
    requires 0 < ring.Length && i + 4 <= table.Length && ring != table
    requires idx == First(ring.Length, head) + i && idx + 3 < ring.Length && table[..i] == GetAll(ring[..], head, i)
    modifies table
    ensures table[..i + 4] == GetAll(ring[..], head, i + 4) && table[i + 4..] == old(table[i + 4..])
  {
    hide Slot, First, GetAll;
    GetFour(ring[..], head, i);
    table[i] := ring[idx];
    table[i + 1] := ring[idx + 1];
    table[i + 2] := ring[idx + 2];
    table[i + 3] := ring[idx + 3];
    assert table[..i + 4] == old(table[..i]) + [ring[idx], ring[idx + 1], ring[idx + 2], ring[idx + 3]];
  }

  method GetWrapped(ring: array<Ptr>, head: Word, table: array<Ptr>, n: nat)
    requires n < ring.Length <= First(ring.Length, head) + n && n <= table.Length && ring != table
    modifies table
    ensures table[..n] == GetAll(ring[..], head, n) && table[n..] == old(table[n..])
  {
    hide Slot, First, GetAll;
    var size := ring.Length;
    var idx := First(size, head);
    var i := 0;
    GetNone(ring[..], head);
    while idx < size
      invariant idx <= size && i <= n && idx == First(size, head) + i
      invariant table[..i] == GetAll(ring[..], head, i) && table[n..] == old(table[n..])
    {
      GetOne(ring[..], head, i + 1);
      table[i] := ring[idx];
      i, idx := i + 1, idx + 1;
    }
    idx := 0;
    while i < n
      invariant i <= n && idx == First(size, head) + i - size
      invariant table[..i] == GetAll(ring[..], head, i) && table[n..] == old(table[n..])
    {
      GetOneWrapped(ring[..], head, i + 1);
      table[i] := ring[idx];
      i, idx := i + 1, idx + 1;
    }
  }

  lemma GetNone(slots: seq<Ptr>, head: Word)
    requires |slots| > 0
    ensures GetAll(slots, head, 0) == []
  {
  }

  lemma GetOneWrapped(slots: seq<Ptr>, head: Word, n: nat)
    requires 0 < n && |slots| > 0 && |slots| <= First(|slots|, head) + n - 1 < 2 * |slots|
    ensures GetAll(slots, head, n) == GetAll(slots, head, n - 1) + [slots[First(|slots|, head) + n - 1 - |slots|]]
  {
    SlotAfterWrap(|slots|, head, n - 1);
  }

  lemma GetFour(slots: seq<Ptr>, head: Word, i: nat)
    requires |slots| > 0 && First(|slots|, head) + i + 3 < |slots|
    ensures var idx := First(|slots|, head) + i;
            GetAll(slots, head, i + 4)
            == GetAll(slots, head, i) + [slots[idx], slots[idx + 1], slots[idx + 2], slots[idx + 3]]
  {
    hide Slot, First, GetAll;
    GetOne(slots, head, i + 1);
    GetOne(slots, head, i + 2);
    GetOne(slots, head, i + 3);
    GetOne(slots, head, i + 4);
  }

  lemma GetOne(slots: seq<Ptr>, head: Word, n: nat)
    requires 0 < n && |slots| > 0 && First(|slots|, head) + n - 1 < |slots|
    ensures GetAll(slots, head, n) == GetAll(slots, head, n - 1) + [slots[First(|slots|, head) + n - 1]]
  {
    SlotBeforeWrap(|slots|, head, n - 1);
  }

  // ----- The steps of the transition system ---------------------------------------------------------

  predicate CanCopy(s: Ring, t: nat, n: nat) {
    && t < |s.threads| && s.threads[t].Copying? && s.threads[t].k + n <= s.threads[t].n
    && HasTable(s.threads[t]) && |s.slots| == s.size > 0
  }

  /** n consecutive Copy steps of thread t. */
  function CopySteps(s: Ring, t: nat, n: nat): (r: Ring)
    requires CanCopy(s, t, n)
    ensures CanCopy(r, t, 0) && r.size == s.size && r.threads[t].n == s.threads[t].n
    ensures r.threads[t].k == s.threads[t].k + n && r.threads[t].req == s.threads[t].req
    ensures r.threads[t].oldHead == s.threads[t].oldHead
  {
    if n == 0 then s else Next(CopySteps(s, t, n - 1), Copy(t))
  }

  /** Copying step by step stores what the macro stores. */
  lemma {:induction false} StepsPutAll(s: Ring, t: nat, n: nat)
    requires CanCopy(s, t, n) && s.threads[t].k == 0 && s.threads[t].req.side.Prod?
    ensures CopySteps(s, t, n).slots == PutAll(s.slots, s.threads[t].oldHead, s.threads[t].req.objs, n)
  {
    if n > 0 {
      StepsPutAll(s, t, n - 1);
    }
  }

  /** Fetching step by step fetches what the macro fetches. */
  lemma {:induction false} StepsGetAll(s: Ring, t: nat, n: nat)
    requires CanCopy(s, t, n) && s.threads[t].k == 0 && s.threads[t].got == [] && s.threads[t].req.side.Cons?
    ensures CopySteps(s, t, n).slots == s.slots
    ensures CopySteps(s, t, n).threads[t].got == GetAll(s.slots, s.threads[t].oldHead, n)
  {
    if n > 0 {
      StepsGetAll(s, t, n - 1);
    }
  }
}
