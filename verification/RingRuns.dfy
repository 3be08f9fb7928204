/** Whole runs of the ring: when the invariant holds, FIFO order, what calls return, exclusive
    slots, progress. */
module RingRuns {
  import opened Arithmetic
  import opened RingModel
  import opened RingProofs

  /** The ring after `rte_ring_init`, with m threads about to use it. */
  function Start(size: nat, capacity: Word, sp: bool, sc: bool, m: nat): Ring {
    Ring(size, capacity, HeadTail(0, 0, sp), HeadTail(0, 0, sc), seq(size, _ => 0),
         seq(m, _ => Idle), History(Count(0, 0, []), Count(0, 0, []), [], []))
  }

  lemma StartHolds(size: nat, capacity: Word, sp: bool, sc: bool, m: nat)
    requires capacity < size && WORD % size == 0
    ensures Inv(Start(size, capacity, sp, sc, m))
  {
  }

  /** The one step that can break the invariant moves a head past its limit. */
  lemma StepKeepsInv(s: Ring, step: Step)
    requires Inv(s) && Enabled(s, step)
    ensures Inv(Next(s, step)) <==> HasRoom(s, step)
  {
    hide Inv, Enabled, Next;
    match step
    case Begin(t, req) => BeginKeepsInv(s, t, req);
    case LoadHead(t) => LoadHeadKeepsInv(s, t);
    case LoadTail(t) => LoadTailKeepsInv(s, t);
    case MoveHead(t) => MoveHeadKeepsInv(s, t);
    case Copy(t) => CopyKeepsInv(s, t);
    case Publish(t) => PublishKeepsInv(s, t);
  }

  /** The invariant holds before, between and after the steps. */
  ghost predicate InvThroughout(s: Ring, steps: seq<Step>)
    requires IsRun(s, steps)
    decreases |steps|
  {
    Inv(s) && (steps != [] ==> InvThroughout(Next(s, steps[0]), steps[1..]))
  }

  /** The protocol invariant holds throughout a run (the counters stay ordered, the 32-bit
      fields are the counters modulo 2^32, and reservations tile) if and only if every head that
      is moved has room for the objects, as it does if no head or limit gets 2^32 past a head
      that a call has loaded. */
  lemma {:induction false} RunKeepsInv(s: Ring, steps: seq<Step>)
    requires Inv(s) && IsRun(s, steps)
    ensures InvThroughout(s, steps) <==> RoomThroughout(s, steps)
    ensures RoomThroughout(s, steps) ==> Inv(RunAll(s, steps))
    ensures PromptThroughout(s, steps) ==> RoomThroughout(s, steps)
    decreases |steps|
  {
    hide Inv, Enabled, HasRoom, Prompt, Next;
    if steps != [] {
      StepKeepsInv(s, steps[0]);
      PromptHasRoom(s, steps[0]);
      if HasRoom(s, steps[0]) {
        RunKeepsInv(Next(s, steps[0]), steps[1..]);
      } else {
        NotThroughout(Next(s, steps[0]), steps[1..]);
      }
    }
  }

  lemma NotThroughout(s: Ring, steps: seq<Step>)
    requires IsRun(s, steps) && !Inv(s)
    ensures !InvThroughout(s, steps)
  {
    hide Inv, IsRun, Next;
  }

  /** The objects dequeued are a prefix of the objects enqueued, within the capacity. */
  lemma RunIsFifo(size: nat, capacity: Word, sp: bool, sc: bool, m: nat, steps: seq<Step>)
    requires capacity < size && WORD % size == 0
    requires IsRun(Start(size, capacity, sp, sc, m), steps)
    requires RoomThroughout(Start(size, capacity, sp, sc, m), steps)
    ensures var h := RunAll(Start(size, capacity, sp, sc, m), steps).hist;
            h.delivered <= h.published && |h.published| <= |h.delivered| + capacity
  {
    hide Inv, IsRun, RunAll, RoomThroughout, PromptThroughout, InvThroughout;
    StartHolds(size, capacity, sp, sc, m);
    RunKeepsInv(Start(size, capacity, sp, sc, m), steps);
    TailsGrow(Start(size, capacity, sp, sc, m), steps);
    PrefixDelivered(RunAll(Start(size, capacity, sp, sc, m), steps));
  }

  lemma PrefixDelivered(s: Ring)
    requires Inv(s)
    ensures s.hist.delivered <= s.hist.published && |s.hist.published| <= |s.hist.delivered| + s.capacity
  {
    hide Tiled, ThreadsOk, OneAtATime, Words;
  }

  // ----- Refinement ----------------------------------------------------------------------------

  /** The queue the ring implements: published and not yet reserved for dequeueing. */
  ghost function Queue(s: Ring): seq<Ptr> {
    if s.hist.cons.head <= s.hist.prod.tail <= |s.hist.published| then
      s.hist.published[s.hist.cons.head..s.hist.prod.tail]
    else []
  }

  /** The objects that a step takes off the queue: those a consumer has just reserved. */
  ghost function Taken(s: Ring, step: Step): seq<Ptr>
    requires Enabled(s, step)
  {
    var th := s.threads[step.t];
    var head := s.hist.cons.head;
    if step.MoveHead? && th.req.side.Cons? && MovesHead(s, th) && head + th.n <= |s.hist.published|
    then s.hist.published[head..head + th.n]
    else []
  }

  /** The objects that a step puts on the queue: those a producer publishes. */
  ghost function Put(s: Ring, step: Step): seq<Ptr>
    requires Enabled(s, step)
  {
    var th := s.threads[step.t];
    if step.Publish? && th.req.side.Prod? then th.req.objs[..th.n] else []
  }

  /** Each step of the ring takes objects off the front of one FIFO queue, puts objects at
      its end, or leaves it alone. */
  lemma RefinesQueue(s: Ring, step: Step)
    requires Inv(s) && Enabled(s, step) && HasRoom(s, step)
    ensures Queue(s) + Put(s, step) == Taken(s, step) + Queue(Next(s, step))
  {
    hide Inv, Enabled, HasRoom, Next, Queue;
    if step.MoveHead? {
      TakesFromFront(s, step.t);
    } else if step.Publish? {
      PutsAtEnd(s, step.t);
    } else {
      LeavesQueue(s, step);
    }
  }

  lemma LeavesQueue(s: Ring, step: Step)
    requires Enabled(s, step) && !step.MoveHead? && !step.Publish?
    ensures Queue(Next(s, step)) == Queue(s)
  {
    hide W, Slot, Available, Amount;
  }

  lemma TakesFromFront(s: Ring, t: nat)
    requires Inv(s) && Enabled(s, MoveHead(t)) && HasRoom(s, MoveHead(t))
    ensures Queue(s) == Taken(s, MoveHead(t)) + Queue(Next(s, MoveHead(t)))
  {
    hide Inv, W, Fits, Answers, ThreadsOk, Configured;
    InvParts(s);
    PublishedCount(s);
  }

  lemma PublishedCount(s: Ring)
    requires Inv(s)
    ensures |s.hist.published| == s.hist.prod.tail
  {
    hide Configured, Fifo, Tiled, ThreadsOk, OneAtATime, Words, Ordered;
  }

  lemma PutsAtEnd(s: Ring, t: nat)
    requires Inv(s) && Enabled(s, Publish(t))
    ensures Queue(Next(s, Publish(t))) == Queue(s) + Put(s, Publish(t))
  {
    hide Inv, W, Tiled;
    InvParts(s);
    StoredPart(s);
    TailReached(s, t);
  }

  /** A finished dequeue returns exactly what it took; a finished enqueue has put in exactly
      what it was given.  It comes to as many objects as there was room for at the recorded
      moment, all or nothing with a fixed count. */
  lemma CallResult(s: Ring, t: nat)
    requires Inv(s) && t < |s.threads| && s.threads[t].Done?
    ensures var th := s.threads[t];
            && th.n <= th.req.max && (th.req.fixed ==> th.n == 0 || th.n == th.req.max)
            && (th.n > 0 ==> th.n <= th.room)
            && (!th.wrapped ==>
                  && 0 <= th.room
                  && th.n == if th.req.max <= th.room then th.req.max else if th.req.fixed then 0 else th.room)
            && (th.n > 0 ==> th.at + th.n <= |s.hist.published|
                             && s.hist.published[th.at..th.at + th.n]
                                == if th.req.side.Prod? then th.req.objs[..th.n] else th.got)
  {
    hide Tiled, OneAtATime, W;
    assert ThreadOk(s, s.threads[t]);
  }

  // ----- What a call can see ----------------------------------------------------------------------

  /** With the head just loaded, a fixed-count call is refused exactly when there is no room
      for all its objects, and a variable-count call goes for as many as there is room for.
      From a head loaded earlier it goes for no less than that, so a refusal is right as long as
      the distance to the limit is below 2^32. */
  lemma Decision(s: Ring, t: nat)
    requires Inv(s) && Enabled(s, LoadTail(t))
    ensures var th := s.threads[t];
            var side, th', room := th.req.side, Next(s, LoadTail(t)).threads[t], s.RoomLeft(th.req.side);
            && 0 <= room <= s.capacity
            && (th.at == s.Hist(side).head ==>
                  th'.n == if th.req.max <= room then th.req.max else if th.req.fixed then 0 else room)
            && (s.Limit(side) - th.at < WORD ==>
                  th'.n >= if th.req.max <= room then th.req.max else if th.req.fixed then 0 else room)
            && (th'.Decided? ==> th'.n <= th.req.max && (th.req.fixed ==> th'.n == th.req.max))
            && (s.Limit(side) - th.at < WORD && th'.Done? ==>
                  th.req.max == 0 || if th.req.fixed then th.req.max > room else room == 0)
  {
    hide Inv, W, Tiled, Available;
    InvParts(s);
    var th := s.threads[t];
    assert ThreadOk(s, th);
    LimitAhead(s, th.req.side);
    TrueCount(s, th.req.side, th.at);
  }

  /** A refusal from a head loaded at any earlier time is right whatever is asked for exactly
      if the count is no less than the room there is. */
  lemma RefusalsAreRight(s: Ring, side: Side, at: nat)
    requires Inv(s) && at <= s.Hist(side).head
    ensures 0 <= s.RoomLeft(side) < WORD
    ensures (forall req: Request | req.side == side && Amount(req, Available(s, side, W(at))) == 0 ::
               Amount(req, s.RoomLeft(side)) == 0)
            <==> Available(s, side, W(at)) >= s.RoomLeft(side)
    ensures s.Limit(side) - at < WORD ==> Available(s, side, W(at)) >= s.RoomLeft(side)
  {
    hide Inv, Available, W;
    InvParts(s);
    LimitAhead(s, side);
    TrueCount(s, side, at);
    var free, room := Available(s, side, W(at)), s.RoomLeft(side);
    if free < room {
      var req := Request(side, [], room, true);
      assert Amount(req, free) == 0 && Amount(req, room) == room;
    }
  }

  /** What the documentation takes for the greatest possible count of available entries. */
  function DocumentedLimit(s: Ring, side: Side): int {
    if side.Prod? then s.capacity else s.size - 1
  }

  /** The counter `laps` times 2^32 further on, which has the same 32 bits. */
  function Lapped(at: nat, laps: nat): nat {
    at + laps * WORD
  }

  /** Of the counters with these 32 bits, one is within the documented distance of the limit. */
  ghost predicate CloseToLimit(s: Ring, side: Side, at: nat) {
    exists laps: nat :: s.Limit(side) - DocumentedLimit(s, side) <= Lapped(at, laps) <= s.Limit(side)
  }

  /** The count computed from a head loaded at any earlier time is within the documented range
      exactly if that head is close to the limit.  For a head less than 2^32 behind: exactly if
      no object has been dequeued past it (for producers), or fewer objects than slots have
      been enqueued past it (for consumers). */
  lemma StaleCount(s: Ring, side: Side, at: nat)
    requires Inv(s) && at <= s.Hist(side).head
    ensures Available(s, side, W(at)) == W(s.Limit(side) - at)
    ensures Available(s, side, W(at)) <= DocumentedLimit(s, side) <==> CloseToLimit(s, side, at)
    ensures s.Limit(side) - at < WORD ==> (CloseToLimit(s, side, at) <==> s.Limit(side) - DocumentedLimit(s, side) <= at)
  {
    hide Tiled, ThreadsOk, OneAtATime, W, Stored, Fifo, CloseToLimit;
    var d := s.Limit(side) - at;
    assert d >= 0;
    AvailableOf(s, side, at);
    SizeInWord(s);
    CloseMeans(s, side, at);
    if d < WORD { RemainderOfSmall(d, WORD); }
    WordIsRemainder(d);
  }

  lemma WordIsRemainder(d: nat)
    ensures W(d) == d % WORD
  {
  }

  lemma SizeInWord(s: Ring)
    requires Configured(s)
    ensures 0 < s.size <= WORD
  {
    if s.size > WORD { RemainderOfSmall(WORD, s.size); }
  }

  lemma CloseMeans(s: Ring, side: Side, at: nat)
    requires at <= s.Limit(side) && 0 <= DocumentedLimit(s, side) < WORD
    ensures CloseToLimit(s, side, at) <==> (s.Limit(side) - at) % WORD <= DocumentedLimit(s, side)
  {
    hide DocumentedLimit;
    var limit, d := s.Limit(side), s.Limit(side) - at;
    var q := d / WORD;
    assert d == q * WORD + d % WORD;
    assert limit - Lapped(at, q) == d % WORD;
    if CloseToLimit(s, side, at) {
      var laps: nat :| limit - DocumentedLimit(s, side) <= Lapped(at, laps) <= limit;
      DivModUnique(laps, limit - Lapped(at, laps), WORD);
    }
  }

  /** Only the compare-and-set makes a count outside that range harmless: if the head has moved
      on, by less than 2^32, it fails, and nothing but the thread's own variables changes. */
  lemma StaleHeadIsRetried(s: Ring, t: nat)
    requires Inv(s) && Enabled(s, MoveHead(t))
    requires 0 < s.Hist(s.threads[t].req.side).head - s.threads[t].at < WORD
    ensures Next(s, MoveHead(t)) == WithThread(s, t, Looping(s.threads[t].req))
  {
    hide Inv, W;
    SameHead(s, t);
  }

  /** Two threads never own the same slot. */
  lemma SlotsAreExclusive(s: Ring, side: Side, side': Side, t: nat, u: nat, i: nat, j: nat)
    requires Inv(s) && Holds(s, side, t, i) && Holds(s, side', u, j) && t != u
    ensures SlotAt(s.size, i) != SlotAt(s.size, j)
  {
    hide Inv, Holds, Tiled;
    InvParts(s);
    assert Tiled(s, side) && Tiled(s, side');
    TilesHold(s, side, t, i);
    TilesHold(s, side', u, j);
    assert side == side' || side != side';
    OtherSlot(s, i, j);
  }

  // ----- Progress -----------------------------------------------------------------------------------

  ghost predicate CanFinish(s: Ring, u: nat)
    ensures CanFinish(s, u) ==> u < |s.threads|
  {
    Enabled(s, Copy(u)) || Enabled(s, Publish(u))
  }

  /** A thread waiting in `update_tail` never waits in vain: the oldest reservation of its
      side can always copy on or publish. */
  lemma SomeoneCanFinish(s: Ring, t: nat)
    requires Inv(s) && t < |s.threads| && s.threads[t].Copying?
    ensures exists u: nat :: CanFinish(s, u) && s.threads[u].Copying? && s.threads[u].req.side == s.threads[t].req.side
  {
    hide Inv;
    InvParts(s);
    var side := s.threads[t].req.side;
    assert ThreadOk(s, s.threads[t]) && Tiled(s, side) && Words(s, side);
    FirstHolder(s, side);
    var u := s.Hist(side).owner[s.Hist(side).tail];
    assert ThreadOk(s, s.threads[u]);
    assert CanFinish(s, u);
  }

  /** A compare-and-set fails only because another call has moved the head meanwhile. */
  lemma FailureMeansProgress(s: Ring, t: nat)
    requires Inv(s) && Enabled(s, MoveHead(t)) && Next(s, MoveHead(t)).threads[t].Looping?
    ensures s.threads[t].at < s.Hist(s.threads[t].req.side).head
  {
    hide Inv;
    InvParts(s);
    var th := s.threads[t];
    assert ThreadOk(s, th) && Words(s, th.req.side);
  }

  // ----- rte_ring_count ------------------------------------------------------------------------------

  /** `rte_ring_count` on the tails it has loaded. */
  function RingCount(size: nat, capacity: Word, prodTail: Word, consTail: Word): nat
    requires size > 0
  {
    var count := W(prodTail - consTail) % size;
    if count > capacity then capacity else count
  }

  lemma {:induction false} TailsGrow(s: Ring, steps: seq<Step>)
    requires IsRun(s, steps)
    ensures var t := RunAll(s, steps);
            t.hist.prod.tail >= s.hist.prod.tail && t.size == s.size && t.capacity == s.capacity
    decreases |steps|
  {
    if steps != [] {
      TailsGrow(Next(s, steps[0]), steps[1..]);
    }
  }

  /** The tail of the producers is loaded first and the other after any steps in between.  The
      count is never above the capacity, and unless consumers have overtaken the loaded tail,
      it is the number of objects enqueued at the first load and not yet fully dequeued at the
      second; with no steps in between that is exact. */
  lemma RingCountIsExact(s: Ring, steps: seq<Step>)
    requires Inv(s) && IsRun(s, steps) && RoomThroughout(s, steps)
    ensures var t := RunAll(s, steps);
            && 0 < s.size
            && var n := RingCount(s.size, s.capacity, s.prod.tail, t.cons.tail);
               && n <= s.capacity
               && (|t.hist.delivered| <= |s.hist.published| ==> n == |s.hist.published| - |t.hist.delivered|)
               && (steps == [] ==> n == |s.hist.published| - |s.hist.delivered|)
  {
    hide Tiled, ThreadsOk, OneAtATime, W, IsRun, RunAll, RoomThroughout, PromptThroughout, InvThroughout;
    RunKeepsInv(s, steps);
    TailsGrow(s, steps);
    var t := RunAll(s, steps);
    var d := s.hist.prod.tail - t.hist.cons.tail;
    if d >= 0 {
      WordDifference(0, s.hist.prod.tail, t.hist.cons.tail);
      RemainderOfSmall(d, s.size);
    }
    if steps == [] { NoSteps(s, steps); }
  }

  lemma NoSteps(s: Ring, steps: seq<Step>)
    requires steps == []
    ensures IsRun(s, steps) && RunAll(s, steps) == s
  {
  }
}
