/** Runs of the ring in which a head is loaded and then sits while others go on. */
module RingCases {
  import opened RingModel
  import opened RingProofs
  import opened RingRuns
  import opened RingCalls

  /** A run in which no head or limit gets 2^32 past a loaded head leads from s to t. */
  ghost predicate Reaches(s: Ring, t: Ring) {
    exists steps :: IsRun(s, steps) && PromptThroughout(s, steps) && RunAll(s, steps) == t
  }

  lemma Stepped(s: Ring, t: Ring, x: Step)
    requires Reaches(s, t) && Enabled(t, x) && Prompt(t, x)
    ensures Reaches(s, Next(t, x))
  {
    hide Enabled, Prompt, Next;
    var steps :| IsRun(s, steps) && PromptThroughout(s, steps) && RunAll(s, steps) == t;
    RunSplit(s, steps, x);
  }

  lemma Started(s: Ring)
    ensures Reaches(s, s)
  {
    assert IsRun(s, []) && PromptThroughout(s, []) && RunAll(s, []) == s;
  }

  // ----- A ring for one object, used by three threads ------------------------------------------

  function Ring1(): Ring { Start(2, 1, false, false, 3) }

  predicate Resting(th: Thread) { th.Idle? || th.Done? }

  /** p objects have been enqueued and c dequeued; thread 0 sits at th0 and the others rest. */
  ghost predicate Quiet(s: Ring, th0: Thread, p: nat, c: nat) {
    && s.size == 2 == |s.slots| && s.capacity == 1
    && s.prod == HeadTail(W(p), W(p), false) && s.cons == HeadTail(W(c), W(c), false)
    && s.hist.prod.head == s.hist.prod.tail == p && s.hist.cons.head == s.hist.cons.tail == c
    && |s.threads| == 3 && s.threads[0] == th0 && Resting(s.threads[1]) && Resting(s.threads[2])
  }

  /** Thread t is at th in a call that started in a quiet state. */
  ghost predicate Under(s: Ring, th0: Thread, t: nat, th: Thread) {
    && s.size == 2 == |s.slots| && s.capacity == 1
    && !s.prod.single && !s.cons.single
    && |s.threads| == 3 && s.threads[0] == th0 && 0 < t < 3 && s.threads[t] == th && Resting(s.threads[3 - t])
  }

  ghost predicate Counters(s: Ring, pHead: nat, pTail: nat, cHead: nat, cTail: nat) {
    && s.prod.head == W(pHead) && s.prod.tail == W(pTail) && s.cons.head == W(cHead) && s.cons.tail == W(cTail)
    && s.hist.prod.head == pHead && s.hist.prod.tail == pTail && s.hist.cons.head == cHead && s.hist.cons.tail == cTail
  }

  /** One object is enqueued or dequeued: the request, and the counters of both sides. */
  lemma BeginLoad(s: Ring, th0: Thread, t: nat, req: Request, p: nat, c: nat) returns (s': Ring)
    requires Reaches(Ring1(), s) && Quiet(s, th0, p, c) && 0 < t < 3
    requires req.max == 1 && (req.side.Prod? ==> |req.objs| == 1)
    ensures Reaches(Ring1(), s') && Counters(s', p, p, c, c)
    ensures var h := if req.side.Prod? then p else c; Under(s', th0, t, HeadLoaded(req, W(h), h))
  {
    hide Reaches, Ring1, W;
    var s1 := Next(s, Begin(t, req));
    Stepped(Ring1(), s, Begin(t, req));
    Stepped(Ring1(), s1, LoadHead(t));
    s' := Next(s1, LoadHead(t));
  }

  lemma LoadMove(s: Ring, th0: Thread, t: nat, req: Request, p: nat, c: nat) returns (s': Ring)
    requires Reaches(Ring1(), s) && Counters(s, p, p, c, c) && req.max == 1 && req.fixed
    requires var h := if req.side.Prod? then p else c; Under(s, th0, t, HeadLoaded(req, W(h), h))
    requires if req.side.Prod? then p == c else p == c + 1
    ensures Reaches(Ring1(), s')
    ensures Counters(s', if req.side.Prod? then p + 1 else p, p, if req.side.Prod? then c else c + 1, c)
    ensures var h := if req.side.Prod? then p else c; Under(s', th0, t, Copying(req, W(h), h, 1, 0, [], 1, false))
  {
    hide Reaches, Ring1, W;
    var h := if req.side.Prod? then p else c;
    WordDifference(1, c, c);
    WordDifference(0, c + 1, c);
    WordSum(h, 1);
    var s1 := Next(s, LoadTail(t));
    Stepped(Ring1(), s, LoadTail(t));
    assert s1.threads[t] == Decided(req, W(h), h, 1, 1);
    Stepped(Ring1(), s1, MoveHead(t));
    s' := Next(s1, MoveHead(t));
  }

  lemma CopyPublish(s: Ring, th0: Thread, t: nat, req: Request, p: nat, c: nat) returns (s': Ring)
    requires Reaches(Ring1(), s) && (req.side.Prod? ==> |req.objs| == 1)
    requires Counters(s, if req.side.Prod? then p + 1 else p, p, if req.side.Prod? then c else c + 1, c)
    requires var h := if req.side.Prod? then p else c; Under(s, th0, t, Copying(req, W(h), h, 1, 0, [], 1, false))
    ensures Reaches(Ring1(), s')
    ensures Quiet(s', th0, if req.side.Prod? then p + 1 else p, if req.side.Prod? then c else c + 1)
  {
    hide Reaches, Ring1, W, Slot;
    WordSum(if req.side.Prod? then p else c, 1);
    var s1 := Next(s, Copy(t));
    Stepped(Ring1(), s, Copy(t));
    Stepped(Ring1(), s1, Publish(t));
    s' := Next(s1, Publish(t));
  }

  lemma Call(s: Ring, th0: Thread, t: nat, req: Request, p: nat, c: nat) returns (s': Ring)
    requires Reaches(Ring1(), s) && Quiet(s, th0, p, c) && 0 < t < 3
    requires req.max == 1 && req.fixed && (req.side.Prod? ==> |req.objs| == 1)
    requires if req.side.Prod? then p == c else p == c + 1
    ensures Reaches(Ring1(), s')
    ensures Quiet(s', th0, if req.side.Prod? then p + 1 else p, if req.side.Prod? then c else c + 1)
  {
    hide *;
    var s1 := BeginLoad(s, th0, t, req, p, c);
    var s2 := LoadMove(s1, th0, t, req, p, c);
    s' := CopyPublish(s2, th0, t, req, p, c);
  }

  lemma Enqueue(s: Ring, th0: Thread, c: nat) returns (s': Ring)
    requires Reaches(Ring1(), s) && Quiet(s, th0, c, c)
    ensures Reaches(Ring1(), s') && Quiet(s', th0, c + 1, c)
  {
    hide Reaches, Ring1, Quiet;
    s' := Call(s, th0, 1, Request(Prod, [5], 1, true), c, c);
  }

  /** Objects go through the ring one by one, any number of times. */
  lemma {:induction false} Cycles(s: Ring, th0: Thread, n: nat) returns (s': Ring)
    requires Reaches(Ring1(), s) && Quiet(s, th0, 0, 0)
    ensures Reaches(Ring1(), s') && Quiet(s', th0, n, n)
  {
    hide Reaches, Ring1, Quiet;
    if n == 0 {
      s' := s;
    } else {
      var s1 := Cycles(s, th0, n - 1);
      var s2 := Enqueue(s1, th0, n - 1);
      s' := Call(s2, th0, 2, Request(Cons, [], 1, true), n, n - 1);
    }
  }

  /** Thread 0 begins a call and loads the head. */
  lemma HeadSits(req: Request) returns (s: Ring)
    requires req.side.Prod? ==> |req.objs| == req.max
    ensures Reaches(Ring1(), s) && Quiet(s, HeadLoaded(req, 0, 0), 0, 0)
  {
    hide Reaches;
    var s0 := Ring1();
    Started(s0);
    Stepped(s0, s0, Begin(0, req));
    var s1 := Next(s0, Begin(0, req));
    Stepped(s0, s1, LoadHead(0));
    s := Next(s1, LoadHead(0));
  }

  // ----- A stale head ---------------------------------------------------------------------------

  ghost predicate GoesFor(s: Ring, n: nat) {
    Enabled(s, LoadTail(0)) && Next(s, LoadTail(0)).threads[0].Decided? && Next(s, LoadTail(0)).threads[0].n == n
  }

  /** A producer that has loaded the head before one object went through goes for two objects
      on a ring that holds one. */
  lemma StaleAmount() returns (s: Ring)
    ensures Reaches(Start(2, 1, false, false, 3), s) && s.capacity == 1 && GoesFor(s, 2)
  {
    hide Reaches;
    var req := Request(Prod, [7, 8], 2, true);
    var s0 := HeadSits(req);
    s := Cycles(s0, HeadLoaded(req, 0, 0), 1);
  }

  /** A consumer that has loaded the head before two objects went through goes for two objects,
      with none in the ring. */
  lemma StaleEntries() returns (s: Ring)
    ensures Reaches(Start(2, 1, false, false, 3), s) && s.hist.prod.tail == s.hist.cons.tail && GoesFor(s, 2)
  {
    hide Reaches;
    var req := Request(Cons, [], 2, true);
    var s0 := HeadSits(req);
    s := Cycles(s0, HeadLoaded(req, 0, 0), 2);
  }

  // ----- A number that has come round ---------------------------------------------------------------

  /** The count has come round to 0. */
  ghost predicate RefusedWrongly(s: Ring) {
    && Enabled(s, LoadTail(0)) && Next(s, LoadTail(0)).threads[0].Done?
    && s.threads[0].req.max == 1 && s.RoomLeft(s.threads[0].req.side) == 1
  }

  lemma WrappedCount(s: Ring, req: Request)
    requires Quiet(s, HeadLoaded(req, 0, 0), WORD - 1, WORD - 1) && req.side.Prod? && req.max == 1
    ensures RefusedWrongly(s)
  {
  }

  /** A producer of one object loads the head and sleeps while 2^32 - 1 objects go through the
      ring.  Then it is refused although the ring is empty. */
  lemma WrappedCountRefuses() returns (s: Ring)
    ensures Reaches(Start(2, 1, false, false, 3), s) && RefusedWrongly(s)
  {
    hide Reaches, RefusedWrongly;
    var req := Request(Prod, [7], 1, true);
    var s0 := HeadSits(req);
    s := Cycles(s0, HeadLoaded(req, 0, 0), WORD - 1);
    WrappedCount(s, req);
  }

  /** The compare-and-set succeeds on a head that is not the one loaded. */
  ghost predicate Mistaken(s: Ring) {
    Enabled(s, MoveHead(0)) && MovesHead(s, s.threads[0]) && s.threads[0].at != s.Hist(s.threads[0].req.side).head
  }

  lemma WrappedMove(s: Ring, req: Request, p: nat, c: nat)
    requires Quiet(s, Decided(req, 0, 0, 1, 1), p, c) && req.side.Prod? && c <= p == WORD
    ensures Mistaken(s) && (HasRoom(s, MoveHead(0)) <==> p == c)
  {
  }

  /** Thread 0 decides on one object with head 0. */
  lemma DecisionSits(req: Request) returns (s: Ring)
    requires req == Request(Prod, [7], 1, true)
    ensures Reaches(Ring1(), s) && Quiet(s, Decided(req, 0, 0, 1, 1), 0, 0)
  {
    hide Reaches;
    var s0 := HeadSits(req);
    Stepped(Ring1(), s0, LoadTail(0));
    s := Next(s0, LoadTail(0));
  }

  /** While thread 0 sleeps, 2^32 objects are enqueued and all but the last dequeued.  Now the
      compare-and-set succeeds by mistake and the full ring is overfilled. */
  lemma WrappedHeadOverfills() returns (s: Ring)
    ensures Reaches(Start(2, 1, false, false, 3), s) && Inv(s) && Mistaken(s)
    ensures !HasRoom(s, MoveHead(0)) && !Ordered(Next(s, MoveHead(0)))
  {
    hide Reaches, Inv, HasRoom, Ordered;
    var req := Request(Prod, [7], 1, true);
    var th0 := Decided(req, 0, 0, 1, 1);
    var s1 := DecisionSits(req);
    var s2 := Cycles(s1, th0, WORD - 1);
    s := Enqueue(s2, th0, WORD - 1);
    ReachedHolds(s);
    WrappedMove(s, req, WORD, WORD - 1);
    MoveHeadKeepsInv(s, 0);
  }

  /** But if the last one is dequeued as well there is room again, and the same mistake does
      no harm. */
  lemma WrappedHeadFits() returns (s: Ring)
    ensures Reaches(Start(2, 1, false, false, 3), s) && Inv(s) && Mistaken(s)
    ensures HasRoom(s, MoveHead(0)) && Inv(Next(s, MoveHead(0)))
  {
    hide Reaches, Inv, HasRoom, Ordered;
    var req := Request(Prod, [7], 1, true);
    var s1 := DecisionSits(req);
    s := Cycles(s1, Decided(req, 0, 0, 1, 1), WORD);
    ReachedHolds(s);
    WrappedMove(s, req, WORD, WORD);
    MoveHeadKeepsInv(s, 0);
  }

  lemma ReachedHolds(s: Ring)
    requires Reaches(Ring1(), s)
    ensures Inv(s)
  {
    hide Inv, IsRun, RunAll, PromptThroughout, RoomThroughout, InvThroughout;
    StartHolds(2, 1, false, false, 3);
    var steps :| IsRun(Ring1(), steps) && PromptThroughout(Ring1(), steps) && RunAll(Ring1(), steps) == s;
    RunKeepsInv(Ring1(), steps);
  }
}
