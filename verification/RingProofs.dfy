/** Every run of the ring keeps its invariant and behaves like a FIFO queue. */
module RingProofs {
  import opened Arithmetic
  import opened RingModel

  // ----- Words and slots ---------------------------------------------------------------------

  /** A 32-bit difference is exact when the true difference fits. */
  lemma WordDifference(a: int, x: int, y: int)
    requires 0 <= a + x - y < WORD
    ensures W(a + W(x) - W(y)) == a + x - y
  {
  }

  lemma WordSum(x: int, n: int)
    ensures W(W(x) + n) == W(x + n)
  {
  }

  lemma AvailableOf(s: Ring, side: Side, at: nat)
    requires Words(s, Prod) && Words(s, Cons)
    ensures Available(s, side, W(at)) == W(s.Limit(side) - at)
  {
    hide W;
    WordsSubtract(s.capacity, s.hist.cons.tail, at);
    WordsSubtract(0, s.hist.prod.tail, at);
  }

  lemma WordsSubtract(a: int, x: int, y: int)
    ensures W(a + W(x) - W(y)) == W(a + x - y)
  {
    var e, k := a + W(x) - W(y), x / WORD - y / WORD;
    assert a + x - y == e + k * WORD;
    DivModUnique(e / WORD + k, e % WORD, WORD);
  }

  lemma RemainderOfSmall(d: nat, m: nat)
    requires d < m
    ensures d % m == d
  {
  }

  /** The index computed from the 32-bit head is the slot of the unbounded index. */
  lemma SlotOfIndex(s: Ring, at: nat, k: nat)
    requires Configured(s)
    ensures s.size > 0 && Slot(s.size, W(at), k) == SlotAt(s.size, at + k)
  {
    var q := WORD / s.size;
    assert q * s.size == WORD;
    var c := at / WORD;
    assert at == W(at) + c * WORD;
    assert c * WORD == (c * q) * s.size;
    ModMultiple(W(at), c * q, s.size);
    ModAdds(at, k, s.size);
  }

  lemma SlotsDiffer(x: nat, y: nat, m: nat)
    requires x != y && -(m as int) < y - x < m
    ensures SlotAt(m, x) != SlotAt(m, y)
  {
    if x % m == y % m {
      SameRemainder(x, y, m);
    }
  }

  // ----- Steps that only move a thread -----------------------------------------------------

  lemma QuietKeepsTiled(s: Ring, t: nat, th: Thread, side: Side)
    requires t < |s.threads| && !s.threads[t].Copying? && !th.Copying? && Tiled(s, side)
    ensures Tiled(WithThread(s, t, th), side)
  {
    var s' := WithThread(s, t, th);
    forall u: nat, i: nat ensures Holds(s', side, u, i) <==> Holds(s, side, u, i) {
    }
  }

  lemma QuietKeepsThreads(s: Ring, t: nat, th: Thread)
    requires Configured(s) && t < |s.threads| && ThreadsOk(s) && ThreadOk(s, th)
    ensures ThreadsOk(WithThread(s, t, th))
  {
    var s' := WithThread(s, t, th);
    forall u | 0 <= u < |s'.threads| ensures ThreadOk(s', s'.threads[u]) {
      assert u != t ==> ThreadOk(s, s.threads[u]);
    }
  }

  lemma StaysAlone(s: Ring, t: nat, th: Thread, side: Side)
    requires t < |s.threads| && OneAtATime(s, side)
    requires Active(th, side) ==> Active(s.threads[t], side) || (s.Ends(side).single ==> NoneActive(s, side))
    ensures OneAtATime(WithThread(s, t, th), side)
  {
  }

  lemma QuietKeepsInv(s: Ring, t: nat, th: Thread)
    requires Inv(s) && t < |s.threads| && !s.threads[t].Copying? && !th.Copying? && ThreadOk(s, th)
    requires forall side :: Active(th, side) ==>
                              Active(s.threads[t], side) || (s.Ends(side).single ==> NoneActive(s, side))
    ensures Inv(WithThread(s, t, th))
  {
    hide Tiled, ThreadsOk, OneAtATime, Active, ThreadOk;
    QuietKeepsTiled(s, t, th, Prod);
    QuietKeepsTiled(s, t, th, Cons);
    QuietKeepsThreads(s, t, th);
    StaysAlone(s, t, th, Prod);
    StaysAlone(s, t, th, Cons);
  }

  /** The oldest reservation starts at the tail. */
  lemma FirstHolder(s: Ring, side: Side)
    requires Tiled(s, side) && s.Hist(side).tail < s.Hist(side).head
    ensures var u := s.Hist(side).owner[s.Hist(side).tail];
            && u < |s.threads| && s.threads[u].Copying? && s.threads[u].req.side == side
            && s.threads[u].at <= s.Hist(side).tail
  {
    assert Holds(s, side, s.Hist(side).owner[s.Hist(side).tail], s.Hist(side).tail);
  }

  /** Nothing is reserved while no call copies. */
  lemma NothingReserved(s: Ring, side: Side)
    requires Tiled(s, side) && s.Hist(side).tail <= s.Hist(side).head
    requires forall u: nat :: u < |s.threads| ==> !(s.threads[u].Copying? && s.threads[u].req.side == side)
    ensures s.Hist(side).tail == s.Hist(side).head
  {
    if s.Hist(side).tail < s.Hist(side).head {
      FirstHolder(s, side);
    }
  }

  lemma OnlyOne(s: Ring, t: nat, side: Side)
    requires OneAtATime(s, side) && s.Ends(side).single && t < |s.threads| && Active(s.threads[t], side)
    ensures forall u: nat :: u < |s.threads| && u != t ==> !Active(s.threads[u], side)
  {
  }

  lemma BeginKeepsInv(s: Ring, t: nat, req: Request)
    requires Inv(s) && Enabled(s, Begin(t, req))
    ensures Inv(Next(s, Begin(t, req)))
  {
    hide Inv;
    InvParts(s);
    QuietKeepsInv(s, t, Looping(req));
  }

  lemma InvParts(s: Ring)
    requires Inv(s)
    ensures Configured(s) && Ordered(s) && ThreadsOk(s)
    ensures forall side :: Words(s, side) && Tiled(s, side) && OneAtATime(s, side)
  {
    hide Configured, Ordered, ThreadsOk, Words, Tiled, OneAtATime, Stored, Fifo;
    forall side ensures Words(s, side) && Tiled(s, side) && OneAtATime(s, side) {
      assert side == Prod || side == Cons;
    }
  }

  lemma LoadHeadKeepsInv(s: Ring, t: nat)
    requires Inv(s) && Enabled(s, LoadHead(t))
    ensures Inv(Next(s, LoadHead(t)))
  {
    hide Inv;
    InvParts(s);
    var req := s.threads[t].req;
    assert ThreadOk(s, s.threads[t]) && Words(s, req.side);
    QuietKeepsInv(s, t, HeadLoaded(req, s.Ends(req.side).head, s.Hist(req.side).head));
  }

  lemma LimitAhead(s: Ring, side: Side)
    requires Ordered(s)
    ensures 0 <= s.RoomLeft(side) <= s.capacity
  {
  }

  /** A distance below 2^32 is computed exactly; it is at least the room left, and the room
      left if the head is current. */
  lemma TrueCount(s: Ring, side: Side, at: nat)
    requires Ordered(s) && Words(s, Prod) && Words(s, Cons) && at <= s.Hist(side).head
    ensures 0 <= s.RoomLeft(side) <= s.Limit(side) - at
    ensures at == s.Hist(side).head ==> s.Limit(side) - at < WORD
    ensures s.Limit(side) - at < WORD ==> Available(s, side, W(at)) == s.Limit(side) - at
  {
    hide Ordered, Words, Available, W;
    LimitAhead(s, side);
    AvailableOf(s, side, at);
    if s.Limit(side) - at < WORD {
      SmallWord(s.Limit(side) - at);
    }
  }

  lemma SmallWord(x: nat)
    requires x < WORD
    ensures W(x) == x
  {
  }

  lemma LoadTailKeepsInv(s: Ring, t: nat)
    requires Inv(s) && Enabled(s, LoadTail(t))
    ensures Inv(Next(s, LoadTail(t)))
  {
    hide Inv, Answers, Available, Amount;
    InvParts(s);
    var th := s.threads[t];
    assert ThreadOk(s, th);
    TrueCount(s, th.req.side, th.at);
    CountAnswers(th.req, Available(s, th.req.side, th.oldHead), s.RoomLeft(th.req.side), s.Limit(th.req.side) - th.at);
    QuietKeepsInv(s, t, Next(s, LoadTail(t)).threads[t]);
  }

  /** A call that sees at least the room there is gets at least what there is room for. */
  lemma CountAnswers(req: Request, free: Word, room: nat, distance: nat)
    requires room <= distance && (distance < WORD ==> free == distance)
    requires req.side.Prod? ==> |req.objs| == req.max
    ensures Amount(req, free) == 0 ==> Answers(req, 0, room, distance >= WORD)
    ensures Amount(req, free) > 0 ==> Fits(req, Amount(req, free)) && Amount(req, free) <= free
    ensures Amount(req, free) > 0 && distance == room && room < WORD ==> Answers(req, Amount(req, free), room, false)
  {
  }

  lemma FailedMoveKeepsInv(s: Ring, t: nat)
    requires Inv(s) && Enabled(s, MoveHead(t))
    requires !MovesHead(s, s.threads[t])
    ensures Inv(Next(s, MoveHead(t)))
  {
    hide Inv;
    InvParts(s);
    assert ThreadOk(s, s.threads[t]);
    QuietKeepsInv(s, t, Looping(s.threads[t].req));
  }

  // ----- Moving the head ----------------------------------------------------------------------

  /** What the thread knows when it moves the head. */
  ghost predicate MayReserve(s: Ring, t: nat) {
    && t < |s.threads| && s.threads[t].Decided?
    && var th := s.threads[t];
       var c, r := s.Hist(th.req.side), Reserving(s, th);
       && Fits(th.req, th.n) && 0 < th.n <= s.RoomLeft(th.req.side) && Answers(th.req, th.n, r.room, r.wrapped)
       && th.oldHead == W(c.head) && (s.Ends(th.req.side).single ==> c.head == c.tail)
  }

  /** The reservation of thread t has been made. */
  function AfterMove(s: Ring, t: nat): Ring
    requires t < |s.threads| && s.threads[t].Decided?
  {
    var th := s.threads[t];
    WithThread(Reserved(s, th.req.side, t, th.oldHead, th.n), t, Reserving(s, th))
  }

  /** A head that is moved has the 32 bits of the loaded one; if it is the loaded one, the
      amount fits. */
  lemma MoveFacts(s: Ring, t: nat)
    requires Inv(s) && Enabled(s, MoveHead(t)) && MovesHead(s, s.threads[t])
    ensures var th := s.threads[t];
            && th.oldHead == W(s.Hist(th.req.side).head) && Fits(th.req, th.n) && th.n > 0
            && (s.Ends(th.req.side).single ==> th.at == s.Hist(th.req.side).head)
            && (th.at == s.Hist(th.req.side).head ==>
                  th.n <= s.RoomLeft(th.req.side) && Answers(th.req, th.n, th.room, false))
  {
    hide Inv, W, Answers, Fits;
    InvParts(s);
    assert ThreadOk(s, s.threads[t]);
    assert Words(s, s.threads[t].req.side);
  }

  lemma MayReserveNow(s: Ring, t: nat)
    requires Inv(s) && Enabled(s, MoveHead(t)) && MovesHead(s, s.threads[t]) && HasRoom(s, MoveHead(t))
    ensures MayReserve(s, t)
  {
    hide Inv, W;
    InvParts(s);
    MoveFacts(s, t);
    var th := s.threads[t];
    if s.Ends(th.req.side).single {
      OnlyOne(s, t, th.req.side);
      NothingReserved(s, th.req.side);
    }
  }

  lemma MoveKeepsTiled(s: Ring, t: nat, side: Side)
    requires MayReserve(s, t) && Tiled(s, side) && Ordered(s)
    ensures Tiled(AfterMove(s, t), side)
  {
    var s', th := AfterMove(s, t), s.threads[t];
    if th.req.side == side {
      forall i | s.Hist(side).tail <= i < s'.Hist(side).head ensures Holds(s', side, s'.Hist(side).owner[i], i) {
        assert i < s.Hist(side).head ==> Holds(s, side, s.Hist(side).owner[i], i);
      }
      forall u: nat, i: nat | Holds(s', side, u, i)
        ensures s.Hist(side).tail <= i < s'.Hist(side).head && s'.Hist(side).owner[i] == u
      {
        assert u != t ==> Holds(s, side, u, i);
      }
    } else {
      forall u: nat, i: nat ensures Holds(s', side, u, i) <==> Holds(s, side, u, i) {
      }
    }
  }

  /** A thread other than t is not disturbed by t's reservation. */
  lemma MoveKeepsThread(s: Ring, t: nat, u: nat)
    requires Configured(s) && Ordered(s) && MayReserve(s, t) && u < |s.threads| && u != t
    requires ThreadOk(s, s.threads[u])
    requires s.Ends(s.threads[t].req.side).single ==> !Active(s.threads[u], s.threads[t].req.side)
    ensures ThreadOk(AfterMove(s, t), s.threads[u])
  {
    hide Configured, Ordered, ThreadOk, AfterMove, Further;
    MoveIsFurther(s, t);
    FurtherKeepsThread(s, AfterMove(s, t), s.threads[u], s.threads[t].req.side, s.threads[t].n);
  }

  /** s' differs from s by a head that is n > 0 further on. */
  ghost predicate Further(s: Ring, s': Ring, side: Side, n: nat) {
    && n > 0 && s'.size == s.size && s'.slots == s.slots && s'.capacity == s.capacity
    && (forall sd: Side :: s'.Hist(sd).tail == s.Hist(sd).tail && s'.Ends(sd).single == s.Ends(sd).single)
    && (forall sd: Side :: s'.Hist(sd).head == s.Hist(sd).head + if sd == side then n else 0)
    && s'.hist.published == s.hist.published
  }

  lemma MoveIsFurther(s: Ring, t: nat)
    requires MayReserve(s, t) && Configured(s) && Ordered(s)
    ensures t < |s.threads| && s.threads[t].Decided? && Further(s, AfterMove(s, t), s.threads[t].req.side, s.threads[t].n)
    ensures s.size == |s.slots| && s.size > 0 && AfterMove(s, t).size == |AfterMove(s, t).slots|
  {
  }

  lemma FurtherKeepsThread(s: Ring, s': Ring, w: Thread, side: Side, n: nat)
    requires s.size == |s.slots| && s.size > 0 && ThreadOk(s, w) && Further(s, s', side, n)
    requires s.Ends(side).single ==> !Active(w, side)
    ensures ThreadOk(s', w)
  {
    hide W;
  }

  lemma MovedThreadOk(s: Ring, t: nat)
    requires Configured(s) && Ordered(s) && Stored(s) && MayReserve(s, t)
    ensures ThreadOk(AfterMove(s, t), AfterMove(s, t).threads[t])
  {
  }

  lemma MoveKeepsThreads(s: Ring, t: nat)
    requires Configured(s) && Ordered(s) && Stored(s) && MayReserve(s, t) && ThreadsOk(s)
    requires OneAtATime(s, s.threads[t].req.side)
    ensures ThreadsOk(AfterMove(s, t))
  {
    hide ThreadOk, Ordered, Stored;
    var s' := AfterMove(s, t);
    forall u | 0 <= u < |s'.threads| ensures ThreadOk(s', s'.threads[u]) {
      if u == t {
        MovedThreadOk(s, t);
      } else {
        MoveKeepsThread(s, t, u);
      }
    }
  }

  lemma MoveKeepsWords(s: Ring, t: nat, side: Side)
    requires Words(s, side) && MayReserve(s, t)
    ensures Words(AfterMove(s, t), side)
  {
    hide W, Answers;
    WordSum(s.Hist(s.threads[t].req.side).head, s.threads[t].n);
  }

  lemma MoveKeepsOrder(s: Ring, t: nat)
    requires Ordered(s) && MayReserve(s, t)
    ensures Ordered(AfterMove(s, t))
  {
  }

  lemma MoveKeepsSlots(s: Ring, t: nat)
    requires Configured(s) && Stored(s) && Fifo(s) && MayReserve(s, t)
    ensures Configured(AfterMove(s, t)) && Stored(AfterMove(s, t)) && Fifo(AfterMove(s, t))
  {
    hide W, Holds, Fits;
  }

  lemma MoveStaysAlone(s: Ring, t: nat, side: Side)
    requires t < |s.threads| && s.threads[t].Decided? && OneAtATime(s, side)
    ensures OneAtATime(AfterMove(s, t), side)
  {
  }

  lemma MoveKeepsInv(s: Ring, t: nat)
    requires Inv(s) && MayReserve(s, t)
    ensures Inv(AfterMove(s, t))
  {
    hide Tiled, ThreadsOk, OneAtATime, Ordered, Words, Stored, Fifo, AfterMove;
    MoveKeepsTiled(s, t, Prod);
    MoveKeepsTiled(s, t, Cons);
    OneSide(s, s.threads[t].req.side);
    MoveKeepsThreads(s, t);
    MoveKeepsWords(s, t, Prod);
    MoveKeepsWords(s, t, Cons);
    MoveKeepsOrder(s, t);
    MoveKeepsSlots(s, t);
    MoveStaysAlone(s, t, Prod);
    MoveStaysAlone(s, t, Cons);
  }

  lemma OneSide(s: Ring, side: Side)
    requires OneAtATime(s, Prod) && OneAtATime(s, Cons)
    ensures OneAtATime(s, side)
  {
    assert side == Prod || side == Cons;
  }

  /** The head is moved past its limit. */
  lemma OverrunBreaksOrder(s: Ring, t: nat)
    requires Enabled(s, MoveHead(t)) && !HasRoom(s, MoveHead(t))
    ensures !Ordered(Next(s, MoveHead(t)))
  {
    hide W;
  }

  /** Moving the head keeps the protocol invariant if and only if there is room for the
      objects at that moment, wherever the head was when it was loaded. */
  lemma MoveHeadKeepsInv(s: Ring, t: nat)
    requires Inv(s) && Enabled(s, MoveHead(t))
    ensures Inv(Next(s, MoveHead(t))) <==> HasRoom(s, MoveHead(t))
    ensures !HasRoom(s, MoveHead(t)) ==> !Ordered(Next(s, MoveHead(t)))
  {
    hide Ordered, MayReserve, Stored, Fifo, ThreadsOk, Words, Tiled, OneAtATime, HasRoom;
    if !HasRoom(s, MoveHead(t)) {
      OverrunBreaksOrder(s, t);
    } else if MovesHead(s, s.threads[t]) {
      MayReserveNow(s, t);
      MoveKeepsInv(s, t);
    } else {
      FailedMoveKeepsInv(s, t);
      CannotOverrun(s, t);
    }
  }

  lemma CannotOverrun(s: Ring, t: nat)
    requires Enabled(s, MoveHead(t)) && !MovesHead(s, s.threads[t])
    ensures HasRoom(s, MoveHead(t))
  {
  }

  /** There is room if the head is the one that was loaded, as it is if it has moved by less
      than 2^32 since, or if the side has a single producer (consumer). */
  lemma PromptHasRoom(s: Ring, step: Step)
    requires Inv(s) && Enabled(s, step)
    ensures var th := s.threads[step.t];
            step.MoveHead? && (th.at == s.Hist(th.req.side).head || s.Ends(th.req.side).single) ==> HasRoom(s, step)
    ensures Prompt(s, step) ==> HasRoom(s, step)
  {
    hide Inv, W;
    var th := s.threads[step.t];
    if step.MoveHead? && MovesHead(s, th) {
      MoveFacts(s, step.t);
      if Prompt(s, step) { SameHead(s, step.t); }
    }
  }

  /** A head less than 2^32 on with the same 32 bits is the same head. */
  lemma SameHead(s: Ring, t: nat)
    requires Inv(s) && Enabled(s, MoveHead(t)) && s.Hist(s.threads[t].req.side).head - s.threads[t].at < WORD
    ensures MovesHead(s, s.threads[t]) ==> s.threads[t].at == s.Hist(s.threads[t].req.side).head
  {
    hide Inv;
    InvParts(s);
    var th := s.threads[t];
    assert ThreadOk(s, th) && Words(s, th.req.side);
    if MovesHead(s, th) && !s.Ends(th.req.side).single {
      SameRemainder(th.at, s.Hist(th.req.side).head, WORD);
    }
  }

  // ----- Copying one object -------------------------------------------------------------------

  lemma CopyIndex(s: Ring, t: nat)
    requires Inv(s) && Enabled(s, Copy(t))
    ensures var th := s.threads[t]; Slot(s.size, th.oldHead, th.k) == SlotAt(s.size, th.at + th.k)
    ensures var th := s.threads[t]; Holds(s, th.req.side, t, th.at + th.k) && ThreadOk(s, th)
  {
    hide Inv;
    InvParts(s);
    var th := s.threads[t];
    assert ThreadOk(s, th);
    SlotOfIndex(s, th.at, th.k);
  }

  /** Slots of indices in one stretch of at most `capacity` are distinct. */
  lemma OtherSlot(s: Ring, i: nat, j: nat)
    requires Configured(s) && Ordered(s) && i != j
    requires s.hist.cons.tail <= i < s.hist.prod.head && s.hist.cons.tail <= j < s.hist.prod.head
    ensures SlotAt(s.size, i) != SlotAt(s.size, j)
  {
    SlotsDiffer(i, j, s.size);
  }

  lemma EnqueuedCopyKeepsStored(s: Ring, t: nat)
    requires Inv(s) && Enabled(s, Copy(t)) && s.threads[t].req.side.Prod?
    ensures Stored(Next(s, Copy(t)))
  {
    hide Inv, Holds, Tiled, ThreadOk, Slot, SlotAt, W;
    InvParts(s);
    CopyIndex(s, t);
    var i := s.threads[t].at + s.threads[t].k;
    TilesHold(s, Prod, t, i);
    StoredPart(s);
    forall j | s.hist.cons.tail <= j < s.hist.prod.tail ensures SlotAt(s.size, i) != SlotAt(s.size, j) {
      OtherSlot(s, i, j);
    }
  }

  lemma StoredPart(s: Ring)
    requires Inv(s)
    ensures Stored(s) && Fifo(s)
  {
    hide Stored, Fifo, Tiled, ThreadsOk, OneAtATime, Words, Ordered;
  }

  lemma TilesHold(s: Ring, side: Side, t: nat, i: nat)
    requires Tiled(s, side) && Holds(s, side, t, i)
    ensures s.Hist(side).tail <= i < s.Hist(side).head && s.Hist(side).owner[i] == t
  {
  }

  /** The copy of t leaves what another thread has copied in place. */
  lemma EnqueuedCopyKeepsThread(s: Ring, t: nat, u: nat)
    requires Inv(s) && Enabled(s, Copy(t)) && s.threads[t].req.side.Prod? && u < |s.threads| && u != t
    ensures ThreadOk(Next(s, Copy(t)), s.threads[u])
  {
    hide Inv, Tiled, Slot, SlotAt, W;
    InvParts(s);
    CopyIndex(s, t);
    var th, i := s.threads[u], s.threads[t].at + s.threads[t].k;
    assert ThreadOk(s, th);
    TilesHold(s, Prod, t, i);
    if th.Copying? && th.req.side.Prod? {
      forall j | th.at <= j < th.at + th.k ensures SlotAt(s.size, j) != SlotAt(s.size, i) {
        TilesHold(s, Prod, u, j);
        OtherSlot(s, i, j);
      }
    }
  }

  lemma EnqueuedCopyAdvances(s: Ring, t: nat)
    requires Inv(s) && Enabled(s, Copy(t)) && s.threads[t].req.side.Prod?
    ensures ThreadOk(Next(s, Copy(t)), Next(s, Copy(t)).threads[t])
  {
    hide Inv, Tiled, Slot, SlotAt, W;
    InvParts(s);
    CopyIndex(s, t);
    var th := s.threads[t];
    forall j | th.at <= j < th.at + th.k ensures SlotAt(s.size, j) != SlotAt(s.size, th.at + th.k) {
      SlotsDiffer(j, th.at + th.k, s.size);
    }
  }

  /** A consumer reads what was published under its index. */
  lemma DequeuedCopyAdvances(s: Ring, t: nat)
    requires Inv(s) && Enabled(s, Copy(t)) && s.threads[t].req.side.Cons?
    ensures ThreadOk(Next(s, Copy(t)), Next(s, Copy(t)).threads[t])
  {
    hide Inv, Tiled, Slot, SlotAt, W;
    InvParts(s);
    StoredPart(s);
    CopyIndex(s, t);
    var th := s.threads[t];
    assert s.slots[SlotAt(s.size, th.at + th.k)] == s.hist.published[th.at + th.k];
  }

  lemma DequeuedCopyKeepsThread(s: Ring, t: nat, u: nat)
    requires Configured(s) && Enabled(s, Copy(t)) && s.threads[t].req.side.Cons? && u < |s.threads| && u != t
    requires ThreadOk(s, s.threads[u])
    ensures ThreadOk(Next(s, Copy(t)), s.threads[u])
  {
  }

  lemma CopyKeepsThreads(s: Ring, t: nat)
    requires Inv(s) && Enabled(s, Copy(t))
    ensures ThreadsOk(Next(s, Copy(t)))
  {
    hide Inv, ThreadOk, Slot;
    InvParts(s);
    var s' := Next(s, Copy(t));
    forall u | 0 <= u < |s'.threads| ensures ThreadOk(s', s'.threads[u]) {
      if s.threads[t].req.side.Prod? {
        if u == t { EnqueuedCopyAdvances(s, t); } else { EnqueuedCopyKeepsThread(s, t, u); }
      } else {
        if u == t { DequeuedCopyAdvances(s, t); } else { DequeuedCopyKeepsThread(s, t, u); }
      }
    }
  }

  lemma CopyKeepsTiled(s: Ring, t: nat, side: Side)
    requires Tiled(s, side) && OneAtATime(s, side) && Enabled(s, Copy(t))
    ensures Tiled(Next(s, Copy(t)), side) && OneAtATime(Next(s, Copy(t)), side)
  {
    hide Slot;
    var s' := Next(s, Copy(t));
    forall u: nat, i: nat ensures Holds(s', side, u, i) <==> Holds(s, side, u, i) {
    }
  }

  lemma CopyKeepsRest(s: Ring, t: nat)
    requires Inv(s) && Enabled(s, Copy(t))
    ensures var s' := Next(s, Copy(t));
            Configured(s') && Ordered(s') && Words(s', Prod) && Words(s', Cons) && Fifo(s') && Stored(s')
  {
    hide ThreadsOk, Tiled, OneAtATime, W, Slot;
    if s.threads[t].req.side.Prod? {
      EnqueuedCopyKeepsStored(s, t);
    }
  }

  lemma CopyKeepsInv(s: Ring, t: nat)
    requires Inv(s) && Enabled(s, Copy(t))
    ensures Inv(Next(s, Copy(t)))
  {
    hide Tiled, ThreadsOk, OneAtATime, Ordered, Words, Stored, Fifo, Enabled, Next, Configured;
    CopyKeepsTiled(s, t, Prod);
    CopyKeepsTiled(s, t, Cons);
    CopyKeepsThreads(s, t);
    CopyKeepsRest(s, t);
  }

  // ----- Publishing -----------------------------------------------------------------------------

  /** What thread t knows when it may move the tail. */
  ghost predicate MayPublish(s: Ring, t: nat)
    requires s.size == |s.slots| && s.size > 0
  {
    && t < |s.threads| && s.threads[t].Copying?
    && var th := s.threads[t];
       && ThreadOk(s, th) && th.k == th.n && th.at == s.Hist(th.req.side).tail
  }

  /** A tail that has come to the thread's 32-bit head is the thread's head: no assumption
      on timing is needed here. */
  lemma TailReached(s: Ring, t: nat)
    requires Inv(s) && Enabled(s, Publish(t))
    ensures MayPublish(s, t)
  {
    hide Inv;
    InvParts(s);
    var th := s.threads[t];
    assert ThreadOk(s, th) && Words(s, th.req.side);
    if !s.Ends(th.req.side).single {
      SameRemainder(s.Hist(th.req.side).tail, th.at, WORD);
    }
  }

  lemma PublishKeepsTiled(s: Ring, t: nat, side: Side)
    requires Configured(s) && MayPublish(s, t) && Tiled(s, side) && Enabled(s, Publish(t))
    ensures Tiled(Next(s, Publish(t)), side)
  {
    hide ThreadOk;
    var s', th := Next(s, Publish(t)), s.threads[t];
    if th.req.side == side {
      forall i | s'.Hist(side).tail <= i < s'.Hist(side).head ensures Holds(s', side, s'.Hist(side).owner[i], i) {
        assert Holds(s, side, s.Hist(side).owner[i], i);
      }
      forall u: nat, i: nat | Holds(s', side, u, i)
        ensures s'.Hist(side).tail <= i < s'.Hist(side).head && s'.Hist(side).owner[i] == u
      {
        assert Holds(s, side, u, i);
        assert i < th.at + th.n ==> Holds(s, side, t, i);
      }
    } else {
      forall u: nat, i: nat ensures Holds(s', side, u, i) <==> Holds(s, side, u, i) {
      }
    }
  }

  lemma PublishKeepsStored(s: Ring, t: nat)
    requires Inv(s) && Enabled(s, Publish(t)) && MayPublish(s, t)
    ensures Stored(Next(s, Publish(t))) && Fifo(Next(s, Publish(t)))
  {
    hide ThreadsOk, Tiled, OneAtATime, Words;
    var th, h := s.threads[t], s.hist;
    if th.req.side.Prod? {
      forall i | h.prod.tail <= i < h.prod.tail + th.n
        ensures s.slots[SlotAt(s.size, i)] == (h.published + th.req.objs[..th.n])[i]
      {
      }
    } else {
      assert h.delivered + th.got == h.published[..h.cons.tail + th.n];
    }
  }

  lemma PublishedThreadOk(s: Ring, t: nat)
    requires Configured(s) && Ordered(s) && Stored(s) && Enabled(s, Publish(t)) && MayPublish(s, t)
    ensures ThreadOk(Next(s, Publish(t)), Next(s, Publish(t)).threads[t])
  {
  }

  /** The other reservations of the side start after that of t. */
  lemma OthersAreLater(s: Ring, t: nat, u: nat)
    requires Inv(s) && MayPublish(s, t) && u < |s.threads| && u != t
    requires s.threads[u].Copying? && s.threads[u].req.side == s.threads[t].req.side
    ensures s.threads[t].at + s.threads[t].n <= s.threads[u].at
  {
    hide Inv, Tiled, W, Transferred, MayPublish;
    InvParts(s);
    TailHolder(s, t);
    var th, w := s.threads[t], s.threads[u];
    assert ThreadOk(s, w);
    TilesHold(s, w.req.side, u, w.at);
    if w.at < th.at + th.n {
      TilesHold(s, w.req.side, t, w.at);
    }
  }

  lemma TailHolder(s: Ring, t: nat)
    requires s.size == |s.slots| && s.size > 0 && MayPublish(s, t)
    ensures t < |s.threads| && s.threads[t].Copying? && s.threads[t].n > 0
    ensures s.threads[t].at == s.Hist(s.threads[t].req.side).tail
  {
  }

  /** A single-producer (-consumer) side has no other call under way. */
  lemma NoOthers(s: Ring, t: nat, u: nat)
    requires Inv(s) && t < |s.threads| && s.threads[t].Copying? && u < |s.threads| && u != t
    requires s.Ends(s.threads[t].req.side).single
    ensures !Active(s.threads[u], s.threads[t].req.side)
  {
    hide Inv, Active;
    InvParts(s);
    assert OneAtATime(s, s.threads[t].req.side);
    ActiveCopier(s.threads[t]);
    OnlyOne(s, t, s.threads[t].req.side);
  }

  lemma ActiveCopier(th: Thread)
    requires th.Copying?
    ensures Active(th, th.req.side)
  {
  }

  lemma PublishKeepsThread(s: Ring, t: nat, u: nat)
    requires Inv(s) && Enabled(s, Publish(t)) && MayPublish(s, t) && u < |s.threads| && u != t
    ensures ThreadOk(Next(s, Publish(t)), s.threads[u])
  {
    hide Inv, Tiled, W, Holds, Later, ThreadOk, Enabled;
    InvParts(s);
    var th, w := s.threads[t], s.threads[u];
    assert ThreadOk(s, w);
    TailHolder(s, t);
    if s.Ends(th.req.side).single {
      NoOthers(s, t, u);
      if w.Copying? && w.req.side == th.req.side { ActiveCopier(w); }
    }
    if w.Copying? && w.req.side == th.req.side {
      OthersAreLater(s, t, u);
    }
    PublishIsLater(s, t);
    LaterKeepsThread(s, Next(s, Publish(t)), w, th.req.side, th.n);
  }

  /** s' differs from s by n more published or delivered objects of one side. */
  ghost predicate Later(s: Ring, s': Ring, side: Side, n: nat) {
    && s'.size == s.size && s'.slots == s.slots && s'.capacity == s.capacity
    && (forall sd: Side :: s'.Hist(sd).head == s.Hist(sd).head && s'.Ends(sd).single == s.Ends(sd).single)
    && (forall sd: Side :: s'.Hist(sd).tail == s.Hist(sd).tail + if sd == side then n else 0)
    && s.hist.published <= s'.hist.published
  }

  lemma PublishIsLater(s: Ring, t: nat)
    requires Enabled(s, Publish(t))
    ensures Later(s, Next(s, Publish(t)), s.threads[t].req.side, s.threads[t].n)
  {
  }

  lemma LaterKeepsThread(s: Ring, s': Ring, w: Thread, side: Side, n: nat)
    requires s.size == |s.slots| && s.size > 0 && ThreadOk(s, w) && Later(s, s', side, n)
    requires w.Copying? && w.req.side == side ==> !s.Ends(side).single && s.Hist(side).tail + n <= w.at
    ensures ThreadOk(s', w)
  {
    hide W;
    assert s'.Hist(Prod).tail >= s.Hist(Prod).tail && s'.Hist(Cons).tail >= s.Hist(Cons).tail;
  }

  lemma PublishKeepsThreads(s: Ring, t: nat)
    requires Inv(s) && Enabled(s, Publish(t)) && MayPublish(s, t)
    ensures ThreadsOk(Next(s, Publish(t)))
  {
    hide Inv, ThreadOk, MayPublish, W;
    InvParts(s);
    StoredPart(s);
    var s' := Next(s, Publish(t));
    forall u | 0 <= u < |s'.threads| ensures ThreadOk(s', s'.threads[u]) {
      if u == t { PublishedThreadOk(s, t); } else { PublishKeepsThread(s, t, u); }
    }
  }

  lemma PublishKeepsWords(s: Ring, t: nat, side: Side)
    requires Configured(s) && Words(s, side) && Enabled(s, Publish(t)) && MayPublish(s, t)
    ensures Words(Next(s, Publish(t)), side)
  {
    hide W, Transferred;
    var th := s.threads[t];
    WordSum(th.at, th.n);
  }

  lemma PublishKeepsOrder(s: Ring, t: nat)
    requires Configured(s) && Ordered(s) && Enabled(s, Publish(t)) && MayPublish(s, t)
    ensures Ordered(Next(s, Publish(t))) && Configured(Next(s, Publish(t)))
  {
    hide W;
  }

  lemma PublishStaysAlone(s: Ring, t: nat, side: Side)
    requires OneAtATime(s, side) && Enabled(s, Publish(t))
    ensures OneAtATime(Next(s, Publish(t)), side)
  {
    hide W;
  }

  lemma PublishKeepsInv(s: Ring, t: nat)
    requires Inv(s) && Enabled(s, Publish(t))
    ensures Inv(Next(s, Publish(t)))
  {
    hide Tiled, ThreadsOk, OneAtATime, Ordered, Words, Stored, Fifo, Enabled, Next, MayPublish;
    TailReached(s, t);
    PublishKeepsTiled(s, t, Prod);
    PublishKeepsTiled(s, t, Cons);
    PublishKeepsThreads(s, t);
    PublishKeepsStored(s, t);
    PublishKeepsWords(s, t, Prod);
    PublishKeepsWords(s, t, Cons);
    PublishKeepsOrder(s, t);
    PublishStaysAlone(s, t, Prod);
    PublishStaysAlone(s, t, Cons);
  }
}
