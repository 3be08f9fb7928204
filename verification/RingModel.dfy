/** The lock-free ring of femu/inc/rte_ring.h as a transition system: any number of threads
    enqueue and dequeue, and every load, compare-and-set, slot access and tail update is a
    step of its own.  Memory is sequentially consistent.

    `__rte_ring_move_prod_head` and `__rte_ring_move_cons_head` differ only in what they
    subtract the head from, so both are one function of the side.  `x & mask` is written as
    the remainder by `size`, a power of two.

    `History`, and `at`, `room` and `wrapped` in a thread, decide nothing: they count without
    wrapping and remember what was found and what has been handed over. */
module RingModel {
  type Ptr = int

  const WORD: nat := 0x1_0000_0000

  type Word = n: nat | n < WORD

  /** uint32_t arithmetic. */
  function W(x: int): (w: Word) {
    x % WORD
  }

  datatype Side = Prod | Cons

  datatype HeadTail = HeadTail(head: Word, tail: Word, single: bool)

  /** A call of enqueue or dequeue for `max` objects.  `fixed` is RTE_RING_QUEUE_FIXED. */
  datatype Request = Request(side: Side, objs: seq<Ptr>, max: Word, fixed: bool)

  /** Where a thread is in `__rte_ring_do_enqueue` or `__rte_ring_do_dequeue`.  `at` is the
      unbounded head loaded and, later, the one moved.  `room` is the room there was when the
      thread settled on n, and `wrapped` says that it went by a number that had come round to
      the same 32 bits. */
  datatype Thread =
    | Idle
    | Looping(req: Request)
    | HeadLoaded(req: Request, oldHead: Word, at: nat)
    | Decided(req: Request, oldHead: Word, at: nat, n: Word, room: int)
    | Copying(req: Request, oldHead: Word, at: nat, n: Word, k: nat, got: seq<Ptr>, room: int, wrapped: bool)
    | Done(req: Request, at: nat, n: Word, got: seq<Ptr>, room: int, wrapped: bool)

  /** Unbounded head and tail of one side and, for every index the head has passed, the
      thread that reserved it. */
  datatype Count = Count(head: nat, tail: nat, owner: seq<nat>)

  /** `published` and `delivered`: the objects of completed calls in the order of completion. */
  datatype History = History(prod: Count, cons: Count, published: seq<Ptr>, delivered: seq<Ptr>)

  datatype Ring = Ring(
    size: nat, capacity: Word, prod: HeadTail, cons: HeadTail, slots: seq<Ptr>,
    threads: seq<Thread>, hist: History)
  {
    function Ends(side: Side): HeadTail { if side.Prod? then prod else cons }

    function Hist(side: Side): Count { if side.Prod? then hist.prod else hist.cons }

    /** The unbounded index that the head of a side may not pass. */
    function Limit(side: Side): nat {
      if side.Prod? then hist.cons.tail + capacity else hist.prod.tail
    }

    /** Objects a producer may add, or a consumer take, before the head would pass its limit. */
    function RoomLeft(side: Side): int { Limit(side) - Hist(side).head }
  }

  datatype Step =
    | Begin(t: nat, req: Request)
    | LoadHead(t: nat)
    | LoadTail(t: nat)
    | MoveHead(t: nat)
    | Copy(t: nat)
    | Publish(t: nat)

  // ----- The code ----------------------------------------------------------------------------

  /** `capacity + cons_tail - old_head` and `prod_tail - old_head`. */
  function Available(s: Ring, side: Side, oldHead: Word): Word {
    if side.Prod? then W(s.capacity + s.cons.tail - oldHead) else W(s.prod.tail - oldHead)
  }

  /** The number of objects a call goes for when `free` entries seem available. */
  function Amount(req: Request, free: nat): Word {
    if req.max <= free then req.max else if req.fixed then 0 else free
  }

  /** `head & mask`. */
  function First(size: nat, head: Word): (i: nat)
    requires size > 0
    ensures i < size
  {
    head % size
  }

  /** `(oldHead & mask) + k`, wrapped at `size`. */
  function Slot(size: nat, oldHead: Word, k: nat): (i: nat)
    requires size > 0
    ensures i < size
  {
    (First(size, oldHead) + k) % size
  }

  predicate Active(th: Thread, side: Side) {
    !th.Idle? && !th.Done? && th.req.side == side
  }

  predicate NoneActive(s: Ring, side: Side) {
    forall i :: 0 <= i < |s.threads| ==> !Active(s.threads[i], side)
  }

  /** A producer's table holds the objects it goes for. */
  predicate HasTable(th: Thread)
    requires th.Copying?
  {
    th.req.side.Prod? ==> th.n <= |th.req.objs|
  }

  /** What lets thread t take the step.  Callers of a single-producer (-consumer) ring
      promise not to overlap, and producers bring a table of `max` objects. */
  predicate Enabled(s: Ring, step: Step) {
    && step.t < |s.threads|
    && var th := s.threads[step.t];
       match step
       case Begin(_, req) =>
         && (th.Idle? || th.Done?)
         && (s.Ends(req.side).single ==> NoneActive(s, req.side))
         && (req.side.Prod? ==> |req.objs| == req.max)
       case LoadHead(_) => th.Looping?
       case LoadTail(_) => th.HeadLoaded?
       case MoveHead(_) => th.Decided?
       case Copy(_) => th.Copying? && th.k < th.n && HasTable(th) && |s.slots| == s.size > 0
       case Publish(_) =>
         && th.Copying? && th.k == th.n && HasTable(th)
         && (s.Ends(th.req.side).single || s.Ends(th.req.side).tail == th.oldHead)
  }

  /** The store to the head is unconditional, or the compare-and-set finds the old head. */
  predicate MovesHead(s: Ring, th: Thread)
    requires th.Decided?
  {
    s.Ends(th.req.side).single || s.Ends(th.req.side).head == th.oldHead
  }

  /** The thread after it has moved the head: its reservation starts where the head was. */
  function Reserving(s: Ring, th: Thread): Thread
    requires th.Decided?
  {
    var head := s.Hist(th.req.side).head;
    Copying(th.req, th.oldHead, head, th.n, 0, [], if th.at == head then th.room else s.RoomLeft(th.req.side), th.at != head)
  }

  function WithThread(s: Ring, t: nat, th: Thread): Ring
    requires t < |s.threads|
  {
    s.(threads := s.threads[t := th])
  }

  function WithEnds(s: Ring, side: Side, e: HeadTail, c: Count): Ring {
    if side.Prod? then s.(prod := e, hist := s.hist.(prod := c))
    else s.(cons := e, hist := s.hist.(cons := c))
  }

  /** Assign the new head and remember who reserved the indices. */
  function Reserved(s: Ring, side: Side, t: nat, oldHead: Word, n: Word): Ring {
    var e, c := s.Ends(side), s.Hist(side);
    WithEnds(s, side, e.(head := W(oldHead + n)), c.(head := c.head + n, owner := c.owner + seq(n, _ => t)))
  }

  /** Assign the new tail and remember what was handed over. */
  function Published(s: Ring, side: Side, oldHead: Word, n: Word, objs: seq<Ptr>): Ring {
    var e, c := s.Ends(side), s.Hist(side);
    var s1 := WithEnds(s, side, e.(tail := W(oldHead + n)), c.(tail := c.tail + n));
    if side.Prod? then s1.(hist := s1.hist.(published := s1.hist.published + objs))
    else s1.(hist := s1.hist.(delivered := s1.hist.delivered + objs))
  }

  function Next(s: Ring, step: Step): Ring
    requires Enabled(s, step)
  {
    var t := step.t;
    var th := s.threads[t];
    match step
    case Begin(_, req) => WithThread(s, t, Looping(req))
    case LoadHead(_) =>
      WithThread(s, t, HeadLoaded(th.req, s.Ends(th.req.side).head, s.Hist(th.req.side).head))
    case LoadTail(_) =>
      var side := th.req.side;
      var n := Amount(th.req, Available(s, side, th.oldHead));
      WithThread(s, t, if n == 0 then Done(th.req, th.at, 0, [], s.RoomLeft(side), s.Limit(side) - th.at >= WORD)
                       else Decided(th.req, th.oldHead, th.at, n, s.RoomLeft(side)))
    case MoveHead(_) =>
      if MovesHead(s, th) then WithThread(Reserved(s, th.req.side, t, th.oldHead, th.n), t, Reserving(s, th))
      else WithThread(s, t, Looping(th.req))
    case Copy(_) =>
      var i := Slot(s.size, th.oldHead, th.k);
      if th.req.side.Prod? then
        WithThread(s.(slots := s.slots[i := th.req.objs[th.k]]), t, th.(k := th.k + 1))
      else
        WithThread(s, t, th.(k := th.k + 1, got := th.got + [s.slots[i]]))
    case Publish(_) =>
      var objs := if th.req.side.Prod? then th.req.objs[..th.n] else th.got;
      WithThread(Published(s, th.req.side, th.oldHead, th.n, objs), t,
                 Done(th.req, th.at, th.n, th.got, th.room, th.wrapped))
  }

  /** A run: each step is enabled. */
  predicate IsRun(s: Ring, steps: seq<Step>)
    decreases |steps|
  {
    steps != [] ==> Enabled(s, steps[0]) && IsRun(Next(s, steps[0]), steps[1..])
  }

  function RunAll(s: Ring, steps: seq<Step>): Ring
    requires IsRun(s, steps)
    decreases |steps|
  {
    if steps == [] then s else RunAll(Next(s, steps[0]), steps[1..])
  }

  /** A head that is moved has room for the objects the thread goes for. */
  predicate HasRoom(s: Ring, step: Step)
    requires Enabled(s, step)
  {
    var th := s.threads[step.t];
    step.MoveHead? && MovesHead(s, th) ==> th.n <= s.RoomLeft(th.req.side)
  }

  /** Neither the head nor its limit is 2^32 or more past the head that the thread loaded. */
  predicate Prompt(s: Ring, step: Step)
    requires Enabled(s, step)
  {
    var th := s.threads[step.t];
    && (step.LoadTail? ==> s.Limit(th.req.side) - th.at < WORD)
    && (step.MoveHead? ==> s.Hist(th.req.side).head - th.at < WORD)
  }

  predicate RoomThroughout(s: Ring, steps: seq<Step>)
    requires IsRun(s, steps)
    decreases |steps|
  {
    steps != [] ==> HasRoom(s, steps[0]) && RoomThroughout(Next(s, steps[0]), steps[1..])
  }

  predicate PromptThroughout(s: Ring, steps: seq<Step>)
    requires IsRun(s, steps)
    decreases |steps|
  {
    steps != [] ==> Prompt(s, steps[0]) && PromptThroughout(Next(s, steps[0]), steps[1..])
  }

  /** The slot of an unbounded index. */
  function SlotAt(size: nat, i: nat): (k: nat)
    requires size > 0
    ensures k < size
  {
    i % size
  }

  // ----- What holds -----------------------------------------------------------------------------

  /** What `rte_ring_init` sets up. */
  ghost predicate Configured(s: Ring) {
    s.capacity < s.size == |s.slots| && WORD % s.size == 0
  }

  /** The 32-bit fields are the counters modulo 2^32. */
  ghost predicate Words(s: Ring, side: Side) {
    var e, c := s.Ends(side), s.Hist(side);
    e.head == W(c.head) && e.tail == W(c.tail)
  }

  /** cons.tail <= cons.head <= prod.tail <= prod.head <= cons.tail + capacity. */
  ghost predicate Ordered(s: Ring) {
    var p, c := s.hist.prod, s.hist.cons;
    c.tail <= c.head <= p.tail <= p.head <= c.tail + s.capacity
  }

  /** Index i is reserved by thread t. */
  ghost predicate Holds(s: Ring, side: Side, t: nat, i: nat) {
    && t < |s.threads|
    && var th := s.threads[t];
       th.Copying? && th.req.side == side && th.at <= i < th.at + th.n
  }

  /** The reservations under way tile [tail, head): `owner` names the one holder of each
      index, and threads hold nothing else. */
  ghost predicate Tiled(s: Ring, side: Side) {
    var c := s.Hist(side);
    && |c.owner| == c.head
    && (forall i :: c.tail <= i < c.head ==> Holds(s, side, c.owner[i], i))
    && (forall t: nat, i: nat :: Holds(s, side, t, i) ==> c.tail <= i < c.head && c.owner[i] == t)
  }

  /** Published objects wait in their slots until they have been dequeued. */
  ghost predicate Stored(s: Ring)
    requires s.size == |s.slots| && s.size > 0
  {
    var h := s.hist;
    && |h.published| == h.prod.tail
    && forall i :: h.cons.tail <= i < h.prod.tail ==> s.slots[SlotAt(s.size, i)] == h.published[i]
  }

  /** FIFO: what has been dequeued is what was enqueued, in the same order. */
  ghost predicate Fifo(s: Ring) {
    var h := s.hist;
    h.cons.tail <= |h.published| && h.delivered == h.published[..h.cons.tail]
  }

  /** A producer has copied k of its objects, a consumer has fetched k. */
  ghost predicate Transferred(s: Ring, th: Thread)
    requires th.Copying? && s.size == |s.slots| && s.size > 0
  {
    if th.req.side.Prod? then
      th.k <= th.n <= |th.req.objs|
      && forall i :: th.at <= i < th.at + th.k ==> s.slots[SlotAt(s.size, i)] == th.req.objs[i - th.at]
    else
      th.at + th.k <= |s.hist.published| && th.got == s.hist.published[th.at..th.at + th.k]
  }

  /** The number of objects agrees with the request. */
  ghost predicate Fits(req: Request, n: Word) {
    n <= req.max && (req.fixed ==> n == req.max) && (req.side.Prod? ==> |req.objs| == req.max)
  }

  /** n is what a call for req comes to when there is room for `room` objects.  One that went
      by a number that had come round may get less, but not more than there was room for. */
  ghost predicate Answers(req: Request, n: Word, room: int, wrapped: bool) {
    && (n > 0 ==> Fits(req, n) && n <= room)
    && (!wrapped ==> 0 <= room && n == Amount(req, room))
  }

  /** The variables of one thread. */
  ghost predicate ThreadOk(s: Ring, th: Thread)
    requires s.size == |s.slots| && s.size > 0
  {
    match th
    case Idle => true
    case Looping(req) => req.side.Prod? ==> |req.objs| == req.max
    case HeadLoaded(req, oldHead, at) =>
      && (req.side.Prod? ==> |req.objs| == req.max)
      && oldHead == W(at) && at <= s.Hist(req.side).head
      && (s.Ends(req.side).single ==> at == s.Hist(req.side).head)
    case Decided(req, oldHead, at, n, room) =>
      && Fits(req, n) && n > 0 && oldHead == W(at) && at <= s.Hist(req.side).head
      && (s.Ends(req.side).single ==> at == s.Hist(req.side).head)
      && (at == s.Hist(req.side).head ==> at + n <= s.Limit(req.side) && Answers(req, n, room, false))
    case Copying(req, oldHead, at, n, k, got, room, wrapped) =>
      && Fits(req, n) && 0 <= k <= n && n > 0 && oldHead == W(at) && Transferred(s, th)
      && s.Hist(req.side).tail <= at && at + n <= s.Hist(req.side).head
      && (s.Ends(req.side).single ==> at == s.Hist(req.side).tail)
      && Answers(req, n, room, wrapped)
    case Done(req, at, n, got, room, wrapped) =>
      && Answers(req, n, room, wrapped) && (n == 0 ==> got == [])
      && (n > 0 ==>
            && at + n <= s.Hist(req.side).tail && at + n <= |s.hist.published|
            && s.hist.published[at..at + n] == if req.side.Prod? then req.objs[..n] else got)
  }

  ghost predicate ThreadsOk(s: Ring)
    requires s.size == |s.slots| && s.size > 0
  {
    forall t :: 0 <= t < |s.threads| ==> ThreadOk(s, s.threads[t])
  }

  /** A single-producer (-consumer) side has one call under way at most. */
  ghost predicate OneAtATime(s: Ring, side: Side) {
    s.Ends(side).single ==>
      forall t, u :: 0 <= t < u < |s.threads| ==> !(Active(s.threads[t], side) && Active(s.threads[u], side))
  }

  ghost predicate Inv(s: Ring) {
    && Configured(s) && Ordered(s) && Stored(s) && Fifo(s) && ThreadsOk(s)
    && Words(s, Prod) && Words(s, Cons) && Tiled(s, Prod) && Tiled(s, Cons)
    && OneAtATime(s, Prod) && OneAtATime(s, Cons)
  }
}
