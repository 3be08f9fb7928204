/** Completion queues with a phase tag (NVM Express 1.4, section 4.6): the device posts
    entries, the host recognises new ones by their phase. */
module CompletionQueues {
  import opened Arithmetic

  /** A completion entry; `data` stands for everything but the phase tag. */
  datatype Cqe = Cqe(data: int, phase: bool)

  /** `NvmeCQueue`. */
  datatype Cq = Cq(slots: seq<Cqe>, tail: nat, phase: bool)

  /** A host that follows the phase tag. */
  datatype Host = Host(head: nat, phase: bool)

  /** `nvme_post_cqe` and `nvme_inc_cq_tail`. */
  function Post(q: Cq, data: int): Cq
    requires q.tail < |q.slots|
  {
    var slots := q.slots[q.tail := Cqe(data, q.phase)];
    if q.tail + 1 >= |q.slots| then Cq(slots, 0, !q.phase) else Cq(slots, q.tail + 1, q.phase)
  }

  /** The entry at the host's head is new. */
  predicate Sees(q: Cq, h: Host)
    requires h.head < |q.slots|
  {
    q.slots[h.head].phase == h.phase
  }

  function Advance(h: Host, size: nat): Host {
    if h.head + 1 >= size then Host(0, !h.phase) else Host(h.head + 1, h.phase)
  }

  // ----- Counting without wrapping ---------------------------------------------------------------

  /** The phase of the i-th entry ever posted. */
  function Phase(i: nat, size: nat): bool
    requires size > 0
  {
    (i / size) % 2 == 0
  }

  function At(i: nat, size: nat): (k: nat)
    requires size > 0
    ensures k < size
  {
    i % size
  }

  /** One further and one lap further. */
  lemma Further(i: nat, size: nat)
    requires size > 0
    ensures At(i + 1, size) == (if At(i, size) + 1 >= size then 0 else At(i, size) + 1)
    ensures Phase(i + 1, size) == (if At(i, size) + 1 >= size then !Phase(i, size) else Phase(i, size))
    ensures At(i + size, size) == At(i, size) && Phase(i + size, size) == !Phase(i, size)
  {
    var q, r := i / size, i % size;
    assert i == q * size + r;
    assert (q + 1) * size == q * size + size;
    DivModUnique(q + 1, r, size);
    if r + 1 >= size { DivModUnique(q + 1, 0, size); } else { DivModUnique(q, r + 1, size); }
  }

  /** The queue after `posted` has been posted in all: the last lap is in the slots, and the
      slots of the next lap have the opposite phase. */
  ghost predicate Holds(q: Cq, posted: seq<int>) {
    var n, p := |q.slots|, |posted|;
    && n > 0 && q.tail == At(p, n) && q.phase == Phase(p, n)
    && (forall i: nat :: p <= i + n && i < p ==> q.slots[At(i, n)] == Cqe(posted[i], Phase(i, n)))
    && (forall i: nat :: p <= i < p + n ==> q.slots[At(i, n)].phase == !Phase(i, n))
  }

  ghost predicate Reading(h: Host, size: nat, r: nat)
    requires size > 0
  {
    h.head == At(r, size) && h.phase == Phase(r, size)
  }

  /** `nvme_init_cq` over memory the host has cleared. */
  lemma StartHolds(slots: seq<Cqe>)
    requires slots != [] && forall k :: 0 <= k < |slots| ==> !slots[k].phase
    ensures Holds(Cq(slots, 0, true), []) && Reading(Host(0, true), |slots|, 0)
  {
    forall i: nat | i < |slots| ensures Phase(i, |slots|) {
      DivModUnique(0, i, |slots|);
    }
  }

  lemma SlotsApart(i: nat, j: nat, size: nat)
    requires size > 0 && i < j < i + size
    ensures At(i, size) != At(j, size)
  {
    if At(i, size) == At(j, size) {
      SameRemainder(i, j, size);
    }
  }

  lemma PostHolds(q: Cq, posted: seq<int>, data: int)
    requires Holds(q, posted)
    ensures Holds(Post(q, data), posted + [data])
  {
    var n, p, q', posted' := |q.slots|, |posted|, Post(q, data), posted + [data];
    Further(p, n);
    forall i: nat | p + 1 <= i + n && i < p + 1 ensures q'.slots[At(i, n)] == Cqe(posted'[i], Phase(i, n)) {
      if i < p { SlotsApart(i, p, n); }
    }
    forall i: nat | p + 1 <= i < p + 1 + n ensures q'.slots[At(i, n)].phase == !Phase(i, n) {
      if i < p + n { SlotsApart(p, i, n); }
    }
  }

  lemma AdvanceReads(h: Host, size: nat, r: nat)
    requires size > 0 && Reading(h, size, r)
    ensures Reading(Advance(h, size), size, r + 1)
  {
    Further(r, size);
  }

  /** With at most a full queue unread, the host sees an entry exactly if there is one, and it
      is the right one. */
  lemma SeesTheNext(q: Cq, posted: seq<int>, h: Host, r: nat)
    requires Holds(q, posted) && Reading(h, |q.slots|, r) && r <= |posted| <= r + |q.slots|
    ensures Sees(q, h) <==> r < |posted|
    ensures r < |posted| ==> q.slots[h.head].data == posted[r]
  {
  }

  lemma {:induction false} LapsFurther(i: nat, k: nat, size: nat)
    requires size > 0
    ensures i + k * size >= 0
    ensures At(i + k * size, size) == At(i, size) && Phase(i + k * size, size) == (Phase(i, size) == (k % 2 == 0))
  {
    hide At, Phase;
    if k == 0 {
      assert i + k * size == i;
    } else {
      LapsFurther(i, k - 1, size);
      var j := i + (k - 1) * size;
      Further(j, size);
      assert i + k * size == j + size;
    }
  }

  /** How many laps the device is ahead of a host with `unread` entries to read. */
  function LapsAhead(unread: nat, size: nat): nat
    requires size > 0 && unread > 0
  {
    (unread - 1) / size
  }

  /** `nvme_post_cqe` does not look at the head.  However many entries are unread, the slot at
      the host's head holds the one that is the device's lead in laps further on.  The host
      takes it as if it were next if the lead is even, and takes the queue for empty although
      entries are waiting if it is odd: all is well exactly if the lead is 0. */
  lemma OverrunOutcome(q: Cq, posted: seq<int>, h: Host, r: nat)
    requires Holds(q, posted) && Reading(h, |q.slots|, r) && r < |posted|
    ensures var lead := LapsAhead(|posted| - r, |q.slots|);
            && (lead == 0 <==> |posted| <= r + |q.slots|)
            && (Sees(q, h) <==> lead % 2 == 0)
            && r + lead * |q.slots| < |posted| && q.slots[h.head].data == posted[r + lead * |q.slots|]
  {
    hide Phase;
    var n, unread := |q.slots|, |posted| - r;
    var lead := LapsAhead(unread, n);
    assert lead * n + (unread - 1) % n == unread - 1;
    LapsFurther(r, lead, n);
    var i := r + lead * n;
    assert |posted| <= i + n && i < |posted|;
    if lead > 0 { MulMonotone(1, lead, n); }
  }

  // ----- Runs --------------------------------------------------------------------------------------

  datatype Event = Posts(data: int) | Looks

  /** Both sides of a queue with everything posted and taken so far. */
  datatype Link = Link(q: Cq, h: Host, posted: seq<int>, taken: seq<int>)

  predicate Usable(l: Link) {
    l.q.tail < |l.q.slots| && l.h.head < |l.q.slots|
  }

  function Next(l: Link, e: Event): Link
    requires Usable(l)
  {
    match e
    case Posts(data) => l.(q := Post(l.q, data), posted := l.posted + [data])
    case Looks =>
      if Sees(l.q, l.h) then
        l.(h := Advance(l.h, |l.q.slots|), taken := l.taken + [l.q.slots[l.h.head].data])
      else l
  }

  ghost predicate InStep(l: Link) {
    && Holds(l.q, l.posted) && Reading(l.h, |l.q.slots|, |l.taken|)
    && l.taken <= l.posted && |l.posted| <= |l.taken| + |l.q.slots|
  }

  lemma NextInStep(l: Link, e: Event)
    requires InStep(l) && (e.Posts? ==> |l.posted| < |l.taken| + |l.q.slots|)
    ensures Usable(l) && InStep(Next(l, e))
    ensures e.Looks? ==> (|Next(l, e).taken| > |l.taken| <==> l.taken != l.posted)
  {
    hide Holds, Phase;
    HoldsUsable(l);
    match e
    case Posts(data) => PostHolds(l.q, l.posted, data);
    case Looks =>
      SeesTheNext(l.q, l.posted, l.h, |l.taken|);
      AdvanceReads(l.h, |l.q.slots|, |l.taken|);
  }

  lemma HoldsUsable(l: Link)
    requires Holds(l.q, l.posted) && |l.q.slots| > 0 && Reading(l.h, |l.q.slots|, |l.taken|)
    ensures Usable(l)
  {
  }

  /** At no time are more entries unread than the queue has slots. */
  ghost predicate NotOverrun(l: Link, events: seq<Event>)
    requires InStep(l)
    decreases |events|
  {
    events != [] ==>
      && (events[0].Posts? ==> |l.posted| < |l.taken| + |l.q.slots|)
      && (NextInStep(l, events[0]); NotOverrun(Next(l, events[0]), events[1..]))
  }

  ghost function RunAll(l: Link, events: seq<Event>): (r: Link)
    requires InStep(l) && NotOverrun(l, events)
    decreases |events|
  {
    if events == [] then l
    else
      NextInStep(l, events[0]);
      RunAll(Next(l, events[0]), events[1..])
  }

  /** Over any number of wraps the host takes exactly what was posted, in order. */
  lemma {:induction false} HostTakesPosted(l: Link, events: seq<Event>)
    requires InStep(l) && NotOverrun(l, events)
    ensures InStep(RunAll(l, events)) && RunAll(l, events).taken <= RunAll(l, events).posted
    decreases |events|
  {
    hide Holds, Next;
    if events != [] {
      NextInStep(l, events[0]);
      HostTakesPosted(Next(l, events[0]), events[1..]);
    }
  }

  /** `nvme_init_cq` over cleared memory, and a host that has read nothing. */
  ghost function StartLink(slots: seq<Cqe>): (l: Link)
    requires slots != [] && forall k :: 0 <= k < |slots| ==> !slots[k].phase
    ensures InStep(l)
  {
    StartHolds(slots);
    Link(Cq(slots, 0, true), Host(0, true), [], [])
  }

  /** From the start, as long as the queue is not overrun, the host takes exactly what was
      posted, in order, and looks in vain only when it has taken everything. */
  lemma HostFollowsDevice(slots: seq<Cqe>, events: seq<Event>)
    requires slots != [] && (forall k :: 0 <= k < |slots| ==> !slots[k].phase) && NotOverrun(StartLink(slots), events)
    ensures var l := RunAll(StartLink(slots), events);
            && l.taken <= l.posted && Usable(l) && (Sees(l.q, l.h) <==> l.taken != l.posted)
  {
    hide StartLink, RunAll, Holds;
    HostTakesPosted(StartLink(slots), events);
    var l := RunAll(StartLink(slots), events);
    HoldsUsable(l);
    SeesTheNext(l.q, l.posted, l.h, |l.taken|);
  }

  // ----- Overrun ---------------------------------------------------------------------------------------

  /** Any events, overrun or not. */
  function Follow(l: Link, events: seq<Event>): Link
    requires Usable(l)
    decreases |events|
  {
    if events == [] then l else Follow(Next(l, events[0]), events[1..])
  }

  function AllPosts(data: seq<int>): seq<Event> {
    if data == [] then [] else [Posts(data[0])] + AllPosts(data[1..])
  }

  /** Posting without a look at the queue. */
  lemma {:induction false} PostedUnseen(l: Link, data: seq<int>)
    requires Holds(l.q, l.posted) && Usable(l)
    ensures var l' := Follow(l, AllPosts(data));
            && Holds(l'.q, l.posted + data) && |l'.q.slots| == |l.q.slots|
            && l'.posted == l.posted + data && l'.h == l.h && l'.taken == l.taken
    decreases |data|
  {
    hide Holds, Usable, Next, Follow, AllPosts;
    if data == [] {
      NothingPosted(l);
      assert l.posted + data == l.posted;
    } else {
      FirstPost(l, data);
      PostedUnseen(Next(l, Posts(data[0])), data[1..]);
      assert l.posted + data == l.posted + [data[0]] + data[1..];
    }
  }

  lemma NothingPosted(l: Link)
    requires Usable(l)
    ensures Follow(l, AllPosts([])) == l
  {
  }

  lemma FirstPost(l: Link, data: seq<int>)
    requires Holds(l.q, l.posted) && Usable(l) && data != []
    ensures var l' := Next(l, Posts(data[0]));
            && Usable(l') && Holds(l'.q, l'.posted) && |l'.q.slots| == |l.q.slots|
            && l'.posted == l.posted + [data[0]] && l'.h == l.h && l'.taken == l.taken
            && Follow(l, AllPosts(data)) == Follow(l', AllPosts(data[1..]))
  {
    hide Holds, Follow;
    PostHolds(l.q, l.posted, data[0]);
    FollowFirst(l, data);
  }

  lemma FollowFirst(l: Link, data: seq<int>)
    requires Usable(l) && data != [] && Usable(Next(l, Posts(data[0])))
    ensures Follow(l, AllPosts(data)) == Follow(Next(l, Posts(data[0])), AllPosts(data[1..]))
  {
    hide Next, Usable;
    assert AllPosts(data)[1..] == AllPosts(data[1..]);
  }

  /** It overruns the queue exactly if there are more entries than slots left. */
  lemma {:induction false} PostsOverrun(l: Link, data: seq<int>)
    requires InStep(l)
    ensures NotOverrun(l, AllPosts(data)) <==> |l.posted| + |data| <= |l.taken| + |l.q.slots|
    decreases |data|
  {
    hide Holds, Phase, Post, Reading;
    if data != [] {
      assert AllPosts(data)[1..] == AllPosts(data[1..]);
      if |l.posted| < |l.taken| + |l.q.slots| {
        NextInStep(l, Posts(data[0]));
        SameSlots(l, data[0]);
        PostsOverrun(Next(l, Posts(data[0])), data[1..]);
      }
    }
  }

  lemma SameSlots(l: Link, data: int)
    requires Usable(l)
    ensures |Next(l, Posts(data)).q.slots| == |l.q.slots|
  {
  }

  /** A device that posts more entries than there are slots before the host looks overruns the
      queue.  If its lead in laps is odd the host finds nothing; if it is even the host takes an
      entry of the last lap for the first.  (n + 1 entries are a lead of one lap, 2 n + 1 of
      two.) */
  lemma Overruns(slots: seq<Cqe>, data: seq<int>)
    requires slots != [] && (forall k :: 0 <= k < |slots| ==> !slots[k].phase) && |data| > |slots|
    ensures Usable(StartLink(slots)) && !NotOverrun(StartLink(slots), AllPosts(data))
    ensures var l, lead := Follow(StartLink(slots), AllPosts(data)), LapsAhead(|data|, |slots|);
            && lead > 0 && Usable(l) && l.posted == data && lead * |slots| < |data|
            && Next(l, Looks).taken == if lead % 2 == 0 then [data[lead * |slots|]] else []
  {
    hide Holds, Phase, Follow, AllPosts, StartLink, Next, Reading, LapsAhead, NotOverrun;
    var l0 := StartLink(slots);
    StartLinkIs(slots);
    PostedUnseen(l0, data);
    assert [] + data == data;
    PostsOverrun(l0, data);
    var l := Follow(l0, AllPosts(data));
    StillUsable(l0, l, data);
    LooksAfterOverrun(l, data);
  }

  lemma StartLinkIs(slots: seq<Cqe>)
    requires slots != [] && forall k :: 0 <= k < |slots| ==> !slots[k].phase
    ensures var l := StartLink(slots);
            && Usable(l) && Holds(l.q, l.posted) && Reading(l.h, |slots|, 0)
            && l.posted == [] == l.taken && |l.q.slots| == |slots|
  {
    hide Holds, Phase;
  }

  lemma LooksAfterOverrun(l: Link, data: seq<int>)
    requires Usable(l) && Holds(l.q, data) && Reading(l.h, |l.q.slots|, 0) && |data| > |l.q.slots| && l.taken == []
    ensures var lead := LapsAhead(|data|, |l.q.slots|);
            && lead > 0 && lead * |l.q.slots| < |data|
            && Next(l, Looks).taken == if lead % 2 == 0 then [data[lead * |l.q.slots|]] else []
  {
    hide Holds, Phase, LapsAhead, Reading;
    OverrunOutcome(l.q, data, l.h, 0);
  }

  lemma StillUsable(l0: Link, l: Link, data: seq<int>)
    requires Usable(l0) && l.h == l0.h && |l.q.slots| == |l0.q.slots| && Holds(l.q, data)
    ensures Usable(l)
  {
  }

  /** The queue in memory. */
  class CompletionQueue {
    const slots: array<Cqe>
    var tail: nat
    var phase: bool

    ghost predicate Valid()
      reads this
    {
      tail < slots.Length
    }

    ghost function View(): Cq
      reads this, slots
    {
      Cq(slots[..], tail, phase)
    }

    /** `nvme_init_cq`. */
    constructor (slots: array<Cqe>)
      requires slots.Length > 0
      ensures Valid() && this.slots == slots && tail == 0 && phase
    {
      this.slots, tail, phase := slots, 0, true;
    }

    /** `nvme_inc_cq_tail`. */
    method IncTail()
      requires Valid()
      modifies this
      ensures Valid()
      ensures if old(tail) + 1 >= slots.Length then tail == 0 && phase == !old(phase)
              else tail == old(tail) + 1 && phase == old(phase)
    {
      tail := tail + 1;
      if tail >= slots.Length {
        tail := 0;
        phase := !phase;
      }
    }

    /** `nvme_post_cqe`. */
    method PostCqe(data: int, ghost posted: seq<int>)
      requires Valid() && Holds(View(), posted)
      modifies this, slots
      ensures Valid() && View() == Post(old(View()), data) && Holds(View(), posted + [data])
    {
      hide Holds;
      PostHolds(View(), posted, data);
      slots[tail] := Cqe(data, phase);
      IncTail();
    }
  }
}
