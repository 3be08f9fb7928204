/** Operations on all zones and the shutdown: their answers, and the order of the queues after
    them, on which later operations depend. */
module ZnsOrders {
  import opened Queues
  import opened ZnsModel
  import opened ZnsInvariant
  import opened ZnsCommands
  import opened ZnsBulk
  import opened ZnsAccepts

  // ----- CLOSE and FINISH -------------------------------------------------------------------------

  /** The queue that a processed zone goes to. */
  predicate GoesTo(op: ZoneOp, to: ZState) {
    (op == OpClose && to == Closed) || (op == OpFinish && to == Full)
  }

  /** The other queues of states that the operation processes. */
  predicate Comes(op: ZoneOp, st: ZState) {
    st == ImpOpen || st == ExpOpen || (op == OpFinish && st == Closed)
  }

  /** s and t have the same queues and zones in the same states. */
  ghost predicate SameQueues(s: Zns, t: Zns) {
    && t.expOpen == s.expOpen && t.impOpen == s.impOpen && t.closed == s.closed && t.full == s.full
    && |t.zones| == |s.zones| && forall k :: 0 <= k < |s.zones| ==> t.zones[k].zs == s.zones[k].zs
  }

  /** The namespace when the state of the zone is assigned. */
  function BeforeAssign(s: Zns, i: nat, op: ZoneOp): Zns
    requires i < |s.zones|
  {
    if op == OpClose then DecOpen(s) else WithPointers(Released(s, s.zones[i].zs), i, s.zones[i].Boundary())
  }

  lemma AssignsLast(s: Zns, i: nat, op: ZoneOp, to: ZState)
    requires i < |s.zones| && GoesTo(op, to) && Comes(op, s.zones[i].zs)
    ensures var u := BeforeAssign(s, i, op);
            && SameQueues(s, u) && (forall k :: 0 <= k < |s.zones| && k != i ==> u.zones[k] == s.zones[k])
            && BulkOne(s, i, op).s == AssignState(u, i, to)
    ensures s.zones[i].zs != to && Queued(to)
  {
    hide AssignState;
  }

  lemma OneGoes(s: Zns, i: nat, op: ZoneOp, to: ZState)
    requires Inv(s) && i < |s.zones| && GoesTo(op, to) && Comes(op, s.zones[i].zs)
    ensures var t := BulkOne(s, i, op).s;
            && Inv(t) && t.zones[i].zs == to && |t.zones| == |s.zones|
            && (forall k :: 0 <= k < |s.zones| && k != i ==> t.zones[k] == s.zones[k])
            && ListOf(t, to) == ListOf(s, to) + [i]
            && forall st :: Comes(op, st) && st != s.zones[i].zs ==> ListOf(t, st) == ListOf(s, st)
  {
    hide Inv, AssignState, BulkOne, BeforeAssign, GoesTo, Comes, SameQueues, ListOf;
    OneKeepsInv(s, i, op);
    AssignsLast(s, i, op, to);
    var u := BeforeAssign(s, i, op);
    SameLists(s, u);
    AssignedLists(u, i, to);
    AssignZones(u, i, to);
    ComesNotTo(op, to);
  }

  lemma OneKeepsInv(s: Zns, i: nat, op: ZoneOp)
    requires Inv(s) && i < |s.zones|
    ensures Inv(BulkOne(s, i, op).s)
  {
    hide Inv, Apply;
    ApplyKeepsInv(s, i, op);
  }

  lemma SameLists(s: Zns, t: Zns)
    requires SameQueues(s, t)
    ensures forall st :: ListOf(t, st) == ListOf(s, st)
    ensures |t.zones| == |s.zones| && forall k :: 0 <= k < |s.zones| ==> t.zones[k].zs == s.zones[k].zs
  {
  }

  lemma ComesNotTo(op: ZoneOp, to: ZState)
    requires GoesTo(op, to)
    ensures forall st :: Comes(op, st) ==> st != to
  {
  }

  lemma AssignedLists(s: Zns, i: nat, to: ZState)
    requires i < |s.zones| && Queued(to) && s.zones[i].zs != to
    ensures ListOf(AssignState(s, i, to), to) == ListOf(s, to) + [i]
    ensures forall st :: st != to && st != s.zones[i].zs ==> ListOf(AssignState(s, i, to), st) == ListOf(s, st)
  {
    hide InUse;
  }

  /** The zones of a queue go to the end of the other one, in order. */
  lemma {:induction false} QueueGoes(s: Zns, q: seq<nat>, op: ZoneOp, st: ZState, to: ZState)
    requires Inv(s) && Within(q, |s.zones|) && NoDup(q) && GoesTo(op, to) && Comes(op, st)
    requires forall k :: 0 <= k < |q| ==> s.zones[q[k]].zs == st
    ensures var t := BulkList(s, q, op).s;
            && ListOf(t, to) == ListOf(s, to) + q
            && forall x :: Comes(op, x) && x != st ==> ListOf(t, x) == ListOf(s, x)
    decreases |q|
  {
    hide Inv, BulkOne, ListOf, GoesTo, Comes, NoDup, Within;
    if q == [] {
      assert ListOf(s, to) + q == ListOf(s, to);
    } else {
      RestOf(q, |s.zones|);
      OneGoes(s, q[0], op, to);
      NotOpening(op, to);
      OneInBulk(s, q[0], op);
      QueueGoes(BulkOne(s, q[0], op).s, q[1..], op, st, to);
      assert ListOf(s, to) + [q[0]] + q[1..] == ListOf(s, to) + q;
    }
  }

  lemma RestOf(q: seq<nat>, n: nat)
    requires NoDup(q) && Within(q, n) && q != []
    ensures NoDup(q[1..]) && Within(q[1..], n) && q[0] < n
    ensures forall k :: 0 <= k < |q| - 1 ==> q[1..][k] != q[0] && q[1..][k] == q[k + 1] < n
  {
    assert q == [q[0]] + q[1..] && q[0] !in q[1..];
  }

  lemma NotOpening(op: ZoneOp, to: ZState)
    requires GoesTo(op, to)
    ensures op != OpOpen
  {
  }

  lemma StateGoes(r: Outcome, op: ZoneOp, st: ZState, to: ZState)
    requires Inv(r.s) && r.status == Success && GoesTo(op, to) && Comes(op, st)
    ensures var t := BulkState(r, st, op);
            && t.status == Success && ListOf(t.s, to) == ListOf(r.s, to) + ListOf(r.s, st)
            && forall x :: Comes(op, x) && x != st ==> ListOf(t.s, x) == ListOf(r.s, x)
  {
    hide Inv, BulkList, ListOf, NoDup, Within, GoesTo, Comes, Wanted;
    Processes(op, st, to);
    QueueFacts(r.s, st);
    StateInBulk(r, st, op);
    QueueGoes(r.s, ListOf(r.s, st), op, st, to);
  }

  lemma Processes(op: ZoneOp, st: ZState, to: ZState)
    requires GoesTo(op, to) && Comes(op, st)
    ensures Wanted(op, st) && Queued(st) && op != OpOpen
  {
  }

  lemma QueueFacts(s: Zns, st: ZState)
    requires Inv(s) && Queued(st)
    ensures NoDup(ListOf(s, st)) && Within(ListOf(s, st), |s.zones|)
    ensures forall k :: 0 <= k < |ListOf(s, st)| ==> s.zones[ListOf(s, st)[k]].zs == st
  {
    hide Balanced;
    assert ListedIn(s, st);
    MembersBelow(s, st);
    ListMembers(s, st);
  }

  lemma ListMembers(s: Zns, st: ZState)
    requires ListedIn(s, st) && Within(ListOf(s, st), |s.zones|)
    ensures forall k :: 0 <= k < |ListOf(s, st)| ==> s.zones[ListOf(s, st)[k]].zs == st
  {
    forall k | 0 <= k < |ListOf(s, st)| ensures s.zones[ListOf(s, st)[k]].zs == st {
      assert ListOf(s, st)[k] in ListOf(s, st);
    }
  }

  /** What CLOSE ALL and FINISH ALL do, one queue after the other. */
  lemma AllUnfolds(s: Zns, op: ZoneOp, to: ZState)
    requires Inv(s) && GoesTo(op, to)
    ensures var r1 := if op == OpFinish then BulkState(Outcome(s, Success), Closed, op) else Outcome(s, Success);
            Inv(r1.s)
            && var r2 := BulkState(r1, ImpOpen, op);
               BulkAll(s, op) == BulkState(r2, ExpOpen, op)
  {
    hide Inv, BulkList;
  }

  /** After CLOSE ALL the queue of closed zones goes on with those that were implicitly and then
      with those that were explicitly open; after FINISH ALL the queue of full zones goes on with
      the closed zones and then those. */
  lemma AllInOrder(s: Zns)
    requires Inv(s)
    ensures BulkAll(s, OpClose).s.closed == s.closed + s.impOpen + s.expOpen
    ensures BulkAll(s, OpFinish).s.full == s.full + s.closed + s.impOpen + s.expOpen
  {
    hide Inv, BulkState, BulkAll;
    AllUnfolds(s, OpClose, Closed);
    var r := Outcome(s, Success);
    StateGoes(r, OpClose, ImpOpen, Closed);
    StateGoes(BulkState(r, ImpOpen, OpClose), OpClose, ExpOpen, Closed);
    AllUnfolds(s, OpFinish, Full);
    var r1 := BulkState(r, Closed, OpFinish);
    StateGoes(r, OpFinish, Closed, Full);
    StateGoes(r1, OpFinish, ImpOpen, Full);
    StateGoes(BulkState(r1, ImpOpen, OpFinish), OpFinish, ExpOpen, Full);
  }

  // ----- OPEN -------------------------------------------------------------------------------------

  /** OPEN ALL opens as many of the closed zones as the limit on open zones allows, in the order
      of their queue, and succeeds exactly if that is all of them. */
  lemma OpenAllIsAnswered(s: Zns, slba: nat)
    requires Inv(s) && s.zones[0].zslba == 0
    ensures var r, n := Exec(s, Manage(OpOpen, true, slba)), |ClosedZones(s)|;
            var k := if s.maxOpen == 0 || |OpenZones(s)| + n <= s.maxOpen then n else s.maxOpen - |OpenZones(s)|;
            && 0 <= k <= n == |s.closed| && |r.s.zones| == |s.zones|
            && r.status == (if k == n then Success else TooManyOpen)
            && forall i :: 0 <= i < |s.zones| ==>
                 r.s.zones[i] == if i in s.closed[..k] then s.zones[i].(zs := ExpOpen) else s.zones[i]
  {
    hide Inv, BulkAll, OpenZones, ClosedZones, Balanced, Listed;
    InvShaped(s);
    OpenAllResult(s);
    ResourcesCounted(s);
    ClosedCounted(s);
    OpenCounted(s);
    OpenedAs(s.zones);
  }

  lemma OpenedAs(z: seq<Zone>)
    ensures forall i :: 0 <= i < |z| ==> Entered(z[i], ExpOpen) == z[i].(zs := ExpOpen)
  {
  }

  lemma ClosedCounted(s: Zns)
    requires Inv(s)
    ensures |ClosedZones(s)| == |s.closed|
  {
    assert ListedIn(s, Closed);
    hide Listed, Balanced;
    QueueIsSet(s.closed, ClosedZones(s));
  }

  lemma OpenCounted(s: Zns)
    requires Inv(s)
    ensures s.maxOpen != 0 ==> s.nrOpen == Opens(s) <= s.maxOpen
  {
    hide Listed;
  }

  // ----- Shutdown -----------------------------------------------------------------------------------

  /** A zone that holds data or a descriptor extension. */
  predicate Holds(z: Zone) {
    z.wp != z.zslba || z.ext
  }

  /** The zones of q that hold something, the last one first. */
  ghost function Backwards(zones: seq<Zone>, q: seq<nat>): seq<nat>
    requires Within(q, |zones|)
  {
    if q == [] then [] else Backwards(zones, q[1..]) + if Holds(zones[q[0]]) then [q[0]] else []
  }

  lemma {:induction false} SameBackwards(z: seq<Zone>, z': seq<Zone>, q: seq<nat>)
    requires Within(q, |z|) && |z'| == |z| && forall k :: 0 <= k < |q| ==> (Holds(z'[q[k]]) <==> Holds(z[q[k]]))
    ensures Backwards(z', q) == Backwards(z, q)
    decreases |q|
  {
    hide Holds;
    if q != [] {
      SameBackwards(z, z', q[1..]);
    }
  }

  lemma ShutOneZone(s: Zns, i: nat)
    requires i < |s.zones|
    ensures var t := ShutZone(s, i);
            && |t.zones| == |s.zones| && (forall k :: 0 <= k < |s.zones| && k != i ==> t.zones[k] == s.zones[k])
            && (Holds(t.zones[i]) <==> Holds(s.zones[i]))
  {
    ShutOne(s, i);
    hide ShutZone;
  }

  lemma ShutOneQueue(s: Zns, i: nat)
    requires i < |s.zones|
    ensures var t := ShutZone(s, i);
            && t.closed == (if Holds(s.zones[i]) then [i] else [])
                           + (if s.zones[i].zs == Closed then Without(s.closed, i) else s.closed)
            && (s.zones[i].zs != ImpOpen ==> t.impOpen == s.impOpen)
            && (s.zones[i].zs != ExpOpen ==> t.expOpen == s.expOpen)
  {
  }

  /** Closed zones are taken off their queue and those that hold something put in front. */
  lemma {:induction false} ShutClosed(s: Zns, front: seq<nat>, rest: seq<nat>)
    requires s.closed == front + rest && NoDup(s.closed) && Within(rest, |s.zones|)
    requires forall k :: 0 <= k < |rest| ==> s.zones[rest[k]].zs == Closed
    ensures var t := ShutList(s, rest);
            t.closed == Backwards(s.zones, rest) + front && t.impOpen == s.impOpen && t.expOpen == s.expOpen
    decreases |rest|
  {
    hide ShutZone, Holds;
    if rest == [] {
      assert front + rest == front;
    } else {
      var i, t := rest[0], ShutZone(s, rest[0]);
      FrontApart(front, rest);
      AtFront(front, rest);
      ShutOneZone(s, i);
      ShutOneQueue(s, i);
      var front' := (if Holds(s.zones[i]) then [i] else []) + front;
      assert t.closed == front' + rest[1..];
      ShutClosed(t, front', rest[1..]);
      SameBackwards(s.zones, t.zones, rest[1..]);
      assert Backwards(s.zones, rest) + front == Backwards(s.zones, rest[1..]) + front';
    }
  }

  lemma FrontApart(front: seq<nat>, rest: seq<nat>)
    requires NoDup(front + rest) && rest != []
    ensures rest[0] !in front && rest[0] !in rest[1..]
    ensures NoDup(front + rest[1..]) && NoDup([rest[0]] + front + rest[1..])
  {
    var q := front + rest;
    assert forall k :: 0 <= k < |front| ==> q[k] == front[k];
    assert forall k :: 0 <= k < |rest| ==> q[|front| + k] == rest[k];
    assert q == front + [rest[0]] + rest[1..];
  }

  /** Open zones that hold something are put in front of the closed ones. */
  lemma {:induction false} ShutOpen(s: Zns, q: seq<nat>, st: ZState)
    requires Within(q, |s.zones|) && NoDup(q) && (st == ImpOpen || st == ExpOpen)
    requires forall k :: 0 <= k < |q| ==> s.zones[q[k]].zs == st
    ensures var t := ShutList(s, q);
            && t.closed == Backwards(s.zones, q) + s.closed
            && (st == ImpOpen ==> t.expOpen == s.expOpen)
    decreases |q|
  {
    hide ShutZone, Holds;
    if q == [] {
      assert [] + s.closed == s.closed;
    } else {
      assert q == [q[0]] + q[1..] && q[0] !in q[1..];
      var t := ShutZone(s, q[0]);
      ShutOneZone(s, q[0]);
      ShutOneQueue(s, q[0]);
      ShutOpen(t, q[1..], st);
      SameBackwards(s.zones, t.zones, q[1..]);
    }
  }

  /** What a shutdown leaves: open and closed zones are closed if they hold data or an extension
      and empty if not, with both pointers at the reported one; other zones stay.  The closed
      ones are queued the last visited first. */
  lemma ShutdownIsAnswered(s: Zns)
    requires Inv(s)
    ensures var r := Exec(s, Shutdown);
            && r.status == Success && |r.s.zones| == |s.zones| && r.s.impOpen == [] && r.s.expOpen == []
            && forall i :: 0 <= i < |s.zones| ==>
                 var z, z' := s.zones[i], r.s.zones[i];
                 if z.zs !in {Closed, ImpOpen, ExpOpen} then z' == z
                 else z'.zs == (if z.wp != z.zslba || z.ext then Closed else Empty)
                      && z'.wp == z'.wPtr == z.wp && z'.zslba == z.zslba && z'.zcap == z.zcap && z'.ext == z.ext
    ensures Within(s.closed, |s.zones|) && Within(s.impOpen, |s.zones|) && Within(s.expOpen, |s.zones|)
    ensures Exec(s, Shutdown).s.closed
            == Backwards(s.zones, s.expOpen) + Backwards(s.zones, s.impOpen) + Backwards(s.zones, s.closed)
  {
    hide Inv, DoShutdown, Backwards;
    ShutdownResult(s);
    InvShaped(s);
    ShutdownOrder(s);
  }

  lemma QueuesOf(s: Zns)
    requires Inv(s)
    ensures NoDup(s.closed) && NoDup(s.impOpen) && NoDup(s.expOpen) && Shaped(s)
    ensures forall k :: 0 <= k < |s.closed| ==> s.zones[s.closed[k]].zs == Closed
    ensures forall k :: 0 <= k < |s.impOpen| ==> s.zones[s.impOpen[k]].zs == ImpOpen
    ensures forall k :: 0 <= k < |s.expOpen| ==> s.zones[s.expOpen[k]].zs == ExpOpen
  {
    InvShaped(s);
    assert ListedIn(s, Closed) && ListedIn(s, ImpOpen) && ListedIn(s, ExpOpen);
    ListMembers(s, Closed);
    ListMembers(s, ImpOpen);
    ListMembers(s, ExpOpen);
  }

  /** The three loops, one at a time. */
  lemma FirstLoop(s: Zns)
    requires Inv(s) && Shaped(s)
    ensures var t := ShutState(s, Closed);
            t.closed == Backwards(s.zones, s.closed) && t.impOpen == s.impOpen && t.expOpen == s.expOpen
  {
    hide Inv, ShutList, Shaped, Backwards;
    QueuesOf(s);
    assert s.closed == [] + s.closed;
    ShutClosed(s, [], s.closed);
    assert Backwards(s.zones, s.closed) + [] == Backwards(s.zones, s.closed);
  }

  lemma LaterLoop(s: Zns, st: ZState)
    requires Inv(s) && Shaped(s) && (st == ImpOpen || st == ExpOpen)
    ensures Within(ListOf(s, st), |s.zones|)
    ensures var t := ShutState(s, st);
            t.closed == Backwards(s.zones, ListOf(s, st)) + s.closed && (st == ImpOpen ==> t.expOpen == s.expOpen)
  {
    hide Inv, ShutList, Backwards;
    QueuesOf(s);
    ShutOpen(s, ListOf(s, st), st);
  }

  lemma LoopKeepsHeld(s: Zns, st: ZState)
    requires Inv(s) && Queued(st) && st != Full
    ensures forall i :: 0 <= i < |s.zones| ==> (Holds(ShutState(s, st).zones[i]) <==> Holds(s.zones[i]))
  {
    hide Inv, ShutState;
    ShutStateZones(s, st);
  }

  lemma ShutdownOrder(s: Zns)
    requires Inv(s) && Shaped(s)
    ensures DoShutdown(s).closed
            == Backwards(s.zones, s.expOpen) + Backwards(s.zones, s.impOpen) + Backwards(s.zones, s.closed)
  {
    hide Inv, ShutState, Backwards, Holds;
    var s1 := ShutState(s, Closed);
    var s2 := ShutState(s1, ImpOpen);
    FirstLoop(s);
    LoopKeepsHeld(s, Closed);
    InvShaped(s1);
    LaterLoop(s1, ImpOpen);
    LoopKeepsHeld(s1, ImpOpen);
    InvShaped(s2);
    LaterLoop(s2, ExpOpen);
    SameBackwards(s.zones, s1.zones, s.impOpen);
    SameBackwards(s.zones, s2.zones, s.expOpen);
    var a, b, c := Backwards(s.zones, s.closed), Backwards(s.zones, s.impOpen), Backwards(s.zones, s.expOpen);
    assert c + (b + a) == c + b + a;
  }
}
