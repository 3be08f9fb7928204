/** What the operations with the select-all bit achieve. */
module ZnsBulk {
  import opened Queues
  import opened ZnsModel
  import opened ZnsInvariant
  import opened ZnsCommands

  /** What an operation makes of a zone it processes in bulk; other zones stay. */
  function Target(op: ZoneOp, z: Zone): Zone {
    if !Wanted(op, z.zs) then z
    else
      match op
      case OpOpen => Entered(z, ExpOpen)
      case OpClose => Entered(z, Closed)
      case OpFinish => Entered(z.(wp := z.Boundary(), wPtr := z.Boundary()), Full)
      case OpReset => Entered(z.(wp := z.zslba, wPtr := z.zslba), Empty)
      case OpOffline => Entered(z, Offline)
  }

  lemma AssignZones(s: Zns, i: nat, st: ZState)
    requires i < |s.zones|
    ensures AssignState(s, i, st).zones == s.zones[i := Entered(s.zones[i], st)]
  {
  }

  /** Only opening can fail. */
  lemma OneInBulk(s: Zns, i: nat, op: ZoneOp)
    requires i < |s.zones| && op != OpOpen
    ensures BulkOne(s, i, op).status == Success
    ensures BulkOne(s, i, op).s.zones == s.zones[i := Target(op, s.zones[i])]
  {
    hide AssignState, Entered;
    var z := s.zones[i];
    AssignZones(DecOpen(s), i, Closed);
    AssignZones(WithPointers(Released(s, z.zs), i, z.Boundary()), i, Full);
    AssignZones(WithPointers(Released(s, z.zs), i, z.zslba), i, Empty);
    AssignZones(s, i, Offline);
  }

  lemma {:induction false} ListInBulk(s: Zns, q: seq<nat>, op: ZoneOp)
    requires Within(q, |s.zones|) && NoDup(q) && op != OpOpen
    ensures BulkList(s, q, op).status == Success
    ensures forall i :: 0 <= i < |s.zones| ==>
              BulkList(s, q, op).s.zones[i] == if i in q then Target(op, s.zones[i]) else s.zones[i]
    decreases |q|
  {
    hide BulkOne, Target;
    if q != [] {
      assert q == [q[0]] + q[1..] && q[0] !in q[1..];
      OneInBulk(s, q[0], op);
      ListInBulk(BulkOne(s, q[0], op).s, q[1..], op);
    }
  }

  lemma StateInBulk(r: Outcome, st: ZState, op: ZoneOp)
    requires Inv(r.s) && r.status == Success && op != OpOpen && Queued(st)
    ensures BulkState(r, st, op).status == Success
    ensures forall i :: 0 <= i < |r.s.zones| ==>
              BulkState(r, st, op).s.zones[i]
              == if r.s.zones[i].zs == st then Target(op, r.s.zones[i]) else r.s.zones[i]
  {
    assert ListedIn(r.s, st);
    InvShaped(r.s);
    hide Inv, BulkList, ListedIn;
    if Wanted(op, st) {
      QueueNoDup(r.s, st);
      ListInBulk(r.s, ListOf(r.s, st), op);
    }
  }

  lemma QueueNoDup(s: Zns, st: ZState)
    requires ListedIn(s, st)
    ensures NoDup(ListOf(s, st)) && Within(ListOf(s, st), |s.zones|)
    ensures forall i: nat :: i in ListOf(s, st) <==> i < |s.zones| && s.zones[i].zs == st
  {
    MembersBelow(s, st);
  }

  /** CLOSE, FINISH, RESET and OFFLINE on all zones never fail and process every zone in a
      state they apply to, although they relink the zone being visited. */
  lemma AllInBulk(s: Zns, op: ZoneOp)
    requires Inv(s) && op != OpOpen
    ensures BulkAll(s, op).status == Success
    ensures forall i :: 0 <= i < |s.zones| ==> BulkAll(s, op).s.zones[i] == Target(op, s.zones[i])
  {
    hide Inv, BulkState;
    if op == OpOffline {
      ListInBulk(s, Indices(|s.zones|), op);
    } else {
      var r1 := BulkState(Outcome(s, Success), Closed, op);
      StateInBulk(Outcome(s, Success), Closed, op);
      var r2 := BulkState(r1, ImpOpen, op);
      StateInBulk(r1, ImpOpen, op);
      var r3 := BulkState(r2, ExpOpen, op);
      StateInBulk(r2, ExpOpen, op);
      StateInBulk(r3, Full, op);
    }
  }

  /** RESET ALL leaves every zone empty, read-only or offline and no resource in use. */
  lemma ResetAllResult(s: Zns)
    requires Inv(s)
    ensures var t := BulkAll(s, OpReset).s;
            && t.nrOpen == 0 && t.nrActive == 0
            && forall i :: 0 <= i < |s.zones| ==>
                 && t.zones[i].zs in {Empty, ReadOnly, Offline}
                 && (s.zones[i].zs in {ImpOpen, ExpOpen, Closed, Full} ==>
                       t.zones[i].wp == t.zones[i].wPtr == s.zones[i].zslba && !t.zones[i].ext)
  {
    hide Inv, BulkAll;
    AllInBulk(s, OpReset);
    NothingQueued(BulkAll(s, OpReset).s);
  }

  lemma NothingQueued(s: Zns)
    requires Inv(s) && forall i :: 0 <= i < |s.zones| ==> s.zones[i].zs !in {ImpOpen, ExpOpen, Closed}
    ensures s.nrOpen == 0 && s.nrActive == 0
  {
    assert ListedIn(s, ImpOpen) && ListedIn(s, ExpOpen) && ListedIn(s, Closed);
    EmptyQueue(s, ImpOpen);
    EmptyQueue(s, ExpOpen);
    EmptyQueue(s, Closed);
  }

  /** FINISH ALL leaves no zone open or closed. */
  lemma FinishAllResult(s: Zns)
    requires Inv(s)
    ensures var t := BulkAll(s, OpFinish).s;
            && t.nrOpen == 0 && t.nrActive == 0
            && forall i :: 0 <= i < |s.zones| ==> t.zones[i].zs in {Empty, Full, ReadOnly, Offline}
  {
    hide Inv, BulkAll;
    AllInBulk(s, OpFinish);
    NothingQueued(BulkAll(s, OpFinish).s);
  }

  /** CLOSE ALL leaves no zone open and keeps the active ones active. */
  lemma CloseAllResult(s: Zns)
    requires Inv(s)
    ensures var t := BulkAll(s, OpClose).s;
            && t.nrOpen == 0 && t.nrActive == s.nrActive
            && forall i :: 0 <= i < |s.zones| ==> t.zones[i].zs !in {ImpOpen, ExpOpen}
  {
    hide Inv, BulkAll, OpenZones, ClosedZones;
    var t := BulkAll(s, OpClose).s;
    AllInBulk(s, OpClose);
    NoneOpen(t);
    ResourcesCounted(s);
    ResourcesCounted(t);
    CloseKeepsActive(s, t);
    ActiveCounter(s);
    ActiveCounter(t);
  }

  lemma CloseKeepsActive(s: Zns, t: Zns)
    requires |t.zones| == |s.zones| && forall i :: 0 <= i < |s.zones| ==> t.zones[i] == Target(OpClose, s.zones[i])
    ensures OpenZones(t) + ClosedZones(t) == OpenZones(s) + ClosedZones(s)
  {
  }

  lemma NoneOpen(s: Zns)
    requires Inv(s) && forall i :: 0 <= i < |s.zones| ==> s.zones[i].zs !in {ImpOpen, ExpOpen}
    ensures s.nrOpen == 0
  {
    assert ListedIn(s, ImpOpen) && ListedIn(s, ExpOpen);
    EmptyQueue(s, ImpOpen);
    EmptyQueue(s, ExpOpen);
  }

  lemma ActiveCounter(s: Zns)
    requires Inv(s)
    ensures s.nrActive == if s.maxActive == 0 then 0 else Actives(s)
  {
  }

  // ----- OPEN ALL ---------------------------------------------------------------------------------

  /** The number of zones in a queue of length n that can still be opened. */
  function Openable(s: Zns, n: nat): int {
    if s.maxOpen == 0 || s.nrOpen + n <= s.maxOpen then n else s.maxOpen - s.nrOpen
  }

  lemma OpenOne(s: Zns, i: nat)
    requires Inv(s) && i < |s.zones| && s.zones[i].zs == Closed
    ensures var r := BulkOne(s, i, OpOpen);
            && Inv(r.s) && SameConfig(s, r.s)
            && (if s.maxOpen == 0 || s.nrOpen < s.maxOpen then
                  && r.status == Success && r.s.zones == s.zones[i := Entered(s.zones[i], ExpOpen)]
                  && r.s.nrOpen == IncOpen(s).nrOpen
                else r == Outcome(s, TooManyOpen))
  {
    hide Listed;
    ApplyKeepsInv(s, i, OpOpen);
    AssignZones(IncOpen(s), i, ExpOpen);
  }

  /** z' is z with the first k zones of q opened. */
  ghost predicate OpenedFirst(z: seq<Zone>, z': seq<Zone>, q: seq<nat>, k: int) {
    && 0 <= k <= |q| && |z'| == |z|
    && forall i :: 0 <= i < |z| ==> z'[i] == if i in q[..k] then Entered(z[i], ExpOpen) else z[i]
  }

  lemma OpenedOneMore(z: seq<Zone>, z': seq<Zone>, q: seq<nat>, k: int)
    requires NoDup(q) && q != [] && q[0] < |z|
    requires OpenedFirst(z[q[0] := Entered(z[q[0]], ExpOpen)], z', q[1..], k - 1)
    ensures OpenedFirst(z, z', q, k)
  {
    hide Entered;
    assert q[..k] == [q[0]] + q[1..][..k - 1];
    assert q[0] !in q[1..][..k - 1];
  }

  lemma {:induction false} ListOpened(s: Zns, q: seq<nat>)
    requires Inv(s) && Within(q, |s.zones|) && NoDup(q) && forall i :: i in q ==> s.zones[i].zs == Closed
    ensures var r, k := BulkList(s, q, OpOpen), Openable(s, |q|);
            && OpenedFirst(s.zones, r.s.zones, q, k)
            && r.status == (if k == |q| then Success else TooManyOpen)
    decreases |q|
  {
    hide Inv, BulkOne, Entered, OpenedFirst;
    OpenWithinLimit(s);
    if q != [] {
      assert q == [q[0]] + q[1..] && q[0] !in q[1..];
      OpenOne(s, q[0]);
      var r := BulkOne(s, q[0], OpOpen);
      if r.status == Success {
        RestStillClosed(s, r.s, q);
        ListOpened(r.s, q[1..]);
        OpenedOneMore(s.zones, BulkList(s, q, OpOpen).s.zones, q, Openable(s, |q|));
      } else {
        NothingOpened(s.zones, q);
      }
    } else {
      NothingOpened(s.zones, q);
    }
  }

  lemma OpenWithinLimit(s: Zns)
    requires Inv(s)
    ensures s.nrOpen <= s.maxOpen
  {
  }

  lemma RestStillClosed(s: Zns, t: Zns, q: seq<nat>)
    requires q != [] && NoDup(q) && Within(q, |s.zones|) && forall i :: i in q ==> s.zones[i].zs == Closed
    requires t.zones == s.zones[q[0] := Entered(s.zones[q[0]], ExpOpen)]
    ensures NoDup(q[1..]) && Within(q[1..], |t.zones|) && forall i :: i in q[1..] ==> t.zones[i].zs == Closed
  {
    hide Entered;
    assert q == [q[0]] + q[1..] && q[0] !in q[1..];
  }

  lemma NothingOpened(z: seq<Zone>, q: seq<nat>)
    ensures OpenedFirst(z, z, q, 0)
  {
  }

  /** OPEN ALL opens closed zones in the order of their queue, as many as the limit allows,
      and reports TOO_MANY_OPEN exactly when some are left. */
  lemma OpenAllResult(s: Zns)
    requires Inv(s)
    ensures var r, k := BulkAll(s, OpOpen), Openable(s, |s.closed|);
            && OpenedFirst(s.zones, r.s.zones, s.closed, k)
            && r.status == (if k == |s.closed| then Success else TooManyOpen)
  {
    hide BulkList, OpenedFirst, Openable, Inv;
    ClosedQueue(s);
    ListOpened(s, s.closed);
  }

  /** Only the queue of closed zones is processed. */
  lemma ClosedQueue(s: Zns)
    requires Inv(s)
    ensures Within(s.closed, |s.zones|) && NoDup(s.closed) && forall i :: i in s.closed ==> s.zones[i].zs == Closed
    ensures BulkAll(s, OpOpen) == BulkList(s, s.closed, OpOpen)
  {
    hide BulkList;
    assert ListedIn(s, Closed);
    InvShaped(s);
    QueueNoDup(s, Closed);
  }
}
