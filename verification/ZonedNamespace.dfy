/** The zoned namespace of femu/zns/zns.c in memory: the zone array, the four queues and the
    resource counters.  Every method is proved to change them exactly as the function of the
    same C routine in ZnsModel does, and every assertion of zns.h and zns.c on the way is
    proved. */
module ZonedNamespaces {
  import opened Wrappers
  import opened Arithmetic
  import opened Queues
  import opened ZnsModel
  import opened ZnsInvariant
  import opened ZnsCommands
  import opened ZnsWrites
  import ZnsReads

  lemma CountersMatch(s: Zns)
    requires Inv(s)
    ensures 0 <= s.nrOpen && 0 <= s.nrActive && s.nrOpen <= s.maxOpen && s.nrActive <= s.maxActive
    ensures s.maxOpen != 0 && s.maxActive != 0 ==> s.nrOpen <= s.nrActive
  {
  }

  /** An open zone holds an open and an active resource, a closed one an active one. */
  lemma HeldResources(s: Zns, i: nat)
    requires Inv(s) && i < |s.zones|
    ensures s.zones[i].zs in {ImpOpen, ExpOpen} ==>
              && (s.maxOpen != 0 ==> s.nrOpen > 0) && (s.maxActive != 0 ==> s.nrActive > 0)
    ensures s.zones[i].zs == Closed && s.maxActive != 0 ==>
              s.nrActive > 0 && (s.maxOpen != 0 ==> s.nrOpen < s.nrActive)
  {
    assert ListedIn(s, ImpOpen) && ListedIn(s, ExpOpen) && ListedIn(s, Closed);
    if s.zones[i].zs == ImpOpen { assert i in s.impOpen; }
    if s.zones[i].zs == ExpOpen { assert i in s.expOpen; }
    if s.zones[i].zs == Closed { assert i in s.closed; }
  }

  /** The part of a request structure that outlives a command. */
  class RequestSlot {
    var isWrite: bool

    /** Structures are allocated zeroed (`nvme_init_sq`). */
    constructor ()
      ensures !isWrite
    {
      isWrite := false;
    }
  }

  class Namespace {
    const zones: array<Zone>
    const zoneSize: nat
    const extSize: nat
    const maxOpen: nat
    const maxActive: nat
    var expOpen: seq<nat>
    var impOpen: seq<nat>
    var closed: seq<nat>
    var full: seq<nat>
    var nrOpen: int
    var nrActive: int

    function View(): (s: Zns)
      reads this, zones
      ensures |s.zones| == zones.Length && s.maxOpen == maxOpen && s.maxActive == maxActive
      ensures s.nrOpen == nrOpen && s.nrActive == nrActive && s.impOpen == impOpen
    {
      Zns(zones[..], zoneSize, extSize, expOpen, impOpen, closed, full, maxOpen, maxActive, nrOpen, nrActive)
    }

    /** `zns_init_zoned_state`. */
    constructor (n: nat, zoneSize: nat, zcap: nat, extSize: nat, maxOpen: nat, maxActive: nat)
      ensures fresh(zones) && View() == Start(n, zoneSize, zcap, extSize, maxOpen, maxActive)
    {
      var a := new Zone[n](i => Zone(Empty, false, zcap, 0, 0, 0));
      var start := 0;
      for i := 0 to n
        invariant start == i * zoneSize
        invariant forall k :: 0 <= k < i ==> a[k] == Zone(Empty, false, zcap, k * zoneSize, k * zoneSize, k * zoneSize)
      {
        a[i] := Zone(Empty, false, zcap, start, start, start);
        start := start + zoneSize;
      }
      zones, expOpen, impOpen, closed, full := a, [], [], [], [];
      this.zoneSize, this.extSize, this.maxOpen, this.maxActive := zoneSize, extSize, maxOpen, maxActive;
      nrOpen, nrActive := 0, 0;
      new;
      assert zones[..] == Start(n, zoneSize, zcap, extSize, maxOpen, maxActive).zones;
    }

    // ----- Resources ----------------------------------------------------------------------------

    /** `zns_aor_inc_open`, with its assertions. */
    method IncOpen()
      requires 0 <= nrOpen && (maxOpen != 0 ==> nrOpen < maxOpen)
      modifies this`nrOpen
      ensures View() == ZnsModel.IncOpen(old(View()))
    {
      assert nrOpen >= 0;
      if maxOpen != 0 {
        nrOpen := nrOpen + 1;
        assert nrOpen <= maxOpen;
      }
    }

    /** `zns_aor_dec_open`, with its assertions. */
    method DecOpen()
      requires 0 <= nrOpen && (maxOpen != 0 ==> 0 < nrOpen)
      modifies this`nrOpen
      ensures View() == ZnsModel.DecOpen(old(View()))
    {
      if maxOpen != 0 {
        assert nrOpen > 0;
        nrOpen := nrOpen - 1;
      }
      assert nrOpen >= 0;
    }

    /** `zns_aor_inc_active`, with its assertions. */
    method IncActive()
      requires 0 <= nrActive && (maxActive != 0 ==> nrActive < maxActive)
      modifies this`nrActive
      ensures View() == ZnsModel.IncActive(old(View()))
    {
      assert nrActive >= 0;
      if maxActive != 0 {
        nrActive := nrActive + 1;
        assert nrActive <= maxActive;
      }
    }

    /** `zns_aor_dec_active`, with its assertions. */
    method DecActive()
      requires 0 <= nrActive && (maxActive != 0 ==> 0 < nrActive && nrOpen < nrActive)
      modifies this`nrActive
      ensures View() == ZnsModel.DecActive(old(View()))
    {
      if maxActive != 0 {
        assert nrActive > 0;
        nrActive := nrActive - 1;
        assert nrActive >= nrOpen;
      }
      assert nrActive >= 0;
    }

    /** `zns_aor_check`. */
    function AorCheck(act: nat, opn: nat): (st: Status)
      reads this, zones
      ensures st == ZnsModel.AorCheck(View(), act, opn)
    {
      if maxActive != 0 && nrActive + act > maxActive then TooManyActive
      else if maxOpen != 0 && nrOpen + opn > maxOpen then TooManyOpen
      else Success
    }

    /** The resources of a zone that is about to stop being open or active. */
    method Release(i: nat, ghost s: Zns)
      requires s == View() && Inv(s) && i < zones.Length
      modifies this`nrOpen, this`nrActive
      ensures View() == Released(s, s.zones[i].zs)
    {
      hide Inv;
      CountersMatch(s);
      HeldResources(s, i);
      var zs := zones[i].zs;
      if zs == ExpOpen || zs == ImpOpen {
        DecOpen();
        DecActive();
      } else if zs == Closed {
        DecActive();
      }
    }

    // ----- States and queues ----------------------------------------------------------------------

    method RemoveFrom(st: ZState, i: nat)
      modifies this`expOpen, this`impOpen, this`closed, this`full
      ensures View() == WithList(old(View()), st, Without(ListOf(old(View()), st), i))
    {
      match st {
        case ExpOpen => expOpen := Without(expOpen, i);
        case ImpOpen => impOpen := Without(impOpen, i);
        case Closed => closed := Without(closed, i);
        case Full => full := Without(full, i);
        case _ =>
      }
    }

    method InsertTail(st: ZState, i: nat)
      modifies this`expOpen, this`impOpen, this`closed, this`full
      ensures View() == WithList(old(View()), st, ListOf(old(View()), st) + [i])
    {
      match st {
        case ExpOpen => expOpen := expOpen + [i];
        case ImpOpen => impOpen := impOpen + [i];
        case Closed => closed := closed + [i];
        case Full => full := full + [i];
        case _ =>
      }
    }

    method SetZone(i: nat, z: Zone)
      requires i < zones.Length
      modifies zones
      ensures View() == old(View()).(zones := old(View()).zones[i := z])
    {
      zones[i] := z;
    }

    /** `zns_assign_zone_state`. */
    method AssignState(i: nat, st: ZState)
      requires i < zones.Length
      modifies this`expOpen, this`impOpen, this`closed, this`full, zones
      ensures View() == ZnsModel.AssignState(old(View()), i, st)
    {
      if i in expOpen || i in impOpen || i in closed || i in full {
        RemoveFrom(zones[i].zs, i);
      }
      SetZone(i, Entered(zones[i], st));
      InsertTail(st, i);
    }

    // ----- Zone operations ---------------------------------------------------------------------------

    /** `zns_open_zone`. */
    method OpenZone(i: nat, ghost s: Zns) returns (status: Status)
      requires s == View() && Inv(s) && i < zones.Length
      modifies this, zones
      ensures Outcome(View(), status) == ZnsModel.OpenZone(s, i)
    {
      hide Inv, ZnsModel.AssignState;
      CountersMatch(s);
      var zs := zones[i].zs;
      if zs == Empty {
        status := AorCheck(1, 0);
        if status != Success {
          return;
        }
        IncActive();
      }
      if zs == Empty || zs == Closed {
        status := AorCheck(0, 1);
        if status != Success {
          if zs == Empty {
            DecActive();
          }
          return;
        }
        IncOpen();
      }
      if zs == Empty || zs == Closed || zs == ImpOpen {
        AssignState(i, ExpOpen);
      }
      status := if zs in {Empty, Closed, ImpOpen, ExpOpen} then Success else InvalidTransition;
    }

    /** `zns_close_zone`. */
    method CloseZone(i: nat, ghost s: Zns) returns (status: Status)
      requires s == View() && Inv(s) && i < zones.Length
      modifies this, zones
      ensures Outcome(View(), status) == ZnsModel.CloseZone(s, i)
    {
      hide Inv, ZnsModel.AssignState;
      CountersMatch(s);
      HeldResources(s, i);
      var zs := zones[i].zs;
      if zs == ExpOpen || zs == ImpOpen {
        DecOpen();
        AssignState(i, Closed);
      }
      status := if zs in {ExpOpen, ImpOpen, Closed} then Success else InvalidTransition;
    }

    method SetPointers(i: nat, p: nat)
      requires i < zones.Length
      modifies zones
      ensures View() == WithPointers(old(View()), i, p)
    {
      SetZone(i, zones[i].(wp := p, wPtr := p));
    }

    /** `zns_finish_zone`. */
    method FinishZone(i: nat, ghost s: Zns) returns (status: Status)
      requires s == View() && Inv(s) && i < zones.Length
      modifies this, zones
      ensures Outcome(View(), status) == ZnsModel.FinishZone(s, i)
    {
      hide Inv, ZnsModel.AssignState, Released, WithPointers;
      ReleasedKeepsZones(s, zones[i].zs);
      var zs := zones[i].zs;
      if zs == ReadOnly || zs == Offline {
        return InvalidTransition;
      }
      if zs != Full {
        Release(i, s);
        SetPointers(i, zones[i].Boundary());
        AssignState(i, Full);
      }
      status := Success;
    }

    /** `zns_reset_zone` and `zns_aio_zone_reset_cb`. */
    method ResetZone(i: nat, ghost s: Zns) returns (status: Status)
      requires s == View() && Inv(s) && i < zones.Length
      modifies this, zones
      ensures Outcome(View(), status) == ZnsModel.ResetZone(s, i)
    {
      hide Inv, ZnsModel.AssignState, Released, WithPointers;
      ReleasedKeepsZones(s, zones[i].zs);
      var zs := zones[i].zs;
      if zs == ReadOnly || zs == Offline {
        return InvalidTransition;
      }
      if zs != Empty {
        Release(i, s);
        SetPointers(i, zones[i].zslba);
        AssignState(i, Empty);
      }
      status := Success;
    }

    static lemma ReleasedKeepsZones(s: Zns, zs: ZState)
      ensures Released(s, zs).zones == s.zones
    {
    }

    /** `zns_offline_zone`. */
    method OfflineZone(i: nat, ghost s: Zns) returns (status: Status)
      requires s == View() && i < zones.Length
      modifies this, zones
      ensures Outcome(View(), status) == ZnsModel.OfflineZone(s, i)
    {
      hide ZnsModel.AssignState;
      var zs := zones[i].zs;
      if zs == ReadOnly {
        AssignState(i, Offline);
      }
      status := if zs in {ReadOnly, Offline} then Success else InvalidTransition;
    }

    method Apply(i: nat, op: ZoneOp, ghost s: Zns) returns (status: Status)
      requires s == View() && Inv(s) && i < zones.Length
      modifies this, zones
      ensures Outcome(View(), status) == ZnsModel.Apply(s, i, op)
    {
      hide Inv, ZnsModel.OpenZone, ZnsModel.CloseZone, ZnsModel.FinishZone, ZnsModel.ResetZone, ZnsModel.OfflineZone;
      match op {
        case OpOpen => status := OpenZone(i, s);
        case OpClose => status := CloseZone(i, s);
        case OpFinish => status := FinishZone(i, s);
        case OpReset => status := ResetZone(i, s);
        case OpOffline => status := OfflineZone(i, s);
      }
    }

    /** `zns_set_zd_ext`. */
    method SetZdExt(i: nat, ghost s: Zns) returns (status: Status)
      requires s == View() && Inv(s) && i < zones.Length
      modifies this, zones
      ensures Outcome(View(), status) == ZnsModel.SetZdExt(s, i)
    {
      hide Inv, ZnsModel.AssignState;
      CountersMatch(s);
      if zones[i].zs != Empty {
        return InvalidTransition;
      }
      status := AorCheck(1, 0);
      if status != Success {
        return;
      }
      IncActive();
      SetZone(i, zones[i].(ext := true));
      AssignState(i, Closed);
    }

    // ----- Operations on all zones ---------------------------------------------------------------------

    /** `zns_bulk_proc_zone`. */
    method BulkProcZone(i: nat, op: ZoneOp, ghost s: Zns) returns (status: Status)
      requires s == View() && Inv(s) && i < zones.Length
      modifies this, zones
      ensures Outcome(View(), status) == BulkOne(s, i, op)
    {
      hide Inv, ZnsModel.Apply;
      status := Success;
      if Wanted(op, zones[i].zs) {
        status := Apply(i, op, s);
      }
    }

    function Queue(st: ZState): (q: seq<nat>)
      reads this, zones
      ensures q == ListOf(View(), st)
    {
      match st
      case ExpOpen => expOpen
      case ImpOpen => impOpen
      case Closed => closed
      case Full => full
      case _ => []
    }

    /** A QTAILQ_FOREACH_SAFE loop of `zns_do_zone_op`: the operation relinks the zone being
        visited, but the zone remembered as next stays where it is. */
    method ProcQueue(st: ZState, op: ZoneOp, ghost s: Zns) returns (status: Status)
      requires s == View() && Inv(s) && Queued(st) && Wanted(op, st)
      modifies this, zones
      ensures Outcome(View(), status) == BulkState(Outcome(s, Success), st, op)
    {
      hide Inv, BulkOne, BulkList, ListOf, Without, NextIn;
      status := Success;
      InvShaped(s);
      ghost var rest, goal := ListOf(s, st), BulkState(Outcome(s, Success), st, op);
      var zone := First(Queue(st));
      while zone.Some?
        invariant Inv(View()) && SameConfig(s, View()) && status == Success
        invariant rest == ListOf(View(), st) && zone == First(rest) && Within(rest, |View().zones|)
        invariant goal == BulkList(View(), rest, op)
        decreases |rest|
      {
        ghost var t := View();
        VisitedZone(t, st, op);
        NextOfFirst(rest);
        var next := NextIn(Queue(st), zone.value);
        status := BulkProcZone(zone.value, op, t);
        if status != Success {
          return;
        }
        zone, rest := next, rest[1..];
      }
      BulkEnd(View(), rest, op);
    }

    static lemma NextOfFirst(q: seq<nat>)
      requires NoDup(q) && q != []
      ensures NextIn(q, q[0]) == First(q[1..])
    {
      AtFront([], q);
      assert [] + q == q;
    }

    static lemma BulkEnd(s: Zns, rest: seq<nat>, op: ZoneOp)
      requires rest == []
      ensures Within(rest, |s.zones|) && BulkList(s, rest, op) == Outcome(s, Success)
    {
    }

    static function First(q: seq<nat>): Option<nat> {
      if q == [] then None else Some(q[0])
    }

    /** One round: the zone at the front of the queue is processed and leaves it. */
    static lemma VisitedZone(s: Zns, st: ZState, op: ZoneOp)
      requires Inv(s) && Queued(st) && Wanted(op, st) && ListOf(s, st) != []
      ensures var q := ListOf(s, st);
              && Within(q, |s.zones|) && NoDup(q)
              && var r := BulkOne(s, q[0], op);
                 && Inv(r.s) && SameConfig(s, r.s)
                 && BulkList(s, q, op) == (if r.status == Success then BulkList(r.s, q[1..], op) else r)
                 && (r.status == Success ==> ListOf(r.s, st) == q[1..])
    {
      assert ListedIn(s, st);
      MembersBelow(s, st);
      var i := ListOf(s, st)[0];
      assert i in ListOf(s, st);
      ApplyKeepsInv(s, i, op);
      LeavesQueue(s, i, op);
    }

    /** A successful operation that an option mask selects takes the zone off its queue. */
    static lemma LeavesQueue(s: Zns, i: nat, op: ZoneOp)
      requires Inv(s) && i < |s.zones| && Queued(s.zones[i].zs) && Wanted(op, s.zones[i].zs)
      ensures var r := BulkOne(s, i, op); var st := s.zones[i].zs;
              r.status == Success ==> ListOf(r.s, st) == Without(ListOf(s, st), i)
    {
      InUseIffQueued(s, i);
      hide Inv, Without;
    }

    /** The loop of `zns_do_zone_op` over the zone array. */
    method ProcArray(op: ZoneOp, ghost s: Zns) returns (status: Status)
      requires s == View() && Inv(s)
      modifies this, zones
      ensures Within(Indices(zones.Length), |s.zones|)
      ensures Outcome(View(), status) == BulkList(s, Indices(zones.Length), op)
    {
      hide Inv, BulkOne, Indices;
      status := Success;
      ghost var q := Indices(zones.Length);
      IndicesAt(zones.Length);
      assert q[0..] == q;
      for i := 0 to zones.Length
        invariant Inv(View()) && SameConfig(s, View()) && status == Success
        invariant BulkList(s, q, op) == BulkList(View(), q[i..], op)
      {
        ghost var t := View();
        OneKeepsInv(t, i, op);
        assert q[i..][1..] == q[i + 1..] && q[i..][0] == i;
        status := BulkProcZone(i, op, t);
        if status != Success {
          return;
        }
      }
    }

    static lemma OneKeepsInv(s: Zns, i: nat, op: ZoneOp)
      requires Inv(s) && i < |s.zones|
      ensures Inv(BulkOne(s, i, op).s) && SameConfig(s, BulkOne(s, i, op).s)
    {
      hide Inv, ZnsModel.Apply;
      ApplyKeepsInv(s, i, op);
    }

    static lemma {:induction false} IndicesAt(n: nat)
      ensures |Indices(n)| == n && forall k :: 0 <= k < n ==> Indices(n)[k] == k
    {
      if n > 0 {
        IndicesAt(n - 1);
      }
    }

    /** `zns_do_zone_op` with the mask of an operation on all zones. */
    method DoAllZones(op: ZoneOp, ghost s: Zns) returns (status: Status)
      requires s == View() && Inv(s)
      modifies this, zones
      ensures Outcome(View(), status) == BulkAll(s, op)
    {
      hide Inv, BulkState, BulkList;
      if op == OpOffline {
        status := ProcArray(op, s);
        return;
      }
      status := ProcIfWanted(Closed, op, Success, s);
      status := ProcIfWanted(ImpOpen, op, status, View());
      status := ProcIfWanted(ExpOpen, op, status, View());
      status := ProcIfWanted(Full, op, status, View());
    }

    /** `if (proc_mask & ...)`, unless an earlier loop failed. */
    method ProcIfWanted(st: ZState, op: ZoneOp, sofar: Status, ghost s: Zns) returns (status: Status)
      requires s == View() && Inv(s) && Queued(st)
      modifies this, zones
      ensures Outcome(View(), status) == BulkState(Outcome(s, sofar), st, op)
    {
      hide Inv, BulkList;
      status := sofar;
      if sofar == Success && Wanted(op, st) {
        status := ProcQueue(st, op, s);
      }
    }

    // ----- Writes ------------------------------------------------------------------------------------------

    /** `zns_auto_transition_zone`. */
    method AutoTransition(ghost s: Zns)
      requires s == View() && Inv(s)
      modifies this, zones
      ensures s.impOpen != [] ==> s.impOpen[0] < |s.zones|
      ensures View() == ZnsModel.AutoTransition(s)
    {
      hide Inv, ZnsModel.AssignState, ZnsModel.CloseZone;
      AutoTransitionCloses(s);
      CountersMatch(s);
      if maxOpen != 0 && nrOpen == maxOpen && impOpen != [] {
        var zone := impOpen[0];
        impOpen := impOpen[1..];
        DecOpen();
        AssignState(zone, Closed);
      }
    }

    /** `zns_auto_open_zone`. */
    method AutoOpen(i: nat, ghost s: Zns) returns (status: Status)
      requires s == View() && Inv(s) && i < zones.Length
      modifies this, zones
      ensures s.impOpen != [] ==> s.impOpen[0] < |s.zones|
      ensures Outcome(View(), status) == ZnsModel.AutoOpen(s, i)
    {
      hide Inv, ZnsModel.AutoTransition, ZnsModel.AorCheck;
      AutoTransitionCloses(s);
      status := Success;
      var zs := zones[i].zs;
      if zs == Empty {
        AutoTransition(s);
        status := AorCheck(1, 1);
      } else if zs == Closed {
        AutoTransition(s);
        status := AorCheck(0, 1);
      }
    }

    /** `zns_advance_zone_wp`, with the resources that `zns_auto_open_zone` has made sure of. */
    method AdvanceWp(i: nat, nlb: nat, ghost s: Zns)
      requires s == View() && Inv(s) && i < zones.Length
      requires s.zones[i].zs == Empty ==> ZnsModel.AorCheck(s, 1, 1) == Success
      requires s.zones[i].zs == Closed ==> ZnsModel.AorCheck(s, 0, 1) == Success
      modifies this, zones
      ensures View() == ZnsModel.AdvanceWp(s, i, nlb)
    {
      hide Inv, ZnsModel.AssignState;
      CountersMatch(s);
      var z := zones[i];
      SetZone(i, z.(wPtr := z.wPtr + nlb));
      if z.wPtr + nlb < z.Boundary() {
        if z.zs == Empty {
          IncActive();
        }
        if z.zs == Empty || z.zs == Closed {
          IncOpen();
          AssignState(i, ImpOpen);
        }
      }
    }

    /** `zns_finalize_zoned_write`; a zone that is written is not read-only or offline. */
    method FinalizeWrite(i: nat, nlb: nat, ghost s: Zns)
      requires s == View() && Inv(s) && i < zones.Length && s.zones[i].zs !in {ReadOnly, Offline}
      modifies this, zones
      ensures View() == ZnsModel.FinalizeWrite(s, i, nlb)
    {
      hide Inv, ZnsModel.AssignState, Released;
      var z := zones[i];
      SetZone(i, z.(wp := z.wp + nlb));
      if z.wp + nlb == z.Boundary() {
        assert z.zs !in {ReadOnly, Offline};
        if z.zs != Full {
          SamePlaces(s, View());
          Release(i, View());
          AssignState(i, Full);
        }
      }
    }

    static lemma SamePlaces(s: Zns, t: Zns)
      requires Inv(s) && |t.zones| == |s.zones| && t == s.(zones := t.zones)
      requires forall i :: 0 <= i < |s.zones| ==> t.zones[i].zs == s.zones[i].zs
      ensures Inv(t)
    {
      SameStatesListed(s, t);
    }

    /** The part of `zns_write` and `zns_do_write` that changes zones; `at` is the write pointer
        before, where an append goes and what both report to the host. */
    method WriteZone(i: nat, nlb: Blocks, mapped: bool, ghost s: Zns) returns (status: Status, at: nat)
      requires s == View() && Inv(s) && Shaped(s) && i < zones.Length && StateForWrite(s.zones[i].zs) == Success
      modifies this, zones
      ensures Outcome(View(), status) == ZnsModel.WriteZone(s, i, nlb, mapped) && at == s.zones[i].wPtr
    {
      hide Inv, Shaped, ZnsModel.AutoOpen, ZnsModel.AdvanceWp, ZnsModel.FinalizeWrite, ZnsModel.AorCheck;
      AutoOpenKeepsInv(s, i);
      at := zones[i].wPtr;
      status := AutoOpen(i, s);
      if status != Success {
        return;
      }
      at := zones[i].wPtr;
      ghost var t := View();
      AdvanceWp(i, nlb, t);
      if !mapped {
        return MapError, at;
      }
      StillWritable(t, i, nlb);
      FinalizeWrite(i, nlb, View());
    }

    static lemma StillWritable(s: Zns, i: nat, nlb: nat)
      requires Inv(s) && i < |s.zones| && StateForWrite(s.zones[i].zs) == Success
      requires s.zones[i].zs == Empty ==> ZnsModel.AorCheck(s, 1, 1) == Success
      requires s.zones[i].zs == Closed ==> ZnsModel.AorCheck(s, 0, 1) == Success
      ensures Inv(ZnsModel.AdvanceWp(s, i, nlb)) && ZnsModel.AdvanceWp(s, i, nlb).zones[i].zs !in {ReadOnly, Offline}
    {
      AdvanceKeepsInv(s, i, nlb);
    }

    /** `zns_write` and `zns_zone_append`, with the assertions on the zone index and on the
        validity of the write pointer. */
    method DoWrite(slba: nat, nlb: Blocks, mdtsOk: bool, append: bool, zaslOk: bool, mapped: bool, ghost s: Zns)
      returns (status: Status, lba: nat)
      requires s == View() && Inv(s) && Shaped(s)
      modifies this, zones
      ensures Outcome(View(), status) == ZnsModel.DoWrite(s, slba, nlb, mdtsOk, append, zaslOk, mapped)
      ensures status == Success ==>
                ZoneIdx(s, slba) < |s.zones| && lba == if append then s.zones[ZoneIdx(s, slba)].wPtr else slba
    {
      hide Inv, ZnsModel.WriteZone;
      if !mdtsOk {
        return InvalidField, slba;
      }
      if slba + nlb > zones.Length * zoneSize {
        return LbaRange, slba;
      }
      DivBelow(slba, zones.Length, zoneSize);
      var i := slba / zoneSize;
      assert i < zones.Length;
      status, lba := CheckWrite(zones[i], slba, nlb, append, zaslOk), slba;
      if status != Success {
        return;
      }
      assert zones[i].zs !in {Full, ReadOnly, Offline};
      var at;
      status, at := WriteZone(i, nlb, mapped, s);
      if append {
        lba := at;
      }
    }

    /** `zns_write`: the data goes from host memory into the backend. */
    method Write(req: RequestSlot, slba: nat, nlb: Blocks, mdtsOk: bool, mapped: bool, ghost s: Zns)
      returns (status: Status, transfer: Option<Transfer>)
      requires s == View() && Inv(s)
      modifies this, zones, req
      ensures Outcome(View(), status) == Exec(s, ZnsModel.Write(slba, nlb, mdtsOk, mapped)) && req.isWrite
      ensures transfer == TransferOf(s, ZnsModel.Write(slba, nlb, mdtsOk, mapped), old(req.isWrite))
    {
      hide Inv, Shaped, ZnsModel.DoWrite;
      InvShaped(s);
      req.isWrite := true;
      var lba;
      status, lba := DoWrite(slba, nlb, mdtsOk, false, true, mapped, s);
      transfer := if status == Success then Some(Transfer(lba, nlb, req.isWrite)) else None;
    }

    /** `zns_zone_append`: the data goes where `is_write` says, which this command does not set. */
    method Append(req: RequestSlot, slba: nat, nlb: Blocks, mdtsOk: bool, zaslOk: bool, mapped: bool, ghost s: Zns)
      returns (status: Status, transfer: Option<Transfer>)
      requires s == View() && Inv(s)
      modifies this, zones
      ensures Outcome(View(), status) == Exec(s, ZnsModel.Append(slba, nlb, mdtsOk, zaslOk, mapped))
      ensures transfer == TransferOf(s, ZnsModel.Append(slba, nlb, mdtsOk, zaslOk, mapped), req.isWrite)
    {
      hide Inv, Shaped, ZnsModel.DoWrite;
      InvShaped(s);
      var lba;
      status, lba := DoWrite(slba, nlb, mdtsOk, true, zaslOk, mapped, s);
      transfer := if status == Success then Some(Transfer(lba, nlb, req.isWrite)) else None;
    }

    /** `zns_read`: the data goes out of the backend into host memory. */
    method Read(req: RequestSlot, crossRead: bool, slba: nat, nlb: Blocks, mdtsOk: bool, mapped: bool)
      returns (status: Status, transfer: Option<Transfer>)
      requires zoneSize > 0 && Geometry(View())
      modifies req
      ensures !req.isWrite
      ensures transfer == if status == Success then Some(Transfer(slba, nlb, false)) else None
      ensures status == Success <==>
              && mdtsOk && mapped && slba + nlb <= Size(View()) && ZnsReads.Readable(View(), crossRead, slba, nlb)
    {
      hide Geometry;
      req.isWrite := false;
      transfer := None;
      if !mdtsOk {
        return InvalidField, None;
      }
      if slba + nlb > zones.Length * zoneSize {
        return LbaRange, None;
      }
      status := ZnsReads.CheckZoneRead(View(), crossRead, slba, nlb);
      if status != Success {
        return;
      }
      if !mapped {
        return MapError, None;
      }
      transfer := Some(Transfer(slba, nlb, req.isWrite));
    }

    // ----- Shutdown -----------------------------------------------------------------------------------------

    /** `zns_clear_zone`. */
    method ClearZone(i: nat)
      requires i < zones.Length && 0 <= nrActive && (maxActive != 0 ==> nrActive < maxActive)
      modifies this`closed, this`nrActive, zones
      ensures View() == ZnsModel.ClearZone(old(View()), i)
    {
      var z := zones[i].(wPtr := zones[i].wp);
      if z.wp != z.zslba || z.ext {
        SetZone(i, z.(zs := Closed));
        IncActive();
        closed := [i] + closed;
      } else {
        SetZone(i, z.(zs := Empty));
      }
    }

    method ShutZone(i: nat, ghost s: Zns)
      requires s == View() && Inv(s) && i < zones.Length && zones[i].zs in {Closed, ImpOpen, ExpOpen}
      modifies this, zones
      ensures View() == ZnsModel.ShutZone(s, i)
    {
      hide Inv, ZnsModel.ClearZone, Without;
      CountersMatch(s);
      HeldResources(s, i);
      var zs := zones[i].zs;
      RemoveFrom(zs, i);
      if zs == ImpOpen || zs == ExpOpen {
        DecOpen();
      }
      DecActive();
      ClearZone(i);
    }

    /** One loop of `zns_zoned_ns_shutdown`.  Zones put back on the queue of closed zones go to
        its front and are not visited again. */
    method ShutQueue(st: ZState, ghost s: Zns)
      requires s == View() && Inv(s) && st in {Closed, ImpOpen, ExpOpen}
      modifies this, zones
      ensures View() == ShutState(s, st)
    {
      hide Inv, ZnsModel.ShutZone, ShutList, ListOf, Without, NextIn, Remaining;
      ghost var done, rest, goal := [], ListOf(s, st), ShutState(s, st);
      ShutStart(s, st);
      var zone := First(Queue(st));
      while zone.Some?
        invariant Inv(View()) && SameConfig(s, View()) && Remaining(View(), st, done, rest)
        invariant zone == First(rest) && goal == ShutList(View(), rest)
        decreases |rest|
      {
        ghost var t := View();
        ShutNext(t, st, done, rest);
        var next := NextIn(Queue(st), zone.value);
        done := ShutStep(t, st, done, rest);
        ShutZone(zone.value, t);
        zone, rest := next, rest[1..];
      }
      ShutEnd(View(), rest);
    }

    /** The queue consists of `done`, put back to its front, and `rest`, still to be visited. */
    static ghost predicate Remaining(s: Zns, st: ZState, done: seq<nat>, rest: seq<nat>)
      ensures Remaining(s, st, done, rest) ==> Within(rest, |s.zones|)
    {
      && ListOf(s, st) == done + rest && NoDup(rest) && Within(rest, |s.zones|)
      && (forall x :: x in rest ==> x !in done)
    }

    static lemma ShutStart(s: Zns, st: ZState)
      requires Inv(s) && st in {Closed, ImpOpen, ExpOpen}
      ensures Remaining(s, st, [], ListOf(s, st)) && ShutState(s, st) == ShutList(s, ListOf(s, st))
      ensures First(ListOf(s, st)).Some? <==> ListOf(s, st) != []
    {
      assert ListedIn(s, st);
      MembersBelow(s, st);
      assert [] + ListOf(s, st) == ListOf(s, st);
    }

    static lemma ShutNext(s: Zns, st: ZState, done: seq<nat>, rest: seq<nat>)
      requires Inv(s) && st in {Closed, ImpOpen, ExpOpen} && Remaining(s, st, done, rest) && rest != []
      ensures NextIn(ListOf(s, st), rest[0]) == First(rest[1..])
      ensures rest[0] < |s.zones| && s.zones[rest[0]].zs == st
    {
      AtFront(done, rest);
      assert ListedIn(s, st) && rest[0] in ListOf(s, st);
    }

    static lemma ShutEnd(s: Zns, rest: seq<nat>)
      requires rest == []
      ensures Within(rest, |s.zones|) && ShutList(s, rest) == s
    {
    }

    static lemma ShutStep(s: Zns, st: ZState, done: seq<nat>, rest: seq<nat>) returns (done': seq<nat>)
      requires Inv(s) && st in {Closed, ImpOpen, ExpOpen} && Remaining(s, st, done, rest) && rest != []
      requires rest[0] < |s.zones| && s.zones[rest[0]].zs == st
      ensures var t := ZnsModel.ShutZone(s, rest[0]);
              Inv(t) && SameConfig(s, t) && Remaining(t, st, done', rest[1..]) && ShutList(s, rest) == ShutList(t, rest[1..])
    {
      hide Inv, ZnsModel.ShutZone;
      ShutKeepsInv(s, rest[0]);
      var t := ZnsModel.ShutZone(s, rest[0]);
      QueueAfterShut(s, rest[0], st);
      done' := if st == Closed && t.zones[rest[0]].zs == Closed then [rest[0]] + done else done;
      assert |[rest[0]] + done| == |done| + 1;
      RestRemains(s, t, st, done, rest, done');
    }

    static lemma QueueAfterShut(s: Zns, i: nat, st: ZState)
      requires i < |s.zones| && st in {Closed, ImpOpen, ExpOpen} && s.zones[i].zs == st
      ensures var t := ZnsModel.ShutZone(s, i);
              ListOf(t, st) == (if st == Closed && t.zones[i].zs == Closed then [i] else []) + Without(ListOf(s, st), i)
    {
      hide Without;
      assert [] + Without(ListOf(s, st), i) == Without(ListOf(s, st), i);
    }

    static lemma RestRemains(s: Zns, t: Zns, st: ZState, done: seq<nat>, rest: seq<nat>, done': seq<nat>)
      requires Remaining(s, st, done, rest) && rest != [] && |t.zones| == |s.zones|
      requires done' == done || done' == [rest[0]] + done
      requires done' == done ==> ListOf(t, st) == [] + Without(ListOf(s, st), rest[0])
      requires done' != done ==> ListOf(t, st) == [rest[0]] + Without(ListOf(s, st), rest[0])
      ensures Remaining(t, st, done', rest[1..])
    {
      hide ListOf, Without, NoDup;
      AtFront(done, rest);
      TailOfNoDup(rest);
      assert rest == [rest[0]] + rest[1..];
      if done' == done {
        assert [] + (done + rest[1..]) == done + rest[1..];
      } else {
        assert [rest[0]] + (done + rest[1..]) == ([rest[0]] + done) + rest[1..];
      }
    }

    static lemma TailOfNoDup(q: seq<nat>)
      requires NoDup(q) && q != []
      ensures NoDup(q[1..]) && q[0] !in q[1..]
    {
    }

    /** `zns_zoned_ns_shutdown`, with its final assertion. */
    method DoShutdown(ghost s: Zns)
      requires s == View() && Inv(s)
      modifies this, zones
      ensures View() == ZnsCommands.DoShutdown(s)
    {
      hide Inv, ShutState;
      ShutQueue(Closed, s);
      ShutQueue(ImpOpen, View());
      ShutQueue(ExpOpen, View());
      ShutdownResult(s);
      assert nrOpen == 0;
    }

    // ----- Commands ----------------------------------------------------------------------------------------------

    /** `zns_zone_mgmt_send`, except for SET ZD EXT. */
    method DoManage(op: ZoneOp, all: bool, slba: nat, ghost s: Zns) returns (status: Status)
      requires s == View() && Inv(s)
      modifies this, zones
      ensures Outcome(View(), status) == ZnsCommands.DoManage(s, op, all, slba)
    {
      hide Inv, BulkAll, ZnsModel.Apply;
      InvShaped(s);
      status := CheckManage(all, slba, s);
      if status != Success {
        return;
      }
      if all {
        status := DoAllZones(op, s);
      } else {
        DivBelow(slba, zones.Length, zoneSize);
        status := Apply(slba / zoneSize, op, s);
      }
      if op == OpReset {
        status := Success;
      }
    }

    /** The start of `zns_zone_mgmt_send`, with the assertion on the zone index. */
    method CheckManage(all: bool, slba: nat, ghost s: Zns) returns (status: Status)
      requires s == View() && zoneSize > 0 && zones.Length > 0
      ensures View() == s && status == ManageStatus(s, all, slba)
    {
      var i, addr := 0, 0;
      if !all {
        if slba >= zones.Length * zoneSize {
          return LbaRange;
        }
        DivBelow(slba, zones.Length, zoneSize);
        i, addr := slba / zoneSize, slba;
        assert i < zones.Length;
      }
      status := if addr != zones[i].zslba then InvalidField else Success;
    }

    /** SET ZD EXT. */
    method DoSetExtension(slba: nat, all: bool, dmaOk: bool, ghost s: Zns) returns (status: Status)
      requires s == View() && Inv(s)
      modifies this, zones
      ensures Outcome(View(), status) == ZnsCommands.DoSetExtension(s, slba, all, dmaOk)
    {
      hide Inv, ZnsModel.SetZdExt;
      InvShaped(s);
      status := CheckManage(all, slba, s);
      if status != Success {
        return;
      }
      if all || extSize == 0 {
        return InvalidField;
      }
      if !dmaOk {
        return MapError;
      }
      DivBelow(slba, zones.Length, zoneSize);
      status := SetZdExt(slba / zoneSize, s);
    }

    /** `zns_io_cmd` for commands that change zones, and `zns_ns_shutdown`. */
    method Execute(cmd: Command, req: RequestSlot, ghost s: Zns) returns (status: Status, transfer: Option<Transfer>)
      requires s == View() && Inv(s)
      modifies this, zones, req
      ensures Outcome(View(), status) == Exec(s, cmd)
      ensures req.isWrite == FlagAfter(cmd, old(req.isWrite)) && transfer == TransferOf(s, cmd, old(req.isWrite))
    {
      hide Inv, Shaped, ZnsModel.DoWrite, ZnsCommands.DoManage, ZnsCommands.DoSetExtension, ZnsCommands.DoShutdown;
      InvShaped(s);
      transfer := None;
      match cmd {
        case Write(slba, nlb, mdtsOk, mapped) => status, transfer := Write(req, slba, nlb, mdtsOk, mapped, s);
        case Append(slba, nlb, mdtsOk, zaslOk, mapped) =>
          status, transfer := Append(req, slba, nlb, mdtsOk, zaslOk, mapped, s);
        case Manage(op, all, slba) => status := DoManage(op, all, slba, s);
        case SetExtension(slba, all, dmaOk) => status := DoSetExtension(slba, all, dmaOk, s);
        case Shutdown =>
          DoShutdown(s);
          status := Success;
      }
    }
  }
}
