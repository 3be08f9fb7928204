/** Commands and runs of a zoned namespace. */
module ZnsCommands {
  import opened Wrappers
  import opened Arithmetic
  import opened Queues
  import opened ZnsModel
  import opened ZnsInvariant

  // ----- Operations on all zones ------------------------------------------------------------------

  /** One queue loop of `zns_do_zone_op`, if the mask selects the state. */
  function BulkState(r: Outcome, st: ZState, op: ZoneOp): (r': Outcome)
    requires Inv(r.s)
    ensures Inv(r'.s) && SameConfig(r.s, r'.s)
  {
    if r.status == Success && Wanted(op, st) && Queued(st) then
      InvShaped(r.s);
      BulkKeepsInv(r.s, ListOf(r.s, st), op);
      BulkList(r.s, ListOf(r.s, st), op)
    else r
  }

  function Indices(n: nat): (q: seq<nat>)
    ensures Within(q, n) && NoDup(q) && forall i: nat :: i in q <==> i < n
  {
    if n == 0 then [] else Indices(n - 1) + [n - 1]
  }

  /** `zns_do_zone_op` with a processing mask. */
  function BulkAll(s: Zns, op: ZoneOp): (r: Outcome)
    requires Inv(s)
    ensures Inv(r.s) && SameConfig(s, r.s)
  {
    if op == OpOffline then
      BulkKeepsInv(s, Indices(|s.zones|), op);
      BulkList(s, Indices(|s.zones|), op)
    else
      var r1 := BulkState(Outcome(s, Success), Closed, op);
      var r2 := BulkState(r1, ImpOpen, op);
      var r3 := BulkState(r2, ExpOpen, op);
      BulkState(r3, Full, op)
  }

  // ----- Commands ----------------------------------------------------------------------------------

  /** The zone a management command names: zone 0 with the select-all bit. */
  function NamedZone(s: Zns, all: bool, slba: nat): (i: nat)
    requires s.zoneSize > 0 && |s.zones| > 0 && (all || slba < Size(s))
    ensures i < |s.zones|
  {
    if all then 0
    else
      DivBelow(slba, |s.zones|, s.zoneSize);
      ZoneIdx(s, slba)
  }

  /** Start of `zns_zone_mgmt_send`: the address must be that of a zone. */
  function ManageStatus(s: Zns, all: bool, slba: nat): (st: Status)
    requires s.zoneSize > 0 && |s.zones| > 0
    ensures st == Success ==> all || slba < Size(s)
  {
    if !all && slba >= Size(s) then LbaRange
    else if (if all then 0 else slba) != s.zones[NamedZone(s, all, slba)].zslba then InvalidField
    else Success
  }

  /** `zns_zone_mgmt_send` except for descriptor extensions. */
  function DoManage(s: Zns, op: ZoneOp, all: bool, slba: nat): (r: Outcome)
    requires Inv(s)
    ensures Inv(r.s) && SameConfig(s, r.s)
  {
    if ManageStatus(s, all, slba) != Success then Outcome(s, ManageStatus(s, all, slba))
    else
      ApplyKeepsInv(s, NamedZone(s, all, slba), op);
      var r := if all then BulkAll(s, op) else Apply(s, NamedZone(s, all, slba), op);
      if op == OpReset then Outcome(r.s, Success) else r
  }

  /** NVME_ZONE_ACTION_SET_ZD_EXT. */
  function DoSetExtension(s: Zns, slba: nat, all: bool, dmaOk: bool): (r: Outcome)
    requires Inv(s)
    ensures Inv(r.s) && SameConfig(s, r.s)
  {
    if ManageStatus(s, all, slba) != Success then Outcome(s, ManageStatus(s, all, slba))
    else if all || s.extSize == 0 then Outcome(s, InvalidField)
    else if !dmaOk then Outcome(s, MapError)
    else
      SetZdExtKeepsInv(s, NamedZone(s, all, slba));
      SetZdExt(s, NamedZone(s, all, slba))
  }

  /** One loop of `zns_zoned_ns_shutdown`. */
  function ShutState(s: Zns, st: ZState): (r: Zns)
    requires Inv(s) && Queued(st) && st != Full
    ensures Inv(r) && SameConfig(s, r)
  {
    InvShaped(s);
    ShutListKeepsInv(s, st);
    ShutList(s, ListOf(s, st))
  }

  /** `zns_zoned_ns_shutdown`. */
  function DoShutdown(s: Zns): (r: Zns)
    requires Inv(s)
    ensures Inv(r) && SameConfig(s, r)
  {
    ShutState(ShutState(ShutState(s, Closed), ImpOpen), ExpOpen)
  }

  function Exec(s: Zns, cmd: Command): (r: Outcome)
    requires Inv(s)
    ensures Inv(r.s) && SameConfig(s, r.s)
  {
    InvShaped(s);
    match cmd
    case Write(slba, nlb, mdtsOk, mapped) =>
      DoWriteKeepsInv(s, slba, nlb, mdtsOk, false, true, mapped);
      DoWrite(s, slba, nlb, mdtsOk, false, true, mapped)
    case Append(slba, nlb, mdtsOk, zaslOk, mapped) =>
      DoWriteKeepsInv(s, slba, nlb, mdtsOk, true, zaslOk, mapped);
      DoWrite(s, slba, nlb, mdtsOk, true, zaslOk, mapped)
    case Manage(op, all, slba) => DoManage(s, op, all, slba)
    case SetExtension(slba, all, dmaOk) => DoSetExtension(s, slba, all, dmaOk)
    case Shutdown => Outcome(DoShutdown(s), Success)
  }

  // ----- Data ---------------------------------------------------------------------------------------

  /** What `backend_rw` is told to move: nlb blocks from lba on, from host memory into the
      backend (`store`), or out of the backend into host memory. */
  datatype Transfer = Transfer(lba: nat, nlb: Blocks, store: bool)

  /** The field `is_write` of the request structure after a command.  Of these commands only
      a write assigns it, whether or not it succeeds; an append leaves it as it was. */
  function FlagAfter(cmd: Command, isWrite: bool): bool {
    cmd.Write? || isWrite
  }

  /** The transfer of a command in a request structure with this `is_write`. */
  function TransferOf(s: Zns, cmd: Command, isWrite: bool): Option<Transfer>
    requires Inv(s)
  {
    if Exec(s, cmd).status != Success then None
    else
      match cmd
      case Write(slba, nlb, _, _) => Some(Transfer(slba, nlb, true))
      case Append(slba, nlb, _, _, _) =>
        if ZoneIdx(s, slba) < |s.zones| then Some(Transfer(s.zones[ZoneIdx(s, slba)].wPtr, nlb, isWrite)) else None
      case _ => None
  }

  lemma DoWriteKeepsInv(s: Zns, slba: nat, nlb: Blocks, mdtsOk: bool, append: bool, zaslOk: bool, mapped: bool)
    requires Inv(s) && Shaped(s)
    ensures Inv(DoWrite(s, slba, nlb, mdtsOk, append, zaslOk, mapped).s)
    ensures SameConfig(s, DoWrite(s, slba, nlb, mdtsOk, append, zaslOk, mapped).s)
  {
    hide Inv, WriteZone;
    if WriteStatus(s, slba, nlb, mdtsOk, append, zaslOk) == Success {
      WriteZoneKeepsInv(s, ZoneIdx(s, slba), nlb, mapped);
    }
  }

  // ----- Shutting zones down -------------------------------------------------------------------------

  /** z' is z with the zones in q shut down. */
  ghost predicate ShutIn(z: seq<Zone>, z': seq<Zone>, q: seq<nat>) {
    |z'| == |z| && forall i :: 0 <= i < |z| ==> z'[i] == if i in q then Shut(z[i]) else z[i]
  }

  lemma ShutOneMore(z: seq<Zone>, z1: seq<Zone>, z': seq<Zone>, q: seq<nat>)
    requires NoDup(q) && q != [] && q[0] < |z| && z1 == z[q[0] := Shut(z[q[0]])] && ShutIn(z1, z', q[1..])
    ensures ShutIn(z, z', q)
  {
    hide Shut;
    assert q == [q[0]] + q[1..] && q[0] !in q[1..];
  }

  lemma ShutOne(s: Zns, i: nat)
    requires i < |s.zones|
    ensures ShutZone(s, i).zones == s.zones[i := Shut(s.zones[i])]
  {
  }

  /** The zones of a queue are shut down one after the other. */
  lemma {:induction false} ShutRest(s: Zns, q: seq<nat>)
    requires Inv(s) && Within(q, |s.zones|) && NoDup(q)
    requires forall i :: i in q ==> Queued(s.zones[i].zs) && s.zones[i].zs != Full
    ensures Inv(ShutList(s, q)) && SameConfig(s, ShutList(s, q)) && ShutIn(s.zones, ShutList(s, q).zones, q)
    decreases |q|
  {
    hide Inv, ShutZone, Shut, ShutIn;
    if q != [] {
      assert q == [q[0]] + q[1..] && q[0] !in q[1..];
      ShutKeepsInv(s, q[0]);
      ShutOne(s, q[0]);
      ShutRest(ShutZone(s, q[0]), q[1..]);
      ShutOneMore(s.zones, ShutZone(s, q[0]).zones, ShutList(s, q).zones, q);
    } else {
      ShutNone(s.zones, q);
    }
  }

  lemma ShutNone(z: seq<Zone>, q: seq<nat>)
    requires q == []
    ensures ShutIn(z, z, q)
  {
  }

  /** What a shutdown makes of an open or closed zone. */
  function Shut(z: Zone): Zone {
    z.(wPtr := z.wp, zs := if z.wp != z.zslba || z.ext then Closed else Empty)
  }

  lemma ShutListKeepsInv(s: Zns, st: ZState)
    requires Inv(s) && Shaped(s) && Queued(st) && st != Full
    ensures Within(ListOf(s, st), |s.zones|)
    ensures var t := ShutList(s, ListOf(s, st));
            && Inv(t) && SameConfig(s, t)
            && forall i :: 0 <= i < |s.zones| ==>
                 t.zones[i] == if s.zones[i].zs == st then Shut(s.zones[i]) else s.zones[i]
  {
    assert ListedIn(s, st);
    MembersBelow(s, st);
    hide Inv, ShutList, Shut;
    ShutRest(s, ListOf(s, st));
  }

  /** After a shutdown no zone is open, and a zone is closed exactly if it was open or closed
      and holds data or an extension.  (The final assertion of the C code.) */
  lemma ShutdownResult(s: Zns)
    requires Inv(s)
    ensures var t := DoShutdown(s);
            && t.nrOpen == 0 && t.impOpen == [] && t.expOpen == []
            && forall i :: 0 <= i < |s.zones| ==>
                 var z := s.zones[i];
                 t.zones[i] == if z.zs == Closed || z.zs == ImpOpen || z.zs == ExpOpen then Shut(z) else z
  {
    var s1 := ShutState(s, Closed);
    var s2 := ShutState(s1, ImpOpen);
    var t := ShutState(s2, ExpOpen);
    ShutStateZones(s, Closed);
    ShutStateZones(s1, ImpOpen);
    ShutStateZones(s2, ExpOpen);
    assert ListedIn(t, ImpOpen) && ListedIn(t, ExpOpen);
    EmptyQueue(t, ImpOpen);
    EmptyQueue(t, ExpOpen);
  }

  lemma ShutStateZones(s: Zns, st: ZState)
    requires Inv(s) && Queued(st) && st != Full
    ensures forall i :: 0 <= i < |s.zones| ==>
              ShutState(s, st).zones[i] == if s.zones[i].zs == st then Shut(s.zones[i]) else s.zones[i]
  {
    InvShaped(s);
    ShutListKeepsInv(s, st);
  }

  lemma EmptyQueue(s: Zns, st: ZState)
    requires ListedIn(s, st) && forall i :: 0 <= i < |s.zones| ==> s.zones[i].zs != st
    ensures ListOf(s, st) == []
  {
    if ListOf(s, st) != [] {
      MembersBelow(s, st);
      NotQueued(s, st, ListOf(s, st)[0]);
    }
  }

  lemma NotQueued(s: Zns, st: ZState, i: nat)
    requires ListedIn(s, st) && i in ListOf(s, st)
    ensures i < |s.zones| && s.zones[i].zs == st
  {
  }

  // ----- Runs -----------------------------------------------------------------------------------------

  /** `zns_init_zoned_state`. */
  function Start(n: nat, zoneSize: nat, zcap: nat, extSize: nat, maxOpen: nat, maxActive: nat): Zns {
    Zns(seq(n, (i: nat) => Zone(Empty, false, zcap, i * zoneSize, i * zoneSize, i * zoneSize)), zoneSize, extSize,
        [], [], [], [], maxOpen, maxActive, 0, 0)
  }

  function RunAll(s: Zns, cmds: seq<Command>): (r: Zns)
    requires Inv(s)
    ensures Inv(r) && SameConfig(s, r)
    decreases |cmds|
  {
    if cmds == [] then s else RunAll(Exec(s, cmds[0]).s, cmds[1..])
  }

  lemma StartHolds(n: nat, zoneSize: nat, zcap: nat, extSize: nat, maxOpen: nat, maxActive: nat)
    requires n > 0 && zoneSize > 0
    ensures Inv(Start(n, zoneSize, zcap, extSize, maxOpen, maxActive))
  {
  }

  /** Whatever commands arrive, whether or not they succeed: no more zones are open or active
      than allowed, and the counters are right. */
  lemma LimitsHold(n: nat, zoneSize: nat, zcap: nat, extSize: nat, maxOpen: nat, maxActive: nat, cmds: seq<Command>)
    requires n > 0 && zoneSize > 0
    ensures Inv(Start(n, zoneSize, zcap, extSize, maxOpen, maxActive))
    ensures var t := RunAll(Start(n, zoneSize, zcap, extSize, maxOpen, maxActive), cmds);
            && (maxOpen != 0 ==> t.nrOpen == |OpenZones(t)| <= maxOpen)
            && (maxActive != 0 ==> t.nrActive == |OpenZones(t) + ClosedZones(t)| <= maxActive)
  {
    StartHolds(n, zoneSize, zcap, extSize, maxOpen, maxActive);
    ResourcesCounted(RunAll(Start(n, zoneSize, zcap, extSize, maxOpen, maxActive), cmds));
  }

  ghost function InState(s: Zns, st: ZState): set<nat> {
    set i: nat | i < |s.zones| && s.zones[i].zs == st
  }

  ghost function OpenZones(s: Zns): set<nat> { InState(s, ImpOpen) + InState(s, ExpOpen) }
  ghost function ClosedZones(s: Zns): set<nat> { InState(s, Closed) }

  lemma {:induction false} QueueIsSet(q: seq<nat>, x: set<nat>)
    requires NoDup(q) && forall i :: i in q <==> i in x
    ensures |q| == |x|
    decreases |q|
  {
    if q == [] {
      assert x == {};
    } else {
      assert q == [q[0]] + q[1..] && q[0] !in q[1..];
      QueueIsSet(q[1..], x - {q[0]});
    }
  }

  lemma ResourcesCounted(s: Zns)
    requires Inv(s)
    ensures |OpenZones(s)| == Opens(s) && |OpenZones(s) + ClosedZones(s)| == Actives(s)
  {
    var imp, exp, cl := InState(s, ImpOpen), InState(s, ExpOpen), InState(s, Closed);
    QueueIsSet(s.impOpen, imp) by { assert ListedIn(s, ImpOpen); }
    QueueIsSet(s.expOpen, exp) by { assert ListedIn(s, ExpOpen); }
    QueueIsSet(s.closed, cl) by { assert ListedIn(s, Closed); }
    assert imp !! exp && (imp + exp) !! cl;
  }
}
