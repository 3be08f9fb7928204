/** The sequential-write guarantee of zoned namespaces, and exactly when the code misses it. */
module ZnsWrites {
  import opened Arithmetic
  import opened Queues
  import opened ZnsModel
  import opened ZnsInvariant
  import opened ZnsCommands
  import opened ZnsBulk

  // ----- The effect of one write ---------------------------------------------------------------

  /** A zone that a write passes by: at most it is closed to make room. */
  ghost predicate Aside(z: Zone, z': Zone) {
    z' == z || (z.zs == ImpOpen && z' == z.(zs := Closed))
  }

  /** The zone that is written. */
  function WrittenZone(z: Zone, nlb: Blocks, mapped: bool): Zone {
    var newState := if z.wPtr + nlb < z.Boundary() && (z.zs == Empty || z.zs == Closed) then ImpOpen else z.zs;
    if !mapped then z.(wPtr := z.wPtr + nlb, zs := newState)
    else z.(wPtr := z.wPtr + nlb, wp := z.wp + nlb, zs := if z.wp + nlb == z.Boundary() then Full else newState)
  }

  lemma AutoOpenAside(s: Zns, i: nat)
    requires Inv(s) && i < |s.zones|
    ensures s.impOpen != [] ==> s.impOpen[0] < |s.zones|
    ensures AutoOpen(s, i).s.zones[i] == s.zones[i]
    ensures forall k :: 0 <= k < |s.zones| ==> Aside(s.zones[k], AutoOpen(s, i).s.zones[k])
  {
    hide Inv, AutoTransition, CloseZone, AorCheck;
    AutoTransitionCloses(s);
    AutoOpenKeepsInv(s, i);
    if s.impOpen != [] {
      ClosedAside(s, s.impOpen[0]);
    }
  }

  lemma ClosedAside(s: Zns, i: nat)
    requires i < |s.zones| && s.zones[i].zs == ImpOpen
    ensures forall k :: 0 <= k < |s.zones| ==> Aside(s.zones[k], CloseZone(s, i).s.zones[k])
  {
    hide AssignState;
    AssignZones(DecOpen(s), i, Closed);
  }

  lemma AdvanceZone(s: Zns, i: nat, nlb: Blocks)
    requires i < |s.zones|
    ensures AdvanceWp(s, i, nlb).zones == s.zones[i := WrittenZone(s.zones[i], nlb, false)]
  {
    hide AssignState;
    var z := s.zones[i];
    var s1 := s.(zones := s.zones[i := z.(wPtr := z.wPtr + nlb)]);
    AssignZones(IncOpen(IncActive(s1)), i, ImpOpen);
    AssignZones(IncOpen(s1), i, ImpOpen);
  }

  lemma FinalizeZone(s: Zns, i: nat, nlb: Blocks)
    requires i < |s.zones|
    ensures var z := s.zones[i];
            FinalizeWrite(s, i, nlb).zones
            == s.zones[i := z.(wp := z.wp + nlb, zs := if z.wp + nlb == z.Boundary() then Full else z.zs)]
  {
    hide AssignState;
    var z := s.zones[i];
    var s1 := s.(zones := s.zones[i := z.(wp := z.wp + nlb)]);
    AssignZones(Released(s1, z.zs), i, Full);
  }

  /** A write moves the pointers of its zone, opens or fills it, and touches no other zone
      except to close one. */
  lemma WriteEffect(s: Zns, i: nat, nlb: Blocks, mapped: bool)
    requires Inv(s) && Shaped(s) && i < |s.zones|
    ensures var r := WriteZone(s, i, nlb, mapped);
            && |r.s.zones| == |s.zones|
            && r.status in (if mapped then {Success, TooManyActive, TooManyOpen} else {MapError, TooManyActive, TooManyOpen})
            && r.s.zones[i] == (if r.status in {Success, MapError} then WrittenZone(s.zones[i], nlb, mapped) else s.zones[i])
            && forall k :: 0 <= k < |s.zones| && k != i ==> Aside(s.zones[k], r.s.zones[k])
  {
    hide Inv, Shaped, AutoOpen, AdvanceWp, FinalizeWrite, Aside;
    AutoOpenAside(s, i);
    OpenStatus(s, i);
    var r := AutoOpen(s, i);
    if r.status == Success {
      AdvanceZone(r.s, i, nlb);
      FinalizeZone(AdvanceWp(r.s, i, nlb), i, nlb);
    }
  }

  lemma OpenStatus(s: Zns, i: nat)
    requires Inv(s) && i < |s.zones| && (s.impOpen != [] ==> s.impOpen[0] < |s.zones|)
    ensures AutoOpen(s, i).status in {Success, TooManyActive, TooManyOpen}
  {
    hide AutoTransition;
  }

  // ----- What holds as long as data can be mapped and appends fit -----------------------------------

  /** The pointers of a zone agree, stay within its capacity, and show its state. */
  ghost predicate Sequential(z: Zone) {
    && z.zslba <= z.wp == z.wPtr <= z.Boundary()
    && (z.zs == Empty ==> z.wp == z.zslba)
    && (z.zs == Full ==> z.wp == z.Boundary())
    && (z.zs == ImpOpen || z.zs == ExpOpen || z.zs == Closed || z.zs == Empty ==> z.wp < z.Boundary())
  }

  /** Zones lie side by side and have room. */
  ghost predicate Geometry(s: Zns) {
    forall i :: 0 <= i < |s.zones| ==> s.zones[i].zslba == i * s.zoneSize && 0 < s.zones[i].zcap <= s.zoneSize
  }

  ghost predicate AllSequential(s: Zns) {
    forall i :: 0 <= i < |s.zones| ==> Sequential(s.zones[i])
  }

  /** After a write the zone is sequential exactly if it was mapped and stays below the
      boundary; the code checks the latter for writes but, for appends, only against the
      start of the zone. */
  lemma WriteStaysSequential(z: Zone, nlb: Blocks, mapped: bool)
    requires Sequential(z) && z.zs in {Empty, ImpOpen, ExpOpen, Closed}
    ensures Sequential(WrittenZone(z, nlb, mapped)) <==> mapped && z.wPtr + nlb <= z.Boundary()
    ensures mapped ==> (WrittenZone(z, nlb, mapped).zs == Full <==> z.wPtr + nlb == z.Boundary())
  {
  }

  /** A checked write never passes the boundary. */
  lemma CheckedWriteFits(z: Zone, slba: nat, nlb: Blocks, zaslOk: bool)
    requires Sequential(z) && CheckWrite(z, slba, nlb, false, zaslOk) == Success
    ensures slba == z.wPtr && z.wPtr + nlb <= z.Boundary() && z.zs in {Empty, ImpOpen, ExpOpen, Closed}
  {
  }

  /** A namespace of one zone of 4 blocks with 3 of them written. */
  function NearlyFull(): Zns {
    Zns([Zone(ImpOpen, false, 4, 0, 3, 3)], 4, 0, [], [0], [], [], 0, 0, 0, 0)
  }

  lemma NearlyFullHolds()
    ensures Inv(NearlyFull()) && Shaped(NearlyFull()) && Geometry(NearlyFull()) && AllSequential(NearlyFull())
  {
  }

  /** The same with the write under way. */
  function OnTheWay(): Zns {
    NearlyFull().(zones := [Zone(ImpOpen, false, 4, 0, 0, 3)])
  }

  lemma FirstAdvance(s: Zns)
    requires s == NearlyFull().(zones := [Zone(Empty, false, 4, 0, 0, 0)], impOpen := [])
    ensures s.impOpen == [] && AutoOpen(s, 0) == Outcome(s, Success)
    ensures AdvanceWp(s, 0, 3) == OnTheWay()
  {
    var s1 := s.(zones := [Zone(Empty, false, 4, 0, 0, 3)]);
    assert AssignState(s1, 0, ImpOpen) == OnTheWay();
    hide AssignState;
  }

  lemma LastAdvance()
    ensures FinalizeWrite(OnTheWay(), 0, 3) == NearlyFull()
  {
    hide AssignState;
  }

  /** One write to a new device leads there. */
  lemma NearlyFullIsReached()
    ensures Inv(Start(1, 4, 4, 0, 0, 0))
    ensures RunAll(Start(1, 4, 4, 0, 0, 0), [Write(0, 3, true, true)]) == NearlyFull()
  {
    hide Inv, AutoOpen, AdvanceWp, FinalizeWrite;
    var s := Start(1, 4, 4, 0, 0, 0);
    StartHolds(1, 4, 4, 0, 0, 0);
    assert s.zones == [Zone(Empty, false, 4, 0, 0, 0)];
    FirstAdvance(s);
    LastAdvance();
    InvShaped(s);
    FirstWrite(s);
    OneCommand(s, Write(0, 3, true, true));
  }

  lemma FirstWrite(s: Zns)
    requires Inv(s) && Shaped(s) && s.zoneSize == 4 && s.zones == [Zone(Empty, false, 4, 0, 0, 0)]
    ensures Exec(s, Write(0, 3, true, true)) == WriteZone(s, 0, 3, true)
  {
    hide Inv, WriteZone;
  }

  lemma OneCommand(s: Zns, cmd: Command)
    requires Inv(s)
    ensures RunAll(s, [cmd]) == Exec(s, cmd).s
  {
    hide Inv, Exec;
    assert [cmd][1..] == [];
  }

  /** So an append of 2 blocks is accepted there: it succeeds, goes past the zone, and leaves
      it open with its pointer beyond the boundary. */
  lemma AppendOverruns()
    ensures Inv(NearlyFull()) && Geometry(NearlyFull()) && AllSequential(NearlyFull())
    ensures var r := Exec(NearlyFull(), Append(0, 2, true, true, true));
            r.status == Success && r.s.zones[0].wp == 5 > r.s.zones[0].Boundary() && r.s.zones[0].zs == ImpOpen
  {
    hide Inv, Shaped, WriteZone;
    NearlyFullHolds();
    WriteEffect(NearlyFull(), 0, 2, true);
    OpenZoneNeedsNothing(NearlyFull(), 0, 2);
  }

  /** A write to an open zone needs no further resource. */
  lemma OpenZoneNeedsNothing(s: Zns, i: nat, nlb: Blocks)
    requires Shaped(s) && i < |s.zones| && s.zones[i].zs == ImpOpen
    ensures WriteZone(s, i, nlb, true).status == Success
  {
  }

  /** And a write whose data cannot be mapped leaves the two pointers apart for good. */
  lemma FailedMapDiverges()
    ensures var r := Exec(NearlyFull(), Write(3, 1, true, false));
            r.status == MapError && r.s.zones[0].wPtr == 4 && r.s.zones[0].wp == 3
            && Exec(r.s, Write(3, 1, true, true)).status == InvalidWrite
            && Exec(r.s, Write(4, 1, true, true)).status == LbaRange
  {
  }

  // ----- The other commands ---------------------------------------------------------------------------

  /** What an operation on a single zone makes of it when it succeeds. */
  function Single(op: ZoneOp, z: Zone): Zone {
    match op
    case OpOpen => if z.zs in {Empty, Closed, ImpOpen} then Entered(z, ExpOpen) else z
    case OpFinish =>
      if z.zs in {Empty, Closed, ImpOpen, ExpOpen} then
        Entered(z.(wp := z.Boundary(), wPtr := z.Boundary()), Full)
      else z
    case _ => Target(op, z)
  }

  ghost predicate AppliedTo(s: Zns, i: nat, op: ZoneOp, r: Outcome)
    requires i < |s.zones|
  {
    r.s.zones == s.zones[i := if r.status == Success then Single(op, s.zones[i]) else s.zones[i]]
  }

  lemma OpenEffect(s: Zns, i: nat)
    requires i < |s.zones|
    ensures AppliedTo(s, i, OpOpen, OpenZone(s, i))
  {
    hide AssignState, Entered;
    AssignZones(IncOpen(IncActive(s)), i, ExpOpen);
    AssignZones(IncOpen(s), i, ExpOpen);
    AssignZones(s, i, ExpOpen);
  }

  lemma FinishEffect(s: Zns, i: nat)
    requires i < |s.zones|
    ensures AppliedTo(s, i, OpFinish, FinishZone(s, i))
  {
    hide AssignState, Entered;
    var z := s.zones[i];
    AssignZones(WithPointers(Released(s, z.zs), i, z.Boundary()), i, Full);
  }

  lemma ResetEffect(s: Zns, i: nat)
    requires i < |s.zones|
    ensures AppliedTo(s, i, OpReset, ResetZone(s, i))
  {
    hide AssignState, Entered;
    var z := s.zones[i];
    AssignZones(WithPointers(Released(s, z.zs), i, z.zslba), i, Empty);
  }

  lemma CloseOrOfflineEffect(s: Zns, i: nat)
    requires i < |s.zones|
    ensures AppliedTo(s, i, OpClose, CloseZone(s, i)) && AppliedTo(s, i, OpOffline, OfflineZone(s, i))
  {
    hide AssignState, Entered;
    AssignZones(DecOpen(s), i, Closed);
    AssignZones(s, i, Offline);
  }

  lemma ApplyEffect(s: Zns, i: nat, op: ZoneOp)
    requires i < |s.zones|
    ensures AppliedTo(s, i, op, Apply(s, i, op))
  {
    hide AppliedTo, OpenZone, CloseZone, FinishZone, ResetZone, OfflineZone;
    match op
    case OpOpen => OpenEffect(s, i);
    case OpFinish => FinishEffect(s, i);
    case OpReset => ResetEffect(s, i);
    case _ => CloseOrOfflineEffect(s, i);
  }

  /** What a command other than a write may do to a zone. */
  ghost predicate Managed(z: Zone, z': Zone, op: ZoneOp) {
    z' == z || z' == Single(op, z) || z' == Target(op, z)
  }

  lemma ManageEffect(s: Zns, op: ZoneOp, all: bool, slba: nat, i: nat)
    requires Inv(s) && i < |s.zones|
    ensures Managed(s.zones[i], DoManage(s, op, all, slba).s.zones[i], op)
  {
    hide Inv, BulkAll, Apply, Single, Target;
    InvShaped(s);
    if ManageStatus(s, all, slba) == Success {
      if !all {
        ApplyEffect(s, NamedZone(s, all, slba), op);
      } else if op != OpOpen {
        AllInBulk(s, op);
      } else {
        OpenAllEffect(s, i);
      }
    }
  }

  lemma OpenAllEffect(s: Zns, i: nat)
    requires Inv(s) && i < |s.zones|
    ensures Managed(s.zones[i], BulkAll(s, OpOpen).s.zones[i], OpOpen)
  {
    hide BulkAll;
    OpenAllResult(s);
    assert ListedIn(s, Closed);
    if i in s.closed[..Openable(s, |s.closed|)] {
      assert i in s.closed;
    }
  }

  lemma SetExtensionEffect(s: Zns, slba: nat, all: bool, dmaOk: bool, i: nat)
    requires Inv(s) && i < |s.zones|
    ensures var z, z' := s.zones[i], DoSetExtension(s, slba, all, dmaOk).s.zones[i];
            z' == z || (z.zs == Empty && z' == z.(zs := Closed, ext := true))
  {
    var j := 0;
    if ManageStatus(s, all, slba) == Success {
      j := NamedZone(s, all, slba);
      var s1 := IncActive(s);
      AssignZones(s1.(zones := s1.zones[j := s1.zones[j].(ext := true)]), j, Closed);
    }
    hide Inv, AssignState;
  }
}
