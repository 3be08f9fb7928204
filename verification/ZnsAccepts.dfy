/** Which commands a zoned namespace accepts and how it refuses the others, by the state and
    pointer of the zone and the number of zones that are open and active. */
module ZnsAccepts {
  import opened Arithmetic
  import opened Queues
  import opened ZnsModel
  import opened ZnsInvariant
  import opened ZnsCommands
  import opened ZnsBulk
  import opened ZnsWrites

  // ----- Resources -------------------------------------------------------------------------------

  /** As many zones are active (open or closed) as may be. */
  ghost predicate NoActiveLeft(s: Zns) {
    s.maxActive != 0 && |OpenZones(s) + ClosedZones(s)| >= s.maxActive
  }

  ghost predicate NoOpenLeft(s: Zns) {
    s.maxOpen != 0 && |OpenZones(s)| >= s.maxOpen
  }

  lemma CountersSay(s: Zns)
    requires Inv(s)
    ensures AorCheck(s, 0, 0) == Success
    ensures AorCheck(s, 1, 0) == if NoActiveLeft(s) then TooManyActive else Success
    ensures AorCheck(s, 0, 1) == if NoOpenLeft(s) then TooManyOpen else Success
    ensures AorCheck(s, 1, 1) == if NoActiveLeft(s) then TooManyActive else if NoOpenLeft(s) then TooManyOpen else Success
    ensures NoOpenLeft(s) <==> s.maxOpen != 0 && s.nrOpen == s.maxOpen
  {
    ResourcesCounted(s);
    hide Listed, OpenZones, ClosedZones;
  }

  // ----- Writes and appends ----------------------------------------------------------------------

  /** What a write or append to zone z is answered once its size and range are right. */
  ghost function WriteAnswer(s: Zns, z: Zone, slba: nat, nlb: Blocks, append: bool, zaslOk: bool, mapped: bool): Status {
    if slba + nlb > z.zslba + z.zcap then BoundaryError
    else if z.zs == Full then ZoneFull
    else if z.zs == ReadOnly then ZoneReadOnly
    else if z.zs == Offline then ZoneOffline
    else if append && (slba != z.zslba || !zaslOk) then InvalidField
    else if !append && slba != z.wPtr then InvalidWrite
    else if z.zs == Empty && NoActiveLeft(s) then TooManyActive
    else if z.zs in {Empty, Closed} && NoOpenLeft(s) && InState(s, ImpOpen) == {} then TooManyOpen
    else if !mapped then MapError
    else Success
  }

  /** The checks of the zone. */
  lemma ZoneAnswers(z: Zone, slba: nat, nlb: nat, append: bool, zaslOk: bool)
    ensures CheckWrite(z, slba, nlb, append, zaslOk)
            == if slba + nlb > z.zslba + z.zcap then BoundaryError
               else if z.zs == Full then ZoneFull
               else if z.zs == ReadOnly then ZoneReadOnly
               else if z.zs == Offline then ZoneOffline
               else if append && (slba != z.zslba || !zaslOk) then InvalidField
               else if !append && slba != z.wPtr then InvalidWrite
               else Success
  {
  }

  /** Making room frees one open resource, if there is none left and an implicitly open zone
      can be closed for it, and no active one. */
  lemma TransitionFrees(s: Zns)
    requires s.impOpen != [] ==> s.impOpen[0] < |s.zones|
    ensures var t := AutoTransition(s);
            && t.nrActive == s.nrActive && t.maxActive == s.maxActive && t.maxOpen == s.maxOpen
            && t.nrOpen == if s.maxOpen != 0 && s.nrOpen == s.maxOpen && s.impOpen != [] then s.nrOpen - 1 else s.nrOpen
  {
  }

  lemma SomeImpOpen(s: Zns)
    requires Inv(s)
    ensures s.impOpen == [] <==> InState(s, ImpOpen) == {}
    ensures s.impOpen != [] ==> s.impOpen[0] < |s.zones|
  {
    assert ListedIn(s, ImpOpen);
    hide Balanced;
    if s.impOpen != [] {
      var i := s.impOpen[0];
      assert i in s.impOpen;
      assert i in InState(s, ImpOpen);
    }
  }

  lemma OpenAnswers(s: Zns, i: nat)
    requires Inv(s) && i < |s.zones|
    ensures s.impOpen != [] ==> s.impOpen[0] < |s.zones|
    ensures var z := s.zones[i];
            AutoOpen(s, i).status
            == if z.zs == Empty && NoActiveLeft(s) then TooManyActive
               else if z.zs in {Empty, Closed} && NoOpenLeft(s) && InState(s, ImpOpen) == {} then TooManyOpen
               else Success
  {
    hide Inv, AutoTransition, NoActiveLeft, NoOpenLeft, InState;
    CountersSay(s);
    SomeImpOpen(s);
    TransitionFrees(s);
    BalancedLimits(s);
  }

  lemma BalancedLimits(s: Zns)
    requires Inv(s)
    ensures s.nrOpen <= s.maxOpen && s.nrActive <= s.maxActive
  {
    hide Listed;
  }

  /** The exact answer to every write and append. */
  lemma WriteIsAnswered(s: Zns, cmd: Command)
    requires Inv(s) && (cmd.Write? || cmd.Append?)
    ensures var end := cmd.slba + cmd.nlb;
            && (cmd.mdtsOk && end <= |s.zones| * s.zoneSize ==> cmd.slba / s.zoneSize < |s.zones|)
            && Exec(s, cmd).status
               == if !cmd.mdtsOk then InvalidField
                  else if end > |s.zones| * s.zoneSize then LbaRange
                  else WriteAnswer(s, s.zones[cmd.slba / s.zoneSize], cmd.slba, cmd.nlb, cmd.Append?,
                                   cmd.Append? ==> cmd.zaslOk, cmd.mapped)
  {
    hide Inv, AutoOpen, AdvanceWp, FinalizeWrite, CheckWrite, NoActiveLeft, NoOpenLeft, InState;
    InvShaped(s);
    if cmd.slba + cmd.nlb <= |s.zones| * s.zoneSize {
      DivBelow(cmd.slba, |s.zones|, s.zoneSize);
      var i := cmd.slba / s.zoneSize;
      ZoneAnswers(s.zones[i], cmd.slba, cmd.nlb, cmd.Append?, cmd.Append? ==> cmd.zaslOk);
      OpenAnswers(s, i);
    }
  }

  /** The write or append gets as far as making room in the resources. */
  ghost predicate ReachesResources(s: Zns, cmd: Command)
    requires Inv(s) && (cmd.Write? || cmd.Append?)
  {
    && cmd.mdtsOk && cmd.slba + cmd.nlb <= |s.zones| * s.zoneSize && cmd.slba / s.zoneSize < |s.zones|
    && var z := s.zones[cmd.slba / s.zoneSize];
       && cmd.slba + cmd.nlb <= z.zslba + z.zcap && z.zs in {Empty, ImpOpen, ExpOpen, Closed}
       && cmd.slba == (if cmd.Append? then z.zslba else z.wPtr) && (cmd.Append? ==> cmd.zaslOk)
  }

  /** It needs an open resource and none is left, but a zone can be closed for it. */
  ghost predicate ClosesOldest(s: Zns, cmd: Command)
    requires Inv(s) && (cmd.Write? || cmd.Append?)
  {
    && ReachesResources(s, cmd) && s.zones[cmd.slba / s.zoneSize].zs in {Empty, Closed}
    && NoOpenLeft(s) && s.impOpen != []
  }

  lemma ExecIsWrite(s: Zns, cmd: Command)
    requires Inv(s) && (cmd.Write? || cmd.Append?)
    ensures Shaped(s)
    ensures ReachesResources(s, cmd) ==> Exec(s, cmd) == WriteZone(s, cmd.slba / s.zoneSize, cmd.nlb, cmd.mapped)
    ensures !ReachesResources(s, cmd) ==> Exec(s, cmd).s == s && Exec(s, cmd).status !in {Success, MapError}
  {
    hide Inv, WriteZone, CheckWrite, AutoOpen;
    InvShaped(s);
    if cmd.slba + cmd.nlb <= |s.zones| * s.zoneSize {
      DivBelow(cmd.slba, |s.zones|, s.zoneSize);
      ZoneAnswers(s.zones[cmd.slba / s.zoneSize], cmd.slba, cmd.nlb, cmd.Append?, cmd.Append? ==> cmd.zaslOk);
    }
  }

  /** What a successful write or append makes of its zone. */
  ghost predicate WrittenTo(z: Zone, z': Zone, nlb: Blocks) {
    && z'.zslba == z.zslba && z'.zcap == z.zcap && z'.ext == z.ext
    && z'.wp == z'.wPtr == z.wPtr + nlb
    && (z'.wp == z.zslba + z.zcap ==> z'.zs == Full)
    && (z'.wp < z.zslba + z.zcap ==> z'.zs == if z.zs == ExpOpen then ExpOpen else ImpOpen)
  }

  /** A write that names the write pointer of its zone and ends within it succeeds as long as the
      resources allow it, and moves both pointers to its end. */
  lemma AcceptedWriteMoves(s: Zns, cmd: Command)
    requires Inv(s) && Geometry(s) && AllSequential(s) && (cmd.Write? || cmd.Append?) && Exec(s, cmd).status == Success
    ensures ReachesResources(s, cmd)
    ensures var i := cmd.slba / s.zoneSize; WrittenTo(s.zones[i], Exec(s, cmd).s.zones[i], cmd.nlb)
  {
    hide Inv, WriteZone, Exec, Aside;
    ExecIsWrite(s, cmd);
    WriteEffect(s, cmd.slba / s.zoneSize, cmd.nlb, cmd.mapped);
    assert Sequential(s.zones[cmd.slba / s.zoneSize]);
  }

  lemma AssignQueue(s: Zns, i: nat, st: ZState)
    requires i < |s.zones|
    ensures var kept := if InUse(s, i) && s.zones[i].zs == ImpOpen then Without(s.impOpen, i) else s.impOpen;
            AssignState(s, i, st).impOpen == kept + if st == ImpOpen then [i] else []
  {
    hide InUse;
    assert s.impOpen + [] == s.impOpen && Without(s.impOpen, i) + [] == Without(s.impOpen, i);
  }

  /** The queue of implicitly open zones after a write: the oldest one leaves if it is closed to
      make room, and a zone that is opened goes to the end. */
  ghost predicate QueueAfterWrite(s: Zns, t: Zns, i: nat, closes: bool)
    requires i < |s.zones| == |t.zones| && (closes ==> s.impOpen != [])
  {
    var rest := if closes then s.impOpen[1..] else s.impOpen;
    t.impOpen == if s.zones[i].zs == ImpOpen && t.zones[i].zs == Full then Without(s.impOpen, i)
                 else if s.zones[i].zs != ImpOpen && t.zones[i].zs == ImpOpen then rest + [i]
                 else rest
  }

  /** No zone but that of the command changes, except that the longest implicitly open one is
      closed if the command needs its resource, even if it then fails for want of an active
      one. */
  lemma OldestIsClosed(s: Zns, cmd: Command)
    requires Inv(s) && (cmd.Write? || cmd.Append?)
    ensures |Exec(s, cmd).s.zones| == |s.zones|
    ensures forall k :: 0 <= k < |s.zones| && (k != cmd.slba / s.zoneSize || !ReachesResources(s, cmd)) ==>
              Exec(s, cmd).s.zones[k]
              == if ClosesOldest(s, cmd) && k == s.impOpen[0] then s.zones[k].(zs := Closed) else s.zones[k]
    ensures ReachesResources(s, cmd) ==> QueueAfterWrite(s, Exec(s, cmd).s, cmd.slba / s.zoneSize, ClosesOldest(s, cmd))
  {
    hide Inv, WriteZone, Exec, NoOpenLeft, QueueAfterWrite, Shaped;
    ExecIsWrite(s, cmd);
    if ReachesResources(s, cmd) {
      WriteClosesOldest(s, cmd.slba / s.zoneSize, cmd.nlb, cmd.mapped);
    }
  }

  lemma WriteClosesOldest(s: Zns, i: nat, nlb: Blocks, mapped: bool)
    requires Inv(s) && Shaped(s) && i < |s.zones|
    ensures var r := WriteZone(s, i, nlb, mapped).s;
            var closes := s.zones[i].zs in {Empty, Closed} && NoOpenLeft(s) && s.impOpen != [];
            && |r.zones| == |s.zones|
            && (forall k :: 0 <= k < |s.zones| && k != i ==>
                  r.zones[k] == if closes && k == s.impOpen[0] then s.zones[k].(zs := Closed) else s.zones[k])
            && QueueAfterWrite(s, r, i, closes)
  {
    hide Inv, WriteZone, NoOpenLeft, AutoOpen, Shaped;
    CountersSay(s);
    SomeImpOpen(s);
    ZonesAfterOpen(s, i);
    QueueAfterOpen(s, i);
    WriteInTwo(s, i, nlb, mapped);
  }

  lemma ZonesAfterOpen(s: Zns, i: nat)
    requires Inv(s) && i < |s.zones|
    ensures s.impOpen != [] ==> s.impOpen[0] < |s.zones|
    ensures var t := AutoOpen(s, i).s;
            var closes := s.zones[i].zs in {Empty, Closed} && s.maxOpen != 0 && s.nrOpen == s.maxOpen && s.impOpen != [];
            && |t.zones| == |s.zones| && t.zones[i] == s.zones[i]
            && forall k :: 0 <= k < |s.zones| ==>
                 t.zones[k] == if closes && k == s.impOpen[0] then s.zones[k].(zs := Closed) else s.zones[k]
  {
    hide Inv, AssignState, AorCheck;
    AutoTransitionCloses(s);
    if s.impOpen != [] {
      AssignZones(DecOpen(s), s.impOpen[0], Closed);
    }
  }

  lemma QueueAfterOpen(s: Zns, i: nat)
    requires Inv(s) && i < |s.zones| && (s.impOpen != [] ==> s.impOpen[0] < |s.zones|)
    ensures var t := AutoOpen(s, i).s;
            var closes := s.zones[i].zs in {Empty, Closed} && s.maxOpen != 0 && s.nrOpen == s.maxOpen && s.impOpen != [];
            t.impOpen == if closes then s.impOpen[1..] else s.impOpen
  {
    hide AssignState, AorCheck;
    if s.impOpen != [] {
      var u, j := DecOpen(s.(impOpen := s.impOpen[1..])), s.impOpen[0];
      NotInRest(s);
      AssignQueue(u, j, Closed);
    }
  }

  lemma NotInRest(s: Zns)
    requires Inv(s) && s.impOpen != [] && s.impOpen[0] < |s.zones|
    ensures var u, j := DecOpen(s.(impOpen := s.impOpen[1..])), s.impOpen[0];
            !InUse(u, j) && u.zones == s.zones
  {
    hide Balanced;
    assert ListedIn(s, ImpOpen) && ListedIn(s, ExpOpen) && ListedIn(s, Closed) && ListedIn(s, Full);
    assert s.impOpen[0] in s.impOpen && s.impOpen == [s.impOpen[0]] + s.impOpen[1..];
    assert s.impOpen[0] !in s.impOpen[1..];
  }

  lemma AdvanceQueue(s: Zns, i: nat, nlb: nat)
    requires i < |s.zones|
    ensures var opens := s.zones[i].zs in {Empty, Closed} && AdvanceWp(s, i, nlb).zones[i].zs == ImpOpen;
            AdvanceWp(s, i, nlb).impOpen == if opens then s.impOpen + [i] else s.impOpen
  {
    hide AssignState;
    var z := s.zones[i];
    var s1 := s.(zones := s.zones[i := z.(wPtr := z.wPtr + nlb)]);
    AssignQueue(IncOpen(IncActive(s1)), i, ImpOpen);
    AssignQueue(IncOpen(s1), i, ImpOpen);
    AssignZones(IncOpen(IncActive(s1)), i, ImpOpen);
    AssignZones(IncOpen(s1), i, ImpOpen);
  }

  lemma FinalizeQueue(s: Zns, i: nat, nlb: nat)
    requires Inv(s) && i < |s.zones|
    ensures var filled := s.zones[i].zs == ImpOpen && FinalizeWrite(s, i, nlb).zones[i].zs == Full;
            FinalizeWrite(s, i, nlb).impOpen == if filled then Without(s.impOpen, i) else s.impOpen
  {
    InUseIffQueued(s, i);
    hide Inv, AssignState;
    var z := s.zones[i];
    var s1 := s.(zones := s.zones[i := z.(wp := z.wp + nlb)]);
    AssignQueue(Released(s1, z.zs), i, Full);
    AssignZones(Released(s1, z.zs), i, Full);
    assert s.impOpen + [] == s.impOpen && Without(s.impOpen, i) + [] == Without(s.impOpen, i);
  }

  lemma LastOut(s: Zns, i: nat)
    requires Inv(s) && i < |s.zones| && s.zones[i].zs != ImpOpen
    ensures Without(s.impOpen + [i], i) == s.impOpen
  {
    assert ListedIn(s, ImpOpen);
    assert i !in ListOf(s, ImpOpen);
    AtFront(s.impOpen, [i]);
  }

  /** What follows the check of resources changes only zone i and, in the queue of implicitly open
      zones, its place. */
  lemma WriteInTwo(s: Zns, i: nat, nlb: Blocks, mapped: bool)
    requires Inv(s) && Shaped(s) && i < |s.zones| && (s.impOpen != [] ==> s.impOpen[0] < |s.zones|)
    ensures var t, r := AutoOpen(s, i).s, WriteZone(s, i, nlb, mapped).s;
            && |r.zones| == |t.zones| && (forall k :: 0 <= k < |t.zones| && k != i ==> r.zones[k] == t.zones[k])
            && QueueAfterWrite(t, r, i, false)
  {
    hide Inv, AutoOpen, AdvanceWp, FinalizeWrite, Shaped;
    var t := AutoOpen(s, i).s;
    AutoOpenKeepsInv(s, i);
    if AutoOpen(s, i).status == Success {
      AdvanceKeepsInv(t, i, nlb);
      AdvanceZone(t, i, nlb);
      AdvanceQueue(t, i, nlb);
      var u := AdvanceWp(t, i, nlb);
      FinalizeZone(u, i, nlb);
      FinalizeQueue(u, i, nlb);
      if t.zones[i].zs != ImpOpen { LastOut(t, i); }
    }
  }

  // ----- Operations on one zone --------------------------------------------------------------------

  /** What an operation on zone z is answered. */
  ghost function OpAnswer(s: Zns, z: Zone, op: ZoneOp): Status {
    match op
    case OpOpen =>
      if z.zs in {Full, ReadOnly, Offline} then InvalidTransition
      else if z.zs == Empty && NoActiveLeft(s) then TooManyActive
      else if z.zs in {Empty, Closed} && NoOpenLeft(s) then TooManyOpen
      else Success
    case OpClose => if z.zs in {ImpOpen, ExpOpen, Closed} then Success else InvalidTransition
    case OpFinish => if z.zs in {ReadOnly, Offline} then InvalidTransition else Success
    case OpReset => Success
    case OpOffline => if z.zs in {ReadOnly, Offline} then Success else InvalidTransition
  }

  /** What a successful operation makes of zone z. */
  ghost predicate BecomesBy(z: Zone, z': Zone, op: ZoneOp) {
    && z'.zslba == z.zslba && z'.zcap == z.zcap
    && match op
       case OpOpen => z'.zs == ExpOpen && z'.wp == z.wp && z'.wPtr == z.wPtr && z'.ext == z.ext
       case OpClose => z'.zs == Closed && z'.wp == z.wp && z'.wPtr == z.wPtr && z'.ext == z.ext
       case OpFinish =>
         if z.zs == Full then z' == z
         else z'.zs == Full && z'.wp == z'.wPtr == z.zslba + z.zcap && z'.ext == z.ext
       case OpReset =>
         if z.zs in {Empty, ReadOnly, Offline} then z' == z
         else z'.zs == Empty && z'.wp == z'.wPtr == z.zslba && !z'.ext
       case OpOffline => z'.zs == Offline && z'.wp == z.wp && (z.zs == ReadOnly ==> !z'.ext)
  }

  lemma ApplyAnswers(s: Zns, i: nat, op: ZoneOp)
    requires Inv(s) && i < |s.zones| && op != OpReset
    ensures Apply(s, i, op).status == OpAnswer(s, s.zones[i], op)
  {
    hide Inv, AssignState, NoActiveLeft, NoOpenLeft;
    CountersSay(s);
    OpenChecks(s);
  }

  /** An open checks for an active resource and, with that taken, for an open one. */
  lemma OpenChecks(s: Zns)
    requires Inv(s)
    ensures AorCheck(s, 1, 0) == Success ==> AorCheck(IncActive(s), 0, 1) == AorCheck(s, 0, 1)
  {
    BalancedLimits(s);
    hide Inv;
  }

  lemma Entering(z: Zone, op: ZoneOp)
    ensures BecomesBy(z, Single(op, z), op) || OpNotAllowed(z, op)
  {
  }

  predicate OpNotAllowed(z: Zone, op: ZoneOp) {
    match op
    case OpOpen => z.zs in {Full, ReadOnly, Offline}
    case OpClose => z.zs !in {ImpOpen, ExpOpen, Closed}
    case OpFinish => z.zs in {ReadOnly, Offline}
    case OpReset => false
    case OpOffline => z.zs !in {ReadOnly, Offline}
  }

  /** The exact answer to every zone management command for one zone, and what it does: it
      must name the first block of a zone; a refused one changes nothing. */
  lemma OpIsAnswered(s: Zns, op: ZoneOp, slba: nat)
    requires Inv(s)
    ensures slba < |s.zones| * s.zoneSize ==> slba / s.zoneSize < |s.zones|
    ensures var r := Exec(s, Manage(op, false, slba));
            && |r.s.zones| == |s.zones|
            && (slba >= |s.zones| * s.zoneSize ==> r.status == LbaRange && r.s.zones == s.zones)
            && (slba < |s.zones| * s.zoneSize ==>
                  var i := slba / s.zoneSize;
                  var z := s.zones[i];
                  && r.status == (if slba != z.zslba then InvalidField else OpAnswer(s, z, op))
                  && (forall k :: 0 <= k < |s.zones| && k != i ==> r.s.zones[k] == s.zones[k])
                  && (if r.status == Success then BecomesBy(z, r.s.zones[i], op) else r.s.zones[i] == z))
  {
    hide Inv, Apply, OpAnswer, Single, NoActiveLeft, NoOpenLeft, BecomesBy, OpNotAllowed;
    InvShaped(s);
    if slba < |s.zones| * s.zoneSize {
      DivBelow(slba, |s.zones|, s.zoneSize);
      var i := slba / s.zoneSize;
      if slba == s.zones[i].zslba {
        OneOp(s, i, op);
      }
    }
  }

  lemma OneOp(s: Zns, i: nat, op: ZoneOp)
    requires Inv(s) && i < |s.zones|
    ensures op != OpReset ==> Apply(s, i, op).status == OpAnswer(s, s.zones[i], op)
    ensures OpAnswer(s, s.zones[i], OpReset) == Success
    ensures var t := Apply(s, i, op).s;
            && |t.zones| == |s.zones| && (forall k :: 0 <= k < |s.zones| && k != i ==> t.zones[k] == s.zones[k])
            && (if op == OpReset || Apply(s, i, op).status == Success then BecomesBy(s.zones[i], t.zones[i], op)
                else t.zones[i] == s.zones[i])
  {
    hide Inv, Apply, NoActiveLeft, NoOpenLeft;
    ApplyEffect(s, i, op);
    Entering(s.zones[i], op);
    if op != OpReset { ApplyAnswers(s, i, op); } else { ResetAnswers(s, i); }
  }

  lemma ResetAnswers(s: Zns, i: nat)
    requires i < |s.zones|
    ensures Apply(s, i, OpReset).status == if s.zones[i].zs in {ReadOnly, Offline} then InvalidTransition else Success
  {
    hide AssignState;
  }

  /** What an operation with the select-all bit makes of zone z, if it is not OPEN. */
  ghost predicate BecomesByAll(z: Zone, z': Zone, op: ZoneOp) {
    match op
    case OpOpen => true
    case OpClose => if z.zs in {ImpOpen, ExpOpen} then BecomesBy(z, z', op) else z' == z
    case OpFinish => if z.zs in {ImpOpen, ExpOpen, Closed} then BecomesBy(z, z', op) else z' == z
    case OpReset => BecomesBy(z, z', op)
    case OpOffline => if z.zs == ReadOnly then BecomesBy(z, z', op) else z' == z
  }

  lemma TargetIs(z: Zone, op: ZoneOp)
    ensures BecomesByAll(z, Target(op, z), op)
  {
  }

  /** The operations with the select-all bit other than OPEN always succeed: CLOSE closes every
      open zone, FINISH fills every open or closed one, RESET empties every zone that is not
      read-only or offline, and OFFLINE takes every read-only zone offline. */
  lemma AllIsAnswered(s: Zns, op: ZoneOp, slba: nat)
    requires Inv(s) && s.zones[0].zslba == 0 && op != OpOpen
    ensures var r := Exec(s, Manage(op, true, slba));
            && r.status == Success && |r.s.zones| == |s.zones|
            && forall i :: 0 <= i < |s.zones| ==> BecomesByAll(s.zones[i], r.s.zones[i], op)
  {
    hide Inv, Target, BulkAll, BecomesByAll;
    InvShaped(s);
    AllInBulk(s, op);
    forall i | 0 <= i < |s.zones| ensures BecomesByAll(s.zones[i], BulkAll(s, op).s.zones[i], op) {
      TargetIs(s.zones[i], op);
    }
  }

  /** The exact answer to setting a zone descriptor extension, and what it does. */
  lemma ExtensionIsAnswered(s: Zns, slba: nat, all: bool, dmaOk: bool)
    requires Inv(s)
    ensures slba < |s.zones| * s.zoneSize ==> slba / s.zoneSize < |s.zones|
    ensures var r, inRange := Exec(s, SetExtension(slba, all, dmaOk)), slba < |s.zones| * s.zoneSize;
            && |r.s.zones| == |s.zones|
            && (all ==> r.status == InvalidField)
            && (!all && !inRange ==> r.status == LbaRange)
            && (!all && inRange ==>
                  var z := s.zones[slba / s.zoneSize];
                  r.status == if slba != z.zslba || s.extSize == 0 then InvalidField
                              else if !dmaOk then MapError
                              else if z.zs != Empty then InvalidTransition
                              else if NoActiveLeft(s) then TooManyActive
                              else Success)
            && r.s.zones == if r.status == Success && inRange
                            then s.zones[slba / s.zoneSize := s.zones[slba / s.zoneSize].(zs := Closed, ext := true)]
                            else s.zones
  {
    hide Inv, SetZdExt, NoActiveLeft;
    InvShaped(s);
    if slba < |s.zones| * s.zoneSize {
      DivBelow(slba, |s.zones|, s.zoneSize);
      SetExtAnswers(s, slba / s.zoneSize);
    }
  }

  lemma SetExtAnswers(s: Zns, j: nat)
    requires Inv(s) && j < |s.zones|
    ensures var r, z := SetZdExt(s, j), s.zones[j];
            && r.status == (if z.zs != Empty then InvalidTransition else if NoActiveLeft(s) then TooManyActive else Success)
            && r.s.zones == if r.status == Success then s.zones[j := z.(zs := Closed, ext := true)] else s.zones
  {
    hide Inv, AssignState, NoActiveLeft;
    CountersSay(s);
    var s1 := IncActive(s);
    AssignZones(s1.(zones := s1.zones[j := s1.zones[j].(ext := true)]), j, Closed);
  }
}
