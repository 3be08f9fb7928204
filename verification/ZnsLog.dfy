/** What has been written: the sequential-write guarantee over runs of a zoned namespace, and
    exactly when the code misses it. */
module ZnsLog {
  import opened Wrappers
  import opened Queues
  import opened ZnsModel
  import opened ZnsInvariant
  import opened ZnsCommands
  import opened ZnsBulk
  import opened ZnsWrites

  function Lbas(start: nat, n: nat): (q: seq<nat>)
    ensures |q| == n && forall k :: 0 <= k < n ==> q[k] == start + k
  {
    if n == 0 then [] else Lbas(start, n - 1) + [start + n - 1]
  }

  lemma {:induction false} LbasJoin(start: nat, n: nat, m: nat)
    ensures Lbas(start, n) + Lbas(start + n, m) == Lbas(start, n + m)
  {
  }

  /** A command of `zns_io_cmd`; a read changes no zone. */
  datatype Io = Zoned(cmd: Command) | Read

  /** A command and the request structure that carries it.  Structures start zeroed and are
      used again; what stays in them is `is_write`. */
  datatype Submission = Submission(slot: nat, io: Io)

  /** A namespace; for each zone the addresses stored since it was last empty and whether it
      has been finished since; and the request structures whose `is_write` is set. */
  datatype Device = Device(s: Zns, log: seq<seq<nat>>, finished: seq<bool>, isWrite: set<nat>)

  /** The addresses of zone i that a command stores to. */
  function WrittenBy(s: Zns, cmd: Command, isWrite: bool, i: nat): seq<nat>
    requires Inv(s)
  {
    match TransferOf(s, cmd, isWrite)
    case Some(t) => if t.store && ZoneIdx(s, cmd.slba) == i then Lbas(t.lba, t.nlb) else []
    case None => []
  }

  function LogAfter(s: Zns, cmd: Command, isWrite: bool, i: nat, log: seq<nat>): seq<nat>
    requires Inv(s) && i < |s.zones|
  {
    if Exec(s, cmd).s.zones[i].zs == Empty then [] else log + WrittenBy(s, cmd, isWrite, i)
  }

  function FinishedAfter(s: Zns, cmd: Command, i: nat, finished: bool): bool
    requires Inv(s) && i < |s.zones|
  {
    var z, z' := s.zones[i], Exec(s, cmd).s.zones[i];
    z'.zs != Empty && (finished || (cmd.Manage? && z'.zs == Full && z.zs != Full))
  }

  ghost predicate Whole(d: Device) {
    Inv(d.s) && |d.log| == |d.s.zones| == |d.finished|
  }

  function Step(d: Device, x: Submission): (d': Device)
    requires Whole(d)
    ensures Whole(d')
  {
    match x.io
    case Read => d.(isWrite := d.isWrite - {x.slot})
    case Zoned(cmd) =>
      var n, flag := |d.s.zones|, x.slot in d.isWrite;
      Device(Exec(d.s, cmd).s,
             seq(n, i requires 0 <= i < n => LogAfter(d.s, cmd, flag, i, d.log[i])),
             seq(n, i requires 0 <= i < n => FinishedAfter(d.s, cmd, i, d.finished[i])),
             if FlagAfter(cmd, flag) then d.isWrite + {x.slot} else d.isWrite)
  }

  /** The sequential-write guarantee: the pointers of each zone agree and stay in it, and in
      a zone not finished since it was last empty, the addresses stored since then are exactly
      those from its start to its write pointer, in order. */
  ghost predicate Logged(d: Device) {
    && Whole(d) && Geometry(d.s) && AllSequential(d.s)
    && forall i :: 0 <= i < |d.s.zones| ==> ZoneLogged(d.s.zones[i], d.log[i], d.finished[i])
  }

  ghost predicate ZoneLogged(z: Zone, log: seq<nat>, finished: bool) {
    && (finished ==> z.zs == Full)
    && (!finished ==> z.zslba <= z.wp && log == Lbas(z.zslba, z.wp - z.zslba))
  }

  // ----- When a command keeps it -------------------------------------------------------------------

  /** A write or append passes its checks and finds the resources it needs. */
  predicate Accepted(s: Zns, slba: nat, nlb: Blocks, mdtsOk: bool, append: bool, zaslOk: bool)
    requires s.zoneSize > 0 && (s.impOpen != [] ==> s.impOpen[0] < |s.zones|)
  {
    WriteStatus(s, slba, nlb, mdtsOk, append, zaslOk) == Success && AutoOpen(s, ZoneIdx(s, slba)).status == Success
  }

  /** If a command is accepted, its data can be mapped; and if it is an append, it ends at or
      before the boundary of its zone and comes in a request structure whose `is_write` is
      set.  The code checks neither of the last two. */
  predicate Clean(s: Zns, cmd: Command, isWrite: bool)
    requires s.zoneSize > 0 && (s.impOpen != [] ==> s.impOpen[0] < |s.zones|)
  {
    match cmd
    case Write(slba, nlb, mdtsOk, mapped) => Accepted(s, slba, nlb, mdtsOk, false, true) ==> mapped
    case Append(slba, nlb, mdtsOk, zaslOk, mapped) =>
      Accepted(s, slba, nlb, mdtsOk, true, zaslOk) ==>
        mapped && isWrite && s.zones[ZoneIdx(s, slba)].wPtr + nlb <= s.zones[ZoneIdx(s, slba)].Boundary()
    case _ => true
  }

  lemma OldestInRange(s: Zns)
    requires Inv(s)
    ensures s.zoneSize > 0 && (s.impOpen != [] ==> s.impOpen[0] < |s.zones|)
  {
    InvShaped(s);
  }

  predicate IsClean(d: Device, x: Submission)
    requires Whole(d)
  {
    OldestInRange(d.s);
    x.io.Zoned? ==> Clean(d.s, x.io.cmd, x.slot in d.isWrite)
  }

  /** What a command may do to a zone of a sequential namespace. */
  ghost predicate ZoneStep(s: Zns, cmd: Command, isWrite: bool, i: nat)
    requires Inv(s) && i < |s.zones|
  {
    var z, z', w := s.zones[i], Exec(s, cmd).s.zones[i], WrittenBy(s, cmd, isWrite, i);
    && z'.zslba == z.zslba && z'.zcap == z.zcap && Sequential(z')
    && (z.zs == Full ==> z'.zs == Full || z'.zs == Empty)
    && (z'.zs == Empty
        || (z'.wp == z.wp + |w| && w == Lbas(z.wp, |w|))
        || (cmd.Manage? && z'.zs == Full && z.zs != Full))
  }

  lemma AsideZone(s: Zns, cmd: Command, isWrite: bool, i: nat)
    requires Inv(s) && i < |s.zones| && Sequential(s.zones[i]) && Aside(s.zones[i], Exec(s, cmd).s.zones[i])
    requires WrittenBy(s, cmd, isWrite, i) == []
    ensures ZoneStep(s, cmd, isWrite, i)
  {
    hide Inv, Exec, WrittenBy;
  }

  /** What a write or append comes to: its status and the zones it changes. */
  ghost predicate Written(s: Zns, cmd: Command, slba: nat, nlb: Blocks, mdtsOk: bool, append: bool, zaslOk: bool,
                          mapped: bool)
    requires Inv(s)
  {
    OldestInRange(s);
    var r, j := Exec(s, cmd), ZoneIdx(s, slba);
    if Accepted(s, slba, nlb, mdtsOk, append, zaslOk) then
      && j < |s.zones| && r.status == (if mapped then Success else MapError)
      && r.s.zones[j] == WrittenZone(s.zones[j], nlb, mapped)
      && CheckWrite(s.zones[j], slba, nlb, append, zaslOk) == Success
      && forall k :: 0 <= k < |s.zones| && k != j ==> Aside(s.zones[k], r.s.zones[k])
    else
      r.status != Success && forall k :: 0 <= k < |s.zones| ==> Aside(s.zones[k], r.s.zones[k])
  }

  lemma DoWriteEffect(s: Zns, slba: nat, nlb: Blocks, mdtsOk: bool, append: bool, zaslOk: bool, mapped: bool, cmd: Command)
    requires Inv(s) && Shaped(s)
    requires Exec(s, cmd) == DoWrite(s, slba, nlb, mdtsOk, append, zaslOk, mapped)
    ensures Written(s, cmd, slba, nlb, mdtsOk, append, zaslOk, mapped)
  {
    hide Inv, Exec, AutoOpen, AdvanceWp, FinalizeWrite, CheckWrite, WrittenZone;
    OldestInRange(s);
    var j := ZoneIdx(s, slba);
    if WriteStatus(s, slba, nlb, mdtsOk, append, zaslOk) == Success {
      WriteEffect(s, j, nlb, mapped);
      OpenStatus(s, j);
    }
  }

  lemma WriteExec(s: Zns, cmd: Command)
    requires Inv(s) && cmd.Write?
    ensures Written(s, cmd, cmd.slba, cmd.nlb, cmd.mdtsOk, false, true, cmd.mapped)
  {
    hide Inv, Shaped, DoWrite, Written;
    InvShaped(s);
    DoWriteEffect(s, cmd.slba, cmd.nlb, cmd.mdtsOk, false, true, cmd.mapped, cmd);
  }

  lemma AppendExec(s: Zns, cmd: Command)
    requires Inv(s) && cmd.Append?
    ensures Written(s, cmd, cmd.slba, cmd.nlb, cmd.mdtsOk, true, cmd.zaslOk, cmd.mapped)
  {
    hide Inv, Shaped, DoWrite, Written;
    InvShaped(s);
    DoWriteEffect(s, cmd.slba, cmd.nlb, cmd.mdtsOk, true, cmd.zaslOk, cmd.mapped, cmd);
  }

  lemma WriteZoneStep(s: Zns, cmd: Command, isWrite: bool, i: nat)
    requires Inv(s) && i < |s.zones| && AllSequential(s) && cmd.Write?
    requires s.zoneSize > 0 && (s.impOpen != [] ==> s.impOpen[0] < |s.zones|) && Clean(s, cmd, isWrite)
    ensures ZoneStep(s, cmd, isWrite, i)
  {
    hide Inv, Exec, Accepted, Aside;
    WriteExec(s, cmd);
    var j := ZoneIdx(s, cmd.slba);
    if i == j && Accepted(s, cmd.slba, cmd.nlb, cmd.mdtsOk, false, true) {
      CheckedWriteFits(s.zones[i], cmd.slba, cmd.nlb, true);
      WriteStaysSequential(s.zones[i], cmd.nlb, true);
    } else {
      AsideZone(s, cmd, isWrite, i);
    }
  }

  lemma AppendZoneStep(s: Zns, cmd: Command, isWrite: bool, i: nat)
    requires Inv(s) && i < |s.zones| && AllSequential(s) && cmd.Append?
    requires s.zoneSize > 0 && (s.impOpen != [] ==> s.impOpen[0] < |s.zones|) && Clean(s, cmd, isWrite)
    ensures ZoneStep(s, cmd, isWrite, i)
  {
    hide Inv, Exec, Accepted, Aside;
    AppendExec(s, cmd);
    var j := ZoneIdx(s, cmd.slba);
    if i == j && Accepted(s, cmd.slba, cmd.nlb, cmd.mdtsOk, true, cmd.zaslOk) {
      WriteStaysSequential(s.zones[i], cmd.nlb, true);
    } else {
      AsideZone(s, cmd, isWrite, i);
    }
  }

  lemma ManagedZoneStep(s: Zns, cmd: Command, isWrite: bool, i: nat)
    requires Inv(s) && i < |s.zones| && Sequential(s.zones[i]) && cmd.Manage? && s.zones[i].zcap > 0
    requires Managed(s.zones[i], Exec(s, cmd).s.zones[i], cmd.op)
    ensures ZoneStep(s, cmd, isWrite, i)
  {
    hide Inv, Exec;
  }

  lemma ExtensionZoneStep(s: Zns, cmd: Command, isWrite: bool, i: nat)
    requires Inv(s) && i < |s.zones| && Sequential(s.zones[i]) && cmd.SetExtension?
    ensures ZoneStep(s, cmd, isWrite, i)
  {
    hide Inv, DoSetExtension;
    SetExtensionEffect(s, cmd.slba, cmd.all, cmd.dmaOk, i);
  }

  lemma ShutdownZoneStep(s: Zns, cmd: Command, isWrite: bool, i: nat)
    requires Inv(s) && i < |s.zones| && Sequential(s.zones[i]) && cmd.Shutdown?
    ensures ZoneStep(s, cmd, isWrite, i)
  {
    hide Inv, DoShutdown;
    ShutdownResult(s);
  }

  lemma EveryZoneStep(s: Zns, cmd: Command, isWrite: bool, i: nat)
    requires Inv(s) && i < |s.zones| && AllSequential(s) && Geometry(s)
    requires s.zoneSize > 0 && (s.impOpen != [] ==> s.impOpen[0] < |s.zones|) && Clean(s, cmd, isWrite)
    ensures ZoneStep(s, cmd, isWrite, i)
  {
    hide Inv, Sequential, ZoneStep, Managed, DoManage, DoSetExtension, DoShutdown, DoWrite, Clean;
    match cmd
    case Manage(op, all, slba) =>
      ManageEffect(s, op, all, slba, i);
      ManagedZoneStep(s, cmd, isWrite, i);
    case SetExtension(_, _, _) => ExtensionZoneStep(s, cmd, isWrite, i);
    case Shutdown => ShutdownZoneStep(s, cmd, isWrite, i);
    case Write(_, _, _, _) => WriteZoneStep(s, cmd, isWrite, i);
    case Append(_, _, _, _, _) => AppendZoneStep(s, cmd, isWrite, i);
  }

  lemma LogStep(s: Zns, cmd: Command, isWrite: bool, i: nat, log: seq<nat>, finished: bool)
    requires Inv(s) && i < |s.zones| && ZoneStep(s, cmd, isWrite, i)
    requires Sequential(s.zones[i]) && ZoneLogged(s.zones[i], log, finished)
    ensures ZoneLogged(Exec(s, cmd).s.zones[i], LogAfter(s, cmd, isWrite, i, log), FinishedAfter(s, cmd, i, finished))
  {
    hide Inv, Exec, WrittenBy;
    var z := s.zones[i];
    LbasJoin(z.zslba, z.wp - z.zslba, |WrittenBy(s, cmd, isWrite, i)|);
  }

  ghost predicate ZoneKept(d: Device, d': Device, i: nat)
    requires Whole(d) && Whole(d') && |d'.s.zones| == |d.s.zones| && i < |d.s.zones|
  {
    var z, z' := d.s.zones[i], d'.s.zones[i];
    z'.zslba == z.zslba && z'.zcap == z.zcap && Sequential(z') && ZoneLogged(z', d'.log[i], d'.finished[i])
  }

  lemma ZonesKept(d: Device, d': Device)
    requires Logged(d) && Whole(d') && SameConfig(d.s, d'.s)
    requires forall i: nat :: i < |d.s.zones| ==> ZoneKept(d, d', i)
    ensures Logged(d')
  {
    hide Inv, Sequential, ZoneLogged;
    forall i | 0 <= i < |d.s.zones|
      ensures d'.s.zones[i].zslba == i * d'.s.zoneSize && 0 < d'.s.zones[i].zcap <= d'.s.zoneSize
      ensures Sequential(d'.s.zones[i]) && ZoneLogged(d'.s.zones[i], d'.log[i], d'.finished[i])
    {
      assert ZoneKept(d, d', i);
    }
  }

  lemma CleanKeepsLogged(d: Device, x: Submission)
    requires Logged(d) && IsClean(d, x) && x.io.Zoned?
    ensures Logged(Step(d, x))
  {
    hide Exec, ZoneStep, Clean, LogAfter, FinishedAfter, Sequential, Inv, ZoneLogged;
    var cmd, flag, d' := x.io.cmd, x.slot in d.isWrite, Step(d, x);
    OldestInRange(d.s);
    forall i: nat | i < |d.s.zones| ensures ZoneKept(d, d', i) {
      EveryZoneStep(d.s, cmd, flag, i);
      LogStep(d.s, cmd, flag, i, d.log[i], d.finished[i]);
      SameZone(d.s, cmd, flag, i);
    }
    hide Logged;
    ZonesKept(d, d');
  }

  lemma SameZone(s: Zns, cmd: Command, isWrite: bool, i: nat)
    requires Inv(s) && i < |s.zones| && ZoneStep(s, cmd, isWrite, i)
    ensures var z, z' := s.zones[i], Exec(s, cmd).s.zones[i];
            z'.zslba == z.zslba && z'.zcap == z.zcap && Sequential(z')
  {
    hide Inv, Exec, Sequential, WrittenBy;
  }

  // ----- And when it does not ---------------------------------------------------------------------------

  /** A write whose data cannot be mapped, an append past the boundary, or an append that
      stores nothing. */
  lemma BrokenZone(z: Zone, nlb: Blocks, mapped: bool, stored: bool, log: seq<nat>, log': seq<nat>)
    requires Sequential(z) && z.zs in {Empty, ImpOpen, ExpOpen, Closed} && ZoneLogged(z, log, false)
    requires !(mapped && stored && z.wPtr + nlb <= z.Boundary())
    requires !stored ==> log' == if WrittenZone(z, nlb, mapped).zs == Empty then [] else log
    ensures var z' := WrittenZone(z, nlb, mapped); !Sequential(z') || !ZoneLogged(z', log', false)
  {
    WriteStaysSequential(z, nlb, mapped);
  }

  lemma BrokenWrite(d: Device, x: Submission)
    requires Logged(d) && !IsClean(d, x) && x.io.Zoned? && x.io.cmd.Write?
    ensures !Logged(Step(d, x))
  {
    hide Inv, Exec, AutoOpen;
    var cmd, j := x.io.cmd, ZoneIdx(d.s, x.io.cmd.slba);
    WriteExec(d.s, cmd);
    var z := d.s.zones[j];
    WriteStaysSequential(z, cmd.nlb, cmd.mapped);
  }

  lemma BrokenAppend(d: Device, x: Submission)
    requires Logged(d) && !IsClean(d, x) && x.io.Zoned? && x.io.cmd.Append?
    ensures !Logged(Step(d, x))
  {
    hide Inv, Exec, AutoOpen, Lbas, WrittenZone, Geometry;
    var cmd, j, flag := x.io.cmd, ZoneIdx(d.s, x.io.cmd.slba), x.slot in d.isWrite;
    AppendExec(d.s, cmd);
    var d' := Step(d, x);
    BrokenZone(d.s.zones[j], cmd.nlb, cmd.mapped, flag, d.log[j], d'.log[j]);
  }

  /** A command keeps the guarantee if and only if it is clean. */
  lemma StepKeepsLogged(d: Device, x: Submission)
    requires Logged(d)
    ensures Logged(Step(d, x)) <==> IsClean(d, x)
  {
    hide Inv, Exec, LogAfter, FinishedAfter, AllSequential, Geometry, ZoneLogged, Accepted;
    if x.io.Zoned? {
      if IsClean(d, x) {
        CleanKeepsLogged(d, x);
      } else if x.io.cmd.Write? {
        BrokenWrite(d, x);
      } else {
        BrokenAppend(d, x);
      }
    }
  }

  // ----- Runs -------------------------------------------------------------------------------------------

  function RunAll(d: Device, xs: seq<Submission>): (d': Device)
    requires Whole(d)
    ensures Whole(d')
    decreases |xs|
  {
    if xs == [] then d else RunAll(Step(d, xs[0]), xs[1..])
  }

  ghost predicate CleanRun(d: Device, xs: seq<Submission>)
    requires Whole(d)
    decreases |xs|
  {
    xs != [] ==> IsClean(d, xs[0]) && CleanRun(Step(d, xs[0]), xs[1..])
  }

  /** The guarantee holds before, between and after the commands. */
  ghost predicate LoggedThroughout(d: Device, xs: seq<Submission>)
    requires Whole(d)
    decreases |xs|
  {
    Logged(d) && (xs != [] ==> LoggedThroughout(Step(d, xs[0]), xs[1..]))
  }

  lemma {:induction false} RunKeepsLogged(d: Device, xs: seq<Submission>)
    requires Logged(d)
    ensures LoggedThroughout(d, xs) <==> CleanRun(d, xs)
    ensures CleanRun(d, xs) ==> Logged(RunAll(d, xs))
    decreases |xs|
  {
    hide Step, Inv, AllSequential, Geometry, IsClean, ZoneLogged;
    if xs != [] {
      StepKeepsLogged(d, xs[0]);
      if Logged(Step(d, xs[0])) {
        RunKeepsLogged(Step(d, xs[0]), xs[1..]);
      }
    }
  }

  /** A new device: nothing stored, no request structure used. */
  function New(n: nat, zoneSize: nat, zcap: nat, extSize: nat, maxOpen: nat, maxActive: nat): Device {
    Device(Start(n, zoneSize, zcap, extSize, maxOpen, maxActive), seq(n, _ => []), seq(n, _ => false), {})
  }

  lemma NewIsLogged(n: nat, zoneSize: nat, zcap: nat, extSize: nat, maxOpen: nat, maxActive: nat)
    requires n > 0 && 0 < zcap <= zoneSize
    ensures Logged(New(n, zoneSize, zcap, extSize, maxOpen, maxActive))
  {
    StartHolds(n, zoneSize, zcap, extSize, maxOpen, maxActive);
  }

  /** On a new device of any configuration, the sequential-write guarantee holds throughout a
      run if and only if each command of the run is clean. */
  lemma SequentialFromStart(n: nat, zoneSize: nat, zcap: nat, extSize: nat, maxOpen: nat, maxActive: nat,
                            xs: seq<Submission>)
    requires n > 0 && 0 < zcap <= zoneSize
    ensures Whole(New(n, zoneSize, zcap, extSize, maxOpen, maxActive))
    ensures var d := New(n, zoneSize, zcap, extSize, maxOpen, maxActive);
            && (LoggedThroughout(d, xs) <==> CleanRun(d, xs))
            && (CleanRun(d, xs) ==> Logged(RunAll(d, xs)))
  {
    hide New, LoggedThroughout, CleanRun, RunAll;
    NewIsLogged(n, zoneSize, zcap, extSize, maxOpen, maxActive);
    RunKeepsLogged(New(n, zoneSize, zcap, extSize, maxOpen, maxActive), xs);
  }

  // ----- is_write ------------------------------------------------------------------------------------------

  predicate Assigns(x: Submission, slot: nat) {
    x.slot == slot && (x.io.Read? || x.io.cmd.Write?)
  }

  /** The last read or write in the request structure was a write. */
  predicate LastWasWrite(xs: seq<Submission>, slot: nat) {
    exists i :: 0 <= i < |xs| && Assigns(xs[i], slot) && xs[i].io.Zoned?
                && forall j :: i < j < |xs| ==> !Assigns(xs[j], slot)
  }

  predicate NeverAssigned(xs: seq<Submission>, slot: nat) {
    forall i :: 0 <= i < |xs| ==> !Assigns(xs[i], slot)
  }

  /** An append stores its data if and only if the last read or write in its request
      structure, failed ones included, was a write. */
  lemma {:induction false} FlagIsLastWrite(d: Device, xs: seq<Submission>, slot: nat)
    requires Whole(d)
    ensures slot in RunAll(d, xs).isWrite <==> LastWasWrite(xs, slot) || (slot in d.isWrite && NeverAssigned(xs, slot))
    decreases |xs|
  {
    hide Exec, LogAfter, FinishedAfter;
    if xs != [] {
      FlagIsLastWrite(Step(d, xs[0]), xs[1..], slot);
      LastInRest(xs, slot);
    }
  }

  lemma LastInRest(xs: seq<Submission>, slot: nat)
    requires xs != []
    ensures NeverAssigned(xs, slot) <==> !Assigns(xs[0], slot) && NeverAssigned(xs[1..], slot)
    ensures LastWasWrite(xs, slot) <==>
              LastWasWrite(xs[1..], slot) || (Assigns(xs[0], slot) && xs[0].io.Zoned? && NeverAssigned(xs[1..], slot))
  {
    if LastWasWrite(xs[1..], slot) {
      var i :| 0 <= i < |xs| - 1 && Assigns(xs[1..][i], slot) && xs[1..][i].io.Zoned?
               && forall j :: i < j < |xs| - 1 ==> !Assigns(xs[1..][j], slot);
      assert xs[1..][i] == xs[i + 1];
      forall j | i + 1 < j < |xs| ensures !Assigns(xs[j], slot) {
        assert xs[1..][j - 1] == xs[j];
      }
    }
    if LastWasWrite(xs, slot) {
      var i :| 0 <= i < |xs| && Assigns(xs[i], slot) && xs[i].io.Zoned?
               && forall j :: i < j < |xs| ==> !Assigns(xs[j], slot);
      if i > 0 {
        assert xs[1..][i - 1] == xs[i];
        assert forall j :: i - 1 < j < |xs| - 1 ==> xs[1..][j] == xs[j + 1];
      }
    }
  }

  /** So the first command of a new device, if it is an append, reports success and moves the
      write pointer, but its transfer goes from the backend into host memory: nothing is
      stored.  The same append after a write in the same request structure stores its data. */
  lemma FirstAppendStoresNothing(n: nat, zoneSize: nat, zcap: nat, nlb: Blocks, slot: nat)
    requires n > 0 && nlb <= zcap <= zoneSize
    ensures var d, cmd := New(n, zoneSize, zcap, 0, 0, 0), Append(0, nlb, true, true, true);
            && Whole(d) && Exec(d.s, cmd).status == Success && Exec(d.s, cmd).s.zones[0].wp == nlb
            && TransferOf(d.s, cmd, slot in d.isWrite) == Some(Transfer(0, nlb, false))
            && TransferOf(d.s, cmd, true) == Some(Transfer(0, nlb, true))
            && Step(d, Submission(slot, Zoned(cmd))).log[0] == []
            && !Logged(Step(d, Submission(slot, Zoned(cmd))))
  {
    NewIsLogged(n, zoneSize, zcap, 0, 0, 0);
    var d, cmd := New(n, zoneSize, zcap, 0, 0, 0), Append(0, nlb, true, true, true);
    AppendExec(d.s, cmd);
    FirstAccepted(n, zoneSize, zcap, nlb);
    StepKeepsLogged(d, Submission(slot, Zoned(cmd)));
    hide Inv, Exec, Logged, AutoOpen;
  }

  lemma FirstAccepted(n: nat, zoneSize: nat, zcap: nat, nlb: Blocks)
    requires n > 0 && nlb <= zcap <= zoneSize
    ensures Accepted(Start(n, zoneSize, zcap, 0, 0, 0), 0, nlb, true, true, true)
    ensures ZoneIdx(Start(n, zoneSize, zcap, 0, 0, 0), 0) == 0
  {
    assert n * zoneSize >= zoneSize;
  }
}
