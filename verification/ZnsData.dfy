/** The bytes behind a zoned namespace: what a read below the write pointer returns. */
module ZnsData {
  import opened Wrappers
  import opened Arithmetic
  import opened ZnsModel
  import opened ZnsInvariant
  import opened ZnsCommands
  import opened ZnsWrites
  import opened ZnsLog
  import opened Backends
  import opened Prps
  import opened ZonedNamespaces

  /** `zns_l2b`. */
  function L2b(lbaSize: nat, lba: nat): nat {
    lba * lbaSize
  }

  lemma L2bAdds(lbaSize: nat, x: nat, y: nat)
    ensures L2b(lbaSize, x + y) == L2b(lbaSize, x) + L2b(lbaSize, y)
  {
    assert (x + y) * lbaSize == x * lbaSize + y * lbaSize;
  }

  lemma L2bGrows(lbaSize: nat, x: nat, y: nat)
    requires x <= y
    ensures L2b(lbaSize, x) <= L2b(lbaSize, y)
  {
    MulMonotone(x, y, lbaSize);
  }

  /** A device with its backend and, for each zone, the bytes that commands have stored in it
      since it was last empty, in the order in which they came. */
  datatype Store = Store(d: Device, lbaSize: nat, disk: seq<Byte>, kept: seq<seq<Byte>>)

  ghost predicate Formed(st: Store) {
    Whole(st.d) && |st.kept| == |st.d.s.zones| && |st.disk| >= L2b(st.lbaSize, Size(st.d.s))
  }

  /** The bytes that a command moves. */
  predicate Loaded(lbaSize: nat, cmd: Command, data: seq<Byte>) {
    cmd.Write? || cmd.Append? ==> |data| == L2b(lbaSize, cmd.nlb)
  }

  /** The backend after a transfer. */
  ghost function DiskAfter(lbaSize: nat, disk: seq<Byte>, t: Option<Transfer>, data: seq<Byte>): (r: seq<Byte>)
    ensures |r| == |disk|
  {
    if t.Some? && t.value.store && L2b(lbaSize, t.value.lba) + |data| <= |disk| then
      Put(disk, L2b(lbaSize, t.value.lba), data)
    else disk
  }

  /** The command stores its data in zone i. */
  predicate StoresIn(s: Zns, cmd: Command, isWrite: bool, i: nat)
    requires Inv(s)
  {
    var t := TransferOf(s, cmd, isWrite);
    t.Some? && t.value.store && ZoneIdx(s, cmd.slba) == i
  }

  function KeptAfter(s: Zns, cmd: Command, isWrite: bool, i: nat, kept: seq<Byte>, data: seq<Byte>): seq<Byte>
    requires Inv(s) && i < |s.zones|
  {
    if Exec(s, cmd).s.zones[i].zs == Empty then []
    else if StoresIn(s, cmd, isWrite, i) then kept + data
    else kept
  }

  /** A command whose pointers name `data` in host memory. */
  ghost function StepData(st: Store, x: Submission, data: seq<Byte>): (st': Store)
    requires Formed(st)
    ensures Formed(st')
  {
    match x.io
    case Read => st.(d := Step(st.d, x))
    case Zoned(cmd) =>
      var s, flag := st.d.s, x.slot in st.d.isWrite;
      Store(Step(st.d, x), st.lbaSize, DiskAfter(st.lbaSize, st.disk, TransferOf(s, cmd, flag), data),
            seq(|s.zones|, i requires 0 <= i < |s.zones| => KeptAfter(s, cmd, flag, i, st.kept[i], data)))
  }

  /** In each zone the backend holds what was stored there since it was last empty, from its
      start on, without gaps; in a zone that has not been finished since, up to the write
      pointer. */
  ghost predicate Recorded(st: Store) {
    && Formed(st) && Logged(st.d)
    && forall i :: 0 <= i < |st.kept| ==> ZoneRecorded(st, st.d.s.zones[i], st.d.log[i], st.kept[i])
  }

  ghost predicate ZoneRecorded(st: Store, z: Zone, log: seq<nat>, kept: seq<Byte>) {
    var start := L2b(st.lbaSize, z.zslba);
    && |kept| == L2b(st.lbaSize, |log|) && |log| <= z.zcap
    && start + |kept| <= |st.disk| && st.disk[start..start + |kept|] == kept
  }

  // ----- Clean commands ----------------------------------------------------------------------------

  /** A clean command that moves data stores it at the write pointer, within its zone. */
  ghost predicate FitsZone(s: Zns, cmd: Command, t: Transfer)
    requires s.zoneSize > 0
  {
    && t.store && (cmd.Write? || cmd.Append?) && t.nlb == cmd.nlb
    && var j := ZoneIdx(s, cmd.slba);
       j < |s.zones| && t.lba == s.zones[j].wp && t.lba + t.nlb <= s.zones[j].Boundary() && s.zones[j].zs != Full
  }

  lemma CleanTransfer(s: Zns, cmd: Command, isWrite: bool)
    requires Inv(s) && AllSequential(s)
    requires s.zoneSize > 0 && (s.impOpen != [] ==> s.impOpen[0] < |s.zones|) && Clean(s, cmd, isWrite)
    ensures TransferOf(s, cmd, isWrite).Some? ==> FitsZone(s, cmd, TransferOf(s, cmd, isWrite).value)
  {
    hide Inv, Exec, Accepted, Aside;
    var j := ZoneIdx(s, if cmd.Write? || cmd.Append? then cmd.slba else 0);
    if cmd.Write? {
      WriteExec(s, cmd);
      if Accepted(s, cmd.slba, cmd.nlb, cmd.mdtsOk, false, true) {
        CheckedWriteFits(s.zones[j], cmd.slba, cmd.nlb, true);
      }
    } else if cmd.Append? {
      AppendExec(s, cmd);
    }
  }

  /** Zones lie apart. */
  lemma ZonesApart(s: Zns, i: nat, j: nat)
    requires Geometry(s) && i < |s.zones| && j < |s.zones| && i != j
    ensures var x, y := s.zones[i], s.zones[j]; x.Boundary() <= y.zslba || y.Boundary() <= x.zslba
  {
    if i < j { ScaledGap(i, j, s.zoneSize); } else { ScaledGap(j, i, s.zoneSize); }
  }

  lemma ZoneInside(s: Zns, i: nat)
    requires Geometry(s) && i < |s.zones|
    ensures s.zones[i].Boundary() <= Size(s)
  {
    ScaledGap(i, |s.zones|, s.zoneSize);
  }

  /** Bytes put elsewhere. */
  lemma KeptElsewhere(lbaSize: nat, disk: seq<Byte>, lba: nat, nlb: nat, data: seq<Byte>, zslba: nat, n: nat)
    requires |data| == L2b(lbaSize, nlb) && L2b(lbaSize, lba) + |data| <= |disk|
    requires L2b(lbaSize, zslba) + L2b(lbaSize, n) <= |disk| && (lba + nlb <= zslba || zslba + n <= lba)
    ensures var start, size := L2b(lbaSize, zslba), L2b(lbaSize, n);
            Put(disk, L2b(lbaSize, lba), data)[start..start + size] == disk[start..start + size]
  {
    hide L2b, Put;
    L2bAdds(lbaSize, lba, nlb);
    L2bAdds(lbaSize, zslba, n);
    if lba + nlb <= zslba { L2bGrows(lbaSize, lba + nlb, zslba); } else { L2bGrows(lbaSize, zslba + n, lba); }
    PutElsewhere(disk, L2b(lbaSize, lba), data, Segment(L2b(lbaSize, zslba), L2b(lbaSize, n)));
  }

  /** Bytes put at the end. */
  lemma KeptLonger(disk: seq<Byte>, start: nat, kept: seq<Byte>, data: seq<Byte>)
    requires start + |kept| + |data| <= |disk| && disk[start..start + |kept|] == kept
    ensures Put(disk, start + |kept|, data)[start..start + |kept + data|] == kept + data
  {
    var disk' := Put(disk, start + |kept|, data);
    assert disk'[start..start + |kept|] == disk[start..start + |kept|];
    assert disk'[start + |kept|..start + |kept| + |data|] == data;
  }

  /** A transfer of a clean command lies within the backend. */
  lemma TransferInside(st: Store, cmd: Command, t: Transfer, data: seq<Byte>)
    requires Recorded(st) && st.d.s.zoneSize > 0 && FitsZone(st.d.s, cmd, t) && Loaded(st.lbaSize, cmd, data)
    ensures L2b(st.lbaSize, t.lba) + |data| == L2b(st.lbaSize, t.lba + t.nlb) <= |st.disk|
  {
    hide Inv, L2b, Size, AllSequential, ZoneLogged, ZoneRecorded;
    var s := st.d.s;
    ZoneInside(s, ZoneIdx(s, cmd.slba));
    L2bAdds(st.lbaSize, t.lba, t.nlb);
    L2bGrows(st.lbaSize, t.lba + t.nlb, Size(s));
  }

  lemma ZoneStart(st: Store, i: nat)
    requires Formed(st) && Geometry(st.d.s) && i < |st.d.s.zones|
    ensures L2b(st.lbaSize, st.d.s.zones[i].zslba) <= |st.disk|
  {
    hide Inv, L2b, Size;
    ZoneInside(st.d.s, i);
    L2bGrows(st.lbaSize, st.d.s.zones[i].zslba, Size(st.d.s));
  }

  // ----- Each zone after a clean command ---------------------------------------------------------

  /** The command stores its data in zone i. */
  lemma TargetRecorded(st: Store, cmd: Command, t: Transfer, data: seq<Byte>, i: nat, st': Store)
    requires Recorded(st) && i < |st.kept| && st.d.s.zoneSize > 0 && FitsZone(st.d.s, cmd, t)
    requires Loaded(st.lbaSize, cmd, data)
    requires ZoneIdx(st.d.s, cmd.slba) == i
    requires st'.lbaSize == st.lbaSize && st'.disk == DiskAfter(st.lbaSize, st.disk, Some(t), data)
    ensures ZoneRecorded(st', st.d.s.zones[i], st.d.log[i] + Lbas(t.lba, t.nlb), st.kept[i] + data)
  {
    hide Inv, L2b, Size, Put, AllSequential, Geometry, Lbas;
    var z, log := st.d.s.zones[i], st.d.log[i];
    assert ZoneLogged(z, log, st.d.finished[i]) && ZoneRecorded(st, z, log, st.kept[i]);
    TransferInside(st, cmd, t, data);
    L2bAdds(st.lbaSize, z.zslba, |log|);
    L2bAdds(st.lbaSize, |log|, t.nlb);
    KeptLonger(st.disk, L2b(st.lbaSize, z.zslba), st.kept[i], data);
  }

  /** The command stores its data in another zone. */
  lemma OtherRecorded(st: Store, cmd: Command, t: Transfer, data: seq<Byte>, i: nat, st': Store)
    requires Recorded(st) && i < |st.kept| && st.d.s.zoneSize > 0 && FitsZone(st.d.s, cmd, t)
    requires Loaded(st.lbaSize, cmd, data)
    requires ZoneIdx(st.d.s, cmd.slba) != i
    requires st'.lbaSize == st.lbaSize && st'.disk == DiskAfter(st.lbaSize, st.disk, Some(t), data)
    ensures ZoneRecorded(st', st.d.s.zones[i], st.d.log[i], st.kept[i])
  {
    hide Inv, L2b, Size, Put, Geometry, Lbas;
    var z, log, j := st.d.s.zones[i], st.d.log[i], ZoneIdx(st.d.s, cmd.slba);
    assert ZoneRecorded(st, z, log, st.kept[i]) && Sequential(st.d.s.zones[j]);
    TransferInside(st, cmd, t, data);
    ZonesApart(st.d.s, i, j);
    KeptElsewhere(st.lbaSize, st.disk, t.lba, t.nlb, data, z.zslba, |log|);
  }

  lemma SameShape(st': Store, z: Zone, z': Zone, log: seq<nat>, kept: seq<Byte>)
    requires ZoneRecorded(st', z, log, kept) && z'.zslba == z.zslba && z'.zcap == z.zcap
    ensures ZoneRecorded(st', z', log, kept)
  {
  }

  lemma EmptyRecorded(st': Store, z: Zone)
    requires L2b(st'.lbaSize, z.zslba) <= |st'.disk|
    ensures ZoneRecorded(st', z, [], [])
  {
    assert L2b(st'.lbaSize, 0) == 0;
  }

  lemma ZoneStaysRecorded(st: Store, x: Submission, data: seq<Byte>, i: nat)
    requires Recorded(st) && x.io.Zoned? && IsClean(st.d, x) && Loaded(st.lbaSize, x.io.cmd, data) && i < |st.kept|
    ensures var st' := StepData(st, x, data);
            |st'.d.s.zones| == |st.kept| == |st'.kept| && ZoneRecorded(st', st'.d.s.zones[i], st'.d.log[i], st'.kept[i])
  {
    hide Inv, Exec, L2b, Size, Put, DiskAfter, ZoneRecorded, ZoneLogged, Clean, ZoneStep, TransferOf, Lbas, Geometry,
         AllSequential, FitsZone, Sequential;
    var s, cmd, flag, st' := st.d.s, x.io.cmd, x.slot in st.d.isWrite, StepData(st, x, data);
    OldestInRange(s);
    CleanTransfer(s, cmd, flag);
    EveryZoneStep(s, cmd, flag, i);
    SameZone(s, cmd, flag, i);
    var z' := st'.d.s.zones[i];
    assert ZoneRecorded(st, s.zones[i], st.d.log[i], st.kept[i]);
    if z'.zs == Empty {
      ZoneStart(st, i);
      EmptyRecorded(st', z');
    } else {
      var t := TransferOf(s, cmd, flag);
      if t.None? {
        Untouched(st, st', data, i);
      } else {
        FittingStores(s, cmd, t.value);
        if ZoneIdx(s, cmd.slba) == i {
          TargetRecorded(st, cmd, t.value, data, i, st');
        } else {
          OtherRecorded(st, cmd, t.value, data, i, st');
          NothingLogged(st.d.log[i]);
        }
      }
      SameShape(st', s.zones[i], z', st'.d.log[i], st'.kept[i]);
    }
  }

  lemma FittingStores(s: Zns, cmd: Command, t: Transfer)
    requires s.zoneSize > 0 && FitsZone(s, cmd, t)
    ensures t.store && (cmd.Write? || cmd.Append?)
  {
  }

  lemma NothingLogged(log: seq<nat>)
    ensures log + [] == log
  {
  }

  lemma Untouched(st: Store, st': Store, data: seq<Byte>, i: nat)
    requires Recorded(st) && i < |st.kept|
    requires st'.lbaSize == st.lbaSize && st'.disk == DiskAfter(st.lbaSize, st.disk, None, data)
    ensures ZoneRecorded(st', st.d.s.zones[i], st.d.log[i] + [], st.kept[i])
  {
    hide Inv, L2b;
    NothingLogged(st.d.log[i]);
  }

  /** Clean commands keep the record. */
  lemma StepKeepsRecord(st: Store, x: Submission, data: seq<Byte>)
    requires Recorded(st) && IsClean(st.d, x) && (x.io.Zoned? ==> Loaded(st.lbaSize, x.io.cmd, data))
    ensures Recorded(StepData(st, x, data))
  {
    hide Inv, Exec, L2b, ZoneRecorded, Logged, IsClean, Loaded, KeptAfter, DiskAfter, LogAfter, FinishedAfter;
    StepKeepsLogged(st.d, x);
    var st' := StepData(st, x, data);
    if x.io.Zoned? {
      forall i | 0 <= i < |st'.kept| ensures ZoneRecorded(st', st'.d.s.zones[i], st'.d.log[i], st'.kept[i]) {
        ZoneStaysRecorded(st, x, data, i);
      }
    } else {
      ReadKeepsRecord(st, x, data);
    }
  }

  lemma ReadKeepsRecord(st: Store, x: Submission, data: seq<Byte>)
    requires Recorded(st) && x.io.Read?
    ensures Recorded(StepData(st, x, data))
  {
    hide Inv, L2b, Geometry, AllSequential, ZoneLogged, Size;
    forall i | 0 <= i < |st.kept|
      ensures ZoneRecorded(StepData(st, x, data), st.d.s.zones[i], st.d.log[i], st.kept[i])
    {
      assert ZoneRecorded(st, st.d.s.zones[i], st.d.log[i], st.kept[i]);
    }
  }

  // ----- Runs -----------------------------------------------------------------------------------------

  /** A command and the bytes that its pointers name when it is served. */
  datatype Arrival = Arrival(x: Submission, data: seq<Byte>)

  ghost function RunData(st: Store, xs: seq<Arrival>): (st': Store)
    requires Formed(st)
    ensures Formed(st')
    decreases |xs|
  {
    if xs == [] then st else RunData(StepData(st, xs[0].x, xs[0].data), xs[1..])
  }

  /** Each command is clean and comes with as many bytes as it has blocks for. */
  ghost predicate CleanArrivals(st: Store, xs: seq<Arrival>)
    requires Formed(st)
    decreases |xs|
  {
    xs != [] ==>
      && IsClean(st.d, xs[0].x) && (xs[0].x.io.Zoned? ==> Loaded(st.lbaSize, xs[0].x.io.cmd, xs[0].data))
      && CleanArrivals(StepData(st, xs[0].x, xs[0].data), xs[1..])
  }

  lemma {:induction false} RunKeepsRecord(st: Store, xs: seq<Arrival>)
    requires Recorded(st) && CleanArrivals(st, xs)
    ensures Recorded(RunData(st, xs)) && RunData(st, xs).lbaSize == st.lbaSize
    decreases |xs|
  {
    hide Recorded, IsClean, Loaded, KeptAfter, DiskAfter, Whole;
    if xs != [] {
      RecordedIsFormed(st);
      StepKeepsRecord(st, xs[0].x, xs[0].data);
      RunKeepsRecord(StepData(st, xs[0].x, xs[0].data), xs[1..]);
    }
  }

  lemma RecordedIsFormed(st: Store)
    requires Recorded(st)
    ensures Formed(st)
  {
    hide Formed;
  }

  /** A new device over a backend that holds anything. */
  function NewStore(n: nat, zoneSize: nat, zcap: nat, extSize: nat, maxOpen: nat, maxActive: nat, lbaSize: nat,
                    disk: seq<Byte>): Store
  {
    Store(New(n, zoneSize, zcap, extSize, maxOpen, maxActive), lbaSize, disk, seq(n, _ => []))
  }

  lemma NewIsRecorded(n: nat, zoneSize: nat, zcap: nat, extSize: nat, maxOpen: nat, maxActive: nat, lbaSize: nat,
                      disk: seq<Byte>)
    requires n > 0 && 0 < zcap <= zoneSize && |disk| >= L2b(lbaSize, n * zoneSize)
    ensures Recorded(NewStore(n, zoneSize, zcap, extSize, maxOpen, maxActive, lbaSize, disk))
  {
    hide Inv, L2b, ZoneRecorded;
    NewIsLogged(n, zoneSize, zcap, extSize, maxOpen, maxActive);
    var st := NewStore(n, zoneSize, zcap, extSize, maxOpen, maxActive, lbaSize, disk);
    forall i | 0 <= i < n ensures ZoneRecorded(st, st.d.s.zones[i], [], []) {
      ZoneStart(st, i);
      EmptyRecorded(st, st.d.s.zones[i]);
    }
  }

  // ----- Reading --------------------------------------------------------------------------------------

  /** The blocks lie in zone i, below its write pointer, and it has not been finished. */
  ghost predicate BelowPointer(st: Store, i: nat, slba: nat, nlb: nat)
    requires Formed(st)
  {
    i < |st.kept| && !st.d.finished[i] && st.d.s.zones[i].zslba <= slba && slba + nlb <= st.d.s.zones[i].wp
  }

  /** They hold the bytes stored in the zone since it was last empty, by their distance from its
      start. */
  ghost predicate HoldKept(st: Store, i: nat, slba: nat, nlb: nat)
    requires Formed(st) && i < |st.kept|
  {
    var zslba := st.d.s.zones[i].zslba;
    zslba <= slba
    && Agree(st.disk, slba * st.lbaSize, st.kept[i], (slba - zslba) * st.lbaSize, nlb * st.lbaSize)
  }

  /** `data` are the bytes stored for them. */
  ghost predicate AreKept(st: Store, i: nat, slba: nat, nlb: nat, data: seq<Byte>)
    requires Formed(st) && i < |st.kept|
  {
    var zslba := st.d.s.zones[i].zslba;
    zslba <= slba && |data| == nlb * st.lbaSize && Agree(data, 0, st.kept[i], (slba - zslba) * st.lbaSize, nlb * st.lbaSize)
  }

  /** The n bytes of a from i on are those of b from j on. */
  ghost predicate Agree(a: seq<Byte>, i: nat, b: seq<Byte>, j: nat, n: nat) {
    i + n <= |a| && j + n <= |b| && a[i..i + n] == b[j..j + n]
  }

  lemma BlocksHoldKept(st: Store, i: nat, slba: nat, nlb: nat)
    requires Recorded(st) && BelowPointer(st, i, slba, nlb)
    ensures HoldKept(st, i, slba, nlb)
  {
    hide Inv, L2b, Geometry, AllSequential, Lbas;
    var z, b := st.d.s.zones[i], st.lbaSize;
    assert ZoneRecorded(st, z, st.d.log[i], st.kept[i]) && ZoneLogged(z, st.d.log[i], st.d.finished[i]);
    L2bAdds(b, z.zslba, slba - z.zslba);
    L2bAdds(b, slba - z.zslba, nlb);
    L2bGrows(b, slba - z.zslba + nlb, |st.d.log[i]|);
    L2bIs(b, slba);
    L2bIs(b, slba - z.zslba);
    L2bIs(b, nlb);
  }

  lemma L2bIs(lbaSize: nat, lba: nat)
    ensures L2b(lbaSize, lba) == lba * lbaSize
  {
  }

  /** After every clean run, of a new device or of one that is in order: blocks below the write
      pointer of a zone that has not been finished hold exactly the bytes that were stored in
      the zone since it was last empty, in the order in which they came. */
  lemma RunReadsBack(st: Store, xs: seq<Arrival>, i: nat, slba: nat, nlb: nat)
    requires Recorded(st) && CleanArrivals(st, xs) && BelowPointer(RunData(st, xs), i, slba, nlb)
    ensures HoldKept(RunData(st, xs), i, slba, nlb)
  {
    hide CleanArrivals, RunData, Recorded, L2b, Whole, HoldKept;
    RecordedIsFormed(st);
    RunKeepsRecord(st, xs);
    BlocksHoldKept(RunData(st, xs), i, slba, nlb);
  }

  // ----- In memory -------------------------------------------------------------------------------------

  /** The `backend_rw` of a write or append, from segments in host memory. */
  method MoveData(mb: array<Byte>, lbaSize: nat, t: Option<Transfer>, host: array<Byte>, segs: seq<Segment>)
    requires mb != host && InHost(host[..], segs)
    requires t.Some? ==> t.value.store && L2b(lbaSize, t.value.lba) + Total(segs) <= mb.Length
    modifies mb
    ensures mb[..] == DiskAfter(lbaSize, old(mb[..]), t, Gather(host[..], segs))
  {
    hide Gather, Total, InHost, Put;
    if t.Some? {
      BackendWrite(mb, L2b(lbaSize, t.value.lba), host, segs);
    }
  }

  /** The zones, the backend and host memory are three arrays. */
  ghost predicate Separate(ns: Namespace, mb: array<Byte>, host: array<Byte>) {
    var zones: object := ns.zones;
    mb != host && zones != mb && zones != host
  }

  /** A clean command, with its data in host memory, does to the namespace in memory and to the
      backend what `StepData` says. */
  method Serve(ns: Namespace, cmd: Command, req: RequestSlot, mb: array<Byte>, host: array<Byte>, segs: seq<Segment>,
               lbaSize: nat, ghost st: Store, ghost slot: nat) returns (status: Status)
    requires Recorded(st) && IsClean(st.d, Submission(slot, Zoned(cmd))) && (slot in st.d.isWrite <==> req.isWrite)
    requires ns.View() == st.d.s && mb[..] == st.disk && lbaSize == st.lbaSize
    requires Separate(ns, mb, host) && InHost(host[..], segs) && Loaded(lbaSize, cmd, Gather(host[..], segs))
    modifies ns, ns.zones, req, mb
    ensures var st' := StepData(st, Submission(slot, Zoned(cmd)), Gather(host[..], segs));
            && ns.View() == st'.d.s && mb[..] == st'.disk && (req.isWrite <==> slot in st'.d.isWrite)
            && Recorded(st') && status == Exec(st.d.s, cmd).status
  {
    hide Inv, Exec, TransferOf, Clean, Loaded, Recorded, DiskAfter, KeptAfter, LogAfter, FinishedAfter, Gather, InHost,
         FitsZone, L2b, Size;
    ghost var s, data, mem, was := st.d.s, Gather(host[..], segs), host[..], mb[..];
    ServePrepared(st, cmd, slot, data);
    var transfer;
    status, transfer := ns.Execute(cmd, req, s);
    assert transfer == TransferOf(s, cmd, slot in st.d.isWrite);
    assert host[..] == mem && mb[..] == was;
    MoveData(mb, lbaSize, transfer, host, segs);
    StepKeepsRecord(st, Submission(slot, Zoned(cmd)), data);
  }

  lemma ServePrepared(st: Store, cmd: Command, slot: nat, data: seq<Byte>)
    requires Recorded(st) && IsClean(st.d, Submission(slot, Zoned(cmd))) && Loaded(st.lbaSize, cmd, data)
    ensures Inv(st.d.s) && Formed(st)
    ensures var t := TransferOf(st.d.s, cmd, slot in st.d.isWrite);
            t.Some? ==> t.value.store && L2b(st.lbaSize, t.value.lba) + |data| <= |st.disk|
  {
    hide Inv, TransferOf, Clean, Loaded, L2b, Size, ZoneRecorded, ZoneLogged;
    OldestInRange(st.d.s);
    var t := TransferOf(st.d.s, cmd, slot in st.d.isWrite);
    CleanTransfer(st.d.s, cmd, slot in st.d.isWrite);
    if t.Some? {
      TransferInside(st, cmd, t.value, data);
    }
  }

  /** `zns_read` of blocks below the write pointer into segments of their own: host memory gets
      the bytes last stored there. */
  method ReadBack(mb: array<Byte>, lbaSize: nat, slba: nat, nlb: nat, host: array<Byte>, segs: seq<Segment>,
                  ghost st: Store, ghost i: nat)
    requires Recorded(st) && BelowPointer(st, i, slba, nlb) && mb[..] == st.disk && lbaSize == st.lbaSize
    requires mb != host && InHost(host[..], segs) && Disjoint(segs) && Total(segs) == L2b(lbaSize, nlb)
    modifies host
    ensures InHost(host[..], segs)
    ensures AreKept(st, i, slba, nlb, Gather(host[..], segs))
  {
    hide Recorded, Formed, L2b, Gather, Scatter, Total, Disjoint;
    BlocksHoldKept(st, i, slba, nlb);
    L2bIs(lbaSize, slba);
    L2bIs(lbaSize, nlb);
    var off := L2b(lbaSize, slba);
    assert mb[off..off + Total(segs)] == st.disk[off..off + L2b(lbaSize, nlb)];
    GatherScatter(host[..], segs, mb[off..off + Total(segs)]);
    BackendRead(mb, off, host, segs);
  }
}
