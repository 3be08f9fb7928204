/** The zoned namespace of femu/zns/zns.c as a value, with one function per C function that
    changes it.  Zones are named by their index; the four tail queues are sequences of
    indices.  Of the zone attributes only the one the code uses is kept
    (NVME_ZA_ZD_EXT_VALID), and status codes are kept without the do-not-retry bit.

    What a command meets outside this file is part of the command: whether its size passes
    the transfer limits and whether mapping its data pointer succeeds. */
module ZnsModel {
  import opened Arithmetic
  import opened Queues

  datatype ZState = Empty | ImpOpen | ExpOpen | Closed | Full | ReadOnly | Offline

  /** `NvmeZone`: `wp` is the reported write pointer, `wPtr` the one writes are checked against. */
  datatype Zone = Zone(zs: ZState, ext: bool, zcap: nat, zslba: nat, wp: nat, wPtr: nat) {
    /** `zns_zone_wr_boundary`. */
    function Boundary(): nat { zslba + zcap }
  }

  datatype Zns = Zns(
    zones: seq<Zone>, zoneSize: nat, extSize: nat,
    expOpen: seq<nat>, impOpen: seq<nat>, closed: seq<nat>, full: seq<nat>,
    maxOpen: nat, maxActive: nat, nrOpen: int, nrActive: int)

  datatype Status =
    | Success | TooManyActive | TooManyOpen | ZoneFull | ZoneOffline | ZoneReadOnly
    | BoundaryError | InvalidWrite | InvalidField | LbaRange | InvalidTransition | MapError

  datatype Outcome = Outcome(s: Zns, status: Status)

  // ----- Queues and states -----------------------------------------------------------------

  /** The queue that holds the zones in a state; zones in other states are in no queue. */
  function ListOf(s: Zns, st: ZState): seq<nat> {
    match st
    case ExpOpen => s.expOpen
    case ImpOpen => s.impOpen
    case Closed => s.closed
    case Full => s.full
    case _ => []
  }

  function WithList(s: Zns, st: ZState, q: seq<nat>): Zns {
    match st
    case ExpOpen => s.(expOpen := q)
    case ImpOpen => s.(impOpen := q)
    case Closed => s.(closed := q)
    case Full => s.(full := q)
    case _ => s
  }

  /** `QTAILQ_IN_USE`. */
  predicate InUse(s: Zns, i: nat) {
    i in s.expOpen || i in s.impOpen || i in s.closed || i in s.full
  }

  function Entered(z: Zone, st: ZState): Zone {
    z.(zs := st, ext := z.ext && !st.Empty? && !st.Offline?)
  }

  /** `zns_assign_zone_state`. */
  function AssignState(s: Zns, i: nat, st: ZState): (r: Zns)
    requires i < |s.zones|
    ensures |r.zones| == |s.zones|
  {
    var was := s.zones[i].zs;
    var s1 := if InUse(s, i) then WithList(s, was, Without(ListOf(s, was), i)) else s;
    var s2 := s1.(zones := s1.zones[i := Entered(s1.zones[i], st)]);
    WithList(s2, st, ListOf(s2, st) + [i])
  }

  // ----- Resources ----------------------------------------------------------------------------

  function IncOpen(s: Zns): Zns { if s.maxOpen != 0 then s.(nrOpen := s.nrOpen + 1) else s }
  function DecOpen(s: Zns): Zns { if s.maxOpen != 0 then s.(nrOpen := s.nrOpen - 1) else s }
  function IncActive(s: Zns): Zns { if s.maxActive != 0 then s.(nrActive := s.nrActive + 1) else s }
  function DecActive(s: Zns): Zns { if s.maxActive != 0 then s.(nrActive := s.nrActive - 1) else s }

  /** `zns_aor_check`. */
  function AorCheck(s: Zns, act: nat, opn: nat): Status {
    if s.maxActive != 0 && s.nrActive + act > s.maxActive then TooManyActive
    else if s.maxOpen != 0 && s.nrOpen + opn > s.maxOpen then TooManyOpen
    else Success
  }

  // ----- Zone operations -----------------------------------------------------------------------

  datatype ZoneOp = OpOpen | OpClose | OpFinish | OpReset | OpOffline

  /** `zns_open_zone`. */
  function OpenZone(s: Zns, i: nat): Outcome
    requires i < |s.zones|
  {
    match s.zones[i].zs
    case Empty =>
      if AorCheck(s, 1, 0) != Success then Outcome(s, AorCheck(s, 1, 0))
      else
        var s1 := IncActive(s);
        if AorCheck(s1, 0, 1) != Success then Outcome(DecActive(s1), AorCheck(s1, 0, 1))
        else Outcome(AssignState(IncOpen(s1), i, ExpOpen), Success)
    case Closed =>
      if AorCheck(s, 0, 1) != Success then Outcome(s, AorCheck(s, 0, 1))
      else Outcome(AssignState(IncOpen(s), i, ExpOpen), Success)
    case ImpOpen => Outcome(AssignState(s, i, ExpOpen), Success)
    case ExpOpen => Outcome(s, Success)
    case _ => Outcome(s, InvalidTransition)
  }

  /** `zns_close_zone`. */
  function CloseZone(s: Zns, i: nat): Outcome
    requires i < |s.zones|
  {
    match s.zones[i].zs
    case ExpOpen => Outcome(AssignState(DecOpen(s), i, Closed), Success)
    case ImpOpen => Outcome(AssignState(DecOpen(s), i, Closed), Success)
    case Closed => Outcome(s, Success)
    case _ => Outcome(s, InvalidTransition)
  }

  /** The resources of a zone that stops being open or active. */
  function Released(s: Zns, zs: ZState): Zns {
    match zs
    case ExpOpen => DecActive(DecOpen(s))
    case ImpOpen => DecActive(DecOpen(s))
    case Closed => DecActive(s)
    case _ => s
  }

  function WithPointers(s: Zns, i: nat, p: nat): Zns
    requires i < |s.zones|
  {
    s.(zones := s.zones[i := s.zones[i].(wp := p, wPtr := p)])
  }

  /** `zns_finish_zone`. */
  function FinishZone(s: Zns, i: nat): Outcome
    requires i < |s.zones|
  {
    var z := s.zones[i];
    match z.zs
    case Full => Outcome(s, Success)
    case ReadOnly => Outcome(s, InvalidTransition)
    case Offline => Outcome(s, InvalidTransition)
    case _ => Outcome(AssignState(WithPointers(Released(s, z.zs), i, z.Boundary()), i, Full), Success)
  }

  /** `zns_reset_zone` with `zns_aio_zone_reset_cb`. */
  function ResetZone(s: Zns, i: nat): Outcome
    requires i < |s.zones|
  {
    var z := s.zones[i];
    match z.zs
    case Empty => Outcome(s, Success)
    case ReadOnly => Outcome(s, InvalidTransition)
    case Offline => Outcome(s, InvalidTransition)
    case _ => Outcome(AssignState(WithPointers(Released(s, z.zs), i, z.zslba), i, Empty), Success)
  }

  /** `zns_offline_zone`. */
  function OfflineZone(s: Zns, i: nat): Outcome
    requires i < |s.zones|
  {
    match s.zones[i].zs
    case ReadOnly => Outcome(AssignState(s, i, Offline), Success)
    case Offline => Outcome(s, Success)
    case _ => Outcome(s, InvalidTransition)
  }

  function Apply(s: Zns, i: nat, op: ZoneOp): (r: Outcome)
    requires i < |s.zones|
    ensures |r.s.zones| == |s.zones|
  {
    match op
    case OpOpen => OpenZone(s, i)
    case OpClose => CloseZone(s, i)
    case OpFinish => FinishZone(s, i)
    case OpReset => ResetZone(s, i)
    case OpOffline => OfflineZone(s, i)
  }

  /** `zns_set_zd_ext`. */
  function SetZdExt(s: Zns, i: nat): Outcome
    requires i < |s.zones|
  {
    if s.zones[i].zs != Empty then Outcome(s, InvalidTransition)
    else if AorCheck(s, 1, 0) != Success then Outcome(s, AorCheck(s, 1, 0))
    else
      var s1 := IncActive(s);
      Outcome(AssignState(s1.(zones := s1.zones[i := s1.zones[i].(ext := true)]), i, Closed), Success)
  }

  // ----- Operations on all zones ----------------------------------------------------------------

  /** The processing mask of an operation with the select-all bit. */
  predicate Wanted(op: ZoneOp, zs: ZState) {
    match op
    case OpOpen => zs == Closed
    case OpClose => zs == ImpOpen || zs == ExpOpen
    case OpFinish => zs == ImpOpen || zs == ExpOpen || zs == Closed
    case OpReset => zs == ImpOpen || zs == ExpOpen || zs == Closed || zs == Full
    case OpOffline => zs == ReadOnly
  }

  /** `zns_bulk_proc_zone`. */
  function BulkOne(s: Zns, i: nat, op: ZoneOp): (r: Outcome)
    requires i < |s.zones|
    ensures |r.s.zones| == |s.zones|
  {
    if Wanted(op, s.zones[i].zs) then Apply(s, i, op) else Outcome(s, Success)
  }

  ghost predicate Within(q: seq<nat>, n: nat) {
    forall k :: 0 <= k < |q| ==> q[k] < n
  }

  /** The zones in q one after the other, up to the first failure. */
  function BulkList(s: Zns, q: seq<nat>, op: ZoneOp): (r: Outcome)
    requires Within(q, |s.zones|)
    ensures |r.s.zones| == |s.zones|
    decreases |q|
  {
    if q == [] then Outcome(s, Success)
    else
      var r := BulkOne(s, q[0], op);
      if r.status == Success then BulkList(r.s, q[1..], op) else r
  }

  // ----- Writing ------------------------------------------------------------------------------------

  /** `zns_auto_transition_zone`: the oldest implicitly open zone gives up its resource. */
  function AutoTransition(s: Zns): (r: Zns)
    requires s.impOpen != [] ==> s.impOpen[0] < |s.zones|
    ensures |r.zones| == |s.zones|
  {
    if s.maxOpen != 0 && s.nrOpen == s.maxOpen && s.impOpen != [] then
      AssignState(DecOpen(s.(impOpen := s.impOpen[1..])), s.impOpen[0], Closed)
    else s
  }

  /** `zns_auto_open_zone`. */
  function AutoOpen(s: Zns, i: nat): (r: Outcome)
    requires i < |s.zones| && (s.impOpen != [] ==> s.impOpen[0] < |s.zones|)
    ensures |r.s.zones| == |s.zones|
  {
    match s.zones[i].zs
    case Empty => Outcome(AutoTransition(s), AorCheck(AutoTransition(s), 1, 1))
    case Closed => Outcome(AutoTransition(s), AorCheck(AutoTransition(s), 0, 1))
    case _ => Outcome(s, Success)
  }

  /** `zns_check_zone_state_for_write`. */
  function StateForWrite(zs: ZState): Status {
    match zs
    case Full => ZoneFull
    case Offline => ZoneOffline
    case ReadOnly => ZoneReadOnly
    case _ => Success
  }

  /** `zns_check_zone_write`. */
  function CheckWrite(z: Zone, slba: nat, nlb: nat, append: bool, zaslOk: bool): Status {
    if slba + nlb > z.Boundary() then BoundaryError
    else if StateForWrite(z.zs) != Success then StateForWrite(z.zs)
    else if append then (if slba != z.zslba || !zaslOk then InvalidField else Success)
    else if slba != z.wPtr then InvalidWrite
    else Success
  }

  /** `zns_advance_zone_wp`. */
  function AdvanceWp(s: Zns, i: nat, nlb: nat): (r: Zns)
    requires i < |s.zones|
    ensures |r.zones| == |s.zones|
  {
    var z := s.zones[i];
    var s1 := s.(zones := s.zones[i := z.(wPtr := z.wPtr + nlb)]);
    if z.wPtr + nlb >= z.Boundary() then s1
    else
      match z.zs
      case Empty => AssignState(IncOpen(IncActive(s1)), i, ImpOpen)
      case Closed => AssignState(IncOpen(s1), i, ImpOpen)
      case _ => s1
  }

  /** `zns_finalize_zoned_write`. */
  function FinalizeWrite(s: Zns, i: nat, nlb: nat): (r: Zns)
    requires i < |s.zones|
    ensures |r.zones| == |s.zones|
  {
    var z := s.zones[i];
    var s1 := s.(zones := s.zones[i := z.(wp := z.wp + nlb)]);
    if z.wp + nlb != z.Boundary() || z.zs == Full then s1
    else AssignState(Released(s1, z.zs), i, Full)
  }

  type Blocks = n: nat | n >= 1 witness 1

  /** The commands of `zns_io_cmd` that change zones, and the shutdown of the namespace. */
  datatype Command =
    | Write(slba: nat, nlb: Blocks, mdtsOk: bool, mapped: bool)
    | Append(slba: nat, nlb: Blocks, mdtsOk: bool, zaslOk: bool, mapped: bool)
    | Manage(op: ZoneOp, all: bool, slba: nat)
    | SetExtension(slba: nat, all: bool, dmaOk: bool)
    | Shutdown

  function Size(s: Zns): nat { |s.zones| * s.zoneSize }

  /** `zns_zone_idx` on an address below the end of the namespace. */
  function ZoneIdx(s: Zns, slba: nat): nat
    requires s.zoneSize > 0
  {
    slba / s.zoneSize
  }

  /** What indexing needs. */
  ghost predicate Shaped(s: Zns) {
    && s.zoneSize > 0 && |s.zones| > 0
    && Within(s.expOpen, |s.zones|) && Within(s.impOpen, |s.zones|)
    && Within(s.closed, |s.zones|) && Within(s.full, |s.zones|)
  }

  /** The checks of `zns_write` and `zns_do_write` before any zone changes. */
  function WriteStatus(s: Zns, slba: nat, nlb: Blocks, mdtsOk: bool, append: bool, zaslOk: bool): (st: Status)
    requires s.zoneSize > 0
    ensures st == Success ==> ZoneIdx(s, slba) < |s.zones|
  {
    if !mdtsOk then InvalidField
    else if slba + nlb > Size(s) then LbaRange
    else
      DivBelow(slba, |s.zones|, s.zoneSize);
      CheckWrite(s.zones[ZoneIdx(s, slba)], slba, nlb, append, zaslOk)
  }

  /** `zns_write` and `zns_zone_append`. */
  function DoWrite(s: Zns, slba: nat, nlb: Blocks, mdtsOk: bool, append: bool, zaslOk: bool, mapped: bool): (r: Outcome)
    requires Shaped(s)
    ensures |r.s.zones| == |s.zones|
  {
    var st, i := WriteStatus(s, slba, nlb, mdtsOk, append, zaslOk), ZoneIdx(s, slba);
    if st != Success then Outcome(s, st)
    else WriteZone(s, i, nlb, mapped)
  }

  /** The part of a write that changes zones. */
  function WriteZone(s: Zns, i: nat, nlb: Blocks, mapped: bool): (r: Outcome)
    requires Shaped(s) && i < |s.zones|
    ensures |r.s.zones| == |s.zones|
  {
    var r := AutoOpen(s, i);
    if r.status != Success then r
    else
      var s1 := AdvanceWp(r.s, i, nlb);
      if !mapped then Outcome(s1, MapError) else Outcome(FinalizeWrite(s1, i, nlb), Success)
  }

  // ----- Shutdown ---------------------------------------------------------------------------------

  /** `zns_clear_zone` on a zone just taken off its queue. */
  function ClearZone(s: Zns, i: nat): (r: Zns)
    requires i < |s.zones|
    ensures |r.zones| == |s.zones|
  {
    var z := s.zones[i].(wPtr := s.zones[i].wp);
    if z.wp != z.zslba || z.ext then
      IncActive(s.(zones := s.zones[i := z.(zs := Closed)], closed := [i] + s.closed))
    else
      s.(zones := s.zones[i := z.(zs := Empty)])
  }

  /** One zone of a loop of `zns_zoned_ns_shutdown`. */
  function ShutZone(s: Zns, i: nat): (r: Zns)
    requires i < |s.zones|
    ensures |r.zones| == |s.zones|
  {
    var zs := s.zones[i].zs;
    ClearZone(Released(WithList(s, zs, Without(ListOf(s, zs), i)), zs), i)
  }

  function ShutList(s: Zns, q: seq<nat>): (r: Zns)
    requires Within(q, |s.zones|)
    ensures |r.zones| == |s.zones|
    decreases |q|
  {
    if q == [] then s else ShutList(ShutZone(s, q[0]), q[1..])
  }
}
