/** Requests, the collections they trigger and runs of the FTL thread, together with what
    is claimed of them; module FtlRuns holds the proofs. */
module FtlRunModel {
  import opened Wrappers
  import opened Arithmetic
  import opened Geometries
  import opened FtlStates
  import opened FtlInvariants
  import opened FtlGcModel

  /** `ssd_init`: everything blank, line 0 open, the other lines free in order. */
  ghost function Init(g: Geometry): Ssd
    requires g.Positive()
  {
    Ssd(g, seq(g.TtPgs(), _ => None), seq(g.TtPgs(), _ => None), BlankNand(g),
        LineMgmt(seq(g.TtLines(), _ => 0), seq(g.TtLines(), _ => 0),
                 seq(g.TtLines() - 1, i => i + 1), [], {}, g.TtLines() - 1, 0, 0),
        WritePointer(0, Ppa(0, 0, 0, 0)))
  }

  ghost function Mapped(m: seq<Option<Ppa>>): set<nat> {
    set l: nat | l < |m| && m[l].Some?
  }

  ghost function MappedLpns(s: Ssd): set<nat> {
    Mapped(s.maptbl)
  }

  /** The pages of the lines in q with status x. */
  ghost function InLines(st: map<Ppa, PgStatus>, q: seq<nat>, x: PgStatus): set<Ppa> {
    set a | a in st && a.blk in q && st[a] == x
  }

  ghost function NatsBelow(n: nat): (r: set<nat>)
    ensures forall i: nat :: i in r <==> i < n
    ensures |r| == n
  {
    if n == 0 then {} else NatsBelow(n - 1) + {n - 1}
  }

  /** Collect the lines in `picks`, in order. */
  function CollectAll(s: Ssd, picks: seq<nat>): (r: Run)
    requires Shape(s)
    ensures r.Ok? ==> Shape(r.s) && r.s.g == s.g
    decreases |picks|
  {
    if picks == [] then Ok(s)
    else if picks[0] >= s.g.TtLines() then Fault
    else
      var r := CollectLine(s, picks[0]);
      if r.Ok? then CollectAll(r.s, picks[1..]) else r
  }

  /** `picks` are choices the loop `while (should_gc_high) ...` of `ssd_write` can make:
      the test holds before each, each is a least valid victim, and after the last one
      the test fails or no victim is left. */
  ghost predicate ForcedPicks(s: Ssd, picks: seq<nat>)
    requires Shape(s)
    decreases |picks|
  {
    if picks == [] then !ShouldGcHigh(s) || s.lm.victims == {}
    else
      && ShouldGcHigh(s) && LeastValid(s.lm, picks[0])
      && (CollectLine(s, picks[0]).Ok? ==> ForcedPicks(CollectLine(s, picks[0]).s, picks[1..]))
  }

  /** What a run of collections keeps and gains. */
  ghost predicate AllCollected(s: Ssd, s': Ssd, n: nat) {
    var dead, dead' := |WithStatus(s.nand.status, PgInvalid)|, |WithStatus(s'.nand.status, PgInvalid)|;
    && Inv(s') && s'.g == s.g && MappedLpns(s') == MappedLpns(s)
    && Room(s') >= Room(s) + n && dead' + n <= dead
  }

  /** The loop ended after n rounds with outcome r. */
  ghost predicate LoopDone(s: Ssd, r: Run, n: nat) {
    r.Ok? && AllCollected(s, r.s, n) && (!ShouldGcHigh(r.s) || r.s.lm.victims == {})
  }

  ghost function Range(lpn: nat, n: nat): (r: set<nat>)
    ensures forall l: nat :: l in r <==> lpn <= l < lpn + n
  {
    if n == 0 then {} else Range(lpn, n - 1) + {lpn + n - 1}
  }

  /** The map m became m' by mapping the n pages from lpn on. */
  ghost predicate RangeMapped(m: seq<Option<Ppa>>, m': seq<Option<Ppa>>, lpn: nat, n: nat) {
    var range := Range(lpn, n);
    && |m'| == |m| && Mapped(m') == Mapped(m) + range
    && forall l :: 0 <= l < |m| && l !in range ==> m'[l] == m[l]
  }

  /** Outcome r of writing the n pages from lpn on. */
  ghost predicate PagesWritten(s: Ssd, lpn: nat, n: nat, r: Run) {
    var room := Room(s);
    && !r.Fault? && (r.Aborted? <==> room <= n)
    && (r.Ok? ==> Inv(r.s) && r.s.g == s.g && Room(r.s) == room - n && RangeMapped(s.maptbl, r.s.maptbl, lpn, n))
  }

  /** `nlb` as the driver stores it: the zero-based field of the command plus one. */
  type Sectors = n: nat | n >= 1 witness 1

  /** A request as `ftl_thread` serves it; reads and deallocations change no FTL table.
      `forced` are the victims of the loop before a write. */
  datatype Request = WriteReq(slba: nat, nlb: Sectors, forced: seq<nat>) | OtherReq

  /** A request and the victim of the background collection that follows it, if any. */
  datatype Op = Op(req: Request, background: Option<nat>)

  function StartLpn(g: Geometry, req: Request): nat
    requires g.Positive() && req.WriteReq?
  {
    req.slba / g.secsPerPg
  }

  /** The number of pages from start_lpn to end_lpn. */
  function PageCount(g: Geometry, req: Request): nat
    requires g.Positive() && req.WriteReq?
  {
    assert req.slba / g.secsPerPg <= (req.slba + req.nlb - 1) / g.secsPerPg by {
      DivMonotone(req.slba, req.slba + req.nlb - 1, g.secsPerPg);
    }
    (req.slba + req.nlb - 1) / g.secsPerPg - req.slba / g.secsPerPg + 1
  }

  /** `ssd_write`, or nothing. */
  function Serve(s: Ssd, req: Request): (r: Run)
    requires Shape(s)
    ensures r.Ok? ==> Shape(r.s) && r.s.g == s.g
  {
    match req
    case OtherReq => Ok(s)
    case WriteReq(_, _, forced) =>
      var r := CollectAll(s, forced);
      if r.Ok? then WritePages(r.s, StartLpn(s.g, req), PageCount(s.g, req)) else r
  }

  /** One round of the loop of `ftl_thread`. */
  function Step(s: Ssd, op: Op): (r: Run)
    requires Shape(s)
    ensures r.Ok? ==> Shape(r.s) && r.s.g == s.g
  {
    var r := Serve(s, op.req);
    if !r.Ok? || op.background.None? then r
    else if op.background.value >= s.g.TtLines() then Fault
    else CollectLine(r.s, op.background.value)
  }

  /** What `if (should_gc(ssd)) do_gc(ssd, false)` can choose. */
  ghost predicate BackgroundPick(s: Ssd, pick: Option<nat>)
    requires Shape(s)
  {
    match pick
    case Some(v) => ShouldGc(s) && LeastValid(s.lm, v) && WorthCleaning(s.g, s.lm, v, false)
    case None => !ShouldGc(s) || s.lm.victims == {}
                 || exists v :: LeastValid(s.lm, v) && !WorthCleaning(s.g, s.lm, v, false)
  }

  /** The choices recorded in op are ones the code can make in state s. */
  ghost predicate Possible(s: Ssd, op: Op)
    requires Shape(s)
  {
    && (op.req.WriteReq? ==> ForcedPicks(s, op.req.forced))
    && (Serve(s, op.req).Ok? ==> BackgroundPick(Serve(s, op.req).s, op.background))
  }

  /** The host writes at most gcThresLinesHigh lines' worth of pages, all of them in `used`. */
  ghost predicate Admissible(g: Geometry, op: Op, used: set<nat>)
    requires g.Positive()
  {
    op.req.WriteReq? ==>
      && Range(StartLpn(g, op.req), PageCount(g, op.req)) <= used
      && StartLpn(g, op.req) + PageCount(g, op.req) <= g.TtPgs()
      && PageCount(g, op.req) <= g.gcThresLinesHigh * g.PgsPerLine()
  }

  /** The device has spare lines: the host uses fewer pages than fit into all lines but
      the open one and the gcThresLinesHigh kept free. */
  ghost predicate Provisioned(g: Geometry, used: set<nat>) {
    && g.Positive() && g.gcThresLinesHigh >= 1
    && |used| < (g.TtLines() - 1 - g.gcThresLinesHigh) * g.PgsPerLine()
  }

  /** What holds between requests of a provisioned run. */
  ghost predicate Steady(s: Ssd, used: set<nat>) {
    var line := s.g.PgsPerLine();
    Inv(s) && Provisioned(s.g, used) && MappedLpns(s) <= used && Room(s) >= line
  }

  /** The forced loop stopped with more than gcThresLinesHigh free lines. */
  ghost predicate GoalMet(s: Ssd, r: Run, n: nat) {
    var g := s.g;
    && r.Ok? && AllCollected(s, r.s, n) && !ShouldGcHigh(r.s)
    && Room(r.s) > (g.gcThresLinesHigh + 1) * g.PgsPerLine()
  }

  function RunAll(s: Ssd, ops: seq<Op>): (r: Run)
    requires Shape(s)
    ensures r.Ok? ==> Shape(r.s) && r.s.g == s.g
    decreases |ops|
  {
    if ops == [] then Ok(s)
    else
      var r := Step(s, ops[0]);
      if r.Ok? then RunAll(r.s, ops[1..]) else r
  }

  ghost predicate AllPossible(s: Ssd, ops: seq<Op>)
    requires Shape(s)
    decreases |ops|
  {
    ops != [] ==>
      Possible(s, ops[0]) && (Step(s, ops[0]).Ok? ==> AllPossible(Step(s, ops[0]).s, ops[1..]))
  }
}
