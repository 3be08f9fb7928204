/** The FTL of femu/bbssd/ftl.c in memory.  Every method is proved to change the tables
    exactly as the function of the same C routine in FtlStates does, and every `ftl_assert`
    on the way is proved. */
module Ftls {
  import opened Wrappers
  import opened Arithmetic
  import opened Geometries
  import opened FtlStates
  import opened FtlInvariants
  import opened FtlGcModel
  import opened FtlRunModel
  import opened FtlSteps
  import opened FtlGc
  import opened FtlRuns
  import opened FtlHistory
  import opened FtlBackgrounds
  import opened NandArrays
  import opened LineManagers

  /** What the assertions of `mark_page_valid` need of the page under the write pointer. */
  ghost predicate MayProgram(s: Ssd)
    requires Shape(s)
  {
    && s.nand.status[s.wp.page] == PgFree
    && 0 <= s.nand.vpc[BlkOf(s.wp.page)] < s.g.pgsPerBlk
    && s.lm.vpc[s.wp.curline] < s.g.PgsPerLine() && s.wp.curline !in s.lm.victims
  }

  lemma WritePointerMayProgram(s: Ssd, dangling: Option<nat>)
    requires Consistent(s, dangling, s.g.StripePos(s.wp.page))
    ensures MayProgram(s)
  {
    var a := s.wp.page;
    assert a in InBlk(s.nand.status, BlkOf(a), PgFree);
    BlkOccupancy(s.g, s.nand, BlkOf(a));
    s.g.StripeInRange(a);
    OpenLineCount(s, dangling, s.g.StripePos(a));
    assert Places(s.lm, s.wp.curline, dangling, s.wp.curline) == 1;
  }

  /** What the assertions of `mark_page_invalid` need of a page that dies. */
  ghost predicate MayDrop(s: Ssd, a: Ppa)
    requires Shape(s)
  {
    && s.g.ValidPpa(a) && s.nand.status[a] == PgValid
    && 0 <= s.nand.ipc[BlkOf(a)] < s.g.pgsPerBlk && 0 < s.nand.vpc[BlkOf(a)] <= s.g.pgsPerBlk
    && 0 < s.lm.vpc[a.blk] <= s.g.PgsPerLine() && s.lm.ipc[a.blk] < s.g.PgsPerLine()
    && (s.lm.vpc[a.blk] == s.g.PgsPerLine() ==>
          s.lm.ipc[a.blk] == 0 && a.blk in s.lm.full && a.blk !in s.lm.victims)
  }

  lemma LivePageMayDrop(s: Ssd, a: Ppa)
    requires Inv(s) && a in s.nand.status && s.nand.status[a] == PgValid
    ensures MayDrop(s, a)
  {
    assert a in InBlk(s.nand.status, BlkOf(a), PgValid);
    BlkOccupancy(s.g, s.nand, BlkOf(a));
    LineOfValidPage(s, a);
    LineOccupancy(s.g, s.nand, a.blk);
    assert Places(s.lm, s.wp.curline, None, a.blk) == 1;
  }

  /** What the assertions of `ssd_advance_write_pointer` need when the line is used up. */
  ghost predicate MayAdvance(s: Ssd)
    requires Shape(s)
  {
    LastOfLine(s.g, s.wp.page) ==>
      && s.lm.vpc[s.wp.curline] + s.lm.ipc[s.wp.curline] == s.g.PgsPerLine()
      && s.wp.curline !in s.lm.victims
      && (s.lm.free != [] ==> s.lm.free[0] < s.g.TtLines())
  }

  lemma WritePointerMayAdvance(s: Ssd, dangling: Option<nat>)
    requires Consistent(s, dangling, s.g.StripePos(s.wp.page) + 1)
    ensures MayAdvance(s)
  {
    s.g.StripeInRange(s.wp.page);
    LastOfLineIsLast(s.g, s.wp.page);
    OpenLineCount(s, dangling, s.g.StripePos(s.wp.page) + 1);
    assert Places(s.lm, s.wp.curline, dangling, s.wp.curline) == 1;
    if s.lm.free != [] {
      var l := s.lm.free[0];
      assert Places(s.lm, s.wp.curline, dangling, l) == if l < s.g.TtLines() then 1 else 0;
    }
  }

  /** What `gc_write_page` needs of the page it moves. */
  ghost predicate MayMove(s: Ssd, from: Ppa)
    requires Shape(s) && s.g.ValidPpa(from)
  {
    var r := s.rmap[s.g.RmapIdx(from)];
    && r.Some? && r.value < |s.maptbl| && MayProgram(s) && MayAdvance(FtlStates.PlacePage(s, r.value))
  }

  lemma LivePageMayMove(s: Ssd, v: nat, moved: set<Ppa>, from: Ppa)
    requires Sound(s, v, moved) && from.blk == v && (forall a :: a in moved ==> a.blk == v)
    requires from in s.nand.status && s.nand.status[from] == PgValid && from !in moved
    ensures MayMove(s, from)
  {
    MovedPageIsExempt(s, moved, from);
    assert Places(s.lm, s.wp.curline, Some(v), v) == if v < s.g.TtLines() then 1 else 0;
    WritePointerMayProgram(s, Some(v));
    var lpn := s.rmap[s.g.RmapIdx(from)].value;
    PlaceKeepsConsistent(s, lpn, Some(v));
    WritePointerMayAdvance(FtlStates.PlacePage(s, lpn), Some(v));
  }

  /** No page of line l is blank. */
  ghost predicate Programmed(st: map<Ppa, PgStatus>, l: nat) {
    forall a :: a in st && a.blk == l ==> st[a] != PgFree
  }

  lemma DuePage(s0: Ssd, s: Ssd, v: nat, k: nat, m: set<Ppa>, a: Ppa)
    requires PageDue(s0, s, v, k, m, a)
    ensures Shape(s) && s.g.ValidPpa(a) && a.blk == v
  {
    hide Changed;
  }

  lemma DuePageMayMove(s0: Ssd, s: Ssd, v: nat, k: nat, m: set<Ppa>, a: Ppa)
    requires PageDue(s0, s, v, k, m, a) && s.nand.status[a] == PgValid
    ensures Shape(s) && MayMove(s, a)
  {
    LivePageMayMove(s, v, m, a);
  }

  /** What one iteration of the loop in `ssd_write` needs. */
  ghost predicate MayWrite(s: Ssd, lpn: nat)
    requires Shape(s)
  {
    && lpn < |s.maptbl|
    && (s.maptbl[lpn].Some? ==> MayDrop(s, s.maptbl[lpn].value))
    && var s1 := if s.maptbl[lpn].Some? then FtlStates.DropOld(s, s.maptbl[lpn].value) else s;
       MayProgram(s1) && MayAdvance(FtlStates.PlacePage(s1, lpn))
  }

  lemma PageMayBeWritten(s: Ssd, lpn: nat)
    requires Inv(s) && lpn < |s.maptbl|
    ensures MayWrite(s, lpn)
  {
    var s1 := s;
    if s.maptbl[lpn].Some? {
      var a := s.maptbl[lpn].value;
      LivePageMayDrop(s, a);
      DropThenPlace(s, lpn, a);
      s1 := FtlStates.DropOld(s, a);
    }
    WritePointerMayProgram(s1, None);
    PlaceKeepsConsistent(s1, lpn, None);
    WritePointerMayAdvance(FtlStates.PlacePage(s1, lpn), None);
  }

  lemma ClosedFree(g: Geometry, lm: LineMgmt, l: nat)
    requires l < |lm.vpc|
    ensures CloseLine(g, lm, l).free == lm.free
  {
  }

  lemma NoBlockCleaned(s: Ssd, v: nat)
    requires Shape(s) && v < s.g.TtLines()
    ensures CleanBlocks(s, v, 0) == Ok(s)
  {
    hide Shape;
  }

  /** do_gc returns 0, returns -1, or calls abort() in ssd_advance_write_pointer. */
  datatype GcOutcome = Cleaned | NoVictim | NoSpace

  /** ssd_write returns, calls abort(), or indexes out of the map for a page past `tt_pgs`. */
  datatype WriteOutcome = Written | OutOfSpace | OutOfTable

  /** What `select_victim_line` may return. */
  ghost predicate Picks(s: Ssd, force: bool, v: nat)
    requires Shape(s)
  {
    LeastValid(s.lm, v) && WorthCleaning(s.g, s.lm, v, force)
  }

  /** v is the least victim but has too few invalid pages. */
  ghost predicate Spares(s: Ssd, force: bool, v: nat)
    requires Shape(s)
  {
    LeastValid(s.lm, v) && !WorthCleaning(s.g, s.lm, v, force)
  }

  lemma VictimIsProgrammed(s: Ssd, v: nat)
    requires Inv(s) && v in s.lm.victims
    ensures Programmed(s.nand.status, v)
  {
  }

  lemma PickMayBeCleaned(s: Ssd, force: bool, v: nat)
    requires Inv(s) && Picks(s, force, v)
    ensures s.g.Positive() && v < s.g.TtLines() && v in s.lm.victims && Programmed(s.nand.status, v)
    ensures Shape(s.(lm := TakeVictim(s.lm, v))) && Sound(s.(lm := TakeVictim(s.lm, v)), v, {})
    ensures CollectLine(s, v) == var r := CleanBlocks(s.(lm := TakeVictim(s.lm, v)), v, s.g.BlksPerLine());
                                 if r.Ok? then Ok(r.s.(lm := MarkLineFree(r.s.lm, v))) else r
  {
    VictimIsProgrammed(s, v);
    TakeIsSound(s, v);
  }

  lemma CleanedMayBeFreed(s: Ssd, v: nat, t: Ssd)
    requires Inv(s) && v in s.lm.victims && v < s.g.TtLines()
    requires CleanBlocks(s.(lm := TakeVictim(s.lm, v)), v, s.g.BlksPerLine()) == Ok(t)
    ensures v !in t.lm.victims
  {
    var s0 := s.(lm := TakeVictim(s.lm, v));
    TakeIsSound(s, v);
    CleanBlocksProgress(s0, v, s.g.BlksPerLine());
    assert Places(t.lm, t.wp.curline, Some(v), v) == if v < t.g.TtLines() then 1 else 0;
  }

  /** The channel and LUN loops of `do_gc` count through the blocks of a line. */
  lemma BlkIdxSteps(g: Geometry, line: nat)
    ensures BlkIdx(g, Blk(0, 0, line)) == 0 && BlkIdx(g, Blk(g.nchs, 0, line)) == g.BlksPerLine()
    ensures forall ch: nat, lun: nat :: BlkIdx(g, Blk(ch, lun + 1, line)) == BlkIdx(g, Blk(ch, lun, line)) + 1
    ensures forall ch: nat :: BlkIdx(g, Blk(ch + 1, 0, line)) == BlkIdx(g, Blk(ch, g.lunsPerCh, line))
  {
  }

  // ----- The loop of forced collections ---------------------------------------------------

  /** The choices made so far by the loop `while (should_gc_high) ...`. */
  ghost predicate ForcedSoFar(s: Ssd, picks: seq<nat>)
    requires Shape(s)
    decreases |picks|
  {
    picks != [] ==>
      && ShouldGcHigh(s) && LeastValid(s.lm, picks[0])
      && (CollectLine(s, picks[0]).Ok? ==> ForcedSoFar(CollectLine(s, picks[0]).s, picks[1..]))
  }

  lemma NoPicks(s: Ssd)
    requires Inv(s)
    ensures Shape(s) && ForcedSoFar(s, []) && CollectAll(s, []) == Ok(s)
  {
  }

  lemma {:induction false} OneMorePick(s: Ssd, picks: seq<nat>, t: Ssd, v: nat)
    requires Shape(s) && ForcedSoFar(s, picks) && CollectAll(s, picks) == Ok(t)
    requires ShouldGcHigh(t) && LeastValid(t.lm, v) && v < t.g.TtLines()
    ensures ForcedSoFar(s, picks + [v]) && CollectAll(s, picks + [v]) == CollectLine(t, v)
    decreases |picks|
  {
    hide Shape, LeastValid, CollectLine, Geometry.TtLines;
    if picks == [] {
      NoCollection(s, v);
    } else {
      OneMorePick(CollectLine(s, picks[0]).s, picks[1..], t, v);
      assert (picks + [v])[1..] == picks[1..] + [v];
    }
  }

  lemma NoCollection(s: Ssd, v: nat)
    requires Shape(s) && ShouldGcHigh(s) && LeastValid(s.lm, v) && v < s.g.TtLines()
    ensures ForcedSoFar(s, [] + [v]) && CollectAll(s, [] + [v]) == CollectLine(s, v)
  {
    hide Shape, LeastValid, CollectLine, Geometry.TtLines;
    assert [] + [v] == [v] && [v][1..] == [];
    assert ForcedSoFar(s, [v]);
  }

  /** When the loop stops, its choices are complete. */
  lemma {:induction false} PicksAreForced(s: Ssd, picks: seq<nat>)
    requires Shape(s) && ForcedSoFar(s, picks) && !CollectAll(s, picks).Fault?
    requires CollectAll(s, picks).Ok? ==> var t := CollectAll(s, picks).s; !ShouldGcHigh(t) || t.lm.victims == {}
    ensures ForcedPicks(s, picks)
    decreases |picks|
  {
    hide Shape, LeastValid, CollectLine, Geometry.TtLines;
    if picks != [] && CollectLine(s, picks[0]).Ok? {
      PicksAreForced(CollectLine(s, picks[0]).s, picks[1..]);
    }
  }

  lemma RoundOfLoop(s: Ssd, force: bool, v: nat, t: Ssd)
    requires Inv(s) && Picks(s, force, v) && CollectLine(s, v) == Ok(t)
    ensures Inv(t) && t.g == s.g && |WithStatus(t.nand.status, PgInvalid)| < |WithStatus(s.nand.status, PgInvalid)|
  {
    hide CollectLine;
    CollectKeepsInvariant(s, v);
  }

  lemma NeverSpared(s: Ssd, v: nat)
    requires Inv(s)
    ensures Shape(s) && !Spares(s, true, v)
  {
  }

  lemma PickedIsLeast(s: Ssd, force: bool, v: nat)
    requires Inv(s) && Picks(s, force, v)
    ensures Shape(s) && LeastValid(s.lm, v) && v < s.g.TtLines()
  {
  }

  // ----- Host writes -------------------------------------------------------------------------

  /** The state in which the loop of `ssd_write` programs the new copy of lpn. */
  ghost function Dropped(s: Ssd, lpn: nat): (r: Ssd)
    requires Shape(s) && MayWrite(s, lpn)
    ensures Shape(r) && |r.maptbl| == |s.maptbl| && r.g == s.g && lpn < |s.maptbl|
  {
    if s.maptbl[lpn].Some? then FtlStates.DropOld(s, s.maptbl[lpn].value) else s
  }

  lemma DropIfMapped(s: Ssd, lpn: nat)
    requires Shape(s) && MayWrite(s, lpn)
    ensures lpn < |s.maptbl| && (s.maptbl[lpn].None? ==> Dropped(s, lpn) == s)
    ensures s.maptbl[lpn].Some? ==>
              var a := s.maptbl[lpn].value;
              MayDrop(s, a) && s.g.ValidPpa(a) && s.lm.vpc[a.blk] > 0 && Dropped(s, lpn) == FtlStates.DropOld(s, a)
  {
    hide MayProgram, MayAdvance, FtlStates.PlacePage;
  }

  lemma WriteInTwo(s: Ssd, lpn: nat)
    requires Shape(s) && MayWrite(s, lpn)
    ensures var s1 := Dropped(s, lpn);
            && MayProgram(s1) && Shape(FtlStates.PlacePage(s1, lpn)) && MayAdvance(FtlStates.PlacePage(s1, lpn))
            && FtlStates.WritePage(s, lpn) == FtlStates.AdvanceWritePointer(FtlStates.PlacePage(s1, lpn))
  {
    hide MayProgram, MayAdvance, FtlStates.AdvanceWritePointer;
  }

  lemma NoPageWritten(s: Ssd, lpn: nat)
    requires Shape(s)
    ensures FtlStates.WritePages(s, lpn, 0) == Ok(s)
  {
    hide Shape;
  }

  lemma NextPageMayBeWritten(start: Ssd, lpn: nat, i: nat, s: Ssd)
    requires Inv(start) && lpn + i < |start.maptbl| && Inv(s)
    requires FtlStates.WritePages(start, lpn, i) == Ok(s)
    ensures Shape(s) && MayWrite(s, lpn + i)
    ensures FtlStates.WritePages(start, lpn, i + 1) == FtlStates.WritePage(s, lpn + i)
    ensures FtlStates.WritePage(s, lpn + i).Ok? ==> Inv(FtlStates.WritePage(s, lpn + i).s)
  {
    hide FtlStates.WritePage, MayWrite, Inv, Shape;
    InvShape(start);
    InvShape(s);
    MapKeepsLength(start, s);
    PageMayBeWritten(s, lpn + i);
    WritePageKeepsInvariant(s, lpn + i);
  }

  lemma {:induction false} WritingStaysAborted(s: Ssd, lpn: nat, i: nat, n: nat)
    requires Shape(s) && i <= n && FtlStates.WritePages(s, lpn, i).Aborted?
    ensures FtlStates.WritePages(s, lpn, n).Aborted?
    decreases n - i
  {
    hide Shape, FtlStates.WritePage;
    if i < n {
      WritingStaysAborted(s, lpn, i, n - 1);
    }
  }

  /** Past the end of the map the loop indexes out of it. */
  lemma {:induction false} WritingPastEnd(s: Ssd, lpn: nat, i: nat, n: nat)
    requires Shape(s) && i < n && lpn + i >= |s.maptbl| && FtlStates.WritePages(s, lpn, i).Ok?
    ensures FtlStates.WritePages(s, lpn, n).Fault?
    decreases n - i
  {
    hide Shape, FtlStates.WritePage;
    if i + 1 == n {
      FirstPastEnd(s, lpn, i);
    } else {
      WritingPastEnd(s, lpn, i, n - 1);
    }
  }

  lemma FirstPastEnd(s: Ssd, lpn: nat, i: nat)
    requires Shape(s) && lpn + i >= |s.maptbl| && FtlStates.WritePages(s, lpn, i).Ok?
    ensures FtlStates.WritePages(s, lpn, i + 1).Fault?
  {
    hide NandShape, LineShape, WpShape, FtlStates.AdvanceWritePointer, FtlStates.PlacePage, FtlStates.DropOld;
    assert |FtlStates.WritePages(s, lpn, i).s.maptbl| == |s.maptbl|;
  }

  lemma MapKeepsLength(s: Ssd, t: Ssd)
    requires Shape(s) && Inv(t) && t.g == s.g
    ensures Shape(t) && |t.maptbl| == |s.maptbl|
  {
  }

  lemma RequestHasPages(s: Ssd, slba: nat, nlb: Sectors)
    requires Inv(s)
    ensures s.g.secsPerPg > 0 && slba / s.g.secsPerPg <= (slba + nlb - 1) / s.g.secsPerPg
  {
    DivMonotone(slba, slba + nlb - 1, s.g.secsPerPg);
  }

  /** A write that completes maps the logical pages of its sectors; one that leaves the map
      goes past the last sector. */
  lemma WrittenPages(s: Ssd, req: Request)
    requires Inv(s) && Shape(s) && req.WriteReq? && ForcedPicks(s, req.forced)
    ensures s.g.Positive()
    ensures Serve(s, req).Ok? ==>
              forall l: nat :: l in MappedLpns(Serve(s, req).s) <==> l in MappedLpns(s) || WritesTo(s.g, req, l)
    ensures Serve(s, req).Fault? ==> req.slba + req.nlb > s.g.TtPgs() * s.g.secsPerPg
  {
    hide Inv, Serve, ForcedPicks, Shape, LpnsOf, MappedLpns, WritesTo, InRange, Geometry.TtPgs;
    ServeKeepsInvariant(s, req);
    RangeBySectors(s.g, req);
    forall l: nat ensures l in LpnsOf(s.g, req) <==> WritesTo(s.g, req, l) {
      LpnsBySectors(s.g, req, l);
    }
  }

  lemma OtherRequestsKeep(s: Ssd)
    requires Shape(s)
    ensures Serve(s, OtherReq) == Ok(s)
  {
  }

  lemma NoBackground(s: Ssd, v: nat)
    requires Shape(s) && (!ShouldGc(s) || s.lm.victims == {} || Spares(s, false, v))
    ensures BackgroundPick(s, None)
  {
  }

  lemma BackgroundPicked(s: Ssd, v: nat)
    requires Inv(s) && ShouldGc(s) && Picks(s, false, v)
    ensures BackgroundPick(s, Some(v)) && v < s.g.TtLines()
  {
  }

  // ----- Sequences of requests ------------------------------------------------------------------

  /** A request as the host sends it. */
  datatype HostRequest = HostRequest(write: bool, slba: nat, nlb: Sectors)

  /** What a provisioned device can take: see `Admissible`. */
  ghost predicate Tolerable(g: Geometry, r: HostRequest, used: set<nat>)
    requires g.Positive()
  {
    r.write ==> Admissible(g, Op(WriteReq(r.slba, r.nlb, []), None), used)
  }

  lemma RoundIsSteady(s: Ssd, r: HostRequest, op: Op, used: set<nat>)
    requires Steady(s, used) && Tolerable(s.g, r, used) && Shape(s) && Possible(s, op)
    requires if r.write then op.req.WriteReq? && op.req.slba == r.slba && op.req.nlb == r.nlb else op.req.OtherReq?
    ensures Step(s, op).Ok? && Steady(Step(s, op).s, used)
  {
    hide Steady, Possible, Step;
    StepIsSteady(s, op, used);
  }

  class Ftl {
    const g: Geometry
    const maptbl: array<Option<Ppa>>
    const rmap: array<Option<nat>>
    const nand: NandArray
    const lm: LineManager
    var curline: nat
    var wp: Ppa

    ghost function Repr(): set<object>
      reads this, lm, lm.victimPq
    {
      {this, maptbl, rmap} + nand.Repr + lm.Repr()
    }

    ghost predicate Valid()
      reads this, Repr()
    {
      && {this, maptbl, rmap} !! nand.Repr && {this, maptbl, rmap} !! lm.Repr() && nand.Repr !! lm.Repr()
      && maptbl as object != rmap
      && nand.g == g && lm.g == g && nand.Valid() && lm.Valid()
      && g.Positive() && maptbl.Length == g.TtPgs() && rmap.Length == g.TtPgs()
      && WpShape(g, WritePointer(curline, wp))
    }

    ghost function Model(): (s: Ssd)
      requires Valid()
      reads this, Repr()
      ensures Shape(s) && s.g == g
    {
      Ssd(g, maptbl[..], rmap[..], nand.View(), lm.View(), WritePointer(curline, wp))
    }

    /** `ssd_init`. */
    constructor (g: Geometry)
      requires g.Positive()
      ensures Valid() && fresh(Repr()) && this.g == g && Model() == Init(g)
    {
      hide LineManager.Valid, LineManager.View, NandArray.View, NandArray.Valid, BlankNand, NandShape;
      var m, r := BlankTables(g.TtPgs());
      var n := new NandArray(g);
      var l, first := OpenFirstLine(g);
      this.g := g;
      maptbl, rmap, nand, lm := m, r, n, l;
      curline, wp := first, Ppa(0, 0, 0, 0);
    }

    /** `ssd_init_maptbl` and `ssd_init_rmap`. */
    static method BlankTables(n: nat) returns (m: array<Option<Ppa>>, r: array<Option<nat>>)
      ensures fresh(m) && fresh(r) && m as object != r
      ensures m[..] == seq(n, _ => None) && r[..] == seq(n, _ => None)
    {
      m := new Option<Ppa>[n](_ => None);
      r := new Option<nat>[n](_ => None);
    }

    /** `ssd_init_lines` and `ssd_init_write_pointer`. */
    static method OpenFirstLine(g: Geometry) returns (l: LineManager, first: nat)
      requires g.Positive()
      ensures fresh(l) && fresh(l.Repr()) && l.Valid() && l.g == g
      ensures first == 0 && l.View() == Init(g).lm
    {
      l := new LineManager(g);
      var found;
      found, first := l.GetNextFree();
      assert seq(g.TtLines(), i => i)[1..] == seq(g.TtLines() - 1, i => i + 1);
    }

    /** `set_maptbl_ent` and `set_rmap_ent` for the page under the write pointer. */
    method MapPage(lpn: nat)
      requires Valid() && lpn < maptbl.Length
      modifies maptbl, rmap
      ensures Valid()
      ensures Model() == old(Model()).(maptbl := old(maptbl[..])[lpn := Some(wp)],
                                       rmap := old(rmap[..])[g.RmapIdx(wp) := Some(lpn)])
    {
      maptbl[lpn] := Some(wp);
      rmap[g.RmapIdx(wp)] := Some(lpn);
    }

    /** Page and block part of `mark_page_valid`. */
    method ProgramNand()
      requires Valid() && MayProgram(Model())
      modifies nand.status, nand.vpc
      ensures Valid() && Model() == old(Model()).(nand := ProgramPage(old(Model()).nand, wp))
    {
      hide LineManager.Valid, LineManager.View, NandArray.View, ProgramPage;
      nand.Program(wp);
    }

    /** Line part of `mark_page_valid`. */
    method CountLive()
      requires Valid() && Model().lm.vpc[curline] < g.PgsPerLine() && curline !in Model().lm.victims
      modifies lm.vpc
      ensures Valid()
      ensures Model() == old(Model()).(lm := old(Model()).lm.(vpc := old(Model()).lm.vpc[curline := old(Model()).lm.vpc[curline] + 1]))
    {
      hide LineManager.Valid, NandArray.View;
      lm.IncrementVpc(curline);
    }

    /** `mark_page_valid` on the page under the write pointer. */
    method MarkPageValid()
      requires Valid() && MayProgram(Model())
      modifies nand.status, nand.vpc, lm.vpc
      ensures Valid() && Model() == FtlStates.MarkPageValid(old(Model()), wp)
    {
      hide Valid, Model, ProgramPage;
      PointerAt();
      ProgramNand();
      CountLive();
    }

    lemma PointerAt()
      requires Valid()
      ensures Model().wp == WritePointer(curline, wp) && wp.blk == curline && Model().g == g
    {
    }

    /** `get_new_page`, the two table updates and `mark_page_valid`. */
    method PlacePage(lpn: nat)
      requires Valid() && MayProgram(Model()) && lpn < |Model().maptbl|
      modifies maptbl, rmap, nand.Repr, lm.vpc
      ensures Valid() && Model() == FtlStates.PlacePage(old(Model()), lpn)
    {
      MapPage(lpn);
      MarkPageValid();
    }

    /** Page and block part of `mark_page_invalid`. */
    method InvalidateNand(a: Ppa)
      requires Valid() && MayDrop(Model(), a)
      modifies nand.Repr
      ensures Valid() && lm.Repr() == old(lm.Repr()) && Repr() == old(Repr())
      ensures Model() == old(Model()).(nand := InvalidatePage(old(Model()).nand, a))
    {
      hide LineManager.Valid, LineManager.View, NandArray.View, InvalidatePage;
      nand.Invalidate(a);
    }

    /** Line part of `mark_page_invalid`. */
    method InvalidateLine(l: nat)
      requires Valid() && l < |Model().lm.vpc| && 0 < Model().lm.vpc[l] <= g.PgsPerLine()
      requires Model().lm.ipc[l] < g.PgsPerLine()
      requires Model().lm.vpc[l] == g.PgsPerLine() ==>
                 Model().lm.ipc[l] == 0 && l in Model().lm.full && l !in Model().lm.victims
      modifies lm.Repr()
      ensures Valid() && fresh(Repr() - old(Repr()))
      ensures Model() == old(Model()).(lm := InvalidateInLine(g, old(Model()).lm, l))
    {
      hide LineManager.Valid, NandArray.View, InvalidateInLine;
      lm.Invalidate(l);
    }

    /** `mark_page_invalid`. */
    method MarkPageInvalid(a: Ppa)
      requires Valid() && MayDrop(Model(), a)
      modifies nand.Repr, lm.Repr()
      ensures Valid() && fresh(Repr() - old(Repr()))
      ensures Model() == FtlStates.MarkPageInvalid(old(Model()), a)
    {
      hide Valid, Model, InvalidatePage, InvalidateInLine;
      PointerAt();
      InvalidateNand(a);
      InvalidateLine(a.blk);
    }

    /** `set_rmap_ent(ssd, INVALID_LPN, &ppa)`. */
    method ClearRmap(a: Ppa)
      requires Valid() && g.ValidPpa(a)
      modifies rmap
      ensures Valid() && Repr() == old(Repr())
      ensures Model() == old(Model()).(rmap := old(Model()).rmap[g.RmapIdx(a) := None])
    {
      rmap[g.RmapIdx(a)] := None;
    }

    lemma DropPrecondition(a: Ppa)
      requires Valid() && MayDrop(Model(), a)
      ensures g.ValidPpa(a) && Shape(Model()) && Model().g == g && Model().lm.vpc[a.blk] > 0
      ensures var s := FtlStates.MarkPageInvalid(Model(), a); s.g == g && s.rmap == Model().rmap
    {
    }

    /** The old copy of a page dies in `ssd_write`. */
    method DropOld(a: Ppa)
      requires Valid() && MayDrop(Model(), a)
      modifies rmap, nand.Repr, lm.Repr()
      ensures Valid() && fresh(Repr() - old(Repr()))
      ensures Model() == FtlStates.DropOld(old(Model()), a)
    {
      hide Valid, Model, MayDrop, FtlStates.MarkPageInvalid;
      DropPrecondition(a);
      MarkPageInvalid(a);
      ClearRmap(a);
    }

    /** `ssd_advance_write_pointer`; ok is false where the C code calls abort(). */
    method AdvanceWritePointer() returns (ok: bool)
      requires Valid() && MayAdvance(Model())
      modifies this`curline, this`wp, lm.Repr()
      ensures ok ==> Valid() && fresh(Repr() - old(Repr()))
      ensures var r := FtlStates.AdvanceWritePointer(old(Model())); if ok then r == Ok(Model()) else r.Aborted?
    {
      hide LineManager.Valid, LineManager.View, NandArray.View, NextLine, NandArray.Valid, MayAdvance;
      ok := true;
      assert wp.ch < g.nchs;
      if wp.ch + 1 != g.nchs {
        wp := wp.(ch := wp.ch + 1);
        return;
      }
      assert wp.lun < g.lunsPerCh;
      if wp.lun + 1 != g.lunsPerCh {
        wp := wp.(ch := 0, lun := wp.lun + 1);
        return;
      }
      assert wp.pg < g.pgsPerBlk;
      if wp.pg + 1 != g.pgsPerBlk {
        wp := wp.(ch := 0, lun := 0, pg := wp.pg + 1);
        return;
      }
      ok := OpenNextLine();
    }

    /** The used-up open line joins the full list or the victim heap. */
    method CloseCurline()
      requires Valid() && curline !in Model().lm.victims
      requires Model().lm.vpc[curline] + Model().lm.ipc[curline] == g.PgsPerLine()
      modifies lm.Repr()
      ensures Valid() && fresh(Repr() - old(Repr()))
      ensures Model() == old(Model()).(lm := CloseLine(g, old(Model()).lm, curline))
    {
      hide LineManager.Valid, NandArray.View, CloseLine;
      lm.Close(curline);
    }

    /** `get_next_free_line` and the assignments after it. */
    method OpenFreeLine() returns (ok: bool)
      requires Valid() && (Model().lm.free != [] ==> Model().lm.free[0] < g.TtLines())
      modifies this`curline, this`wp, lm`free, lm`freeCnt
      ensures Valid() && Repr() == old(Repr()) && (ok <==> old(Model()).lm.free != [])
      ensures ok ==>
                var s, l := old(Model()), old(Model()).lm.free[0];
                Model() == s.(lm := TakeFreeLine(s.lm), wp := WritePointer(l, Ppa(0, 0, l, 0)))
    {
      hide NandArray.View, NandArray.Valid;
      var line;
      ok, line := lm.GetNextFree();
      if ok {
        assert line < g.blksPerPl;
        curline, wp := line, Ppa(0, 0, line, 0);
      }
    }

    /** The rest of `ssd_advance_write_pointer` once the open line is used up. */
    method OpenNextLine() returns (ok: bool)
      requires Valid() && MayAdvance(Model()) && LastOfLine(g, wp)
      modifies this`curline, this`wp, lm.Repr()
      ensures ok ==> Valid() && fresh(Repr() - old(Repr()))
      ensures var r := NextLine(old(Model())); if ok then r == Ok(Model()) else r.Aborted?
    {
      hide Valid, Model, CloseLine;
      PointerAt();
      ghost var s := Model();
      ClosedFree(s.g, s.lm, curline);
      CloseCurline();
      ok := OpenFreeLine();
    }

    // ----- Garbage collection -----------------------------------------------------------

    /** `gc_write_page`, with its assertion that the reverse map names a logical page. */
    method GcWritePage(from: Ppa) returns (ok: bool)
      requires Valid() && g.ValidPpa(from) && MayMove(Model(), from)
      modifies Repr()
      ensures ok ==> Valid() && fresh(Repr() - old(Repr()))
      ensures var r := FtlStates.GcWritePage(old(Model()), from); if ok then r == Ok(Model()) else r.Aborted?
    {
      var lpn := rmap[g.RmapIdx(from)];
      assert lpn.Some? && lpn.value < g.TtPgs();
      PlacePage(lpn.value);
      ok := AdvanceWritePointer();
    }

    /** `pg_iter->status`. */
    function PageStatus(a: Ppa): (x: PgStatus)
      requires Valid() && g.ValidPpa(a)
      reads this, Repr()
      ensures a in Model().nand.status && x == Model().nand.status[a]
    {
      nand.status[a.ch, a.lun, a.blk, a.pg]
    }

    /** One iteration of the loop in `clean_one_block`; `live` tells whether the page was moved. */
    method VisitPage(a: Ppa, ghost s0: Ssd, ghost v: nat, ghost k: nat, ghost m: set<Ppa>)
      returns (ok: bool, live: bool)
      requires Valid() && PageDue(s0, Model(), v, k, m, a) && Programmed(s0.nand.status, v)
      modifies Repr()
      ensures LiveCount(s0.nand.status, a) == if live then 1 else 0
      ensures ok ==> Valid() && fresh(Repr() - old(Repr()))
      ensures var r := CopyPage(old(Model()), a); if ok then r == Ok(Model()) else r.Aborted?
    {
      hide Sound, Changed, MayMove, FtlStates.GcWritePage, Valid, Model, PageDue;
      DueStatus(s0, Model(), v, k, m, a);
      DuePage(s0, Model(), v, k, m, a);
      var status := PageStatus(a);
      assert status != PgFree;
      ok, live := true, status == PgValid;
      if live {
        DuePageMayMove(s0, Model(), v, k, m, a);
        ok := GcWritePage(a);
      }
    }

    /** The page with index pg of block b, the pages below it having been visited. */
    method VisitNext(b: Blk, pg: nat, ghost start: Ssd, ghost s0: Ssd, ghost v: nat, ghost k: nat)
      returns (ok: bool, live: bool)
      requires Shape(start) && start.g.ValidBlk(b) && pg < start.g.pgsPerBlk && Valid()
      requires BlkStart(s0, start, v, k, b) && Programmed(s0.nand.status, v)
      requires CopyPages(start, b, pg) == Ok(Model())
      modifies Repr()
      ensures |CopiedInBlk(s0.nand.status, b, pg + 1)|
              == |CopiedInBlk(s0.nand.status, b, pg)| + if live then 1 else 0
      ensures ok ==> Valid() && fresh(Repr() - old(Repr()))
      ensures var r := CopyPages(start, b, pg + 1); if ok then r == Ok(Model()) else r.Aborted?
    {
      hide Sound, Changed, CopyPage, CopiedInBlk, PageDue, CopiedOut, LiveCount;
      PageReady(s0, start, v, k, b, pg, Model());
      CopyUnfolds(start, b, pg, Model());
      ok, live := VisitPage(Ppa(b.ch, b.lun, b.blk, pg), s0, v, k, CopiedInBlk(s0.nand.status, b, pg));
    }

    /** The loop of `clean_one_block` over the pages of block b; cnt counts the live ones. */
    method CopyLivePages(b: Blk, ghost start: Ssd, ghost s0: Ssd, ghost v: nat, ghost k: nat, ghost goal: Run)
      returns (ok: bool, cnt: nat)
      requires Shape(start) && start.g.ValidBlk(b) && Valid() && start == Model()
      requires BlkStart(s0, start, v, k, b) && Programmed(s0.nand.status, v)
      requires goal == CopyPages(start, b, start.g.pgsPerBlk)
      modifies Repr()
      ensures ok ==> Valid() && fresh(Repr() - old(Repr()))
      ensures if ok then goal == Ok(Model()) else goal.Aborted?
      ensures ok ==> cnt == |CopiedInBlk(s0.nand.status, b, g.pgsPerBlk)|
    {
      hide BlkStart, Shape, CopyPage, CopyPages, CopiedInBlk, Programmed, Valid, Model;
      ok, cnt := true, 0;
      NothingCopiedYet(s0.nand.status, b);
      NoPageCopied(start, b);
      for pg := 0 to g.pgsPerBlk
        invariant ok && Valid() && fresh(Repr() - old(Repr()))
        invariant CopyPages(start, b, pg) == Ok(Model())
        invariant cnt == |CopiedInBlk(s0.nand.status, b, pg)|
      {
        var live;
        ok, live := VisitNext(b, pg, start, s0, v, k);
        if !ok {
          CopyStaysAborted(start, b, pg + 1, start.g.pgsPerBlk);
          return;
        }
        cnt := cnt + if live then 1 else 0;
      }
    }

    /** `clean_one_block`: moves out the live pages of block b of the victim line v. */
    method CleanOneBlock(b: Blk, ghost start: Ssd, ghost s0: Ssd, ghost v: nat, ghost k: nat, ghost goal: Run)
      returns (ok: bool)
      requires Shape(start) && start.g.ValidBlk(b) && Valid() && start == Model()
      requires BlkStart(s0, start, v, k, b) && Programmed(s0.nand.status, v)
      requires goal == CopyPages(start, b, start.g.pgsPerBlk)
      modifies Repr()
      ensures ok ==> Valid() && fresh(Repr() - old(Repr()))
      ensures if ok then goal == Ok(Model()) else goal.Aborted?
    {
      hide BlkStart, Shape, CopyPages, CopiedInBlk, Programmed;
      var cnt;
      ok, cnt := CopyLivePages(b, start, s0, v, k, goal);
      if ok {
        BlkCopied(s0, start, v, k, b, Model());
        assert nand.vpc[b.ch, b.lun, b.blk] == cnt;
      }
    }

    /** `mark_block_free`. */
    method MarkBlockFree(b: Blk, ghost start: Ssd)
      requires Valid() && g.ValidBlk(b) && start == Model() && b in start.nand.erases
      modifies nand.Repr
      ensures Valid() && Model() == start.(nand := EraseBlock(start.nand, b))
    {
      hide FtlStates.EraseBlock, LineManager.Valid, LineManager.View, NandArray.View;
      nand.Erase(b);
    }

    /** The body of the loops of `do_gc`: block (ch, lun) of line v, the k-th of the line. */
    method CleanBlockAt(ch: nat, lun: nat, line: nat, ghost s0: Ssd, ghost k: nat) returns (ok: bool)
      requires Valid() && ch < g.nchs && lun < g.lunsPerCh && line < g.TtLines() && k == BlkIdx(g, Blk(ch, lun, line))
      requires Sound(s0, line, {}) && s0.g == g && Programmed(s0.nand.status, line)
      requires k < g.BlksPerLine() && CleanBlocks(s0, line, k) == Ok(Model())
      modifies Repr()
      ensures ok ==> Valid() && fresh(Repr() - old(Repr()))
      ensures var r := CleanBlocks(s0, line, k + 1); if ok then r == Ok(Model()) else r.Aborted?
    {
      hide Sound, Changed, CopyPages, Programmed, LineCleaned, BlkStart, BlkAt, EraseBlock;
      var b := Blk(ch, lun, line);
      BlkIdxFindsBlk(g, b);
      CleanBlocksProgress(s0, line, k);
      NextBlkStart(s0, Model(), line, k, b);
      ok := CleanOneBlock(b, Model(), s0, line, k, CopyPages(Model(), b, g.pgsPerBlk));
      if ok {
        MarkBlockFree(b, Model());
      }
    }

    /** The channel and LUN loops of `do_gc`. */
    method CleanLine(line: nat, ghost s0: Ssd, ghost goal: Run) returns (ok: bool)
      requires Valid() && s0 == Model() && g.Positive() && line < g.TtLines()
      requires Sound(s0, line, {}) && Programmed(s0.nand.status, line)
      requires Shape(s0) && goal == CleanBlocks(s0, line, s0.g.BlksPerLine())
      modifies Repr()
      ensures ok ==> Valid() && fresh(Repr() - old(Repr()))
      ensures if ok then goal == Ok(Model()) else goal.Aborted?
    {
      hide Valid, Model, Sound, Programmed, CleanBlocks, Shape, BlkIdx, Geometry.BlksPerLine, Geometry.Positive;
      BlkIdxSteps(g, line);
      NoBlockCleaned(s0, line);
      ok := true;
      for ch := 0 to g.nchs
        invariant ok && Valid() && fresh(Repr() - old(Repr()))
        invariant BlkIdx(g, Blk(ch, 0, line)) <= g.BlksPerLine()
        invariant CleanBlocks(s0, line, BlkIdx(g, Blk(ch, 0, line))) == Ok(Model())
      {
        for lun := 0 to g.lunsPerCh
          invariant ok && Valid() && fresh(Repr() - old(Repr()))
          invariant BlkIdx(g, Blk(ch, lun, line)) <= g.BlksPerLine()
          invariant CleanBlocks(s0, line, BlkIdx(g, Blk(ch, lun, line))) == Ok(Model())
        {
          ghost var k := BlkIdx(g, Blk(ch, lun, line));
          BlkIdxFindsBlk(g, Blk(ch, lun, line));
          ok := CleanBlockAt(ch, lun, line, s0, k);
          if !ok {
            CleaningStaysAborted(s0, line, k + 1, g.BlksPerLine());
            return;
          }
        }
      }
    }

    /** `mark_line_free`. */
    method MarkLineFree(line: nat)
      requires Valid() && line < g.TtLines() && line !in Model().lm.victims
      modifies lm`free, lm`freeCnt, lm.vpc, lm.ipc
      ensures Valid() && Model() == old(Model()).(lm := FtlStates.MarkLineFree(old(Model()).lm, line))
    {
      lm.MarkFree(line);
    }

    /** `select_victim_line`. */
    method SelectVictim(force: bool, ghost start: Ssd) returns (found: bool, v: nat)
      requires Valid() && start == Model()
      modifies lm`victimCnt, lm.victimPq, lm.victimPq.d, lm.pos
      ensures Valid() && lm.victimPq.d == old(lm.victimPq.d)
      ensures found ==> Picks(start, force, v) && Model() == start.(lm := TakeVictim(start.lm, v))
      ensures !found ==> Model() == start && (start.lm.victims == {} || Spares(start, force, v))
    {
      found, v := lm.SelectVictim(force);
    }

    /** `do_gc`.  v is the line collected or, when a victim is spared, that victim. */
    method DoGc(force: bool, ghost start: Ssd) returns (outcome: GcOutcome, v: nat)
      requires Valid() && start == Model() && Inv(start)
      modifies Repr()
      ensures !outcome.NoSpace? ==> Valid() && fresh(Repr() - old(Repr()))
      ensures outcome.NoVictim? ==> Model() == start && (start.lm.victims == {} || Spares(start, force, v))
      ensures !outcome.NoVictim? ==> Picks(start, force, v)
      ensures outcome.Cleaned? ==> CollectLine(start, v) == Ok(Model())
      ensures outcome.NoSpace? ==> CollectLine(start, v).Aborted?
    {
      hide Valid, Model, Inv, Picks, Spares, CollectLine, FtlStates.MarkLineFree;
      var found;
      found, v := SelectVictim(force, start);
      if !found {
        return NoVictim, v;
      }
      PickMayBeCleaned(start, force, v);
      var ok := CleanLine(v, Model(), CleanBlocks(Model(), v, g.BlksPerLine()));
      if !ok {
        return NoSpace, v;
      }
      CleanedMayBeFreed(start, v, Model());
      MarkLineFree(v);
      outcome := Cleaned;
    }

    /** `while (should_gc_high(ssd)) { r = do_gc(ssd, true); if (r == -1) break; }` */
    method ForcedGc(ghost start: Ssd) returns (ok: bool, ghost picks: seq<nat>)
      requires Valid() && start == Model() && Inv(start)
      modifies Repr()
      ensures ok ==> Valid() && fresh(Repr() - old(Repr())) && Inv(Model())
      ensures ForcedPicks(start, picks)
      ensures if ok then CollectAll(start, picks) == Ok(Model()) else CollectAll(start, picks).Aborted?
    {
      hide Valid, Model, Inv, Picks, Spares, CollectLine, CollectAll, Shape, LeastValid, ShouldGcHigh,
           ForcedSoFar, ForcedPicks, WithStatus, Geometry.TtLines;
      NoPicks(start);
      ok, picks := true, [];
      while ShouldGcHighNow()
        invariant ok && Valid() && fresh(Repr() - old(Repr())) && Inv(Model())
        invariant ForcedSoFar(start, picks) && CollectAll(start, picks) == Ok(Model())
        decreases |WithStatus(Model().nand.status, PgInvalid)|
      {
        ghost var s := Model();
        var outcome, v := DoGc(true, s);
        if outcome.NoVictim? {
          NeverSpared(s, v);
          break;
        }
        PickedIsLeast(s, true, v);
        OneMorePick(start, picks, s, v);
        picks := picks + [v];
        if outcome.NoSpace? {
          PicksAreForced(start, picks);
          return false, picks;
        }
        RoundOfLoop(s, true, v, Model());
      }
      PicksAreForced(start, picks);
    }

    /** `should_gc_high`. */
    predicate ShouldGcHighNow()
      requires Valid()
      reads this, Repr()
      ensures ShouldGcHighNow() <==> ShouldGcHigh(Model())
    {
      lm.freeCnt <= g.gcThresLinesHigh
    }

    /** `should_gc`. */
    predicate ShouldGcNow()
      requires Valid()
      reads this, Repr()
      ensures ShouldGcNow() <==> ShouldGc(Model())
    {
      lm.freeCnt <= g.gcThresLines
    }

    // ----- Host writes ----------------------------------------------------------------------

    /** `if (mapped_ppa(&ppa)) { mark_page_invalid(...); set_rmap_ent(...); }` */
    method DropOldCopy(lpn: nat, ghost start: Ssd)
      requires Valid() && start == Model() && MayWrite(start, lpn)
      modifies rmap, nand.Repr, lm.Repr()
      ensures Valid() && fresh(Repr() - old(Repr()))
      ensures Model() == Dropped(start, lpn)
    {
      hide Valid, Model, Shape, MayWrite, MayDrop, Dropped, FtlStates.DropOld;
      DropIfMapped(start, lpn);
      var was := MappedTo(lpn);
      if was.Some? {
        DropOld(was.value);
      }
    }

    /** One iteration of the loop of `ssd_write`. */
    method WritePage(lpn: nat, ghost start: Ssd, ghost goal: Run) returns (ok: bool)
      requires Valid() && start == Model() && MayWrite(start, lpn) && goal == FtlStates.WritePage(start, lpn)
      modifies Repr()
      ensures ok ==> Valid() && fresh(Repr() - old(Repr()))
      ensures if ok then goal == Ok(Model()) else goal.Aborted?
    {
      hide Valid, Model, MayWrite, MayProgram, MayAdvance, Dropped, FtlStates.PlacePage, FtlStates.WritePage,
           FtlStates.AdvanceWritePointer;
      WriteInTwo(start, lpn);
      DropOldCopy(lpn, start);
      PlacePage(lpn);
      ok := AdvanceWritePointer();
    }

    /** `get_maptbl_ent`. */
    function MappedTo(lpn: nat): (a: Option<Ppa>)
      requires Valid() && lpn < |Model().maptbl|
      reads this, Repr()
      ensures a == Model().maptbl[lpn]
    {
      maptbl[lpn]
    }

    function MapSize(): (n: nat)
      requires Valid()
      reads this, Repr()
      ensures n == |Model().maptbl|
    {
      maptbl.Length
    }

    /** The loop of `ssd_write`. */
    method WritePages(lpn: nat, n: nat, ghost start: Ssd) returns (outcome: WriteOutcome)
      requires Valid() && start == Model() && Inv(start)
      modifies Repr()
      ensures outcome.Written? ==> Valid() && fresh(Repr() - old(Repr())) && Inv(Model()) && Shape(start)
      ensures var r := FtlStates.WritePages(start, lpn, n);
              match outcome case Written => r == Ok(Model()) case OutOfSpace => r.Aborted? case OutOfTable => r.Fault?
    {
      hide Valid, Model, Inv, FtlStates.WritePage, MayWrite, Shape;
      NoPageWritten(start, lpn);
      for i := 0 to n
        invariant Valid() && fresh(Repr() - old(Repr())) && Inv(Model())
        invariant FtlStates.WritePages(start, lpn, i) == Ok(Model())
      {
        ghost var s := Model();
        MapKeepsLength(start, s);
        if lpn + i >= MapSize() {
          WritingPastEnd(start, lpn, i, n);
          return OutOfTable;
        }
        NextPageMayBeWritten(start, lpn, i, s);
        var ok := WritePage(lpn + i, s, FtlStates.WritePage(s, lpn + i));
        if !ok {
          WritingStaysAborted(start, lpn, i + 1, n);
          return OutOfSpace;
        }
      }
      outcome := Written;
    }

    /** `ssd_write`. */
    method Write(slba: nat, nlb: Sectors, ghost start: Ssd) returns (outcome: WriteOutcome, ghost picks: seq<nat>)
      requires Valid() && start == Model() && Inv(start)
      modifies Repr()
      ensures outcome.Written? ==> Valid() && fresh(Repr() - old(Repr())) && Inv(Model())
      ensures ForcedPicks(start, picks)
      ensures var r := Serve(start, WriteReq(slba, nlb, picks));
              match outcome case Written => r == Ok(Model()) case OutOfSpace => r.Aborted? case OutOfTable => r.Fault?
      ensures outcome.Written? ==>
                forall l: nat :: l in MappedLpns(Model()) <==>
                                 l in MappedLpns(start) || WritesTo(g, WriteReq(slba, nlb, picks), l)
      ensures outcome.OutOfTable? ==> slba + nlb > g.TtPgs() * g.secsPerPg
    {
      hide Valid, Model, Inv, CollectAll, FtlStates.WritePages, Shape, ForcedPicks, MappedLpns, WritesTo, Geometry.TtPgs;
      RequestHasPages(start, slba, nlb);
      var lpn := slba / g.secsPerPg;
      var n := (slba + nlb - 1) / g.secsPerPg - lpn + 1;
      var ok;
      ok, picks := ForcedGc(start);
      outcome := OutOfSpace;
      if ok {
        outcome := WritePages(lpn, n, Model());
      }
      WrittenPages(start, WriteReq(slba, nlb, picks));
    }

    /** One round of `ftl_thread`: serve a request, then clean one line if needed. */
    method Round(write: bool, slba: nat, nlb: Sectors, ghost start: Ssd) returns (outcome: WriteOutcome, ghost op: Op)
      requires Valid() && start == Model() && Inv(start)
      modifies Repr()
      ensures outcome.Written? ==> Valid() && fresh(Repr() - old(Repr())) && Inv(Model())
      ensures if write then op.req.WriteReq? && op.req.slba == slba && op.req.nlb == nlb else op.req.OtherReq?
      ensures Possible(start, op)
      ensures var r := Step(start, op);
              match outcome case Written => r == Ok(Model()) case OutOfSpace => r.Aborted? case OutOfTable => r.Fault?
      ensures outcome.Written? ==> Serve(start, op.req).Ok? && BackgroundDone(Serve(start, op.req).s, Model())
    {
      hide Valid, Model, Inv, Shape, Serve, CollectLine, ForcedPicks, Picks, Spares, ShouldGc, MappedLpns, BackgroundDone;
      outcome, op := Written, Op(OtherReq, None);
      if write {
        ghost var picks;
        outcome, picks := Write(slba, nlb, start);
        op := Op(WriteReq(slba, nlb, picks), None);
      } else {
        OtherRequestsKeep(start);
      }
      if !outcome.Written? {
        return;
      }
      ghost var s := Model();
      if !ShouldGcNow() {
        NoBackground(s, 0);
        RoundReclaims(start, op);
        return;
      }
      var gc, v := DoGc(false, s);
      if gc.NoVictim? {
        NoBackground(s, v);
        RoundReclaims(start, op);
        return;
      }
      op := op.(background := Some(v));
      BackgroundPicked(s, v);
      if gc.Cleaned? {
        RoundOfLoop(s, false, v, Model());
        RoundReclaims(start, op);
      } else {
        outcome := OutOfSpace;
      }
    }

    /** The loop of `ftl_thread` over a sequence of requests: on a provisioned device it never
        calls abort(). */
    method ServeAll(reqs: seq<HostRequest>, ghost used: set<nat>)
      requires Valid() && Steady(Model(), used) && forall i :: 0 <= i < |reqs| ==> Tolerable(g, reqs[i], used)
      modifies Repr()
      ensures Valid() && fresh(Repr() - old(Repr())) && Steady(Model(), used)
    {
      hide Valid, Model, Steady, Tolerable, Possible, Step, BackgroundDone, Serve, Inv;
      for i := 0 to |reqs|
        invariant Valid() && fresh(Repr() - old(Repr())) && Steady(Model(), used)
      {
        ghost var s := Model();
        SteadyShape(s, used);
        ghost var op;
        var outcome;
        outcome, op := Round(reqs[i].write, reqs[i].slba, reqs[i].nlb, s);
        RoundIsSteady(s, reqs[i], op, used);
      }
    }
  }
}
