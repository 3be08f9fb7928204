/** The black-box flash translation layer of femu/bbssd/ftl.c as a value, with one
    function per C function that changes it.  NAND latencies are not modelled.

    `pqueue_pop` may break ties between lines of equal `vpc` either way, so the
    victim line is an argument of the functions that collect garbage; class `Ftl`
    takes it from the heap. */
module FtlStates {
  import opened Wrappers
  import opened Arithmetic
  import opened Geometries
  import opened Queues

  datatype PgStatus = PgFree | PgInvalid | PgValid

  /** The NAND array: page states and the counters of `struct nand_block`. */
  datatype Nand = Nand(
    status: map<Ppa, PgStatus>, vpc: map<Blk, int>, ipc: map<Blk, int>, erases: map<Blk, int>)

  /** `struct line_mgmt` and the line counters; `victims` is the content of the heap. */
  datatype LineMgmt = LineMgmt(
    vpc: seq<nat>, ipc: seq<nat>,
    free: seq<nat>, full: seq<nat>, victims: set<nat>,
    freeCnt: int, fullCnt: int, victimCnt: int)

  /** `struct write_pointer`: the open line and the next page to program. */
  datatype WritePointer = WritePointer(curline: nat, page: Ppa)

  datatype Ssd = Ssd(
    g: Geometry, maptbl: seq<Option<Ppa>>, rmap: seq<Option<nat>>,
    nand: Nand, lm: LineMgmt, wp: WritePointer)

  /** The C code continues, calls abort() for want of a free line, or violates an
      `ftl_assert` and indexes out of a table. */
  datatype Run = Ok(s: Ssd) | Aborted | Fault

  ghost function AllPages(g: Geometry): (r: set<Ppa>)
    ensures forall a :: a in r <==> g.ValidPpa(a)
  {
    set ch, lun, blk, pg | 0 <= ch < g.nchs && 0 <= lun < g.lunsPerCh && 0 <= blk < g.blksPerPl && 0 <= pg < g.pgsPerBlk
      :: Ppa(ch, lun, blk, pg)
  }

  ghost function AllBlks(g: Geometry): (r: set<Blk>)
    ensures forall b :: b in r <==> g.ValidBlk(b)
  {
    set ch, lun, blk | 0 <= ch < g.nchs && 0 <= lun < g.lunsPerCh && 0 <= blk < g.blksPerPl :: Blk(ch, lun, blk)
  }

  /** Blank pages and zero counters. */
  ghost function BlankNand(g: Geometry): Nand {
    var zero := map b | b in AllBlks(g) :: 0;
    Nand(map a | a in AllPages(g) :: PgFree, zero, zero, zero)
  }

  // ----- Well-formedness: what indexing needs ------------------------------------

  ghost predicate NandShape(g: Geometry, n: Nand) {
    && (forall a :: a in n.status <==> g.ValidPpa(a))
    && (forall b :: b in n.vpc <==> g.ValidBlk(b))
    && n.ipc.Keys == n.vpc.Keys && n.erases.Keys == n.vpc.Keys
  }

  ghost predicate LineShape(g: Geometry, lm: LineMgmt) {
    |lm.vpc| == g.TtLines() && |lm.ipc| == g.TtLines()
  }

  ghost predicate WpShape(g: Geometry, wp: WritePointer) {
    g.ValidPpa(wp.page) && wp.page.blk == wp.curline
  }

  ghost predicate Shape(s: Ssd) {
    var g := s.g;
    && g.Positive() && NandShape(g, s.nand) && LineShape(g, s.lm) && WpShape(g, s.wp)
    && |s.maptbl| == g.TtPgs() && |s.rmap| == g.TtPgs()
  }

  // ----- Page and line bookkeeping -----------------------------------------------

  /** Page and block part of `mark_page_invalid`. */
  function InvalidatePage(n: Nand, a: Ppa): Nand
    requires BlkOf(a) in n.vpc && BlkOf(a) in n.ipc
  {
    var b := BlkOf(a);
    n.(status := n.status[a := PgInvalid], ipc := n.ipc[b := n.ipc[b] + 1], vpc := n.vpc[b := n.vpc[b] - 1])
  }

  /** Line part of `mark_page_invalid`: a full line becomes a victim. */
  function InvalidateInLine(g: Geometry, lm: LineMgmt, l: nat): LineMgmt
    requires l < |lm.vpc| && l < |lm.ipc| && lm.vpc[l] > 0
  {
    var lm1 := lm.(ipc := lm.ipc[l := lm.ipc[l] + 1], vpc := lm.vpc[l := lm.vpc[l] - 1]);
    if lm.vpc[l] == g.PgsPerLine() then
      lm1.(full := Without(lm.full, l), fullCnt := lm.fullCnt - 1,
           victims := lm.victims + {l}, victimCnt := lm.victimCnt + 1)
    else
      lm1
  }

  /** `mark_page_invalid`. */
  function MarkPageInvalid(s: Ssd, a: Ppa): Ssd
    requires Shape(s) && s.g.ValidPpa(a) && s.lm.vpc[a.blk] > 0
  {
    s.(nand := InvalidatePage(s.nand, a), lm := InvalidateInLine(s.g, s.lm, a.blk))
  }

  /** Page and block part of `mark_page_valid`. */
  function ProgramPage(n: Nand, a: Ppa): Nand
    requires BlkOf(a) in n.vpc
  {
    n.(status := n.status[a := PgValid], vpc := n.vpc[BlkOf(a) := n.vpc[BlkOf(a)] + 1])
  }

  /** `mark_page_valid`. */
  function MarkPageValid(s: Ssd, a: Ppa): Ssd
    requires Shape(s) && s.g.ValidPpa(a)
  {
    s.(nand := ProgramPage(s.nand, a), lm := s.lm.(vpc := s.lm.vpc[a.blk := s.lm.vpc[a.blk] + 1]))
  }

  /** The used-up open line l becomes a full line or a victim. */
  function CloseLine(g: Geometry, lm: LineMgmt, l: nat): LineMgmt
    requires l < |lm.vpc|
  {
    if lm.vpc[l] == g.PgsPerLine() then
      lm.(full := lm.full + [l], fullCnt := lm.fullCnt + 1)
    else
      lm.(victims := lm.victims + {l}, victimCnt := lm.victimCnt + 1)
  }

  /** `get_next_free_line` on a list that is not empty. */
  function TakeFreeLine(lm: LineMgmt): LineMgmt
    requires lm.free != []
  {
    lm.(free := lm.free[1..], freeCnt := lm.freeCnt - 1)
  }

  /** The end of `ssd_advance_write_pointer`: the open line is used up. */
  function NextLine(s: Ssd): (r: Run)
    requires Shape(s)
    ensures r.Ok? ==> Shape(r.s) && r.s.g == s.g
  {
    var lm := CloseLine(s.g, s.lm, s.wp.curline);
    if lm.free == [] then Aborted
    else if lm.free[0] >= s.g.TtLines() then Fault
    else Ok(s.(lm := TakeFreeLine(lm), wp := WritePointer(lm.free[0], Ppa(0, 0, lm.free[0], 0))))
  }

  /** `ssd_advance_write_pointer`. */
  function AdvanceWritePointer(s: Ssd): (r: Run)
    requires Shape(s)
    ensures r.Ok? ==> Shape(r.s) && r.s.g == s.g
  {
    var p := s.wp.page;
    if p.ch + 1 < s.g.nchs then Ok(s.(wp := s.wp.(page := p.(ch := p.ch + 1))))
    else if p.lun + 1 < s.g.lunsPerCh then Ok(s.(wp := s.wp.(page := p.(ch := 0, lun := p.lun + 1))))
    else if p.pg + 1 < s.g.pgsPerBlk then Ok(s.(wp := s.wp.(page := p.(ch := 0, lun := 0, pg := p.pg + 1))))
    else NextLine(s)
  }

  /** Map a logical page to the page under the write pointer and program that page. */
  function PlacePage(s: Ssd, lpn: nat): Ssd
    requires Shape(s) && lpn < |s.maptbl|
  {
    MarkPageValid(s.(maptbl := s.maptbl[lpn := Some(s.wp.page)],
                     rmap := s.rmap[s.g.RmapIdx(s.wp.page) := Some(lpn)]), s.wp.page)
  }

  // ----- Host writes ---------------------------------------------------------------

  /** The old copy of a logical page dies: `mark_page_invalid` and its reverse-map entry. */
  function DropOld(s: Ssd, a: Ppa): Ssd
    requires Shape(s) && s.g.ValidPpa(a) && s.lm.vpc[a.blk] > 0
  {
    MarkPageInvalid(s, a).(rmap := s.rmap[s.g.RmapIdx(a) := None])
  }

  /** One iteration of the loop in `ssd_write`. */
  function WritePage(s: Ssd, lpn: nat): (r: Run)
    requires Shape(s)
    ensures r.Ok? ==> Shape(r.s) && r.s.g == s.g
  {
    if lpn >= |s.maptbl| then Fault
    else if s.maptbl[lpn].None? then AdvanceWritePointer(PlacePage(s, lpn))
    else
      var a := s.maptbl[lpn].value;
      if !s.g.ValidPpa(a) || s.lm.vpc[a.blk] == 0 then Fault
      else AdvanceWritePointer(PlacePage(DropOld(s, a), lpn))
  }

  /** The loop in `ssd_write` over n logical pages. */
  function WritePages(s: Ssd, lpn: nat, n: nat): (r: Run)
    requires Shape(s)
    ensures r.Ok? ==> Shape(r.s) && r.s.g == s.g
  {
    if n == 0 then Ok(s)
    else
      var r := WritePages(s, lpn, n - 1);
      if r.Ok? then WritePage(r.s, lpn + n - 1) else r
  }

  // ----- Garbage collection --------------------------------------------------------

  /** `gc_write_page`. */
  function GcWritePage(s: Ssd, from: Ppa): (r: Run)
    requires Shape(s) && s.g.ValidPpa(from)
    ensures r.Ok? ==> Shape(r.s) && r.s.g == s.g
  {
    var lpn := s.rmap[s.g.RmapIdx(from)];
    if lpn.None? || lpn.value >= |s.maptbl| then Fault
    else AdvanceWritePointer(PlacePage(s, lpn.value))
  }

  /** One iteration of the loop in `clean_one_block`. */
  function CopyPage(s: Ssd, a: Ppa): (r: Run)
    requires Shape(s) && s.g.ValidPpa(a)
    ensures r.Ok? ==> Shape(r.s) && r.s.g == s.g
  {
    if s.nand.status[a] == PgValid then GcWritePage(s, a) else Ok(s)
  }

  /** `clean_one_block`, its first n pages: copy out the valid ones. */
  function CopyPages(s: Ssd, b: Blk, n: nat): (r: Run)
    requires Shape(s) && s.g.ValidBlk(b) && n <= s.g.pgsPerBlk
    ensures r.Ok? ==> Shape(r.s) && r.s.g == s.g
  {
    if n == 0 then Ok(s)
    else
      var r := CopyPages(s, b, n - 1);
      if r.Ok? then CopyPage(r.s, Ppa(b.ch, b.lun, b.blk, n - 1)) else r
  }

  /** `mark_block_free`. */
  function EraseBlock(n: Nand, b: Blk): Nand
    requires b in n.erases
  {
    n.(status := map a | a in n.status :: if BlkOf(a) == b then PgFree else n.status[a],
       ipc := n.ipc[b := 0], vpc := n.vpc[b := 0], erases := n.erases[b := n.erases[b] + 1])
  }

  /** `clean_one_block` and `mark_block_free`. */
  function CleanBlock(s: Ssd, b: Blk): (r: Run)
    requires Shape(s) && s.g.ValidBlk(b)
    ensures r.Ok? ==> Shape(r.s) && r.s.g == s.g
  {
    var r := CopyPages(s, b, s.g.pgsPerBlk);
    if r.Ok? then Ok(r.s.(nand := EraseBlock(r.s.nand, b))) else r
  }

  /** The k-th block of a line in the order in which `do_gc` visits them. */
  function BlkAt(g: Geometry, line: nat, k: nat): (b: Blk)
    requires g.Positive() && line < g.TtLines() && k < g.BlksPerLine()
    ensures g.ValidBlk(b)
  {
    assert g.lunsPerCh * g.nchs == g.nchs * g.lunsPerCh;
    DivBelow(k, g.nchs, g.lunsPerCh);
    Blk(k / g.lunsPerCh, k % g.lunsPerCh, line)
  }

  /** The nested channel and LUN loops of `do_gc`, first k blocks. */
  function CleanBlocks(s: Ssd, v: nat, k: nat): (r: Run)
    requires Shape(s) && v < s.g.TtLines() && k <= s.g.BlksPerLine()
    ensures r.Ok? ==> Shape(r.s) && r.s.g == s.g
  {
    if k == 0 then Ok(s)
    else
      var r := CleanBlocks(s, v, k - 1);
      if r.Ok? then CleanBlock(r.s, BlkAt(s.g, v, k - 1)) else r
  }

  /** `mark_line_free`. */
  function MarkLineFree(lm: LineMgmt, l: nat): LineMgmt
    requires l < |lm.vpc| && l < |lm.ipc|
  {
    lm.(ipc := lm.ipc[l := 0], vpc := lm.vpc[l := 0], free := lm.free + [l], freeCnt := lm.freeCnt + 1)
  }

  /** `select_victim_line` once the heap has named v. */
  function TakeVictim(lm: LineMgmt, v: nat): LineMgmt {
    lm.(victims := lm.victims - {v}, victimCnt := lm.victimCnt - 1)
  }

  /** v may be at the root of the heap. */
  ghost predicate LeastValid(lm: LineMgmt, v: nat) {
    && v in lm.victims && v < |lm.vpc|
    && (forall l :: l in lm.victims && l < |lm.vpc| ==> lm.vpc[v] <= lm.vpc[l])
  }

  /** The threshold test of `select_victim_line`. */
  predicate WorthCleaning(g: Geometry, lm: LineMgmt, v: nat, force: bool)
    requires v < |lm.ipc|
  {
    force || lm.ipc[v] >= g.PgsPerLine() / 8
  }

  /** `do_gc` once the victim is chosen. */
  function CollectLine(s: Ssd, v: nat): (r: Run)
    requires Shape(s) && v < s.g.TtLines()
    ensures r.Ok? ==> Shape(r.s) && r.s.g == s.g
  {
    var r := CleanBlocks(s.(lm := TakeVictim(s.lm, v)), v, s.g.BlksPerLine());
    if r.Ok? then Ok(r.s.(lm := MarkLineFree(r.s.lm, v))) else r
  }

  predicate ShouldGc(s: Ssd) { s.lm.freeCnt <= s.g.gcThresLines }
  predicate ShouldGcHigh(s: Ssd) { s.lm.freeCnt <= s.g.gcThresLinesHigh }
}
