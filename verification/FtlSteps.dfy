/** One programmed page: the invariant across a host page write and across the
    move of one live page by garbage collection, and what each costs in free pages. */
module FtlSteps {
  import opened Wrappers
  import opened Arithmetic
  import opened Geometries
  import opened Queues
  import opened FtlStates
  import opened FtlInvariants

  // ----- The striped write pointer ------------------------------------------------------

  predicate LastOfLine(g: Geometry, p: Ppa) {
    p.ch + 1 >= g.nchs && p.lun + 1 >= g.lunsPerCh && p.pg + 1 >= g.pgsPerBlk
  }

  lemma LastOfLineIsLast(g: Geometry, p: Ppa)
    requires g.Positive() && g.ValidPpa(p)
    ensures LastOfLine(g, p) <==> g.StripePos(p) + 1 == g.PgsPerLine()
  {
    var top := Ppa(g.nchs - 1, g.lunsPerCh - 1, p.blk, g.pgsPerBlk - 1);
    g.StripeInRange(p);
    g.StripeInRange(top);
    assert g.StripePos(top) + 1 == g.PgsPerLine() by { TopPos(g, top); }
    if g.StripePos(p) + 1 == g.PgsPerLine() {
      g.StripeInjective(p, top);
    }
  }

  lemma TopPos(g: Geometry, top: Ppa)
    requires g.Positive() && g.ValidPpa(top)
    requires top.ch == g.nchs - 1 && top.lun == g.lunsPerCh - 1 && top.pg == g.pgsPerBlk - 1
    ensures g.StripePos(top) + 1 == g.PgsPerLine()
  {
    var n, m, p := g.nchs, g.lunsPerCh, g.pgsPerBlk;
    assert (p - 1) * m + m - 1 == p * m - 1;
    assert (p * m - 1) * n + n == p * m * n;
    Geometry.Assoc(p, m, n);
  }

  /** Within a line each advance moves the stripe position by exactly one. */
  lemma AdvanceIsNextInStripe(s: Ssd)
    requires Shape(s) && !LastOfLine(s.g, s.wp.page)
    ensures AdvanceWritePointer(s).Ok?
    ensures var s' := AdvanceWritePointer(s).s;
            && s' == s.(wp := s'.wp) && WpShape(s.g, s'.wp) && s'.wp.curline == s.wp.curline
            && s.g.StripePos(s'.wp.page) == s.g.StripePos(s.wp.page) + 1
  {
    hide NandShape, LineShape, NextLine, Geometry.StripePos;
    NextPos(s.g, s.wp.page);
  }

  /** The next page in write order. */
  lemma NextPos(g: Geometry, p: Ppa)
    requires g.Positive() && g.ValidPpa(p)
    ensures p.ch + 1 < g.nchs ==> g.StripePos(p.(ch := p.ch + 1)) == g.StripePos(p) + 1
    ensures p.ch + 1 == g.nchs ==> g.StripePos(p.(ch := 0, lun := p.lun + 1)) == g.StripePos(p) + 1
    ensures p.ch + 1 == g.nchs && p.lun + 1 == g.lunsPerCh ==>
              g.StripePos(p.(ch := 0, lun := 0, pg := p.pg + 1)) == g.StripePos(p) + 1
  {
    var row := p.pg * g.lunsPerCh + p.lun;
    assert (row + 1) * g.nchs == row * g.nchs + g.nchs;
    if p.lun + 1 == g.lunsPerCh {
      assert (p.pg + 1) * g.lunsPerCh == row + 1;
    }
  }

  /** Advancing past a programmed page restores the fill level, costs one page of
      room, and aborts exactly when that was the last page of room. */
  lemma AdvanceKeepsInvariant(s: Ssd, dangling: Option<nat>)
    requires Consistent(s, dangling, s.g.StripePos(s.wp.page) + 1)
    ensures AdvanceWritePointer(s).Aborted? <==> Room(s) == 1
    ensures !AdvanceWritePointer(s).Fault?
    ensures AdvanceWritePointer(s).Ok? ==>
              var s' := AdvanceWritePointer(s).s;
              && Consistent(s', dangling, s'.g.StripePos(s'.wp.page))
              && s' == s.(lm := s'.lm, wp := s'.wp) && Room(s') == Room(s) - 1
  {
    var g, p := s.g, s.wp.page;
    g.StripeInRange(p);
    LastOfLineIsLast(g, p);
    RoomOfOne(s);
    if !LastOfLine(g, p) {
      AdvanceIsNextInStripe(s);
    } else {
      OpenLineCount(s, dangling, g.StripePos(p) + 1);
      if s.lm.free != [] {
        CloseKeepsPartition(g, s.lm, s.wp.curline, dangling);
        OpenNextLine(s, dangling);
        NextLineCostsOne(s);
      }
    }
  }

  lemma RoomOfOne(s: Ssd)
    requires Shape(s) && s.g.StripePos(s.wp.page) < s.g.PgsPerLine()
    ensures Room(s) == 1 <==> s.lm.free == [] && s.g.StripePos(s.wp.page) + 1 == s.g.PgsPerLine()
    ensures Room(s) >= 1
  {
    if s.lm.free != [] {
      MulAtLeast(|s.lm.free|, s.g.PgsPerLine());
    }
  }

  /** The used-up line leaves no free page behind; the line opened next is blank. */
  lemma OpenKeepsFilled(g: Geometry, n: Nand, lm: LineMgmt, cur: nat, dangling: Option<nat>)
    requires g.Positive() && NandShape(g, n) && LineShape(g, lm) && cur < g.TtLines() && lm.free != []
    requires Partition(g, lm, cur, dangling) && Filled(g, n.status, lm, cur, g.PgsPerLine())
    ensures Filled(g, n.status, TakeFreeLine(CloseLine(g, lm, cur)), lm.free[0], 0)
    ensures lm.free[0] < g.TtLines()
  {
    var l := lm.free[0];
    assert lm.free == [l] + lm.free[1..];
    assert Places(lm, cur, dangling, l) == if l < g.TtLines() then 1 else 0;
    forall a | a in n.status && a.blk == cur ensures n.status[a] != PgFree {
      g.StripeInRange(a);
    }
    assert forall x :: x in lm.free[1..] ==> x in lm.free;
  }

  lemma OpenNextLine(s: Ssd, dangling: Option<nat>)
    requires Consistent(s, dangling, s.g.PgsPerLine()) && s.lm.free != []
    requires var lm' := TakeFreeLine(CloseLine(s.g, s.lm, s.wp.curline));
             Partition(s.g, lm', s.lm.free[0], dangling) && Kinds(s.g, lm')
    ensures NextLine(s).Ok?
    ensures var s' := NextLine(s).s;
            Consistent(s', dangling, s'.g.StripePos(s'.wp.page)) && s' == s.(lm := s'.lm, wp := s'.wp)
  {
    hide Partition, Kinds, BlksCounted, Filled, NandShape;
    OpenKeepsFilled(s.g, s.nand, s.lm, s.wp.curline, dangling);
    var s' := NextLine(s).s;
    assert s.g.StripePos(s'.wp.page) == 0;
  }

  lemma NextLineCostsOne(s: Ssd)
    requires Shape(s) && NextLine(s).Ok?
    requires s.g.StripePos(s.wp.page) + 1 == s.g.PgsPerLine()
    ensures Room(NextLine(s).s) == Room(s) - 1
  {
    var s' := NextLine(s).s;
    assert s.lm.free == [s.lm.free[0]] + s'.lm.free;
    assert (|s'.lm.free| + 1) * s.g.PgsPerLine() == |s'.lm.free| * s.g.PgsPerLine() + s.g.PgsPerLine();
    assert s.g.StripePos(s'.wp.page) == 0;
  }

  // ----- Placing a page -------------------------------------------------------------------

  lemma PlaceKeepsMaps(s: Ssd, lpn: nat, moved: set<Ppa>)
    requires Shape(s) && lpn < |s.maptbl| && Maps(s, Some(lpn), moved)
    requires s.nand.status[s.wp.page] == PgFree && s.wp.page !in moved
    ensures Shape(PlacePage(s, lpn)) && Maps(PlacePage(s, lpn), None, moved)
  {
    var s', p := PlacePage(s, lpn), s.wp.page;
    forall l: nat | l < |s'.maptbl| && s'.maptbl[l].Some?
      ensures var a := s'.maptbl[l].value;
              a in s'.nand.status && s'.nand.status[a] == PgValid && a !in moved && s'.rmap[s.g.RmapIdx(a)] == Some(l)
    {
      if l != lpn {
        var a := s.maptbl[l].value;
        if s.g.RmapIdx(a) == s.g.RmapIdx(p) { s.g.PgIdxInjective(a, p); }
      }
    }
    forall a | a in s'.nand.status && s'.nand.status[a] == PgValid && a !in moved
      ensures var r := s'.rmap[s.g.RmapIdx(a)];
              r.Some? && r.value < |s'.maptbl| && s'.maptbl[r.value] == Some(a)
    {
      if a != p && s.g.RmapIdx(a) == s.g.RmapIdx(p) { s.g.PgIdxInjective(a, p); }
    }
  }

  lemma ProgramKeepsFilled(g: Geometry, n: Nand, lm: LineMgmt, lm': LineMgmt, wp: WritePointer, dangling: Option<nat>)
    requires g.Positive() && NandShape(g, n) && WpShape(g, wp)
    requires Partition(g, lm, wp.curline, dangling) && Filled(g, n.status, lm, wp.curline, g.StripePos(wp.page))
    requires lm' == lm.(vpc := lm'.vpc)
    ensures n.status[wp.page] == PgFree
    ensures Filled(g, n.status[wp.page := PgValid], lm', wp.curline, g.StripePos(wp.page) + 1)
    ensures Partition(g, lm', wp.curline, dangling)
    ensures dangling != Some(wp.curline) && wp.curline !in lm.full
  {
    var p, cur := wp.page, wp.curline;
    assert Places(lm, cur, dangling, cur) == 1;
    forall a | a in n.status && a.blk == cur && g.StripePos(a) == g.StripePos(p) ensures a == p {
      g.StripeInjective(a, p);
    }
    forall x: nat ensures Places(lm', cur, dangling, x) == if x < g.TtLines() then 1 else 0 {
      assert Places(lm, cur, dangling, x) == if x < g.TtLines() then 1 else 0;
    }
  }

  lemma PlaceKeepsConsistent(s: Ssd, lpn: nat, dangling: Option<nat>)
    requires Consistent(s, dangling, s.g.StripePos(s.wp.page)) && lpn < |s.maptbl|
    ensures s.nand.status[s.wp.page] == PgFree
    ensures Consistent(PlacePage(s, lpn), dangling, s.g.StripePos(s.wp.page) + 1)
    ensures Room(PlacePage(s, lpn)) == Room(s)
  {
    hide Partition, LinesCounted, BlksCounted, Filled, NandShape;
    var s' := PlacePage(s, lpn);
    ProgramKeepsFilled(s.g, s.nand, s.lm, s'.lm, s.wp, dangling);
    ProgramKeepsCounts(s, s.wp.page, dangling);
  }

  /** Placing lpn on the page under the write pointer fills one more stripe position. */
  lemma PlaceKeepsInvariant(s: Ssd, lpn: nat, dangling: Option<nat>, moved: set<Ppa>)
    requires Consistent(s, dangling, s.g.StripePos(s.wp.page)) && lpn < |s.maptbl|
    requires Maps(s, Some(lpn), moved) && s.wp.page !in moved
    ensures s.nand.status[s.wp.page] == PgFree
    ensures var s' := PlacePage(s, lpn);
            Consistent(s', dangling, s.g.StripePos(s.wp.page) + 1) && Maps(s', None, moved) && Room(s') == Room(s)
  {
    PlaceKeepsConsistent(s, lpn, dangling);
    PlaceKeepsMaps(s, lpn, moved);
  }

  // ----- One host page ----------------------------------------------------------------------

  /** A line that holds a valid page is counted, and is full only if its counter says so. */
  lemma LineOfValidPage(s: Ssd, a: Ppa)
    requires Inv(s) && a in s.nand.status && s.nand.status[a] == PgValid
    ensures s.lm.vpc[a.blk] > 0
    ensures s.lm.vpc[a.blk] == s.g.PgsPerLine() ==> a.blk in s.lm.full && s.lm.ipc[a.blk] == 0
    ensures 0 <= s.lm.ipc[a.blk] < s.g.PgsPerLine()
  {
    var l := a.blk;
    assert a in InLine(s.nand.status, l, PgValid);
    LineOccupancy(s.g, s.nand, l);
    assert Places(s.lm, s.wp.curline, None, l) == 1;
    if l == s.wp.curline {
      s.g.StripeInRange(s.wp.page);
      OpenLineCount(s, None, s.g.StripePos(s.wp.page));
    }
  }

  lemma DropKeepsMaps(s: Ssd, lpn: nat, a: Ppa)
    requires Shape(s) && Maps(s, None, {}) && lpn < |s.maptbl| && s.maptbl[lpn] == Some(a)
    requires s.g.ValidPpa(a) && s.lm.vpc[a.blk] > 0
    ensures Shape(DropOld(s, a)) && Maps(DropOld(s, a), Some(lpn), {})
  {
    var s' := DropOld(s, a);
    forall l: nat | l < |s'.maptbl| && l != lpn && s'.maptbl[l].Some?
      ensures var b := s'.maptbl[l].value;
              b in s'.nand.status && s'.nand.status[b] == PgValid && s'.rmap[s.g.RmapIdx(b)] == Some(l)
    {
      var b := s.maptbl[l].value;
      if s.g.RmapIdx(a) == s.g.RmapIdx(b) { s.g.PgIdxInjective(a, b); }
    }
    forall b | b in s'.nand.status && s'.nand.status[b] == PgValid
      ensures var r := s'.rmap[s.g.RmapIdx(b)];
              r.Some? && r != Some(lpn) && r.value < |s'.maptbl| && s'.maptbl[r.value] == Some(b)
    {
      if s.g.RmapIdx(a) == s.g.RmapIdx(b) { s.g.PgIdxInjective(a, b); }
    }
  }

  lemma DropKeepsFilled(g: Geometry, st: map<Ppa, PgStatus>, lm: LineMgmt, cur: nat, k: nat, a: Ppa)
    requires LineShape(g, lm) && Partition(g, lm, cur, None) && a.blk < g.TtLines() && lm.vpc[a.blk] > 0
    requires lm.vpc[a.blk] == g.PgsPerLine() ==> a.blk in lm.full
    requires Filled(g, st, lm, cur, k) && a in st && st[a] == PgValid
    ensures Filled(g, st[a := PgInvalid], InvalidateInLine(g, lm, a.blk), cur, k)
  {
    if a.blk in lm.full { WithoutElems(lm.full, a.blk); }
  }

  lemma DropKeepsConsistent(s: Ssd, a: Ppa)
    requires Inv(s) && a in s.nand.status && s.nand.status[a] == PgValid && s.lm.vpc[a.blk] > 0
    requires s.lm.vpc[a.blk] == s.g.PgsPerLine() ==> a.blk in s.lm.full
    requires s.lm.ipc[a.blk] >= 0
    ensures Consistent(DropOld(s, a), None, s.g.StripePos(s.wp.page))
    ensures Room(DropOld(s, a)) == Room(s)
  {
    hide Partition, Kinds, LinesCounted, BlksCounted, Filled, Maps, NandShape;
    StatusIsValid(s, a);
    InvalidateKeepsPartition(s.g, s.lm, s.wp.curline, a.blk);
    InvalidateKeepsCounts(s, a);
    DropKeepsFilled(s.g, s.nand.status, s.lm, s.wp.curline, s.g.StripePos(s.wp.page), a);
  }

  lemma StatusIsValid(s: Ssd, a: Ppa)
    requires Shape(s) && a in s.nand.status
    ensures s.g.ValidPpa(a)
  {
  }

  lemma PlacedThenAdvanced(s: Ssd, dangling: Option<nat>, moved: set<Ppa>)
    requires Consistent(s, dangling, s.g.StripePos(s.wp.page) + 1) && Maps(s, None, moved)
    ensures !AdvanceWritePointer(s).Fault? && (AdvanceWritePointer(s).Aborted? <==> Room(s) == 1)
    ensures AdvanceWritePointer(s).Ok? ==>
              var s' := AdvanceWritePointer(s).s;
              && Consistent(s', dangling, s'.g.StripePos(s'.wp.page)) && Maps(s', None, moved)
              && Room(s') == Room(s) - 1 && s' == s.(lm := s'.lm, wp := s'.wp)
  {
    AdvanceKeepsInvariant(s, dangling);
  }

  lemma PlaceAndAdvance(s: Ssd, lpn: nat)
    requires Consistent(s, None, s.g.StripePos(s.wp.page)) && lpn < |s.maptbl| && Maps(s, Some(lpn), {})
    ensures var r := AdvanceWritePointer(PlacePage(s, lpn));
            && !r.Fault? && (r.Aborted? <==> Room(s) == 1)
            && (r.Ok? ==> Inv(r.s) && Room(r.s) == Room(s) - 1 && r.s.maptbl == s.maptbl[lpn := Some(s.wp.page)])
  {
    PlaceKeepsInvariant(s, lpn, None, {});
    PlacedThenAdvanced(PlacePage(s, lpn), None, {});
  }

  lemma DropThenPlace(s: Ssd, lpn: nat, a: Ppa)
    requires Inv(s) && lpn < |s.maptbl| && s.maptbl[lpn] == Some(a)
    ensures s.g.ValidPpa(a) && s.lm.vpc[a.blk] > 0
    ensures var s1 := DropOld(s, a);
            && Consistent(s1, None, s.g.StripePos(s.wp.page)) && Maps(s1, Some(lpn), {})
            && Room(s1) == Room(s)
  {
    LineOfValidPage(s, a);
    DropKeepsMaps(s, lpn, a);
    DropKeepsConsistent(s, a);
  }

  lemma WriteFresh(s: Ssd, lpn: nat)
    requires Inv(s) && lpn < |s.maptbl| && s.maptbl[lpn].None?
    ensures Consistent(s, None, s.g.StripePos(s.wp.page)) && Maps(s, Some(lpn), {}) && Shape(s)
    ensures WritePage(s, lpn) == AdvanceWritePointer(PlacePage(s, lpn))
  {
  }

  /** One iteration of the write loop keeps the invariant, maps lpn to the page under the
      write pointer, uses up one page of room, and aborts exactly when only one was left. */
  lemma WritePageKeepsInvariant(s: Ssd, lpn: nat)
    requires Inv(s) && lpn < |s.maptbl|
    ensures var r := WritePage(s, lpn);
            && !r.Fault? && (r.Aborted? <==> Room(s) == 1)
            && (r.Ok? ==> Inv(r.s) && Room(r.s) == Room(s) - 1 && r.s.maptbl == s.maptbl[lpn := Some(s.wp.page)])
  {
    hide Inv, Shape, Consistent, Maps, AdvanceWritePointer, PlacePage, DropOld, Room;
    InvShape(s);
    if s.maptbl[lpn].Some? {
      var a := s.maptbl[lpn].value;
      DropThenPlace(s, lpn, a);
      DroppedTables(s, a);
      PlaceAndAdvance(DropOld(s, a), lpn);
    } else {
      WriteFresh(s, lpn);
      PlaceAndAdvance(s, lpn);
    }
  }

  lemma InvShape(s: Ssd)
    requires Inv(s)
    ensures Shape(s)
  {
  }

  lemma DroppedTables(s: Ssd, a: Ppa)
    requires Shape(s) && s.g.ValidPpa(a) && s.lm.vpc[a.blk] > 0
    ensures var s1 := DropOld(s, a);
            Shape(s1) && s1.maptbl == s.maptbl && s1.wp == s.wp && s1.g == s.g
  {
  }
}
