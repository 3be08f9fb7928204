/** What holds of the FTL state between operations, in pieces that the proofs
    treat one at a time: line partition, counters, fill level, page maps. */
module FtlInvariants {
  import opened Wrappers
  import opened Geometries
  import opened Queues
  import opened FtlStates

  // ----- Pages of a line and of a block by status -----------------------------------

  ghost function InLine(st: map<Ppa, PgStatus>, l: nat, x: PgStatus): set<Ppa> {
    set a | a in st && a.blk == l && st[a] == x
  }

  ghost function InBlk(st: map<Ppa, PgStatus>, b: Blk, x: PgStatus): set<Ppa> {
    set a | a in st && BlkOf(a) == b && st[a] == x
  }

  ghost function WithStatus(st: map<Ppa, PgStatus>, x: PgStatus): set<Ppa> {
    set a | a in st && st[a] == x
  }

  /** What setting one page to y adds to the number of pages with status z. */
  ghost function Delta(was: PgStatus, y: PgStatus, z: PgStatus): int {
    (if z == y then 1 else 0) - (if z == was then 1 else 0)
  }

  lemma CountFollowsMember<T>(x: set<T>, y: set<T>, a: T)
    requires x - {a} == y - {a}
    ensures |y| == |x| + (if a in y then 1 else 0) - (if a in x then 1 else 0)
  {
    assert x == x - {a} + if a in x then {a} else {};
    assert y == y - {a} + if a in y then {a} else {};
  }

  lemma LineFollowsPage(st: map<Ppa, PgStatus>, a: Ppa, y: PgStatus, z: PgStatus, l: nat)
    requires a in st
    ensures |InLine(st[a := y], l, z)| == |InLine(st, l, z)| + if l == a.blk then Delta(st[a], y, z) else 0
  {
    CountFollowsMember(InLine(st, l, z), InLine(st[a := y], l, z), a);
  }

  lemma BlkFollowsPage(st: map<Ppa, PgStatus>, a: Ppa, y: PgStatus, z: PgStatus, b: Blk)
    requires a in st
    ensures |InBlk(st[a := y], b, z)| == |InBlk(st, b, z)| + if b == BlkOf(a) then Delta(st[a], y, z) else 0
  {
    CountFollowsMember(InBlk(st, b, z), InBlk(st[a := y], b, z), a);
  }

  /** The first k pages of a line in write order. */
  ghost function Written(g: Geometry, st: map<Ppa, PgStatus>, l: nat, k: nat): set<Ppa> {
    set a | a in st && a.blk == l && g.StripePos(a) < k
  }

  lemma {:induction false} WrittenCount(g: Geometry, n: Nand, l: nat, k: nat)
    requires g.Positive() && NandShape(g, n) && l < g.TtLines() && k <= g.PgsPerLine()
    ensures |Written(g, n.status, l, k)| == k
  {
    if k == 0 {
      assert Written(g, n.status, l, k) == {};
    } else {
      WrittenCount(g, n, l, k - 1);
      var a := g.PageAt(l, k - 1);
      g.StripeSurjective(l, k - 1);
      assert Written(g, n.status, l, k) == Written(g, n.status, l, k - 1) + {a} by {
        forall b | b in Written(g, n.status, l, k) && g.StripePos(b) == k - 1 ensures b == a {
          g.StripeInjective(a, b);
        }
      }
    }
  }

  /** Free, invalid and valid pages make up the line. */
  lemma LineOccupancy(g: Geometry, n: Nand, l: nat)
    requires g.Positive() && NandShape(g, n) && l < g.TtLines()
    ensures |InLine(n.status, l, PgFree)| + |InLine(n.status, l, PgInvalid)| + |InLine(n.status, l, PgValid)|
            == g.PgsPerLine()
  {
    hide Written, InLine, Geometry.PgsPerLine;
    var st := n.status;
    WrittenCount(g, n, l, g.PgsPerLine());
    PagesOfLine(g, n, l);
    StatusesApart(st, l);
  }

  lemma PagesOfLine(g: Geometry, n: Nand, l: nat)
    requires g.Positive() && NandShape(g, n) && l < g.TtLines()
    ensures var st := n.status;
            Written(g, st, l, g.PgsPerLine()) == InLine(st, l, PgFree) + InLine(st, l, PgInvalid) + InLine(st, l, PgValid)
  {
    hide Geometry.PgsPerLine, Geometry.StripePos;
    forall a | a in n.status && a.blk == l ensures g.StripePos(a) < g.PgsPerLine() {
      g.StripeInRange(a);
    }
  }

  lemma StatusesApart(st: map<Ppa, PgStatus>, l: nat)
    ensures InLine(st, l, PgFree) !! InLine(st, l, PgInvalid)
    ensures (InLine(st, l, PgFree) + InLine(st, l, PgInvalid)) !! InLine(st, l, PgValid)
  {
  }

  ghost function BlkPrefix(b: Blk, k: nat): set<Ppa> {
    set i: nat | i < k :: Ppa(b.ch, b.lun, b.blk, i)
  }

  lemma {:induction false} BlkPrefixCount(b: Blk, k: nat)
    ensures |BlkPrefix(b, k)| == k
  {
    if k == 0 {
      assert BlkPrefix(b, k) == {};
    } else {
      BlkPrefixCount(b, k - 1);
      assert BlkPrefix(b, k) == BlkPrefix(b, k - 1) + {Ppa(b.ch, b.lun, b.blk, k - 1)};
    }
  }

  lemma BlkOccupancy(g: Geometry, n: Nand, b: Blk)
    requires NandShape(g, n) && g.ValidBlk(b)
    ensures |InBlk(n.status, b, PgFree)| + |InBlk(n.status, b, PgInvalid)| + |InBlk(n.status, b, PgValid)|
            == g.pgsPerBlk
  {
    var st := n.status;
    var f, i, v := InBlk(st, b, PgFree), InBlk(st, b, PgInvalid), InBlk(st, b, PgValid);
    BlkPrefixCount(b, g.pgsPerBlk);
    PagesOfBlk(g, st, b);
    assert f !! i && (f + i) !! v;
  }

  lemma PagesOfBlk(g: Geometry, st: map<Ppa, PgStatus>, b: Blk)
    requires (forall a :: a in st <==> g.ValidPpa(a)) && g.ValidBlk(b)
    ensures BlkPrefix(b, g.pgsPerBlk) == InBlk(st, b, PgFree) + InBlk(st, b, PgInvalid) + InBlk(st, b, PgValid)
  {
    var all := InBlk(st, b, PgFree) + InBlk(st, b, PgInvalid) + InBlk(st, b, PgValid);
    forall a ensures a in BlkPrefix(b, g.pgsPerBlk) <==> a in all {
      assert a == Ppa(a.ch, a.lun, a.blk, a.pg);
      assert a in st ==> st[a] == PgFree || st[a] == PgInvalid || st[a] == PgValid;
    }
  }

  // ----- The pieces of the invariant --------------------------------------------------

  /** The number of places a line is found in: the three line sets, the open line,
      and the line a collection has taken out of the heap (`dangling`). */
  ghost function Places(lm: LineMgmt, cur: nat, dangling: Option<nat>, l: nat): int {
    (if l in lm.free then 1 else 0) + (if l in lm.full then 1 else 0) + (if l in lm.victims then 1 else 0)
    + (if l == cur then 1 else 0) + (if dangling == Some(l) then 1 else 0)
  }

  /** Each line is in exactly one place, and the three counters match. */
  ghost predicate Partition(g: Geometry, lm: LineMgmt, cur: nat, dangling: Option<nat>) {
    var n := g.TtLines();
    && NoDup(lm.free) && NoDup(lm.full)
    && lm.freeCnt == |lm.free| && lm.fullCnt == |lm.full| && lm.victimCnt == |lm.victims|
    && forall l: nat :: Places(lm, cur, dangling, l) == if l < n then 1 else 0
  }

  /** Full lines hold only valid pages; victims hold an invalid one. */
  ghost predicate Kinds(g: Geometry, lm: LineMgmt) {
    && (forall l :: l in lm.full && l < |lm.vpc| ==> lm.vpc[l] == g.PgsPerLine())
    && (forall l :: l in lm.victims && l < |lm.ipc| ==> lm.ipc[l] >= 1)
  }

  /** Line counters count pages, except for a dangling line. */
  ghost predicate LinesCounted(g: Geometry, st: map<Ppa, PgStatus>, lm: LineMgmt, dangling: Option<nat>)
    requires LineShape(g, lm)
  {
    forall l: nat :: l < g.TtLines() && dangling != Some(l) ==>
      lm.vpc[l] == |InLine(st, l, PgValid)| && lm.ipc[l] == |InLine(st, l, PgInvalid)|
  }

  /** Block counters count pages. */
  ghost predicate BlksCounted(n: Nand)
    requires n.ipc.Keys == n.vpc.Keys
  {
    forall b :: b in n.vpc ==> n.vpc[b] == |InBlk(n.status, b, PgValid)| && n.ipc[b] == |InBlk(n.status, b, PgInvalid)|
  }

  /** Free lines are blank, full and victim lines have no free page left, and the
      open line is programmed exactly up to stripe position k. */
  ghost predicate Filled(g: Geometry, st: map<Ppa, PgStatus>, lm: LineMgmt, cur: nat, k: nat) {
    && (forall a :: a in st && a.blk in lm.free ==> st[a] == PgFree)
    && (forall a :: a in st && (a.blk in lm.full || a.blk in lm.victims) ==> st[a] != PgFree)
    && (forall a :: a in st && a.blk == cur ==> (st[a] == PgFree <==> g.StripePos(a) >= k))
  }

  /** The two maps are mutual inverses on live pages: `but` is a logical page whose
      entries are disregarded, `moved` holds pages of the victim line already copied
      out, which keep status VALID until their block is erased. */
  ghost predicate Maps(s: Ssd, but: Option<nat>, moved: set<Ppa>)
    requires Shape(s)
  {
    && (forall l: nat :: l < |s.maptbl| && but != Some(l) && s.maptbl[l].Some? ==>
          var a := s.maptbl[l].value;
          a in s.nand.status && s.nand.status[a] == PgValid && a !in moved && s.rmap[s.g.RmapIdx(a)] == Some(l))
    && (forall a :: a in s.nand.status && s.nand.status[a] == PgValid && a !in moved ==>
          var r := s.rmap[s.g.RmapIdx(a)];
          r.Some? && r != but && r.value < |s.maptbl| && s.maptbl[r.value] == Some(a))
  }

  /** Everything but the page maps, with a dangling line and fill level k. */
  ghost predicate Consistent(s: Ssd, dangling: Option<nat>, k: nat) {
    var g, cur := s.g, s.wp.curline;
    && Shape(s)
    && Partition(g, s.lm, cur, dangling) && Kinds(g, s.lm)
    && LinesCounted(g, s.nand.status, s.lm, dangling) && BlksCounted(s.nand)
    && Filled(g, s.nand.status, s.lm, cur, k)
  }

  /** The invariant between operations. */
  ghost predicate Inv(s: Ssd) {
    var k := s.g.StripePos(s.wp.page);
    Consistent(s, None, k) && Maps(s, None, {})
  }

  /** Pages that can still be programmed before a line has to be collected. */
  ghost function Room(s: Ssd): int {
    |s.lm.free| * s.g.PgsPerLine() + s.g.PgsPerLine() - s.g.StripePos(s.wp.page)
  }

  // ----- Partition -----------------------------------------------------------------------

  lemma InvalidateKeepsPartition(g: Geometry, lm: LineMgmt, cur: nat, l: nat)
    requires LineShape(g, lm) && Partition(g, lm, cur, None) && Kinds(g, lm)
    requires l < g.TtLines() && lm.vpc[l] > 0 && (lm.vpc[l] == g.PgsPerLine() ==> l in lm.full)
    requires lm.ipc[l] + 1 >= 1
    ensures Partition(g, InvalidateInLine(g, lm, l), cur, None)
    ensures Kinds(g, InvalidateInLine(g, lm, l))
  {
    var lm' := InvalidateInLine(g, lm, l);
    if lm.vpc[l] == g.PgsPerLine() {
      WithoutElems(lm.full, l);
      assert Places(lm, cur, None, l) == 1;
    }
    forall x: nat ensures Places(lm', cur, None, x) == if x < g.TtLines() then 1 else 0 {
      assert Places(lm, cur, None, x) == if x < g.TtLines() then 1 else 0;
    }
  }

  /** Closing the open line and opening the first free one. */
  lemma CloseKeepsPartition(g: Geometry, lm: LineMgmt, cur: nat, dangling: Option<nat>)
    requires LineShape(g, lm) && Partition(g, lm, cur, dangling) && Kinds(g, lm) && cur < g.TtLines()
    requires lm.vpc[cur] == g.PgsPerLine() || lm.ipc[cur] >= 1
    requires lm.free != []
    ensures var lm' := TakeFreeLine(CloseLine(g, lm, cur));
            Partition(g, lm', lm.free[0], dangling) && Kinds(g, lm')
  {
    var lm' := TakeFreeLine(CloseLine(g, lm, cur));
    assert Places(lm, cur, dangling, cur) == 1;
    assert NoDup(lm'.full) by {
      assert cur !in lm.full;
    }
    assert lm.free == [lm.free[0]] + lm'.free;
    forall x: nat ensures Places(lm', lm.free[0], dangling, x) == if x < g.TtLines() then 1 else 0 {
      assert Places(lm, cur, dangling, x) == if x < g.TtLines() then 1 else 0;
      assert x in lm.free <==> x == lm.free[0] || x in lm'.free;
    }
  }

  lemma TakeKeepsPartition(g: Geometry, lm: LineMgmt, cur: nat, v: nat)
    requires LineShape(g, lm) && Partition(g, lm, cur, None) && Kinds(g, lm) && v in lm.victims
    ensures Partition(g, TakeVictim(lm, v), cur, Some(v)) && Kinds(g, TakeVictim(lm, v))
    ensures v < g.TtLines() && v != cur
  {
    var lm' := TakeVictim(lm, v);
    forall x: nat ensures Places(lm', cur, Some(v), x) == if x < g.TtLines() then 1 else 0 {
      assert Places(lm, cur, None, x) == if x < g.TtLines() then 1 else 0;
    }
    assert Places(lm, cur, None, v) == 1;
  }

  lemma FreeKeepsPartition(g: Geometry, lm: LineMgmt, cur: nat, v: nat)
    requires LineShape(g, lm) && Partition(g, lm, cur, Some(v)) && Kinds(g, lm) && v < g.TtLines()
    ensures Partition(g, MarkLineFree(lm, v), cur, None) && Kinds(g, MarkLineFree(lm, v))
  {
    var lm' := MarkLineFree(lm, v);
    assert Places(lm, cur, Some(v), v) == 1;
    forall x: nat ensures Places(lm', cur, None, x) == if x < g.TtLines() then 1 else 0 {
      assert Places(lm, cur, Some(v), x) == if x < g.TtLines() then 1 else 0;
    }
  }

  // ----- Counters ---------------------------------------------------------------------

  lemma InvalidateKeepsLineCounts(s: Ssd, a: Ppa)
    requires Shape(s) && s.g.ValidPpa(a) && s.nand.status[a] == PgValid && s.lm.vpc[a.blk] > 0
    requires LinesCounted(s.g, s.nand.status, s.lm, None)
    ensures LinesCounted(s.g, s.nand.status[a := PgInvalid], InvalidateInLine(s.g, s.lm, a.blk), None)
  {
    hide InLine;
    var st, lm' := s.nand.status[a := PgInvalid], InvalidateInLine(s.g, s.lm, a.blk);
    forall l: nat | l < s.g.TtLines()
      ensures lm'.vpc[l] == |InLine(st, l, PgValid)| && lm'.ipc[l] == |InLine(st, l, PgInvalid)|
    {
      LineFollowsPage(s.nand.status, a, PgInvalid, PgValid, l);
      LineFollowsPage(s.nand.status, a, PgInvalid, PgInvalid, l);
    }
  }

  lemma InvalidateKeepsBlkCounts(n: Nand, a: Ppa)
    requires n.ipc.Keys == n.vpc.Keys && BlkOf(a) in n.vpc && a in n.status && n.status[a] == PgValid && BlksCounted(n)
    ensures BlksCounted(InvalidatePage(n, a))
  {
    hide InBlk;
    var n' := InvalidatePage(n, a);
    forall b | b in n'.vpc
      ensures n'.vpc[b] == |InBlk(n'.status, b, PgValid)| && n'.ipc[b] == |InBlk(n'.status, b, PgInvalid)|
    {
      BlkFollowsPage(n.status, a, PgInvalid, PgValid, b);
      BlkFollowsPage(n.status, a, PgInvalid, PgInvalid, b);
    }
  }

  lemma InvalidateKeepsCounts(s: Ssd, a: Ppa)
    requires Shape(s) && s.g.ValidPpa(a) && s.nand.status[a] == PgValid && s.lm.vpc[a.blk] > 0
    requires LinesCounted(s.g, s.nand.status, s.lm, None) && BlksCounted(s.nand)
    ensures var s' := MarkPageInvalid(s, a);
            Shape(s') && LinesCounted(s'.g, s'.nand.status, s'.lm, None) && BlksCounted(s'.nand)
  {
    hide LinesCounted, BlksCounted;
    InvalidateKeepsLineCounts(s, a);
    InvalidateKeepsBlkCounts(s.nand, a);
  }

  lemma ProgramKeepsCounts(s: Ssd, a: Ppa, dangling: Option<nat>)
    requires Shape(s) && s.g.ValidPpa(a) && s.nand.status[a] == PgFree && dangling != Some(a.blk)
    requires LinesCounted(s.g, s.nand.status, s.lm, dangling) && BlksCounted(s.nand)
    ensures var s' := MarkPageValid(s, a);
            Shape(s') && LinesCounted(s'.g, s'.nand.status, s'.lm, dangling) && BlksCounted(s'.nand)
  {
    hide LinesCounted, BlksCounted;
    ProgramKeepsLineCounts(s.g, s.nand.status, s.lm, a, dangling);
    ProgramKeepsBlkCounts(s.nand, a);
  }

  lemma ProgramKeepsLineCounts(g: Geometry, st: map<Ppa, PgStatus>, lm: LineMgmt, a: Ppa, dangling: Option<nat>)
    requires LineShape(g, lm) && a in st && st[a] == PgFree && a.blk < g.TtLines() && dangling != Some(a.blk)
    requires LinesCounted(g, st, lm, dangling)
    ensures LinesCounted(g, st[a := PgValid], lm.(vpc := lm.vpc[a.blk := lm.vpc[a.blk] + 1]), dangling)
  {
    hide InLine;
    var st', lm' := st[a := PgValid], lm.(vpc := lm.vpc[a.blk := lm.vpc[a.blk] + 1]);
    forall l: nat | l < g.TtLines() && dangling != Some(l)
      ensures lm'.vpc[l] == |InLine(st', l, PgValid)| && lm'.ipc[l] == |InLine(st', l, PgInvalid)|
    {
      LineFollowsPage(st, a, PgValid, PgValid, l);
      LineFollowsPage(st, a, PgValid, PgInvalid, l);
    }
  }

  lemma ProgramKeepsBlkCounts(n: Nand, a: Ppa)
    requires n.ipc.Keys == n.vpc.Keys && BlkOf(a) in n.vpc && a in n.status && n.status[a] == PgFree && BlksCounted(n)
    ensures BlksCounted(ProgramPage(n, a))
  {
    hide InBlk;
    var n' := ProgramPage(n, a);
    forall b | b in n'.vpc
      ensures n'.vpc[b] == |InBlk(n'.status, b, PgValid)| && n'.ipc[b] == |InBlk(n'.status, b, PgInvalid)|
    {
      BlkFollowsPage(n.status, a, PgValid, PgValid, b);
      BlkFollowsPage(n.status, a, PgValid, PgInvalid, b);
    }
  }

  /** In the open line, valid and invalid pages are the first k in write order. */
  lemma OpenLineCount(s: Ssd, dangling: Option<nat>, k: nat)
    requires Consistent(s, dangling, k) && k <= s.g.PgsPerLine()
    ensures dangling != Some(s.wp.curline)
    ensures s.lm.vpc[s.wp.curline] + s.lm.ipc[s.wp.curline] == k
  {
    var cur, st := s.wp.curline, s.nand.status;
    assert Places(s.lm, cur, dangling, cur) == 1;
    WrittenCount(s.g, s.nand, cur, k);
    assert Written(s.g, st, cur, k) == InLine(st, cur, PgValid) + InLine(st, cur, PgInvalid);
    assert InLine(st, cur, PgValid) !! InLine(st, cur, PgInvalid);
  }
}
