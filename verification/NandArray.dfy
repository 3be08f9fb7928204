/** The NAND array of femu/bbssd/ftl.c in memory: the nested channel, LUN, plane and block
    structures hold one status per page and the counters of each block. */
module NandArrays {
  import opened Geometries
  import opened FtlStates

  class NandArray {
    const g: Geometry
    const status: array4<PgStatus>  // by channel, LUN, block and page
    const vpc: array3<int>          // by channel, LUN and block
    const ipc: array3<int>
    const erases: array3<int>

    ghost const Repr: set<object>

    ghost predicate Valid() {
      && status.Length0 == g.nchs && status.Length1 == g.lunsPerCh
      && status.Length2 == g.blksPerPl && status.Length3 == g.pgsPerBlk
      && Sized(vpc) && Sized(ipc) && Sized(erases)
      && vpc != ipc && vpc != erases && ipc != erases
      && Repr == {status, vpc, ipc, erases}
    }

    ghost predicate Sized(a: array3<int>) {
      a.Length0 == g.nchs && a.Length1 == g.lunsPerCh && a.Length2 == g.blksPerPl
    }

    ghost function Pages(): map<Ppa, PgStatus>
      requires Valid()
      reads status
    {
      map a | a in AllPages(g) :: status[a.ch, a.lun, a.blk, a.pg]
    }

    ghost function Column(c: array3<int>): map<Blk, int>
      requires Sized(c)
      reads c
    {
      map b | b in AllBlks(g) :: c[b.ch, b.lun, b.blk]
    }

    ghost function View(): (n: Nand)
      requires Valid()
      reads status, vpc, ipc, erases
      ensures NandShape(g, n)
    {
      Nand(Pages(), Column(vpc), Column(ipc), Column(erases))
    }

    /** `ssd_init_ch` and below: blank pages, zero counters. */
    constructor (g: Geometry)
      ensures Valid() && this.g == g && fresh(Repr)
      ensures View() == BlankNand(g)
    {
      this.g := g;
      var st := BlankArray(g);
      var v := ZeroColumn(g);
      var i := ZeroColumn(g);
      var e := ZeroColumn(g);
      status, vpc, ipc, erases := st, v, i, e;
      Repr := {st, v, i, e};
    }

    static method BlankArray(g: Geometry) returns (st: array4<PgStatus>)
      ensures fresh(st) && st.Length0 == g.nchs && st.Length1 == g.lunsPerCh
      ensures st.Length2 == g.blksPerPl && st.Length3 == g.pgsPerBlk
      ensures forall a {:trigger g.ValidPpa(a)} :: g.ValidPpa(a) ==> st[a.ch, a.lun, a.blk, a.pg] == PgFree
    {
      st := new PgStatus[g.nchs, g.lunsPerCh, g.blksPerPl, g.pgsPerBlk]((_, _, _, _) => PgFree);
    }

    static method ZeroColumn(g: Geometry) returns (c: array3<int>)
      ensures fresh(c) && c.Length0 == g.nchs && c.Length1 == g.lunsPerCh && c.Length2 == g.blksPerPl
      ensures forall b {:trigger g.ValidBlk(b)} :: g.ValidBlk(b) ==> c[b.ch, b.lun, b.blk] == 0
    {
      c := new int[g.nchs, g.lunsPerCh, g.blksPerPl]((_, _, _) => 0);
    }

    method SetStatus(a: Ppa, x: PgStatus)
      requires Valid() && g.ValidPpa(a)
      modifies status
      ensures Pages() == old(Pages())[a := x]
    {
      status[a.ch, a.lun, a.blk, a.pg] := x;
    }

    method SetColumn(c: array3<int>, b: Blk, x: int)
      requires Sized(c) && g.ValidBlk(b)
      modifies c
      ensures Column(c) == old(Column(c))[b := x]
    {
      c[b.ch, b.lun, b.blk] := x;
    }

    /** The view of a page and its block, cell by cell. */
    lemma Cells(a: Ppa)
      requires Valid() && g.ValidPpa(a)
      ensures View().status[a] == status[a.ch, a.lun, a.blk, a.pg]
      ensures View().vpc[BlkOf(a)] == vpc[a.ch, a.lun, a.blk] && View().ipc[BlkOf(a)] == ipc[a.ch, a.lun, a.blk]
      ensures View().status == Pages() && View().vpc == Column(vpc) && View().ipc == Column(ipc)
    {
    }

    /** Page and block part of `mark_page_invalid`, with its assertions. */
    method Invalidate(a: Ppa)
      requires Valid() && g.ValidPpa(a) && View().status[a] == PgValid
      requires 0 <= View().ipc[BlkOf(a)] < g.pgsPerBlk && 0 < View().vpc[BlkOf(a)] <= g.pgsPerBlk
      modifies status, vpc, ipc
      ensures View() == InvalidatePage(old(View()), a)
    {
      hide Pages, Column;
      Cells(a);
      var b := BlkOf(a);
      assert status[a.ch, a.lun, a.blk, a.pg] == PgValid;
      assert 0 <= ipc[a.ch, a.lun, a.blk] < g.pgsPerBlk;
      assert 0 < vpc[a.ch, a.lun, a.blk] <= g.pgsPerBlk;
      SetStatus(a, PgInvalid);
      SetColumn(ipc, b, ipc[b.ch, b.lun, b.blk] + 1);
      SetColumn(vpc, b, vpc[b.ch, b.lun, b.blk] - 1);
    }

    /** Page and block part of `mark_page_valid`, with its assertions. */
    method Program(a: Ppa)
      requires Valid() && g.ValidPpa(a) && View().status[a] == PgFree
      requires 0 <= View().vpc[BlkOf(a)] < g.pgsPerBlk
      modifies status, vpc
      ensures View() == ProgramPage(old(View()), a)
    {
      hide Pages, Column;
      Cells(a);
      var b := BlkOf(a);
      assert status[a.ch, a.lun, a.blk, a.pg] == PgFree;
      assert 0 <= vpc[a.ch, a.lun, a.blk] < g.pgsPerBlk;
      SetStatus(a, PgValid);
      SetColumn(vpc, b, vpc[b.ch, b.lun, b.blk] + 1);
    }

    /** The loop of `mark_block_free`. */
    method BlankPages(b: Blk)
      requires Valid() && g.ValidBlk(b)
      modifies status
      ensures Pages() == Blanked(old(Pages()), b, g.pgsPerBlk)
    {
      ghost var was := Pages();
      NothingBlank(was, b);
      for i := 0 to g.pgsPerBlk
        invariant Pages() == Blanked(was, b, i)
      {
        OneMoreBlank(was, b, i);
        SetStatus(Ppa(b.ch, b.lun, b.blk, i), PgFree);
      }
    }

    /** The first i pages of block b are blank. */
    static ghost function Blanked(was: map<Ppa, PgStatus>, b: Blk, i: nat): map<Ppa, PgStatus> {
      map a | a in was :: if BlkOf(a) == b && a.pg < i then PgFree else was[a]
    }

    static lemma NothingBlank(was: map<Ppa, PgStatus>, b: Blk)
      ensures Blanked(was, b, 0) == was
    {
    }

    static lemma OneMoreBlank(was: map<Ppa, PgStatus>, b: Blk, i: nat)
      requires Ppa(b.ch, b.lun, b.blk, i) in was
      ensures Blanked(was, b, i + 1) == Blanked(was, b, i)[Ppa(b.ch, b.lun, b.blk, i) := PgFree]
    {
      forall a | a in was && BlkOf(a) == b && a.pg == i ensures a == Ppa(b.ch, b.lun, b.blk, i) {
      }
    }

    /** Erasing a block blanks all its pages and resets its counters. */
    static lemma EraseParts(g: Geometry, n: Nand, b: Blk)
      requires NandShape(g, n) && g.ValidBlk(b)
      ensures EraseBlock(n, b) == n.(status := Blanked(n.status, b, g.pgsPerBlk), ipc := n.ipc[b := 0],
                                     vpc := n.vpc[b := 0], erases := n.erases[b := n.erases[b] + 1])
    {
    }

    lemma Erasures(b: Blk)
      requires Valid() && g.ValidBlk(b)
      ensures View().erases == Column(erases) && b in View().erases && View().erases[b] == erases[b.ch, b.lun, b.blk]
    {
    }

    /** `mark_block_free`. */
    method Erase(b: Blk)
      requires Valid() && g.ValidBlk(b)
      modifies status, vpc, ipc, erases
      ensures View() == EraseBlock(old(View()), b)
    {
      hide Pages, Column, EraseBlock, Blanked;
      EraseParts(g, View(), b);
      Erasures(b);
      BlankPages(b);
      SetColumn(ipc, b, 0);
      SetColumn(vpc, b, 0);
      SetColumn(erases, b, erases[b.ch, b.lun, b.blk] + 1);
    }
  }
}
