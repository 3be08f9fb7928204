/** SSD geometry of femu/bbssd/ftl.c with one plane per LUN (ftl.c:204): page
    addresses, the linear page index of `ppa2pgidx`, and the order in which the
    striped write pointer visits the pages of a line. */
module Geometries {
  import opened Arithmetic

  /** A physical page address; the plane and sector fields are always 0. */
  datatype Ppa = Ppa(ch: nat, lun: nat, blk: nat, pg: nat)

  /** One NAND block; a line is the set of blocks with the same `blk`. */
  datatype Blk = Blk(ch: nat, lun: nat, blk: nat)

  function BlkOf(a: Ppa): Blk {
    Blk(a.ch, a.lun, a.blk)
  }

  /** `struct ssdparams`. */
  datatype Geometry = Geometry(
    nchs: nat, lunsPerCh: nat, blksPerPl: nat, pgsPerBlk: nat, secsPerPg: nat,
    gcThresLines: int, gcThresLinesHigh: int)
  {
    predicate Positive() {
      nchs > 0 && lunsPerCh > 0 && blksPerPl > 0 && pgsPerBlk > 0 && secsPerPg > 0
    }

    function PgsPerLun(): nat { pgsPerBlk * blksPerPl }
    function PgsPerCh(): nat { PgsPerLun() * lunsPerCh }
    function TtPgs(): nat { PgsPerCh() * nchs }
    function BlksPerLine(): nat { lunsPerCh * nchs }
    function PgsPerLine(): nat { BlksPerLine() * pgsPerBlk }
    function TtLines(): nat { blksPerPl }

    predicate ValidBlk(b: Blk) {
      b.ch < nchs && b.lun < lunsPerCh && b.blk < blksPerPl
    }

    /** `valid_ppa`. */
    predicate ValidPpa(a: Ppa) {
      a.ch < nchs && a.lun < lunsPerCh && a.blk < blksPerPl && a.pg < pgsPerBlk
    }

    /** `ppa2pgidx`. */
    function PgIdx(a: Ppa): nat {
      a.ch * PgsPerCh() + a.lun * PgsPerLun() + a.blk * pgsPerBlk + a.pg
    }

    /** `ppa2pgidx` with its assertion: the index is below tt_pgs. */
    function RmapIdx(a: Ppa): (i: nat)
      requires Positive() && ValidPpa(a)
      ensures i == PgIdx(a) < TtPgs()
    {
      PgIdxInRange(a);
      PgIdx(a)
    }

    /** The page with a given index. */
    function PageOf(i: nat): Ppa
      requires Positive()
    {
      var b := Quotient(i, pgsPerBlk);
      var u := Quotient(b, blksPerPl);
      Ppa(Quotient(u, lunsPerCh), Remainder(u, lunsPerCh), Remainder(b, blksPerPl), Remainder(i, pgsPerBlk))
    }

    /** The index read as a mixed-radix number. */
    lemma PgIdxDigits(a: Ppa)
      ensures PgIdx(a) == ((a.ch * lunsPerCh + a.lun) * blksPerPl + a.blk) * pgsPerBlk + a.pg
    {
      var u := a.ch * lunsPerCh + a.lun;
      var lun := PgsPerLun();
      assert (u * blksPerPl + a.blk) * pgsPerBlk == u * blksPerPl * pgsPerBlk + a.blk * pgsPerBlk;
      assert u * blksPerPl * pgsPerBlk == u * lun by { Assoc(u, blksPerPl, pgsPerBlk); }
      assert u * lun == a.ch * lunsPerCh * lun + a.lun * lun;
      assert a.ch * lunsPerCh * lun == a.ch * (lun * lunsPerCh) by { Assoc(a.ch, lunsPerCh, lun); }
    }

    static lemma Assoc(x: int, y: int, z: int)
      ensures x * y * z == x * (z * y)
    {
    }

    lemma TtPgsDigits()
      ensures TtPgs() == ((nchs * lunsPerCh) * blksPerPl) * pgsPerBlk
      ensures TtPgs() == TtLines() * PgsPerLine()
    {
      var lun := PgsPerLun();
      assert nchs * lunsPerCh * blksPerPl * pgsPerBlk == nchs * lunsPerCh * lun by { Assoc(nchs * lunsPerCh, blksPerPl, pgsPerBlk); }
      assert nchs * lunsPerCh * lun == nchs * (lun * lunsPerCh) by { Assoc(nchs, lunsPerCh, lun); }
      assert blksPerPl * (lunsPerCh * nchs * pgsPerBlk) == (lunsPerCh * nchs) * (pgsPerBlk * blksPerPl) by {
        Assoc(lunsPerCh * nchs, pgsPerBlk, blksPerPl);
        Assoc(lunsPerCh * nchs, blksPerPl, pgsPerBlk);
      }
    }

    /** `ppa2pgidx` maps valid addresses into [0, tt_pgs), and PageOf undoes it. */
    lemma PgIdxInRange(a: Ppa)
      requires Positive() && ValidPpa(a)
      ensures PgIdx(a) < TtPgs()
      ensures PageOf(PgIdx(a)) == a
    {
      PgIdxDigits(a);
      TtPgsDigits();
      var u := a.ch * lunsPerCh + a.lun;
      var b := u * blksPerPl + a.blk;
      TwoDigits(a.ch, a.lun, nchs, lunsPerCh);
      TwoDigits(u, a.blk, nchs * lunsPerCh, blksPerPl);
      TwoDigits(b, a.pg, (nchs * lunsPerCh) * blksPerPl, pgsPerBlk);
      DivModUnique(b, a.pg, pgsPerBlk);
      DivModUnique(u, a.blk, blksPerPl);
      DivModUnique(a.ch, a.lun, lunsPerCh);
    }

    lemma PageOfValid(i: nat)
      requires Positive() && i < TtPgs()
      ensures ValidPpa(PageOf(i))
    {
      TtPgsDigits();
      var b := i / pgsPerBlk;
      DivBelow(i, (nchs * lunsPerCh) * blksPerPl, pgsPerBlk);
      DivBelow(b, nchs * lunsPerCh, blksPerPl);
      DivBelow(b / blksPerPl, nchs, lunsPerCh);
    }

    /** Every index in [0, tt_pgs) is the index of a valid address. */
    lemma PgIdxSurjective(i: nat)
      requires Positive() && i < TtPgs()
      ensures ValidPpa(PageOf(i)) && PgIdx(PageOf(i)) == i
    {
      PageOfValid(i);
      var a := PageOf(i);
      PgIdxDigits(a);
      var b := i / pgsPerBlk;
      DivMod(b / blksPerPl, lunsPerCh);
      DivMod(b, blksPerPl);
      DivMod(i, pgsPerBlk);
    }

    static lemma DivMod(x: nat, n: nat)
      requires n > 0
      ensures x / n * n + x % n == x
    {
    }

    /** Distinct valid pages have distinct reverse-map entries. */
    lemma PgIdxInjective(a: Ppa, b: Ppa)
      requires Positive() && ValidPpa(a) && ValidPpa(b) && PgIdx(a) == PgIdx(b)
      ensures a == b
    {
      PgIdxInRange(a);
      PgIdxInRange(b);
    }

    /** How many pages of its line the striped write pointer visits before a. */
    function StripePos(a: Ppa): nat {
      (a.pg * lunsPerCh + a.lun) * nchs + a.ch
    }

    /** The k-th page of a line in write order. */
    function PageAt(line: nat, k: nat): Ppa
      requires Positive()
    {
      Ppa(k % nchs, k / nchs % lunsPerCh, line, k / nchs / lunsPerCh)
    }

    lemma StripeInRange(a: Ppa)
      requires Positive() && ValidPpa(a)
      ensures StripePos(a) < PgsPerLine()
      ensures PageAt(a.blk, StripePos(a)) == a
    {
      TwoDigits(a.pg, a.lun, pgsPerBlk, lunsPerCh);
      TwoDigits(a.pg * lunsPerCh + a.lun, a.ch, pgsPerBlk * lunsPerCh, nchs);
      DivModUnique(a.pg * lunsPerCh + a.lun, a.ch, nchs);
      DivModUnique(a.pg, a.lun, lunsPerCh);
      Assoc(pgsPerBlk, lunsPerCh, nchs);
      assert pgsPerBlk * (nchs * lunsPerCh) == lunsPerCh * nchs * pgsPerBlk;
    }

    lemma StripeSurjective(line: nat, k: nat)
      requires Positive() && line < blksPerPl && k < PgsPerLine()
      ensures ValidPpa(PageAt(line, k)) && StripePos(PageAt(line, k)) == k
    {
      assert lunsPerCh * nchs * pgsPerBlk == (pgsPerBlk * lunsPerCh) * nchs by { Assoc(pgsPerBlk, lunsPerCh, nchs); }
      DivBelow(k, pgsPerBlk * lunsPerCh, nchs);
      DivBelow(k / nchs, pgsPerBlk, lunsPerCh);
    }

    lemma StripeInjective(a: Ppa, b: Ppa)
      requires Positive() && ValidPpa(a) && ValidPpa(b) && a.blk == b.blk && StripePos(a) == StripePos(b)
      ensures a == b
    {
      StripeInRange(a);
      StripeInRange(b);
    }

    /** The write order goes through each block in increasing page order. */
    lemma StripeIncreasesInBlock(a: Ppa, b: Ppa)
      requires Positive() && ValidPpa(a) && ValidPpa(b) && BlkOf(a) == BlkOf(b) && a.pg < b.pg
      ensures StripePos(a) < StripePos(b)
    {
      var x, y := a.pg * lunsPerCh + a.lun, b.pg * lunsPerCh + b.lun;
      ScaledGap(a.pg, b.pg, lunsPerCh);
      ScaledGap(x, y, nchs);
    }
  }
}
