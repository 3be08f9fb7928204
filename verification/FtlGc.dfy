/** Collecting one line: what holds while live pages are being copied out and blocks
    erased, and what a whole collection changes. */
module FtlGc {
  import opened Wrappers
  import opened Arithmetic
  import opened Geometries
  import opened Queues
  import opened FtlStates
  import opened FtlInvariants
  import opened FtlGcModel
  import opened FtlSteps

  lemma BlkIdxFindsBlk(g: Geometry, b: Blk)
    requires g.Positive() && g.ValidBlk(b)
    ensures BlkIdx(g, b) < g.BlksPerLine() && BlkAt(g, b.blk, BlkIdx(g, b)) == b
  {
    TwoDigits(b.ch, b.lun, g.nchs, g.lunsPerCh);
    assert g.lunsPerCh * g.nchs == g.nchs * g.lunsPerCh;
    DivModUnique(b.ch, b.lun, g.lunsPerCh);
  }

  lemma BlkAtHasIdx(g: Geometry, v: nat, k: nat)
    requires g.Positive() && v < g.TtLines() && k < g.BlksPerLine()
    ensures BlkIdx(g, BlkAt(g, v, k)) == k && BlkAt(g, v, k).blk == v
  {
    Geometry.DivMod(k, g.lunsPerCh);
  }

  // ----- Copying pages out ------------------------------------------------------------------

  /** Marking a page as copied out exempts its logical page from the map invariant. */
  lemma MovedPageIsExempt(s: Ssd, moved: set<Ppa>, from: Ppa)
    requires Shape(s) && Maps(s, None, moved)
    requires from in s.nand.status && s.nand.status[from] == PgValid && from !in moved
    ensures var r := s.rmap[s.g.RmapIdx(from)];
            r.Some? && r.value < |s.maptbl| && s.maptbl[r.value] == Some(from) && Maps(s, r, moved + {from})
  {
  }

  /** `gc_write_page` on a live page of v keeps the invariant, costs one page of room,
      and aborts exactly when only one was left. */
  lemma MoveIsSound(s: Ssd, v: nat, moved: set<Ppa>, from: Ppa)
    requires Sound(s, v, moved) && from.blk == v && (forall a :: a in moved ==> a.blk == v)
    requires from in s.nand.status && s.nand.status[from] == PgValid && from !in moved
    ensures s.wp.curline != v && s.nand.status[s.wp.page] == PgFree
    ensures var r := s.rmap[s.g.RmapIdx(from)];
            r.Some? && r.value < |s.maptbl| && s.maptbl[r.value] == Some(from)
    ensures !GcWritePage(s, from).Fault? && (GcWritePage(s, from).Aborted? <==> Room(s) == 1)
    ensures GcWritePage(s, from).Ok? ==>
              var s' := GcWritePage(s, from).s;
              Sound(s', v, moved + {from}) && Room(s') == Room(s) - 1
  {
    hide Shape, Sound, Consistent, Maps, PlacePage, AdvanceWritePointer, GcWritePage, Room;
    SoundParts(s, v, moved);
    EntryOf(s, from);
    MovedPageIsExempt(s, moved, from);
    var lpn := s.rmap[s.g.RmapIdx(from)].value;
    GcUnfolds(s, from);
    PlaceKeepsInvariant(s, lpn, Some(v), moved + {from});
    MovedIsSound(s, PlacePage(s, lpn), v, moved + {from});
  }

  /** Once the copy has been placed the write pointer advances. */
  lemma MovedIsSound(s: Ssd, t: Ssd, v: nat, m: set<Ppa>)
    requires t.wp == s.wp && t.g == s.g && Room(t) == Room(s)
    requires Consistent(t, Some(v), s.g.StripePos(s.wp.page) + 1) && Maps(t, None, m)
    ensures Shape(t) && !AdvanceWritePointer(t).Fault? && (AdvanceWritePointer(t).Aborted? <==> Room(s) == 1)
    ensures AdvanceWritePointer(t).Ok? ==>
              Sound(AdvanceWritePointer(t).s, v, m) && Room(AdvanceWritePointer(t).s) == Room(s) - 1
  {
    hide Shape, Partition, Kinds, LinesCounted, BlksCounted, Filled, Maps, AdvanceWritePointer, Room;
    PlacedThenAdvanced(t, Some(v), m);
  }

  lemma EntryOf(s: Ssd, a: Ppa)
    requires Shape(s) && a in s.nand.status
    ensures s.g.Positive() && s.g.ValidPpa(a) && s.g.RmapIdx(a) < |s.rmap|
    ensures s.wp.page.blk == s.wp.curline < |s.lm.vpc| && s.wp.page in s.nand.status
  {
  }

  lemma GcUnfolds(s: Ssd, from: Ppa)
    requires Shape(s) && s.g.ValidPpa(from)
    requires var r := s.rmap[s.g.RmapIdx(from)]; r.Some? && r.value < |s.maptbl|
    ensures var lpn := s.rmap[s.g.RmapIdx(from)].value;
            && Shape(PlacePage(s, lpn)) && GcWritePage(s, from) == AdvanceWritePointer(PlacePage(s, lpn))
            && PlacePage(s, lpn).wp == s.wp && PlacePage(s, lpn).g == s.g
  {
    hide AdvanceWritePointer;
  }

  lemma SoundParts(s: Ssd, v: nat, moved: set<Ppa>)
    requires Sound(s, v, moved)
    ensures Shape(s) && s.wp.page.blk == s.wp.curline && s.wp.curline != v
    ensures Consistent(s, Some(v), s.g.StripePos(s.wp.page)) && Maps(s, None, moved)
  {
    hide LinesCounted, BlksCounted, Filled, Kinds;
    assert Places(s.lm, s.wp.curline, Some(v), v) == if v < s.g.TtLines() then 1 else 0;
  }

  lemma AdvanceKeepsTables(s: Ssd)
    requires Shape(s) && AdvanceWritePointer(s).Ok?
    ensures var s' := AdvanceWritePointer(s).s;
            && s'.lm.ipc == s.lm.ipc && s'.lm.vpc == s.lm.vpc
            && s'.nand == s.nand && s'.maptbl == s.maptbl && s'.g == s.g
  {
  }

  lemma MoveChanges(s0: Ssd, s: Ssd, v: nat, k: nat, moved: set<Ppa>, from: Ppa)
    requires Shape(s) && Changed(s0, s, v, k, moved) && from !in moved
    requires from in s.nand.status && from.blk == v && BlkIdx(s.g, BlkOf(from)) == k
    requires s.wp.curline != v && s.nand.status[s.wp.page] == PgFree
    requires var r := s.rmap[s.g.RmapIdx(from)];
             r.Some? && r.value < |s.maptbl| && s.maptbl[r.value] == Some(from)
    requires GcWritePage(s, from).Ok? && Room(GcWritePage(s, from).s) == Room(s) - 1
    ensures Changed(s0, GcWritePage(s, from).s, v, k, moved + {from})
  {
    hide Shape, Changed, PlacePage, AdvanceWritePointer, GcWritePage, Room;
    EntryOf(s, from);
    GcUnfolds(s, from);
    var lpn := s.rmap[s.g.RmapIdx(from)].value;
    PlacedTables(s, lpn);
    AdvanceKeepsTables(PlacePage(s, lpn));
    MovedTables(s0, s, v, k, moved, from, lpn, GcWritePage(s, from).s);
  }

  /** What placing a page does to the tables that matter to a collection. */
  lemma PlacedTables(s: Ssd, lpn: nat)
    requires Shape(s) && lpn < |s.maptbl|
    ensures var s' := PlacePage(s, lpn);
            && Shape(s') && s'.g == s.g && s'.maptbl == s.maptbl[lpn := Some(s.wp.page)] && s'.wp == s.wp
            && s'.nand.status == s.nand.status[s.wp.page := PgValid] && s'.nand.status.Keys == s.nand.status.Keys
            && s'.lm.ipc == s.lm.ipc && s'.lm.vpc == s.lm.vpc[s.wp.curline := s.lm.vpc[s.wp.curline] + 1]
  {
  }

  lemma MovedTables(s0: Ssd, s: Ssd, v: nat, k: nat, moved: set<Ppa>, from: Ppa, lpn: nat, s': Ssd)
    requires Changed(s0, s, v, k, moved) && from !in moved
    requires from in s.nand.status && from.blk == v && BlkIdx(s.g, BlkOf(from)) == k
    requires s.wp.page.blk == s.wp.curline < |s.lm.vpc| && s.wp.curline != v
    requires s.wp.page in s.nand.status && s.nand.status[s.wp.page] == PgFree
    requires lpn < |s.maptbl| && s.maptbl[lpn] == Some(from)
    requires s'.g == s.g && s'.maptbl == s.maptbl[lpn := Some(s.wp.page)]
    requires s'.nand.status == s.nand.status[s.wp.page := PgValid] && s'.nand.status.Keys == s.nand.status.Keys
    requires s'.lm.ipc == s.lm.ipc && s'.lm.vpc == s.lm.vpc[s.wp.curline := s.lm.vpc[s.wp.curline] + 1]
    requires Room(s') == Room(s) - 1
    ensures Changed(s0, s', v, k, moved + {from})
  {
    hide Room, BlkIdx;
  }

  // ----- Sequencing -----------------------------------------------------------------------------

  /** Costs of consecutive parts add up. */
  lemma Chain(s0: Ssd, s: Ssd, v: nat, k: nat, m: set<Ppa>, cost: nat, t: Ssd, k': nat, m': set<Ppa>, cost': nat, r: Run)
    requires Outcome(s0, s, v, k, m, cost, Ok(t)) && Outcome(s0, t, v, k', m', cost', r)
    ensures Outcome(s0, s, v, k', m', cost + cost', r)
  {
    hide Sound, Changed, Room;
  }

  /** What has aborted stays aborted. */
  lemma ChainAborted(s0: Ssd, s: Ssd, v: nat, k: nat, m: set<Ppa>, cost: nat, k': nat, m': set<Ppa>, cost': nat)
    requires Outcome(s0, s, v, k, m, cost, Aborted) && cost <= cost'
    ensures Outcome(s0, s, v, k', m', cost', Aborted)
  {
    hide Sound, Changed, Room;
  }

  lemma RoomIsPositive(s: Ssd, v: nat, m: set<Ppa>)
    requires Sound(s, v, m)
    ensures Room(s) >= 1
  {
    s.g.StripeInRange(s.wp.page);
    RoomOfOne(s);
  }

  lemma NothingDone(s0: Ssd, s: Ssd, v: nat, k: nat, m: set<Ppa>)
    requires Sound(s, v, m) && Changed(s0, s, v, k, m)
    ensures Outcome(s0, s, v, k, m, 0, Ok(s))
  {
    hide *;
    RoomIsPositive(s, v, m);
    OutcomeOfNothing(s0, s, v, k, m);
  }

  lemma OutcomeOfNothing(s0: Ssd, s: Ssd, v: nat, k: nat, m: set<Ppa>)
    requires Sound(s, v, m) && Changed(s0, s, v, k, m) && Room(s) >= 1
    ensures Outcome(s0, s, v, k, m, 0, Ok(s))
  {
    hide Sound, Changed, Room;
  }

  // ----- One block ----------------------------------------------------------------------------

  /** Pages still to be visited have their status from the start of the collection. */
  lemma DueStatus(s0: Ssd, s: Ssd, v: nat, k: nat, m: set<Ppa>, a: Ppa)
    requires PageDue(s0, s, v, k, m, a)
    ensures a in s.nand.status && a in s0.nand.status && s.nand.status[a] == s0.nand.status[a]
  {
  }

  lemma LivePageProgress(s0: Ssd, s: Ssd, v: nat, k: nat, m: set<Ppa>, a: Ppa)
    requires PageDue(s0, s, v, k, m, a) && s.nand.status[a] == PgValid
    ensures Outcome(s0, s, v, k, m + {a}, 1, GcWritePage(s, a))
  {
    RoomIsPositive(s, v, m);
    MoveIsSound(s, v, m, a);
    if GcWritePage(s, a).Ok? {
      MoveChanges(s0, s, v, k, m, a);
    }
  }

  /** The pages moved out once page a has been visited. */
  ghost function After(st0: map<Ppa, PgStatus>, m: set<Ppa>, a: Ppa): set<Ppa> {
    if a in st0 && st0[a] == PgValid then m + {a} else m
  }

  ghost function LiveCount(st0: map<Ppa, PgStatus>, a: Ppa): nat {
    if a in st0 && st0[a] == PgValid then 1 else 0
  }

  lemma PageProgress(s0: Ssd, s: Ssd, v: nat, k: nat, m: set<Ppa>, a: Ppa)
    requires PageDue(s0, s, v, k, m, a)
    ensures Outcome(s0, s, v, k, After(s0.nand.status, m, a), |After(s0.nand.status, m, a)| - |m|, CopyPage(s, a))
  {
    hide Sound, Changed, Room, GcWritePage, Outcome;
    DueStatus(s0, s, v, k, m, a);
    if s.nand.status[a] == PgValid {
      LivePageProgress(s0, s, v, k, m, a);
    } else {
      NothingDone(s0, s, v, k, m);
    }
  }

  lemma NextCopied(st0: map<Ppa, PgStatus>, b: Blk, n: nat)
    requires n > 0
    ensures var m, a := CopiedInBlk(st0, b, n - 1), Ppa(b.ch, b.lun, b.blk, n - 1);
            a !in m && CopiedInBlk(st0, b, n) == After(st0, m, a)
    ensures |CopiedInBlk(st0, b, n - 1)| <= |CopiedInBlk(st0, b, n)|
  {
    var m, a := CopiedInBlk(st0, b, n - 1), Ppa(b.ch, b.lun, b.blk, n - 1);
    forall x | x in CopiedInBlk(st0, b, n) ensures x in m || x == a {
      assert x == Ppa(b.ch, b.lun, b.blk, x.pg);
    }
  }

  /** After n pages of block b page n is due. */
  lemma NextPageDue(s0: Ssd, s: Ssd, v: nat, k: nat, b: Blk, n: nat, t: Ssd)
    requires IsBlk(s.g, v, k, b) && n < s.g.pgsPerBlk && t.g == s.g
    requires Outcome(s0, s, v, k, CopiedInBlk(s0.nand.status, b, n), |CopiedInBlk(s0.nand.status, b, n)|, Ok(t))
    ensures PageDue(s0, t, v, k, CopiedInBlk(s0.nand.status, b, n), Ppa(b.ch, b.lun, b.blk, n))
  {
    hide Sound, Changed, Room, BlkIdx;
    assert BlkOf(Ppa(b.ch, b.lun, b.blk, n)) == b;
  }

  /** Copying the first n pages of block b costs one page of room for each live one. */
  ghost predicate CopiedOut(s0: Ssd, s: Ssd, v: nat, k: nat, b: Blk, n: nat, r: Run) {
    Outcome(s0, s, v, k, CopiedInBlk(s0.nand.status, b, n), |CopiedInBlk(s0.nand.status, b, n)|, r)
  }

  lemma CopyOneMore(s0: Ssd, s: Ssd, v: nat, k: nat, b: Blk, n: nat, t: Ssd)
    requires IsBlk(s.g, v, k, b) && 0 < n <= s.g.pgsPerBlk && t.g == s.g && Shape(t)
    requires CopiedOut(s0, s, v, k, b, n - 1, Ok(t)) && t.g.ValidPpa(Ppa(b.ch, b.lun, b.blk, n - 1))
    ensures CopiedOut(s0, s, v, k, b, n, CopyPage(t, Ppa(b.ch, b.lun, b.blk, n - 1)))
  {
    hide Outcome, Shape, CopyPage, CopiedInBlk, After, IsBlk, PageDue;
    var a, m := Ppa(b.ch, b.lun, b.blk, n - 1), CopiedInBlk(s0.nand.status, b, n - 1);
    NextPageDue(s0, s, v, k, b, n - 1, t);
    PageProgress(s0, t, v, k, m, a);
    NextCopied(s0.nand.status, b, n);
    Chain(s0, s, v, k, m, |m|, t, k, CopiedInBlk(s0.nand.status, b, n), |CopiedInBlk(s0.nand.status, b, n)| - |m|,
          CopyPage(t, a));
  }

  lemma CopyStep(s0: Ssd, s: Ssd, v: nat, k: nat, b: Blk, n: nat)
    requires Shape(s) && IsBlk(s.g, v, k, b) && 0 < n <= s.g.pgsPerBlk
    requires CopiedOut(s0, s, v, k, b, n - 1, CopyPages(s, b, n - 1))
    ensures CopiedOut(s0, s, v, k, b, n, CopyPages(s, b, n))
  {
    hide Outcome, Shape, CopyPage, CopiedInBlk;
    var r := CopyPages(s, b, n - 1);
    NextCopied(s0.nand.status, b, n);
    match r {
      case Ok(t) => CopyOneMore(s0, s, v, k, b, n, t);
      case Aborted =>
        ChainAborted(s0, s, v, k, CopiedInBlk(s0.nand.status, b, n - 1), |CopiedInBlk(s0.nand.status, b, n - 1)|,
                     k, CopiedInBlk(s0.nand.status, b, n), |CopiedInBlk(s0.nand.status, b, n)|);
      case Fault => NoFault(s0, s, v, k, CopiedInBlk(s0.nand.status, b, n - 1), |CopiedInBlk(s0.nand.status, b, n - 1)|, r);
    }
  }

  lemma NoFault(s0: Ssd, s: Ssd, v: nat, k: nat, m: set<Ppa>, cost: nat, r: Run)
    requires Outcome(s0, s, v, k, m, cost, r)
    ensures !r.Fault?
  {
    hide Sound, Changed, Room;
  }

  lemma NothingCopiedYet(st0: map<Ppa, PgStatus>, b: Blk)
    ensures |CopiedInBlk(st0, b, 0)| == 0
  {
    assert CopiedInBlk(st0, b, 0) == {};
  }

  lemma NothingCopied(s0: Ssd, s: Ssd, v: nat, k: nat, b: Blk)
    requires BlkStart(s0, s, v, k, b)
    ensures CopiedOut(s0, s, v, k, b, 0, Ok(s))
  {
    hide Sound, Changed, Outcome, IsBlk;
    NothingCopiedYet(s0.nand.status, b);
    assert CopiedInBlk(s0.nand.status, b, 0) == {};
    NothingDone(s0, s, v, k, {});
  }

  /** The loop of `clean_one_block`, first n pages: every live page is moved out exactly
      once, and the loop aborts exactly when there is no more room than live pages. */
  lemma {:induction false} CopyPagesProgress(s0: Ssd, s: Ssd, v: nat, k: nat, b: Blk, n: nat)
    requires BlkStart(s0, s, v, k, b) && n <= s.g.pgsPerBlk
    ensures CopiedOut(s0, s, v, k, b, n, CopyPages(s, b, n))
  {
    hide Sound, Changed, CopiedOut, IsBlk;
    if n == 0 {
      NothingCopied(s0, s, v, k, b);
    } else {
      CopyPagesProgress(s0, s, v, k, b, n - 1);
      SoundShape(s, v, {});
      CopyStep(s0, s, v, k, b, n);
    }
  }

  lemma NoPageCopied(s: Ssd, b: Blk)
    requires Shape(s) && s.g.ValidBlk(b)
    ensures CopyPages(s, b, 0) == Ok(s)
  {
    hide Shape;
  }

  lemma CopyUnfolds(s: Ssd, b: Blk, n: nat, t: Ssd)
    requires Shape(s) && s.g.ValidBlk(b) && n < s.g.pgsPerBlk && CopyPages(s, b, n) == Ok(t)
    ensures CopyPages(s, b, n + 1) == CopyPage(t, Ppa(b.ch, b.lun, b.blk, n))
  {
    hide Shape, CopyPage;
  }

  /** Inside the loop of `clean_one_block`: page pg is due and adds at most itself. */
  lemma PageReady(s0: Ssd, start: Ssd, v: nat, k: nat, b: Blk, pg: nat, s: Ssd)
    requires BlkStart(s0, start, v, k, b) && pg < start.g.pgsPerBlk && CopyPages(start, b, pg) == Ok(s)
    ensures PageDue(s0, s, v, k, CopiedInBlk(s0.nand.status, b, pg), Ppa(b.ch, b.lun, b.blk, pg))
    ensures |CopiedInBlk(s0.nand.status, b, pg + 1)|
            == |CopiedInBlk(s0.nand.status, b, pg)| + LiveCount(s0.nand.status, Ppa(b.ch, b.lun, b.blk, pg))
  {
    hide Sound, Changed, CopiedInBlk, PageDue, Outcome, IsBlk;
    CopyPagesProgress(s0, start, v, k, b, pg);
    NextPageDue(s0, start, v, k, b, pg, s);
    NextCopied(s0.nand.status, b, pg + 1);
  }

  /** After the loop: the assertion on the block's valid page counter. */
  lemma BlkCopied(s0: Ssd, start: Ssd, v: nat, k: nat, b: Blk, s: Ssd)
    requires BlkStart(s0, start, v, k, b) && CopyPages(start, b, start.g.pgsPerBlk) == Ok(s)
    ensures b in s.nand.vpc && s.nand.vpc[b] == |CopiedInBlk(s0.nand.status, b, start.g.pgsPerBlk)|
  {
    hide Sound, Changed, CopiedInBlk, Outcome, IsBlk;
    CopyPagesProgress(s0, start, v, k, b, start.g.pgsPerBlk);
    BlkHoldsCopied(s0, start, s, v, k, b);
  }

  /** Once copying has aborted it stays aborted. */
  lemma {:induction false} CopyStaysAborted(s: Ssd, b: Blk, n: nat, n': nat)
    requires Shape(s) && s.g.ValidBlk(b) && n <= n' <= s.g.pgsPerBlk && CopyPages(s, b, n).Aborted?
    ensures CopyPages(s, b, n').Aborted?
    decreases n' - n
  {
    hide Shape, CopyPage;
    if n < n' {
      CopyStaysAborted(s, b, n, n' - 1);
    }
  }

  /** The block's valid page counter equals the number of pages moved out. */
  lemma BlkHoldsCopied(s0: Ssd, start: Ssd, s: Ssd, v: nat, k: nat, b: Blk)
    requires IsBlk(start.g, v, k, b) && s.g == start.g && CopiedOut(s0, start, v, k, b, start.g.pgsPerBlk, Ok(s))
    ensures b in s.nand.vpc && s.nand.vpc[b] == |CopiedInBlk(s0.nand.status, b, start.g.pgsPerBlk)|
  {
    assert InBlk(s.nand.status, b, PgValid) == CopiedInBlk(s0.nand.status, b, start.g.pgsPerBlk);
  }

  lemma SoundShape(s: Ssd, v: nat, m: set<Ppa>)
    requires Sound(s, v, m)
    ensures Shape(s)
  {
  }

  // ----- Erasing the block ------------------------------------------------------------------

  lemma BlkIdxInjective(g: Geometry, a: Blk, b: Blk)
    requires g.Positive() && g.ValidBlk(a) && g.ValidBlk(b) && a.blk == b.blk && BlkIdx(g, a) == BlkIdx(g, b)
    ensures a == b
  {
    BlkIdxFindsBlk(g, a);
    BlkIdxFindsBlk(g, b);
  }

  lemma EraseKeepsCounts(g: Geometry, n: Nand, lm: LineMgmt, b: Blk)
    requires NandShape(g, n) && LineShape(g, lm) && g.ValidBlk(b)
    requires LinesCounted(g, n.status, lm, Some(b.blk)) && BlksCounted(n)
    ensures var n' := EraseBlock(n, b);
            NandShape(g, n') && LinesCounted(g, n'.status, lm, Some(b.blk)) && BlksCounted(n')
  {
    hide LinesCounted, BlksCounted;
    EraseKeepsLines(g, n, lm, b);
    EraseKeepsBlks(n, b);
  }

  lemma EraseKeepsLines(g: Geometry, n: Nand, lm: LineMgmt, b: Blk)
    requires LineShape(g, lm) && b in n.erases && LinesCounted(g, n.status, lm, Some(b.blk))
    ensures LinesCounted(g, EraseBlock(n, b).status, lm, Some(b.blk))
  {
    hide InLine, EraseBlock;
    forall l: nat, x | l != b.blk ensures InLine(EraseBlock(n, b).status, l, x) == InLine(n.status, l, x) {
      EraseKeepsLine(n, b, l, x);
    }
  }

  lemma EraseKeepsBlks(n: Nand, b: Blk)
    requires n.ipc.Keys == n.vpc.Keys && b in n.vpc && b in n.erases && BlksCounted(n)
    ensures BlksCounted(EraseBlock(n, b))
  {
    hide InBlk;
    var n' := EraseBlock(n, b);
    forall c | c in n'.vpc
      ensures n'.vpc[c] == |InBlk(n'.status, c, PgValid)| && n'.ipc[c] == |InBlk(n'.status, c, PgInvalid)|
    {
      EraseInBlk(n, b, c, PgValid);
      EraseInBlk(n, b, c, PgInvalid);
    }
  }

  lemma EraseKeepsLine(n: Nand, b: Blk, l: nat, x: PgStatus)
    requires b in n.erases && l != b.blk
    ensures InLine(EraseBlock(n, b).status, l, x) == InLine(n.status, l, x)
  {
  }

  lemma EraseInBlk(n: Nand, b: Blk, c: Blk, x: PgStatus)
    requires b in n.erases && x != PgFree
    ensures InBlk(EraseBlock(n, b).status, c, x) == if c == b then {} else InBlk(n.status, c, x)
  {
  }

  lemma EraseKeepsConsistent(s: Ssd, b: Blk)
    requires Consistent(s, Some(b.blk), s.g.StripePos(s.wp.page)) && s.g.ValidBlk(b)
    ensures Consistent(s.(nand := EraseBlock(s.nand, b)), Some(b.blk), s.g.StripePos(s.wp.page))
  {
    hide Partition, Kinds, LinesCounted, BlksCounted, Filled, NandShape, EraseBlock;
    EraseKeepsCounts(s.g, s.nand, s.lm, b);
    EraseKeepsFilled(s.g, s.nand, s.lm, s.wp.curline, s.g.StripePos(s.wp.page), b);
  }

  /** The line of the block is in no list. */
  lemma EraseKeepsFilled(g: Geometry, n: Nand, lm: LineMgmt, cur: nat, k: nat, b: Blk)
    requires NandShape(g, n) && g.ValidBlk(b) && Partition(g, lm, cur, Some(b.blk)) && Filled(g, n.status, lm, cur, k)
    ensures Filled(g, EraseBlock(n, b).status, lm, cur, k)
  {
    hide NoDup;
    assert Places(lm, cur, Some(b.blk), b.blk) == 1;
  }

  lemma EraseKeepsMaps(s: Ssd, b: Blk, m: set<Ppa>)
    requires Shape(s) && s.g.ValidBlk(b) && Maps(s, None, m)
    requires forall a :: a in s.nand.status && BlkOf(a) == b && s.nand.status[a] == PgValid <==> a in m
    ensures Shape(s.(nand := EraseBlock(s.nand, b))) && Maps(s.(nand := EraseBlock(s.nand, b)), None, {})
  {
  }

  lemma EraseChanges(s0: Ssd, s: Ssd, v: nat, k: nat, b: Blk, m: set<Ppa>)
    requires Shape(s) && s.g.ValidBlk(b) && b.blk == v && BlkIdx(s.g, b) == k
    requires m == CopiedInBlk(s0.nand.status, b, s.g.pgsPerBlk) && Changed(s0, s, v, k, m)
    ensures Changed(s0, s.(nand := EraseBlock(s.nand, b)), v, k + 1, {})
    ensures forall a :: a in s.nand.status && BlkOf(a) == b && s.nand.status[a] == PgValid <==> a in m
  {
    hide BlkIdx, Room, Copied;
    OneBlkAt(s, v, k, b);
    EraseRoom(s, b);
    OneMoreCopied(s.g, s0.nand.status, v, k, b, m);
  }

  lemma OneMoreCopied(g: Geometry, st0: map<Ppa, PgStatus>, v: nat, k: nat, b: Blk, m: set<Ppa>)
    requires b.blk == v && BlkIdx(g, b) == k && m == CopiedInBlk(st0, b, g.pgsPerBlk)
    requires forall a :: a in st0 ==> g.ValidPpa(a)
    requires forall a :: a in st0 && a.blk == v ==> (BlkIdx(g, BlkOf(a)) == k <==> BlkOf(a) == b)
    ensures |Copied(g, st0, v, k + 1)| == |Copied(g, st0, v, k)| + |m|
  {
    hide BlkIdx;
    assert Copied(g, st0, v, k + 1) == Copied(g, st0, v, k) + m;
    assert Copied(g, st0, v, k) !! m;
  }

  lemma EraseRoom(s: Ssd, b: Blk)
    requires b in s.nand.erases
    ensures Room(s.(nand := EraseBlock(s.nand, b))) == Room(s)
  {
  }

  /** b is the only k-th block. */
  lemma OneBlkAt(s: Ssd, v: nat, k: nat, b: Blk)
    requires Shape(s) && s.g.ValidBlk(b) && b.blk == v && BlkIdx(s.g, b) == k
    ensures forall a :: a in s.nand.status && a.blk == v ==> (BlkIdx(s.g, BlkOf(a)) == k <==> BlkOf(a) == b)
  {
    hide BlkIdx;
    forall a | a in s.nand.status && a.blk == v && BlkIdx(s.g, BlkOf(a)) == k ensures BlkOf(a) == b {
      BlkIdxInjective(s.g, BlkOf(a), b);
    }
  }

  // ----- The whole line ---------------------------------------------------------------------

  lemma CopiedGrows(g: Geometry, n: Nand, v: nat, k: nat, b: Blk)
    requires g.Positive() && NandShape(g, n) && IsBlk(g, v, k, b)
    ensures |Copied(g, n.status, v, k + 1)|
            == |Copied(g, n.status, v, k)| + |CopiedInBlk(n.status, b, g.pgsPerBlk)|
  {
    var c, m := Copied(g, n.status, v, k), CopiedInBlk(n.status, b, g.pgsPerBlk);
    forall a | a in n.status && a.blk == v ensures BlkIdx(g, BlkOf(a)) == k <==> BlkOf(a) == b {
      if BlkIdx(g, BlkOf(a)) == k { BlkIdxInjective(g, BlkOf(a), b); }
    }
    assert Copied(g, n.status, v, k + 1) == c + m && c !! m;
  }

  lemma EraseProgress(s0: Ssd, s: Ssd, v: nat, k: nat, b: Blk)
    requires IsBlk(s.g, v, k, b)
    requires var m := CopiedInBlk(s0.nand.status, b, s.g.pgsPerBlk); Sound(s, v, m) && Changed(s0, s, v, k, m)
    ensures Shape(s)
    ensures var s' := s.(nand := EraseBlock(s.nand, b));
            Sound(s', v, {}) && Changed(s0, s', v, k + 1, {}) && Room(s') == Room(s)
  {
    hide Changed, Consistent, Maps, Room, CopiedInBlk, EraseBlock;
    var m := CopiedInBlk(s0.nand.status, b, s.g.pgsPerBlk);
    SoundParts(s, v, m);
    ErasesOf(s, b);
    EraseRoom(s, b);
    EraseChanges(s0, s, v, k, b, m);
    EraseKeepsConsistent(s, b);
    EraseKeepsMaps(s, b, m);
  }

  lemma ErasesOf(s: Ssd, b: Blk)
    requires Shape(s) && s.g.ValidBlk(b)
    ensures b in s.nand.erases
  {
  }

  /** `clean_one_block` and `mark_block_free` together finish one more block. */
  lemma CleanOneMore(s0: Ssd, s: Ssd, v: nat, k: nat, b: Blk)
    requires BlkStart(s0, s, v, k, b) && Shape(s)
    ensures Outcome(s0, s, v, k + 1, {}, |CopiedInBlk(s0.nand.status, b, s.g.pgsPerBlk)|, CleanBlock(s, b))
  {
    hide Sound, Changed, Room, CopiedInBlk, EraseBlock, CopyPages, Shape, BlkIdx;
    CopyPagesProgress(s0, s, v, k, b, s.g.pgsPerBlk);
    var r := CopyPages(s, b, s.g.pgsPerBlk);
    if r.Ok? {
      EraseProgress(s0, r.s, v, k, b);
    }
  }

  /** Cleaning the first k blocks costs one page of room for each live page in them. */
  ghost predicate LineCleaned(s0: Ssd, v: nat, k: nat, r: Run) {
    Outcome(s0, s0, v, k, {}, |Copied(s0.g, s0.nand.status, v, k)|, r)
  }

  lemma CleanStep(s0: Ssd, v: nat, k: nat, b: Blk, t: Ssd)
    requires k > 0 && Shape(s0) && Shape(t) && t.g == s0.g && IsBlk(t.g, v, k - 1, b)
    requires LineCleaned(s0, v, k - 1, Ok(t))
    ensures LineCleaned(s0, v, k, CleanBlock(t, b))
  {
    hide Sound, Changed, Room, CopiedInBlk, Copied, CleanBlock, BlkIdx;
    CopiedGrows(s0.g, s0.nand, v, k - 1, b);
    CleanOneMore(s0, t, v, k - 1, b);
    Chain(s0, s0, v, k - 1, {}, |Copied(s0.g, s0.nand.status, v, k - 1)|, t,
          k, {}, |CopiedInBlk(s0.nand.status, b, s0.g.pgsPerBlk)|, CleanBlock(t, b));
  }

  lemma BlkAtIsBlk(g: Geometry, v: nat, k: nat)
    requires g.Positive() && v < g.TtLines() && k < g.BlksPerLine()
    ensures IsBlk(g, v, k, BlkAt(g, v, k))
  {
    BlkAtHasIdx(g, v, k);
  }

  lemma CopiedMonotone(g: Geometry, st0: map<Ppa, PgStatus>, v: nat, k: nat, k': nat)
    requires k <= k'
    ensures |Copied(g, st0, v, k)| <= |Copied(g, st0, v, k')|
  {
    var c, c' := Copied(g, st0, v, k), Copied(g, st0, v, k');
    assert c' == c + (c' - c);
  }

  lemma CleanNext(s0: Ssd, v: nat, k: nat)
    requires Shape(s0) && v < s0.g.TtLines() && 0 < k <= s0.g.BlksPerLine()
    requires LineCleaned(s0, v, k - 1, CleanBlocks(s0, v, k - 1))
    ensures LineCleaned(s0, v, k, CleanBlocks(s0, v, k))
  {
    hide Outcome, CleanBlock, Copied, BlkAt, IsBlk;
    var r := CleanBlocks(s0, v, k - 1);
    CopiedMonotone(s0.g, s0.nand.status, v, k - 1, k);
    BlkAtIsBlk(s0.g, v, k - 1);
    var c := |Copied(s0.g, s0.nand.status, v, k - 1)|;
    match r {
      case Ok(t) => CleanStep(s0, v, k, BlkAt(s0.g, v, k - 1), t);
      case Aborted => ChainAborted(s0, s0, v, k - 1, {}, c, k, {}, |Copied(s0.g, s0.nand.status, v, k)|);
      case Fault => NoFault(s0, s0, v, k - 1, {}, c, r);
    }
  }

  /** The next block to clean, found by channel and LUN. */
  lemma NextBlkStart(s0: Ssd, s: Ssd, v: nat, k: nat, b: Blk)
    requires LineCleaned(s0, v, k, Ok(s)) && s.g == s0.g && IsBlk(s0.g, v, k, b)
    ensures BlkStart(s0, s, v, k, b)
  {
    hide Sound, Changed, Room, BlkIdx;
  }

  lemma {:induction false} CleaningStaysAborted(s0: Ssd, v: nat, k: nat, k': nat)
    requires Shape(s0) && v < s0.g.TtLines() && k <= k' <= s0.g.BlksPerLine() && CleanBlocks(s0, v, k).Aborted?
    ensures CleanBlocks(s0, v, k').Aborted?
    decreases k' - k
  {
    hide CleanBlock, BlkAt;
    if k < k' {
      CleaningStaysAborted(s0, v, k, k' - 1);
    }
  }

  lemma CleanStart(s0: Ssd, v: nat)
    requires Sound(s0, v, {}) && v < s0.g.TtLines()
    ensures Changed(s0, s0, v, 0, {}) && Copied(s0.g, s0.nand.status, v, 0) == {}
  {
    assert Copied(s0.g, s0.nand.status, v, 0) == {};
  }

  /** The channel and LUN loops of `do_gc` cost one page of room per live page of the line
      and abort exactly when there is no more room than live pages. */
  lemma {:induction false} CleanBlocksProgress(s0: Ssd, v: nat, k: nat)
    requires Sound(s0, v, {}) && v < s0.g.TtLines() && k <= s0.g.BlksPerLine()
    ensures LineCleaned(s0, v, k, CleanBlocks(s0, v, k))
  {
    hide Sound, Changed, Outcome;
    if k == 0 {
      CleanStart(s0, v);
      NothingDone(s0, s0, v, 0, {});
    } else {
      hide LineCleaned;
      CleanBlocksProgress(s0, v, k - 1);
      SoundShape(s0, v, {});
      CleanNext(s0, v, k);
    }
  }

  // ----- do_gc ---------------------------------------------------------------------------------

  lemma TakeIsSound(s: Ssd, v: nat)
    requires Inv(s) && v in s.lm.victims
    ensures v < s.g.TtLines() && Sound(s.(lm := TakeVictim(s.lm, v)), v, {})
  {
    TakeKeepsPartition(s.g, s.lm, s.wp.curline, v);
  }

  /** All blocks of a line: what is copied are its live pages. */
  lemma CopiedIsLive(g: Geometry, n: Nand, v: nat)
    requires g.Positive() && NandShape(g, n)
    ensures Copied(g, n.status, v, g.BlksPerLine()) == InLine(n.status, v, PgValid)
  {
    forall a | a in n.status && a.blk == v ensures BlkIdx(g, BlkOf(a)) < g.BlksPerLine() {
      BlkIdxFindsBlk(g, BlkOf(a));
    }
  }

  lemma VictimIsBlank(g: Geometry, st0: map<Ppa, PgStatus>, n: Nand, v: nat)
    requires g.Positive() && NandShape(g, n) && VictimPages(g, st0, n.status, v, g.BlksPerLine())
    ensures forall a :: a in n.status && a.blk == v ==> n.status[a] == PgFree
  {
    forall a | a in n.status && a.blk == v ensures n.status[a] == PgFree {
      BlkIdxFindsBlk(g, BlkOf(a));
    }
  }

  lemma FreeKeepsConsistent(s: Ssd, v: nat, k: nat)
    requires Consistent(s, Some(v), k) && v < s.g.TtLines()
    requires forall a :: a in s.nand.status && a.blk == v ==> s.nand.status[a] == PgFree
    ensures Consistent(s.(lm := MarkLineFree(s.lm, v)), None, k)
  {
    FreeKeepsPartition(s.g, s.lm, s.wp.curline, v);
    assert InLine(s.nand.status, v, PgValid) == {} && InLine(s.nand.status, v, PgInvalid) == {};
  }

  lemma LineListKeepsMaps(s: Ssd, lm: LineMgmt)
    requires Shape(s) && LineShape(s.g, lm) && Maps(s, None, {})
    ensures Shape(s.(lm := lm)) && Maps(s.(lm := lm), None, {})
  {
  }

  /** Handing a blank dangling line back restores the full invariant. */
  lemma FreeRestores(s: Ssd, v: nat)
    requires Sound(s, v, {}) && v < s.g.TtLines()
    requires forall a :: a in s.nand.status && a.blk == v ==> s.nand.status[a] == PgFree
    ensures var s' := s.(lm := MarkLineFree(s.lm, v));
            Inv(s') && Room(s') == Room(s) + s.g.PgsPerLine()
  {
    hide Consistent, Maps;
    SoundShape(s, v, {});
    FreeKeepsConsistent(s, v, s.g.StripePos(s.wp.page));
    LineListKeepsMaps(s, MarkLineFree(s.lm, v));
    assert (|s.lm.free| + 1) * s.g.PgsPerLine() == |s.lm.free| * s.g.PgsPerLine() + s.g.PgsPerLine();
  }

  /** Collection erases the invalid pages of v and creates none. */
  lemma InvalidPagesErased(g: Geometry, st0: map<Ppa, PgStatus>, st: map<Ppa, PgStatus>, v: nat)
    requires OtherPages(st0, st, v) && forall a :: a in st && a.blk == v ==> st[a] == PgFree
    ensures WithStatus(st, PgInvalid) == WithStatus(st0, PgInvalid) - InLine(st0, v, PgInvalid)
    ensures |WithStatus(st, PgInvalid)| == |WithStatus(st0, PgInvalid)| - |InLine(st0, v, PgInvalid)|
  {
    assert InLine(st0, v, PgInvalid) <= WithStatus(st0, PgInvalid);
  }

  lemma VictimCounters(s: Ssd, v: nat)
    requires Inv(s) && v in s.lm.victims
    ensures v < s.g.TtLines() && s.lm.vpc[v] == |InLine(s.nand.status, v, PgValid)|
    ensures s.lm.ipc[v] == |InLine(s.nand.status, v, PgInvalid)| >= 1
    ensures s.lm.vpc[v] + s.lm.ipc[v] == s.g.PgsPerLine()
  {
    assert Places(s.lm, s.wp.curline, None, v) == if v < s.g.TtLines() then 1 else 0;
    LineOccupancy(s.g, s.nand, v);
    assert InLine(s.nand.status, v, PgFree) == {};
  }

  /** `do_gc` on any victim keeps the invariant.  It gains exactly the victim's invalid
      pages as room, having moved each live page once, and aborts exactly when there is
      no more room than the victim has live pages. */
  lemma CollectKeepsInvariant(s: Ssd, v: nat)
    requires Inv(s) && v in s.lm.victims
    ensures v < s.g.TtLines() && !CollectLine(s, v).Fault?
    ensures CollectLine(s, v).Aborted? <==> Room(s) <= s.lm.vpc[v]
    ensures CollectLine(s, v).Ok? ==> Collected(s, CollectLine(s, v).s, v)
  {
    TakeIsSound(s, v);
    VictimCounters(s, v);
    var s0 := s.(lm := TakeVictim(s.lm, v));
    CleanBlocksProgress(s0, v, s.g.BlksPerLine());
    CopiedIsLive(s.g, s.nand, v);
    var r := CleanBlocks(s0, v, s.g.BlksPerLine());
    if r.Ok? {
      CollectionEnds(s, s0, r.s, v);
    }
  }

  lemma CollectionEnds(s: Ssd, s0: Ssd, t: Ssd, v: nat)
    requires Shape(s) && s0 == s.(lm := TakeVictim(s.lm, v)) && v < s.g.TtLines()
    requires Sound(t, v, {}) && Changed(s0, t, v, s.g.BlksPerLine(), {})
    requires s.lm.ipc[v] == |InLine(s.nand.status, v, PgInvalid)| >= 1
    requires Room(t) == Room(s) - s.lm.vpc[v] && s.lm.vpc[v] + s.lm.ipc[v] == s.g.PgsPerLine()
    ensures Collected(s, t.(lm := MarkLineFree(t.lm, v)), v)
  {
    VictimIsBlank(t.g, s0.nand.status, t.nand, v);
    FreeRestores(t, v);
    InvalidPagesErased(t.g, s0.nand.status, t.nand.status, v);
  }
}
