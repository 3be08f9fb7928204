/** NAND discipline: the order in which runs of the FTL program and erase pages. */
module NandDiscipline {
  import opened Wrappers
  import opened Geometries
  import opened FtlStates
  import opened FtlInvariants
  import opened FtlGcModel
  import opened FtlSteps
  import opened FtlGc
  import opened FtlRunModel
  import opened FtlRuns
  import opened FtlHistory

  datatype Event = Program(a: Ppa) | Erase(b: Blk)

  // ----- What a run does to the NAND array ------------------------------------------------------

  function WriteEvents(s: Ssd, lpn: nat, n: nat): seq<Event>
    requires Shape(s)
  {
    if n == 0 then []
    else
      var r := WritePages(s, lpn, n - 1);
      WriteEvents(s, lpn, n - 1) + if r.Ok? && !WritePage(r.s, lpn + n - 1).Fault? then [Program(r.s.wp.page)] else []
  }

  function CopyEvents(s: Ssd, b: Blk, n: nat): seq<Event>
    requires Shape(s) && s.g.ValidBlk(b) && n <= s.g.pgsPerBlk
  {
    if n == 0 then []
    else
      var r := CopyPages(s, b, n - 1);
      CopyEvents(s, b, n - 1)
      + if r.Ok? && r.s.nand.status[Ppa(b.ch, b.lun, b.blk, n - 1)] == PgValid then [Program(r.s.wp.page)] else []
  }

  function BlockEvents(s: Ssd, b: Blk): seq<Event>
    requires Shape(s) && s.g.ValidBlk(b)
  {
    CopyEvents(s, b, s.g.pgsPerBlk) + if CleanBlock(s, b).Ok? then [Erase(b)] else []
  }

  function CleanEvents(s: Ssd, v: nat, k: nat): seq<Event>
    requires Shape(s) && v < s.g.TtLines() && k <= s.g.BlksPerLine()
  {
    if k == 0 then []
    else
      var r := CleanBlocks(s, v, k - 1);
      CleanEvents(s, v, k - 1) + if r.Ok? then BlockEvents(r.s, BlkAt(s.g, v, k - 1)) else []
  }

  function CollectEvents(s: Ssd, v: nat): seq<Event>
    requires Shape(s) && v < s.g.TtLines()
  {
    CleanEvents(s.(lm := TakeVictim(s.lm, v)), v, s.g.BlksPerLine())
  }

  function ForcedEvents(s: Ssd, picks: seq<nat>): seq<Event>
    requires Shape(s)
    decreases |picks|
  {
    if picks == [] || picks[0] >= s.g.TtLines() then []
    else
      var r := CollectLine(s, picks[0]);
      CollectEvents(s, picks[0]) + if r.Ok? then ForcedEvents(r.s, picks[1..]) else []
  }

  function ServeEvents(s: Ssd, req: Request): seq<Event>
    requires Shape(s)
  {
    match req
    case OtherReq => []
    case WriteReq(_, _, forced) =>
      var r := CollectAll(s, forced);
      ForcedEvents(s, forced) + if r.Ok? then WriteEvents(r.s, StartLpn(s.g, req), PageCount(s.g, req)) else []
  }

  function StepEvents(s: Ssd, op: Op): seq<Event>
    requires Shape(s)
  {
    var r := Serve(s, op.req);
    ServeEvents(s, op.req)
    + if r.Ok? && op.background.Some? && op.background.value < s.g.TtLines() then CollectEvents(r.s, op.background.value)
      else []
  }

  function RunEvents(s: Ssd, ops: seq<Op>): seq<Event>
    requires Shape(s)
    decreases |ops|
  {
    if ops == [] then []
    else
      var r := Step(s, ops[0]);
      StepEvents(s, ops[0]) + if r.Ok? then RunEvents(r.s, ops[1..]) else []
  }

  // ----- Discipline -------------------------------------------------------------------------------

  /** How often pages of block b have been programmed since its last erase. */
  function Programs(e: seq<Event>, b: Blk): nat {
    if e == [] then 0
    else
      match e[|e| - 1]
      case Program(a) => Programs(e[..|e| - 1], b) + if BlkOf(a) == b then 1 else 0
      case Erase(c) => if c == b then 0 else Programs(e[..|e| - 1], b)
  }

  /** Between two erases of a block its pages are programmed in order, each once: the page
      programmed is always the one after those programmed before. */
  ghost predicate Disciplined(e: seq<Event>) {
    forall i :: 0 <= i < |e| && e[i].Program? ==> e[i].a.pg == Programs(e[..i], BlkOf(e[i].a))
  }

  /** The blank pages of each block are those not programmed since its last erase. */
  ghost predicate Tracks(st: map<Ppa, PgStatus>, e: seq<Event>) {
    forall a :: a in st ==> (st[a] == PgFree <==> a.pg >= Programs(e, BlkOf(a)))
  }

  /** e records an orderly history, and the one of r if r is a state. */
  ghost predicate Orderly(e: seq<Event>, r: Run) {
    Disciplined(e) && (r.Ok? ==> Tracks(r.s.nand.status, e))
  }

  lemma OneMoreEvent(e: seq<Event>, x: Event)
    requires Disciplined(e) && (x.Program? ==> x.a.pg == Programs(e, BlkOf(x.a)))
    ensures Disciplined(e + [x])
    ensures forall b :: Programs(e + [x], b) == match x
                                                case Program(a) => Programs(e, b) + if BlkOf(a) == b then 1 else 0
                                                case Erase(c) => if c == b then 0 else Programs(e, b)
  {
    assert (e + [x])[..|e|] == e;
    forall i | 0 <= i < |e| + 1 && (e + [x])[i].Program?
      ensures (e + [x])[i].a.pg == Programs((e + [x])[..i], BlkOf((e + [x])[i].a))
    {
      assert i < |e| ==> (e + [x])[..i] == e[..i];
    }
  }

  /** The page under the write pointer is the next one of its block. */
  lemma NextInBlock(s: Ssd, dangling: Option<nat>, e: seq<Event>)
    requires Consistent(s, dangling, s.g.StripePos(s.wp.page)) && Tracks(s.nand.status, e)
    ensures s.wp.page.pg == Programs(e, BlkOf(s.wp.page))
  {
    var p, n := s.wp.page, Programs(e, BlkOf(s.wp.page));
    ProgramOrder(s, dangling, p);
    if n < p.pg {
      var q := Ppa(p.ch, p.lun, p.blk, n);
      assert BlkOf(q) == BlkOf(p);
      ProgramOrder(s, dangling, q);
    }
  }

  /** st' is st with page a programmed and perhaps live pages invalidated. */
  ghost predicate OnePageUsed(st: map<Ppa, PgStatus>, st': map<Ppa, PgStatus>, a: Ppa) {
    a in st && st'.Keys == st.Keys && forall x :: x in st ==> (st'[x] == PgFree <==> st[x] == PgFree && x != a)
  }

  lemma ProgramIsOrderly(s: Ssd, dangling: Option<nat>, e: seq<Event>, r: Run)
    requires Consistent(s, dangling, s.g.StripePos(s.wp.page)) && Orderly(e, Ok(s))
    requires r.Ok? ==> OnePageUsed(s.nand.status, r.s.nand.status, s.wp.page)
    ensures Orderly(e + [Program(s.wp.page)], r)
  {
    hide Consistent, Disciplined;
    NextInBlock(s, dangling, e);
    OneMoreEvent(e, Program(s.wp.page));
    var p := s.wp.page;
    forall a: Ppa ensures BlkOf(a) == BlkOf(p) && a.pg == p.pg ==> a == p {
    }
  }

  lemma EraseIsOrderly(n: Nand, b: Blk, e: seq<Event>)
    requires b in n.erases && Disciplined(e) && Tracks(n.status, e)
    ensures Disciplined(e + [Erase(b)]) && Tracks(EraseBlock(n, b).status, e + [Erase(b)])
  {
    hide Disciplined;
    OneMoreEvent(e, Erase(b));
  }

  // ----- Host writes ---------------------------------------------------------------------------------

  /** What a write does to page states: the old copy, if any, dies and page p is programmed. */
  function AfterWrite(st: map<Ppa, PgStatus>, was: Option<Ppa>, p: Ppa): map<Ppa, PgStatus> {
    var st1 := if was.Some? then st[was.value := PgInvalid] else st;
    st1[p := PgValid]
  }

  lemma PlacedStatus(s: Ssd, lpn: nat)
    requires Shape(s) && lpn < |s.maptbl|
    ensures Shape(PlacePage(s, lpn)) && PlacePage(s, lpn).nand.status == s.nand.status[s.wp.page := PgValid]
  {
  }

  lemma DroppedStatus(s: Ssd, a: Ppa)
    requires Shape(s) && s.g.ValidPpa(a) && s.lm.vpc[a.blk] > 0
    ensures DropOld(s, a).nand.status == s.nand.status[a := PgInvalid]
  {
  }

  lemma WriteStatus(s: Ssd, lpn: nat)
    requires Shape(s) && WritePage(s, lpn).Ok?
    ensures lpn < |s.maptbl| && WritePage(s, lpn).s.nand.status == AfterWrite(s.nand.status, s.maptbl[lpn], s.wp.page)
  {
    hide AdvanceWritePointer, PlacePage, DropOld;
    var t := s;
    if s.maptbl[lpn].Some? {
      var a := s.maptbl[lpn].value;
      t := DropOld(s, a);
      DroppedTables(s, a);
      DroppedStatus(s, a);
    }
    PlacedStatus(t, lpn);
    AdvanceKeepsTables(PlacePage(t, lpn));
  }

  lemma WriteUsesOne(s: Ssd, lpn: nat)
    requires Shape(s) && WritePage(s, lpn).Ok? && s.wp.page in s.nand.status && s.nand.status[s.wp.page] == PgFree
    requires lpn < |s.maptbl| && s.maptbl[lpn].Some? ==> var a := s.maptbl[lpn].value; a in s.nand.status && s.nand.status[a] != PgFree
    ensures OnePageUsed(s.nand.status, WritePage(s, lpn).s.nand.status, s.wp.page)
  {
    hide WritePage, Shape;
    WriteStatus(s, lpn);
  }

  lemma HasStatus(s: Ssd, a: Ppa)
    requires Shape(s) && s.g.ValidPpa(a)
    ensures a in s.nand.status
  {
  }

  lemma MappedPageLive(s: Ssd, lpn: nat)
    requires Inv(s)
    ensures Shape(s) && s.wp.page in s.nand.status && s.nand.status[s.wp.page] == PgFree
    ensures Consistent(s, None, s.g.StripePos(s.wp.page))
    ensures lpn < |s.maptbl| && s.maptbl[lpn].Some? ==> var a := s.maptbl[lpn].value; a in s.nand.status && s.nand.status[a] != PgFree
  {
    hide LinesCounted, BlksCounted, Kinds;
    ProgramOrder(s, None, s.wp.page);
  }

  lemma WritePageIsOrderly(s: Ssd, lpn: nat, e: seq<Event>)
    requires Inv(s) && Shape(s) && Orderly(e, Ok(s))
    ensures Orderly(e + [Program(s.wp.page)], WritePage(s, lpn))
  {
    hide Inv, Shape, WritePage, Consistent, Orderly, OnePageUsed;
    MappedPageLive(s, lpn);
    if WritePage(s, lpn).Ok? {
      WriteUsesOne(s, lpn);
    }
    ProgramIsOrderly(s, None, e, WritePage(s, lpn));
  }

  lemma OrderlySoFar(e: seq<Event>, r: Run, r': Run)
    requires Orderly(e, r) && !r'.Ok?
    ensures Orderly(e, r')
  {
    hide Disciplined, Tracks;
  }

  lemma {:induction false} WritesAreOrderly(s: Ssd, lpn: nat, n: nat, e: seq<Event>)
    requires Inv(s) && Shape(s) && Orderly(e, Ok(s))
    ensures Orderly(e + WriteEvents(s, lpn, n), WritePages(s, lpn, n))
  {
    hide Inv, Shape, WritePage, Orderly;
    if n == 0 {
      assert e + [] == e;
    } else {
      WritesAreOrderly(s, lpn, n - 1, e);
      var e1, r := WriteEvents(s, lpn, n - 1), WritePages(s, lpn, n - 1);
      if r.Ok? && !WritePage(r.s, lpn + n - 1).Fault? {
        WritesKeepInv(s, lpn, n - 1);
        WritePageIsOrderly(r.s, lpn + n - 1, e + e1);
        assert (e + e1) + [Program(r.s.wp.page)] == e + (e1 + [Program(r.s.wp.page)]);
      } else {
        assert e + (e1 + []) == e + e1;
        OrderlySoFar(e + e1, r, WritePages(s, lpn, n));
      }
    }
  }

  lemma WritesKeepInv(s: Ssd, lpn: nat, n: nat)
    requires Inv(s) && Shape(s) && WritePages(s, lpn, n).Ok?
    ensures Inv(WritePages(s, lpn, n).s)
  {
    hide Inv, WritePages, NandShape, LineShape, WpShape;
    if n == 0 {
      NothingMore(s, lpn);
    } else if lpn + n <= |s.maptbl| {
      WritePagesKeepInvariant(s, lpn, n);
    } else {
      PastTheEnd(s, lpn, n);
    }
  }

  lemma NothingMore(s: Ssd, lpn: nat)
    requires Shape(s)
    ensures WritePages(s, lpn, 0) == Ok(s)
  {
    hide Shape;
  }

  // ----- Collections ------------------------------------------------------------------------------------

  lemma CopyUsesOne(s: Ssd, a: Ppa)
    requires Shape(s) && s.g.ValidPpa(a) && s.nand.status[a] == PgValid && CopyPage(s, a).Ok?
    requires s.nand.status[s.wp.page] == PgFree
    ensures OnePageUsed(s.nand.status, CopyPage(s, a).s.nand.status, s.wp.page)
  {
    hide AdvanceWritePointer;
    AdvanceKeepsTables(PlacePage(s, s.rmap[s.g.RmapIdx(a)].value));
  }

  lemma SoundPointer(s: Ssd, v: nat, m: set<Ppa>)
    requires Sound(s, v, m)
    ensures Shape(s) && Consistent(s, Some(v), s.g.StripePos(s.wp.page)) && s.nand.status[s.wp.page] == PgFree
  {
    hide LinesCounted, BlksCounted, Kinds, Maps;
    ProgramOrder(s, Some(v), s.wp.page);
  }

  lemma CopyPageIsOrderly(s: Ssd, v: nat, m: set<Ppa>, a: Ppa, e: seq<Event>)
    requires Sound(s, v, m) && Shape(s) && s.g.ValidPpa(a) && Orderly(e, Ok(s))
    ensures Orderly(e + if s.nand.status[a] == PgValid then [Program(s.wp.page)] else [], CopyPage(s, a))
  {
    hide Sound, NandShape, LineShape, WpShape, GcWritePage, Consistent, Orderly, OnePageUsed;
    HasStatus(s, a);
    if s.nand.status[a] == PgValid {
      SoundPointer(s, v, m);
      if CopyPage(s, a).Ok? {
        CopyUsesOne(s, a);
      }
      ProgramIsOrderly(s, Some(v), e, CopyPage(s, a));
    } else {
      assert e + [] == e;
    }
  }

  lemma CopyStaysSound(s0: Ssd, s: Ssd, v: nat, k: nat, b: Blk, n: nat)
    requires BlkStart(s0, s, v, k, b) && Shape(s) && n <= s.g.pgsPerBlk && s.g.ValidBlk(b) && CopyPages(s, b, n).Ok?
    ensures Sound(CopyPages(s, b, n).s, v, CopiedInBlk(s0.nand.status, b, n))
  {
    hide Sound, Changed, CopyPages, Room, CopiedInBlk, IsBlk, Shape;
    CopyPagesProgress(s0, s, v, k, b, n);
  }

  lemma {:induction false} CopiesAreOrderly(s0: Ssd, s: Ssd, v: nat, k: nat, b: Blk, n: nat, e: seq<Event>)
    requires BlkStart(s0, s, v, k, b) && Shape(s) && s.g.ValidBlk(b) && n <= s.g.pgsPerBlk && Orderly(e, Ok(s))
    ensures Orderly(e + CopyEvents(s, b, n), CopyPages(s, b, n))
  {
    hide BlkStart, Shape, CopyPage, Orderly, Sound;
    if n == 0 {
      assert e + [] == e;
    } else {
      CopiesAreOrderly(s0, s, v, k, b, n - 1, e);
      var e1, r := CopyEvents(s, b, n - 1), CopyPages(s, b, n - 1);
      if r.Ok? {
        var a := Ppa(b.ch, b.lun, b.blk, n - 1);
        CopyStaysSound(s0, s, v, k, b, n - 1);
        CopyPageIsOrderly(r.s, v, CopiedInBlk(s0.nand.status, b, n - 1), a, e + e1);
        HasStatus(r.s, a);
        var x := if r.s.nand.status[a] == PgValid then [Program(r.s.wp.page)] else [];
        assert (e + e1) + x == e + (e1 + x);
      } else {
        assert e + (e1 + []) == e + e1;
        OrderlySoFar(e + e1, r, CopyPages(s, b, n));
      }
    }
  }

  lemma BlockIsOrderly(s0: Ssd, s: Ssd, v: nat, k: nat, b: Blk, e: seq<Event>)
    requires BlkStart(s0, s, v, k, b) && Shape(s) && s.g.ValidBlk(b) && Orderly(e, Ok(s))
    ensures Orderly(e + BlockEvents(s, b), CleanBlock(s, b))
  {
    hide BlkStart, CopyPages, CopyEvents, Disciplined, Tracks, EraseBlock, LineShape, WpShape;
    CopiesAreOrderly(s0, s, v, k, b, s.g.pgsPerBlk, e);
    var e1, r := CopyEvents(s, b, s.g.pgsPerBlk), CopyPages(s, b, s.g.pgsPerBlk);
    if r.Ok? {
      EraseIsOrderly(r.s.nand, b, e + e1);
      assert (e + e1) + [Erase(b)] == e + (e1 + [Erase(b)]);
    } else {
      assert e + (e1 + []) == e + e1;
    }
  }

  lemma NextBlk(s0: Ssd, v: nat, k: nat, t: Ssd)
    requires Sound(s0, v, {}) && Shape(s0) && v < s0.g.TtLines() && k < s0.g.BlksPerLine()
    requires CleanBlocks(s0, v, k) == Ok(t)
    ensures BlkStart(s0, t, v, k, BlkAt(s0.g, v, k))
  {
    hide Sound, Changed, CleanBlocks, BlkStart, BlkAt, IsBlk, LineCleaned, NandShape, LineShape, WpShape;
    CleanBlocksProgress(s0, v, k);
    BlkAtIsBlk(s0.g, v, k);
    NextBlkStart(s0, t, v, k, BlkAt(s0.g, v, k));
  }

  lemma {:induction false} CleaningIsOrderly(s: Ssd, v: nat, k: nat, e: seq<Event>)
    requires Sound(s, v, {}) && Shape(s) && v < s.g.TtLines() && k <= s.g.BlksPerLine() && Orderly(e, Ok(s))
    ensures Orderly(e + CleanEvents(s, v, k), CleanBlocks(s, v, k))
  {
    hide Sound, BlockEvents, CleanBlock, Orderly, BlkStart, BlkAt, Geometry.BlksPerLine, NandShape, LineShape, WpShape;
    if k == 0 {
      assert e + [] == e;
    } else {
      CleaningIsOrderly(s, v, k - 1, e);
      var e1, r := CleanEvents(s, v, k - 1), CleanBlocks(s, v, k - 1);
      if r.Ok? {
        var b := BlkAt(s.g, v, k - 1);
        NextBlk(s, v, k - 1, r.s);
        BlockIsOrderly(s, r.s, v, k - 1, b, e + e1);
        assert (e + e1) + BlockEvents(r.s, b) == e + (e1 + BlockEvents(r.s, b));
      } else {
        assert e + (e1 + []) == e + e1;
        OrderlySoFar(e + e1, r, CleanBlocks(s, v, k));
      }
    }
  }

  lemma CollectionIsOrderly(s: Ssd, v: nat, e: seq<Event>)
    requires Inv(s) && Shape(s) && v in s.lm.victims && v < s.g.TtLines() && Orderly(e, Ok(s))
    ensures Orderly(e + CollectEvents(s, v), CollectLine(s, v))
  {
    hide Inv, Sound, CleanEvents, CleanBlocks, Disciplined, Tracks, NandShape, WpShape, LineShape;
    TakeIsSound(s, v);
    var s0 := s.(lm := TakeVictim(s.lm, v));
    SoundShape(s0, v, {});
    CleaningIsOrderly(s0, v, s.g.BlksPerLine(), e);
  }

  // ----- Runs ----------------------------------------------------------------------------------------------

  lemma {:induction false} ForcedIsOrderly(s: Ssd, picks: seq<nat>, e: seq<Event>)
    requires Inv(s) && Shape(s) && ForcedPicks(s, picks) && Orderly(e, Ok(s))
    ensures Orderly(e + ForcedEvents(s, picks), CollectAll(s, picks))
    decreases |picks|
  {
    hide Inv, Shape, CollectEvents, CollectLine, Orderly, MappedLpns;
    if picks == [] {
      assert e + [] == e;
    } else {
      CollectSurvives(s, picks[0]);
      CollectionIsOrderly(s, picks[0], e);
      var e1, r := CollectEvents(s, picks[0]), CollectLine(s, picks[0]);
      if r.Ok? {
        ForcedIsOrderly(r.s, picks[1..], e + e1);
        assert (e + e1) + ForcedEvents(r.s, picks[1..]) == e + (e1 + ForcedEvents(r.s, picks[1..]));
      } else {
        assert e + (e1 + []) == e + e1;
      }
    }
  }

  lemma ServingIsOrderly(s: Ssd, req: Request, e: seq<Event>)
    requires Inv(s) && Shape(s) && (req.WriteReq? ==> ForcedPicks(s, req.forced)) && Orderly(e, Ok(s))
    ensures Orderly(e + ServeEvents(s, req), Serve(s, req))
  {
    hide Inv, NandShape, WpShape, LineShape, ForcedEvents, CollectAll, ForcedPicks, WriteEvents, WritePages, Orderly,
         StartLpn, PageCount, MappedLpns;
    if req.OtherReq? {
      assert e + [] == e;
    } else {
      ForcedLoopSurvives(s, req.forced);
      ForcedIsOrderly(s, req.forced, e);
      var e1, r := ForcedEvents(s, req.forced), CollectAll(s, req.forced);
      if r.Ok? {
        var lpn, n := StartLpn(s.g, req), PageCount(s.g, req);
        WritesAreOrderly(r.s, lpn, n, e + e1);
        assert (e + e1) + WriteEvents(r.s, lpn, n) == e + (e1 + WriteEvents(r.s, lpn, n));
      } else {
        assert e + (e1 + []) == e + e1;
      }
    }
  }

  lemma StepIsOrderly(s: Ssd, op: Op, e: seq<Event>)
    requires Inv(s) && Shape(s) && Possible(s, op) && Orderly(e, Ok(s))
    ensures Orderly(e + StepEvents(s, op), Step(s, op))
  {
    hide Inv, Shape, ServeEvents, Serve, CollectEvents, CollectLine, ForcedPicks, Orderly, MappedLpns, InRange, LpnsOf;
    ServeKeepsInvariant(s, op.req);
    ServingIsOrderly(s, op.req, e);
    var e1, r := ServeEvents(s, op.req), Serve(s, op.req);
    if r.Ok? && op.background.Some? {
      var v := op.background.value;
      CollectSurvives(r.s, v);
      CollectionIsOrderly(r.s, v, e + e1);
      assert (e + e1) + CollectEvents(r.s, v) == e + (e1 + CollectEvents(r.s, v));
    } else {
      assert e + (e1 + []) == e + e1;
    }
  }

  lemma {:induction false} RunIsOrderly(s: Ssd, ops: seq<Op>, e: seq<Event>)
    requires Inv(s) && Shape(s) && AllPossible(s, ops) && Orderly(e, Ok(s))
    ensures Orderly(e + RunEvents(s, ops), RunAll(s, ops))
    decreases |ops|
  {
    hide Inv, Shape, Step, StepEvents, Possible, Orderly, MappedLpns, InRange, LpnsOf;
    if ops == [] {
      assert e + [] == e;
    } else {
      StepKeepsInvariant(s, ops[0]);
      StepIsOrderly(s, ops[0], e);
      var e1, r := StepEvents(s, ops[0]), Step(s, ops[0]);
      if r.Ok? {
        RunIsOrderly(r.s, ops[1..], e + e1);
        assert (e + e1) + RunEvents(r.s, ops[1..]) == e + (e1 + RunEvents(r.s, ops[1..]));
      } else {
        assert e + (e1 + []) == e + e1;
      }
    }
  }

  /** In every run, also one that ends in the abort(), each page is programmed at most once
      between two erases of its block, in increasing order; and the pages that are not blank
      at the end are those programmed since the last erase of their block. */
  lemma RunIsDisciplined(g: Geometry, ops: seq<Op>)
    requires g.Positive() && Shape(Init(g)) && AllPossible(Init(g), ops)
    ensures Disciplined(RunEvents(Init(g), ops))
    ensures RunAll(Init(g), ops).Ok? ==> Tracks(RunAll(Init(g), ops).s.nand.status, RunEvents(Init(g), ops))
  {
    hide Inv, RunAll, RunEvents, AllPossible, NandShape, LineShape, WpShape;
    InitHolds(g);
    assert Orderly([], Ok(Init(g)));
    RunIsOrderly(Init(g), ops, []);
    assert [] + RunEvents(Init(g), ops) == RunEvents(Init(g), ops);
  }
}
