/** What runs achieve, in numbers: when a collection takes place, which line it
    takes, what it erases, and in which order lines are used again. */
module FtlBackgrounds {
  import opened Wrappers
  import opened Geometries
  import opened FtlStates
  import opened FtlInvariants
  import opened FtlGcModel
  import opened FtlSteps
  import opened FtlGc
  import opened FtlRunModel
  import opened FtlRuns
  import opened FtlHistory

  // ----- Erases ----------------------------------------------------------------------------------

  lemma AdvanceKeepsNand(s: Ssd)
    requires Shape(s) && AdvanceWritePointer(s).Ok?
    ensures AdvanceWritePointer(s).s.nand == s.nand
  {
    hide Shape, CloseLine;
  }

  /** Placing a page programs it and changes neither the list of free lines nor erase counts. */
  lemma PlaceKeeps(s: Ssd, lpn: nat)
    requires Shape(s) && lpn < |s.maptbl|
    ensures var t := PlacePage(s, lpn); Shape(t) && LineQueue(t) == LineQueue(s) && t.nand.erases == s.nand.erases
  {
    hide Geometry.TtPgs;
  }

  lemma DropKeeps(s: Ssd, a: Ppa)
    requires Shape(s) && s.g.ValidPpa(a) && s.lm.vpc[a.blk] > 0
    ensures var t := DropOld(s, a); Shape(t) && LineQueue(t) == LineQueue(s) && |t.maptbl| == |s.maptbl|
  {
    hide Geometry.TtPgs;
  }

  /** What a copy in a collection comes to. */
  lemma MoveUnfolds(s: Ssd, a: Ppa)
    requires Shape(s) && s.g.ValidPpa(a) && CopyPage(s, a).Ok?
    ensures CopyPage(s, a) == Ok(s)
            || exists lpn: nat :: lpn < |s.maptbl| && CopyPage(s, a) == MovedTo(s, lpn)
  {
    hide AdvanceWritePointer, PlacePage, NandShape, LineShape, WpShape, Geometry.TtPgs;
    PageHasStatus(s, a);
    if s.nand.status[a] == PgValid {
      var lpn := s.rmap[s.g.RmapIdx(a)];
      if lpn.Some? && lpn.value < |s.maptbl| {
        PlaceKeeps(s, lpn.value);
        assert CopyPage(s, a) == MovedTo(s, lpn.value);
      }
    }
  }

  lemma PageHasStatus(s: Ssd, a: Ppa)
    requires Shape(s) && s.g.ValidPpa(a)
    ensures a in s.nand.status
  {
  }

  function MovedTo(s: Ssd, lpn: nat): Run
    requires Shape(s) && lpn < |s.maptbl|
  {
    PlaceKeeps(s, lpn);
    AdvanceWritePointer(PlacePage(s, lpn))
  }

  lemma MoveKeepsErases(s: Ssd, a: Ppa)
    requires Shape(s) && s.g.ValidPpa(a) && CopyPage(s, a).Ok?
    ensures CopyPage(s, a).s.nand.erases == s.nand.erases
  {
    hide AdvanceWritePointer, PlacePage, CopyPage, Shape;
    MoveUnfolds(s, a);
    if CopyPage(s, a) != Ok(s) {
      var lpn: nat :| lpn < |s.maptbl| && CopyPage(s, a) == MovedTo(s, lpn);
      PlaceKeeps(s, lpn);
      AdvanceKeepsNand(PlacePage(s, lpn));
    }
  }

  lemma {:induction false} CopiesKeepErases(s: Ssd, b: Blk, n: nat)
    requires Shape(s) && s.g.ValidBlk(b) && n <= s.g.pgsPerBlk && CopyPages(s, b, n).Ok?
    ensures CopyPages(s, b, n).s.nand.erases == s.nand.erases
  {
    hide CopyPage, Shape;
    if n > 0 {
      CopiesKeepErases(s, b, n - 1);
      MoveKeepsErases(CopyPages(s, b, n - 1).s, Ppa(b.ch, b.lun, b.blk, n - 1));
    }
  }

  /** Of the blocks of line v the first k have been erased once, and no others. */
  ghost predicate ErasedOnce(g: Geometry, e: map<Blk, int>, e': map<Blk, int>, v: nat, k: nat) {
    e'.Keys == e.Keys
    && forall b :: b in e ==> e'[b] == e[b] + if b.blk == v && BlkIdx(g, b) < k then 1 else 0
  }

  lemma BlockErased(s: Ssd, b: Blk)
    requires Shape(s) && s.g.ValidBlk(b) && CleanBlock(s, b).Ok?
    ensures b in s.nand.erases && CleanBlock(s, b).s.nand.erases == s.nand.erases[b := s.nand.erases[b] + 1]
  {
    hide CopyPages, LineShape, WpShape, Geometry.TtPgs;
    CopiesKeepErases(s, b, s.g.pgsPerBlk);
  }

  lemma OneMoreErased(s0: Ssd, e: map<Blk, int>, b: Blk, v: nat, k: nat)
    requires Shape(s0) && IsBlk(s0.g, v, k, b) && ErasedOnce(s0.g, s0.nand.erases, e, v, k) && b in e
    ensures ErasedOnce(s0.g, s0.nand.erases, e[b := e[b] + 1], v, k + 1)
  {
    hide LineShape, WpShape, Geometry.TtPgs, BlkIdx;
    forall c | c in s0.nand.erases && c.blk == v && BlkIdx(s0.g, c) == k ensures c == b {
      BlkIdxInjective(s0.g, c, b);
    }
  }

  lemma ShapeIsPositive(s: Ssd)
    requires Shape(s)
    ensures s.g.Positive()
  {
  }

  lemma {:induction false} LineErased(s: Ssd, v: nat, k: nat)
    requires Shape(s) && v < s.g.TtLines() && k <= s.g.BlksPerLine() && CleanBlocks(s, v, k).Ok?
    ensures ErasedOnce(s.g, s.nand.erases, CleanBlocks(s, v, k).s.nand.erases, v, k)
  {
    hide CleanBlock, Shape, BlkAt;
    if k > 0 {
      LineErased(s, v, k - 1);
      ShapeIsPositive(s);
      BlkAtIsBlk(s.g, v, k - 1);
      var t, b := CleanBlocks(s, v, k - 1).s, BlkAt(s.g, v, k - 1);
      BlockErased(t, b);
      OneMoreErased(s, t.nand.erases, b, v, k - 1);
    }
  }

  // ----- A background collection ----------------------------------------------------------------

  /** v is a victim line and no victim line has fewer live pages. */
  ghost predicate FewestLive(s: Ssd, v: nat) {
    v in s.lm.victims && v < |s.lm.vpc| == |s.lm.ipc|
    && forall w :: w in s.lm.victims && w < |s.lm.vpc| ==> s.lm.vpc[v] <= s.lm.vpc[w]
  }

  /** Line v has been reclaimed: its pages are blank, each of its blocks has been erased once
      and no other block, its invalid pages are gone, every logical page is still mapped, and
      it is the last of the free lines. */
  ghost predicate Reclaimed(t: Ssd, t': Ssd, v: nat) {
    && v < |t.lm.ipc| && t.lm.ipc[v] >= 1
    && (forall a :: a in t'.nand.status && a.blk == v ==> t'.nand.status[a] == PgFree)
    && t'.nand.erases.Keys == t.nand.erases.Keys
    && (forall b :: b in t.nand.erases ==> t'.nand.erases[b] == t.nand.erases[b] + if b.blk == v then 1 else 0)
    && |WithStatus(t'.nand.status, PgInvalid)| == |WithStatus(t.nand.status, PgInvalid)| - t.lm.ipc[v]
    && MappedLpns(t') == MappedLpns(t)
    && t'.lm.free != [] && t'.lm.free[|t'.lm.free| - 1] == v
  }

  lemma CollectionErases(s: Ssd, v: nat)
    requires Inv(s) && Shape(s) && v < s.g.TtLines() && CollectLine(s, v).Ok?
    ensures ErasedOnce(s.g, s.nand.erases, CollectLine(s, v).s.nand.erases, v, s.g.BlksPerLine())
    ensures var free := CollectLine(s, v).s.lm.free; free != [] && free[|free| - 1] == v
  {
    hide CleanBlocks, Inv, NandShape;
    LineErased(s.(lm := TakeVictim(s.lm, v)), v, s.g.BlksPerLine());
  }

  lemma AllBlocksErased(g: Geometry, n: Nand, e': map<Blk, int>, v: nat)
    requires g.Positive() && NandShape(g, n) && ErasedOnce(g, n.erases, e', v, g.BlksPerLine())
    ensures e'.Keys == n.erases.Keys
    ensures forall b :: b in n.erases ==> e'[b] == n.erases[b] + if b.blk == v then 1 else 0
  {
    hide Geometry.BlksPerLine, BlkIdx;
    forall b | b in n.erases ensures BlkIdx(g, b) < g.BlksPerLine() {
      BlkIdxBelow(g, b);
    }
  }

  lemma BlkIdxBelow(g: Geometry, b: Blk)
    requires g.ValidBlk(b)
    ensures BlkIdx(g, b) < g.BlksPerLine()
  {
    assert (b.ch + 1) * g.lunsPerCh <= g.nchs * g.lunsPerCh;
  }

  lemma CollectionReclaims(s: Ssd, v: nat)
    requires Inv(s) && Shape(s) && v in s.lm.victims && v < s.g.TtLines() && CollectLine(s, v).Ok?
    ensures Reclaimed(s, CollectLine(s, v).s, v)
  {
    hide CollectLine, Inv, WithStatus, MappedLpns, LpnsKept, OtherPages, Room;
    CollectKeepsInvariant(s, v);
    CollectSurvives(s, v);
    CollectionErases(s, v);
    AllBlocksErased(s.g, s.nand, CollectLine(s, v).s.nand.erases, v);
  }

  /** The round took the device from t, after the request, to t'. */
  ghost predicate BackgroundDone(t: Ssd, t': Ssd) {
    var eighth := t.g.PgsPerLine() / 8;
    if t.lm.freeCnt > t.g.gcThresLines then t' == t
    else
      || (t' == t && t.lm.victims == {})
      || (t' == t && exists v: nat :: FewestLive(t, v) && t.lm.ipc[v] < eighth)
      || (exists v: nat :: FewestLive(t, v) && t.lm.ipc[v] >= eighth && Reclaimed(t, t', v))
  }

  /** A round of the FTL thread collects in the background only with at most gcThresLines free
      lines; then it reclaims a victim line with as few live pages as any, unless there is no
      victim or less than an eighth of the pages of one such line are invalid. */
  lemma RoundReclaims(s: Ssd, op: Op)
    requires Inv(s) && Shape(s) && Possible(s, op) && Step(s, op).Ok?
    ensures Serve(s, op.req).Ok? && BackgroundDone(Serve(s, op.req).s, Step(s, op).s)
  {
    hide Inv, Serve, CollectLine, ForcedPicks, Shape, Served, Reclaimed;
    ServeKeepsInvariant(s, op.req);
    var t := Serve(s, op.req).s;
    ServedHolds(s, op.req);
    match op.background
    case Some(v) =>
      CollectionReclaims(t, v);
      assert FewestLive(t, v);
    case None =>
      if t.lm.freeCnt <= t.g.gcThresLines && t.lm.victims != {} {
        var v :| LeastValid(t.lm, v) && !WorthCleaning(t.g, t.lm, v, false);
        assert FewestLive(t, v);
      }
  }

  lemma ServedHolds(s: Ssd, req: Request)
    requires Shape(s) && Served(s, req, Serve(s, req)) && Serve(s, req).Ok?
    ensures var t := Serve(s, req).s; Inv(t) && Shape(t) && t.g == s.g && |t.lm.vpc| == |t.lm.ipc| == s.g.TtLines()
  {
    hide Serve, InRange, LpnsOf, MappedLpns;
    InvShape(Serve(s, req).s);
  }

  // ----- The loop before a write ------------------------------------------------------------------

  /** Before each collection of the loop there are at most gcThresLinesHigh free lines, and it
      takes a victim with as few live pages as any; after the last one there are more, or no
      victim is left. */
  lemma {:induction false} ForcedLoopInNumbers(s: Ssd, picks: seq<nat>, k: nat)
    requires Inv(s) && Shape(s) && ForcedPicks(s, picks) && k <= |picks| && CollectAll(s, picks[..k]).Ok?
    ensures var t := CollectAll(s, picks[..k]).s;
            && Inv(t)
            && (k < |picks| ==> t.lm.freeCnt <= t.g.gcThresLinesHigh && FewestLive(t, picks[k]))
            && (k == |picks| ==> t.lm.freeCnt > t.g.gcThresLinesHigh || t.lm.victims == {})
    decreases k
  {
    hide CollectLine, Shape, Inv;
    InvShape(s);
    LineTables(s);
    if k == 0 {
      assert picks[..0] == [];
    } else {
      assert picks[..k][0] == picks[0] && picks[..k][1..] == picks[1..][..k - 1];
      CollectSurvives(s, picks[0]);
      ForcedLoopInNumbers(CollectLine(s, picks[0]).s, picks[1..], k - 1);
    }
  }

  lemma LineTables(s: Ssd)
    requires Shape(s)
    ensures |s.lm.vpc| == |s.lm.ipc|
  {
  }

  // ----- The order in which lines are used -----------------------------------------------------------

  /** The open line and the free lines, in the order of their use. */
  ghost function LineQueue(s: Ssd): seq<nat> {
    [s.wp.curline] + s.lm.free
  }

  /** q' is what is left of q. */
  ghost predicate LeftOf(q: seq<nat>, q': seq<nat>) {
    exists n :: 0 <= n <= |q| && q' == q[n..]
  }

  lemma LeftOfLeft(q: seq<nat>, q1: seq<nat>, q2: seq<nat>)
    requires LeftOf(q, q1) && LeftOf(q1, q2)
    ensures LeftOf(q, q2)
  {
    var n :| 0 <= n <= |q| && q1 == q[n..];
    var m :| 0 <= m <= |q1| && q2 == q1[m..];
    assert q2 == q[n + m..];
  }

  lemma LeftOfMore(q: seq<nat>, q': seq<nat>, more: seq<nat>)
    requires LeftOf(q, q')
    ensures LeftOf(q + more, q' + more)
  {
    var n :| 0 <= n <= |q| && q' == q[n..];
    assert q' + more == (q + more)[n..];
  }

  lemma AllLeft(q: seq<nat>)
    ensures LeftOf(q, q)
  {
    assert q == q[0..];
  }

  lemma AdvanceTakesFirst(s: Ssd)
    requires Shape(s) && AdvanceWritePointer(s).Ok?
    ensures LeftOf(LineQueue(s), LineQueue(AdvanceWritePointer(s).s))
  {
    hide Shape;
    var q, q' := LineQueue(s), LineQueue(AdvanceWritePointer(s).s);
    assert q[0..] == q && q[1..] == s.lm.free;
  }

  lemma WriteTakesFirst(s: Ssd, lpn: nat)
    requires Shape(s) && WritePage(s, lpn).Ok?
    ensures LeftOf(LineQueue(s), LineQueue(WritePage(s, lpn).s))
  {
    hide AdvanceWritePointer, PlacePage, DropOld, NandShape, WpShape, LineQueue, LeftOf, Geometry.TtPgs;
    var a := s.maptbl[lpn];
    if a.None? {
      PlacedTakesFirst(s, lpn);
    } else {
      DropKeeps(s, a.value);
      PlacedTakesFirst(DropOld(s, a.value), lpn);
    }
  }

  lemma PlacedTakesFirst(s: Ssd, lpn: nat)
    requires Shape(s) && lpn < |s.maptbl| && MovedTo(s, lpn).Ok?
    ensures LeftOf(LineQueue(s), LineQueue(MovedTo(s, lpn).s))
  {
    hide AdvanceWritePointer, PlacePage, Shape, LineQueue, LeftOf;
    PlaceKeeps(s, lpn);
    AdvanceTakesFirst(PlacePage(s, lpn));
  }

  lemma {:induction false} WritesTakeFirst(s: Ssd, lpn: nat, n: nat)
    requires Shape(s) && WritePages(s, lpn, n).Ok?
    ensures LeftOf(LineQueue(s), LineQueue(WritePages(s, lpn, n).s))
  {
    hide WritePage, Shape, LineQueue, LeftOf;
    if n == 0 {
      AllLeft(LineQueue(s));
    } else {
      var t := WritePages(s, lpn, n - 1).s;
      WritesTakeFirst(s, lpn, n - 1);
      WriteTakesFirst(t, lpn + n - 1);
      LeftOfLeft(LineQueue(s), LineQueue(t), LineQueue(WritePages(s, lpn, n).s));
    }
  }

  lemma MoveTakesFirst(s: Ssd, a: Ppa)
    requires Shape(s) && s.g.ValidPpa(a) && CopyPage(s, a).Ok?
    ensures LeftOf(LineQueue(s), LineQueue(CopyPage(s, a).s))
  {
    hide CopyPage, MovedTo, Shape, LineQueue, LeftOf;
    AllLeft(LineQueue(s));
    MoveUnfolds(s, a);
    if CopyPage(s, a) != Ok(s) {
      var lpn: nat :| lpn < |s.maptbl| && CopyPage(s, a) == MovedTo(s, lpn);
      PlacedTakesFirst(s, lpn);
    }
  }

  lemma {:induction false} CopiesTakeFirst(s: Ssd, b: Blk, n: nat)
    requires Shape(s) && s.g.ValidBlk(b) && n <= s.g.pgsPerBlk && CopyPages(s, b, n).Ok?
    ensures LeftOf(LineQueue(s), LineQueue(CopyPages(s, b, n).s))
  {
    hide CopyPage, Shape, LineQueue, LeftOf;
    if n == 0 {
      AllLeft(LineQueue(s));
    } else {
      var t := CopyPages(s, b, n - 1).s;
      CopiesTakeFirst(s, b, n - 1);
      MoveTakesFirst(t, Ppa(b.ch, b.lun, b.blk, n - 1));
      LeftOfLeft(LineQueue(s), LineQueue(t), LineQueue(CopyPages(s, b, n).s));
    }
  }

  lemma BlockTakesFirst(s: Ssd, b: Blk)
    requires Shape(s) && s.g.ValidBlk(b) && CleanBlock(s, b).Ok?
    ensures LeftOf(LineQueue(s), LineQueue(CleanBlock(s, b).s))
  {
    hide CopyPages, Shape, LeftOf;
    CopiesTakeFirst(s, b, s.g.pgsPerBlk);
  }

  lemma {:induction false} BlocksTakeFirst(s: Ssd, v: nat, k: nat)
    requires Shape(s) && v < s.g.TtLines() && k <= s.g.BlksPerLine() && CleanBlocks(s, v, k).Ok?
    ensures LeftOf(LineQueue(s), LineQueue(CleanBlocks(s, v, k).s))
  {
    hide CleanBlock, Shape, LineQueue, LeftOf, BlkAt;
    if k == 0 {
      AllLeft(LineQueue(s));
    } else {
      var t := CleanBlocks(s, v, k - 1).s;
      BlocksTakeFirst(s, v, k - 1);
      ShapeIsPositive(s);
      BlockTakesFirst(t, BlkAt(s.g, v, k - 1));
      LeftOfLeft(LineQueue(s), LineQueue(t), LineQueue(CleanBlocks(s, v, k).s));
    }
  }

  /** A collected line goes behind those that were free. */
  lemma CollectedGoesLast(s: Ssd, v: nat)
    requires Shape(s) && v < s.g.TtLines() && CollectLine(s, v).Ok?
    ensures LeftOf(LineQueue(s) + [v], LineQueue(CollectLine(s, v).s))
  {
    hide CleanBlocks, NandShape, LeftOf;
    var s0 := s.(lm := TakeVictim(s.lm, v));
    BlocksTakeFirst(s0, v, s.g.BlksPerLine());
    var t := CleanBlocks(s0, v, s.g.BlksPerLine()).s;
    LeftOfMore(LineQueue(s), LineQueue(t), [v]);
    assert LineQueue(CollectLine(s, v).s) == LineQueue(t) + [v];
  }

  lemma {:induction false} AllCollectedGoLast(s: Ssd, picks: seq<nat>)
    requires Shape(s) && CollectAll(s, picks).Ok?
    ensures LeftOf(LineQueue(s) + picks, LineQueue(CollectAll(s, picks).s))
    decreases |picks|
  {
    hide CollectLine, Shape, LineQueue, LeftOf;
    if picks == [] {
      AllLeft(LineQueue(s));
      assert LineQueue(s) + [] == LineQueue(s);
    } else {
      var t := CollectLine(s, picks[0]).s;
      CollectedGoesLast(s, picks[0]);
      AllCollectedGoLast(t, picks[1..]);
      LeftOfMore(LineQueue(s) + [picks[0]], LineQueue(t), picks[1..]);
      assert LineQueue(s) + [picks[0]] + picks[1..] == LineQueue(s) + picks;
      LeftOfLeft(LineQueue(s) + picks, LineQueue(t) + picks[1..], LineQueue(CollectAll(s, picks).s));
    }
  }

  /** The lines collected in a round, in order. */
  ghost function CollectedIn(op: Op): seq<nat> {
    (if op.req.WriteReq? then op.req.forced else []) + if op.background.Some? then [op.background.value] else []
  }

  lemma ServeUsesInOrder(s: Ssd, req: Request)
    requires Shape(s) && Serve(s, req).Ok?
    ensures LeftOf(LineQueue(s) + if req.WriteReq? then req.forced else [], LineQueue(Serve(s, req).s))
  {
    hide CollectAll, WritePages, Shape, LineQueue, LeftOf, StartLpn, PageCount;
    match req
    case OtherReq =>
      AllLeft(LineQueue(s));
      assert LineQueue(s) + [] == LineQueue(s);
    case WriteReq(_, _, forced) =>
      var t := CollectAll(s, forced).s;
      AllCollectedGoLast(s, forced);
      ShapeIsPositive(s);
      WritesTakeFirst(t, StartLpn(s.g, req), PageCount(s.g, req));
      LeftOfLeft(LineQueue(s) + forced, LineQueue(t), LineQueue(Serve(s, req).s));
  }

  lemma StepUsesInOrder(s: Ssd, op: Op)
    requires Shape(s) && Step(s, op).Ok?
    ensures LeftOf(LineQueue(s) + CollectedIn(op), LineQueue(Step(s, op).s))
  {
    hide Serve, CollectLine, Shape, LineQueue, LeftOf;
    ServeUsesInOrder(s, op.req);
    var t, forced := Serve(s, op.req).s, if op.req.WriteReq? then op.req.forced else [];
    if op.background.Some? {
      var last := [op.background.value];
      CollectedGoesLast(t, op.background.value);
      LeftOfMore(LineQueue(s) + forced, LineQueue(t), last);
      assert LineQueue(s) + forced + last == LineQueue(s) + CollectedIn(op);
      LeftOfLeft(LineQueue(s) + CollectedIn(op), LineQueue(t) + last, LineQueue(Step(s, op).s));
    } else {
      assert LineQueue(s) + CollectedIn(op) == LineQueue(s) + forced;
    }
  }

  ghost function CollectedInAll(ops: seq<Op>): seq<nat> {
    if ops == [] then [] else CollectedIn(ops[0]) + CollectedInAll(ops[1..])
  }

  lemma {:induction false} RunUsesInOrder(s: Ssd, ops: seq<Op>)
    requires Shape(s) && RunAll(s, ops).Ok?
    ensures LeftOf(LineQueue(s) + CollectedInAll(ops), LineQueue(RunAll(s, ops).s))
    decreases |ops|
  {
    hide Step, Shape, LineQueue, LeftOf, CollectedIn;
    if ops == [] {
      AllLeft(LineQueue(s));
      assert LineQueue(s) + [] == LineQueue(s);
    } else {
      var t, now, rest := Step(s, ops[0]).s, CollectedIn(ops[0]), CollectedInAll(ops[1..]);
      StepUsesInOrder(s, ops[0]);
      RunUsesInOrder(t, ops[1..]);
      LeftOfMore(LineQueue(s) + now, LineQueue(t), rest);
      assert LineQueue(s) + now + rest == LineQueue(s) + CollectedInAll(ops);
      LeftOfLeft(LineQueue(s) + CollectedInAll(ops), LineQueue(t) + rest, LineQueue(RunAll(s, ops).s));
    }
  }

  /** From `ssd_init` on lines are used in turn: 0, 1, 2 and so on, and then in the order in
      which they have been collected. */
  lemma LinesInTurn(g: Geometry, ops: seq<Op>)
    requires g.Positive() && Shape(Init(g)) && RunAll(Init(g), ops).Ok?
    ensures LeftOf(seq(g.TtLines(), (i: nat) => i) + CollectedInAll(ops), LineQueue(RunAll(Init(g), ops).s))
  {
    hide RunAll, Shape, LeftOf, CollectedInAll;
    RunUsesInOrder(Init(g), ops);
    assert LineQueue(Init(g)) == seq(g.TtLines(), (i: nat) => i);
  }

  // ----- Dead pages name no logical page -----------------------------------------------------------

  /** The reverse map has no logical page for an invalid page. */
  ghost predicate DeadUnnamed(s: Ssd)
    requires Shape(s)
  {
    forall a :: a in s.nand.status && s.nand.status[a] == PgInvalid ==> s.rmap[s.g.RmapIdx(a)].None?
  }

  lemma OtherIdx(g: Geometry, a: Ppa, b: Ppa)
    requires g.Positive() && g.ValidPpa(a) && g.ValidPpa(b) && a != b
    ensures g.RmapIdx(a) != g.RmapIdx(b)
  {
    if g.RmapIdx(a) == g.RmapIdx(b) {
      g.PgIdxInjective(a, b);
    }
  }

  /** t is s with page p changed to x and entry r in the reverse map for it. */
  ghost predicate PageChanged(s: Ssd, t: Ssd, p: Ppa, x: PgStatus, r: Option<nat>)
    requires Shape(s) && s.g.ValidPpa(p)
  {
    t.g == s.g && t.nand.status == s.nand.status[p := x] && t.rmap == s.rmap[s.g.RmapIdx(p) := r]
  }

  lemma PlaceChanges(s: Ssd, lpn: nat)
    requires Shape(s) && lpn < |s.maptbl|
    ensures PageChanged(s, PlacePage(s, lpn), s.wp.page, PgValid, Some(lpn))
  {
    hide Geometry.TtPgs, Geometry.PgIdx;
  }

  lemma DropChanges(s: Ssd, b: Ppa)
    requires Shape(s) && s.g.ValidPpa(b) && s.lm.vpc[b.blk] > 0
    ensures PageChanged(s, DropOld(s, b), b, PgInvalid, None)
  {
    hide Geometry.TtPgs, Geometry.PgIdx, InvalidateInLine;
  }

  lemma ChangeKeepsDead(s: Ssd, t: Ssd, p: Ppa, x: PgStatus, r: Option<nat>)
    requires Shape(s) && Shape(t) && s.g.ValidPpa(p) && DeadUnnamed(s) && PageChanged(s, t, p, x, r)
    requires x == PgInvalid ==> r.None?
    ensures DeadUnnamed(t)
  {
    hide Geometry.TtPgs, Geometry.PgIdx, Geometry.RmapIdx, LineShape, WpShape;
    forall a | a in t.nand.status && t.nand.status[a] == PgInvalid ensures t.rmap[t.g.RmapIdx(a)].None? {
      if a != p { OtherIdx(s.g, a, p); }
    }
  }

  lemma PlaceKeepsDead(s: Ssd, lpn: nat)
    requires Shape(s) && lpn < |s.maptbl| && DeadUnnamed(s)
    ensures Shape(PlacePage(s, lpn)) && DeadUnnamed(PlacePage(s, lpn))
  {
    hide NandShape, LineShape, DeadUnnamed, PlacePage, PageChanged;
    PlaceKeeps(s, lpn);
    PlaceChanges(s, lpn);
    ChangeKeepsDead(s, PlacePage(s, lpn), s.wp.page, PgValid, Some(lpn));
  }

  lemma DropKeepsDead(s: Ssd, b: Ppa)
    requires Shape(s) && s.g.ValidPpa(b) && s.lm.vpc[b.blk] > 0 && DeadUnnamed(s)
    ensures Shape(DropOld(s, b)) && DeadUnnamed(DropOld(s, b))
  {
    hide NandShape, DeadUnnamed, DropOld, PageChanged;
    DropKeeps(s, b);
    DropChanges(s, b);
    ChangeKeepsDead(s, DropOld(s, b), b, PgInvalid, None);
  }

  lemma AdvanceKeepsDead(s: Ssd)
    requires Shape(s) && DeadUnnamed(s) && AdvanceWritePointer(s).Ok?
    ensures DeadUnnamed(AdvanceWritePointer(s).s)
  {
    hide Shape, CloseLine, Geometry.RmapIdx;
  }

  lemma MovedKeepsDead(s: Ssd, lpn: nat)
    requires Shape(s) && lpn < |s.maptbl| && DeadUnnamed(s) && MovedTo(s, lpn).Ok?
    ensures DeadUnnamed(MovedTo(s, lpn).s)
  {
    hide AdvanceWritePointer, PlacePage, Shape, DeadUnnamed;
    PlaceKeepsDead(s, lpn);
    AdvanceKeepsDead(PlacePage(s, lpn));
  }

  lemma WriteKeepsDead(s: Ssd, lpn: nat)
    requires Shape(s) && DeadUnnamed(s) && WritePage(s, lpn).Ok?
    ensures DeadUnnamed(WritePage(s, lpn).s)
  {
    hide AdvanceWritePointer, PlacePage, DropOld, NandShape, WpShape, DeadUnnamed, Geometry.TtPgs;
    var a := s.maptbl[lpn];
    if a.None? {
      MovedKeepsDead(s, lpn);
    } else {
      DropKeepsDead(s, a.value);
      DropKeeps(s, a.value);
      MovedKeepsDead(DropOld(s, a.value), lpn);
    }
  }

  lemma {:induction false} WritesKeepDead(s: Ssd, lpn: nat, n: nat)
    requires Shape(s) && DeadUnnamed(s) && WritePages(s, lpn, n).Ok?
    ensures DeadUnnamed(WritePages(s, lpn, n).s)
  {
    hide WritePage, Shape, DeadUnnamed;
    if n > 0 {
      WritesKeepDead(s, lpn, n - 1);
      WriteKeepsDead(WritePages(s, lpn, n - 1).s, lpn + n - 1);
    }
  }

  lemma MoveKeepsDead(s: Ssd, a: Ppa)
    requires Shape(s) && s.g.ValidPpa(a) && DeadUnnamed(s) && CopyPage(s, a).Ok?
    ensures DeadUnnamed(CopyPage(s, a).s)
  {
    hide CopyPage, MovedTo, Shape, DeadUnnamed;
    MoveUnfolds(s, a);
    if CopyPage(s, a) != Ok(s) {
      var lpn: nat :| lpn < |s.maptbl| && CopyPage(s, a) == MovedTo(s, lpn);
      MovedKeepsDead(s, lpn);
    }
  }

  lemma {:induction false} CopiesKeepDead(s: Ssd, b: Blk, n: nat)
    requires Shape(s) && s.g.ValidBlk(b) && n <= s.g.pgsPerBlk && DeadUnnamed(s) && CopyPages(s, b, n).Ok?
    ensures DeadUnnamed(CopyPages(s, b, n).s)
  {
    hide CopyPage, Shape, DeadUnnamed;
    if n > 0 {
      CopiesKeepDead(s, b, n - 1);
      MoveKeepsDead(CopyPages(s, b, n - 1).s, Ppa(b.ch, b.lun, b.blk, n - 1));
    }
  }

  lemma EraseKeepsDead(s: Ssd, b: Blk)
    requires Shape(s) && s.g.ValidBlk(b) && DeadUnnamed(s) && CleanBlock(s, b).Ok?
    ensures DeadUnnamed(CleanBlock(s, b).s)
  {
    hide CopyPages, LineShape, WpShape, Geometry.RmapIdx, Geometry.TtPgs;
    CopiesKeepDead(s, b, s.g.pgsPerBlk);
  }

  lemma {:induction false} CleansKeepDead(s: Ssd, v: nat, k: nat)
    requires Shape(s) && v < s.g.TtLines() && k <= s.g.BlksPerLine() && DeadUnnamed(s) && CleanBlocks(s, v, k).Ok?
    ensures DeadUnnamed(CleanBlocks(s, v, k).s)
  {
    hide CleanBlock, Shape, DeadUnnamed, BlkAt;
    if k > 0 {
      CleansKeepDead(s, v, k - 1);
      ShapeIsPositive(s);
      EraseKeepsDead(CleanBlocks(s, v, k - 1).s, BlkAt(s.g, v, k - 1));
    }
  }

  lemma CollectKeepsDead(s: Ssd, v: nat)
    requires Shape(s) && v < s.g.TtLines() && DeadUnnamed(s) && CollectLine(s, v).Ok?
    ensures DeadUnnamed(CollectLine(s, v).s)
  {
    hide CleanBlocks, NandShape, WpShape, Geometry.RmapIdx, Geometry.TtPgs;
    CleansKeepDead(s.(lm := TakeVictim(s.lm, v)), v, s.g.BlksPerLine());
  }

  lemma {:induction false} ForcedKeepsDead(s: Ssd, picks: seq<nat>)
    requires Shape(s) && DeadUnnamed(s) && CollectAll(s, picks).Ok?
    ensures DeadUnnamed(CollectAll(s, picks).s)
    decreases |picks|
  {
    hide CollectLine, Shape, DeadUnnamed;
    if picks != [] {
      CollectKeepsDead(s, picks[0]);
      ForcedKeepsDead(CollectLine(s, picks[0]).s, picks[1..]);
    }
  }

  lemma StepKeepsDead(s: Ssd, op: Op)
    requires Shape(s) && DeadUnnamed(s) && Step(s, op).Ok?
    ensures DeadUnnamed(Step(s, op).s)
  {
    hide CollectAll, WritePages, CollectLine, Shape, DeadUnnamed, StartLpn, PageCount;
    if op.req.WriteReq? {
      ForcedKeepsDead(s, op.req.forced);
      ShapeIsPositive(s);
      WritesKeepDead(CollectAll(s, op.req.forced).s, StartLpn(s.g, op.req), PageCount(s.g, op.req));
    }
    if op.background.Some? {
      CollectKeepsDead(Serve(s, op.req).s, op.background.value);
    }
  }

  lemma {:induction false} RunKeepsDead(s: Ssd, ops: seq<Op>)
    requires Shape(s) && DeadUnnamed(s) && RunAll(s, ops).Ok?
    ensures DeadUnnamed(RunAll(s, ops).s)
    decreases |ops|
  {
    hide Step, Shape, DeadUnnamed;
    if ops != [] {
      StepKeepsDead(s, ops[0]);
      RunKeepsDead(Step(s, ops[0]).s, ops[1..]);
    }
  }

  /** In every run from `ssd_init` the reverse map of a programmed page names a logical page if
      and only if the page is live, and then the one that is mapped to it. */
  lemma ReverseMapIsExact(g: Geometry, ops: seq<Op>, a: Ppa)
    requires g.Positive() && Shape(Init(g)) && AllPossible(Init(g), ops) && RunAll(Init(g), ops).Ok? && g.ValidPpa(a)
    ensures var t := RunAll(Init(g), ops).s;
            && a in t.nand.status
            && (t.nand.status[a] != PgFree ==>
                  var r := t.rmap[t.g.RmapIdx(a)];
                  && (r.Some? <==> t.nand.status[a] == PgValid)
                  && (r.Some? ==> r.value < |t.maptbl| && t.maptbl[r.value] == Some(a)))
  {
    hide RunAll, AllPossible, Inv, DeadUnnamed;
    InitHolds(g);
    InitUnnamed(g);
    RunKeepsInvariant(Init(g), ops);
    RunKeepsDead(Init(g), ops);
    var t := RunAll(Init(g), ops).s;
    InvShape(t);
    PageHasStatus(t, a);
    match t.nand.status[a]
    case PgValid => LiveNamed(t, a);
    case PgInvalid => DeadHere(t, a);
    case PgFree =>
  }

  lemma InitUnnamed(g: Geometry)
    requires g.Positive() && Shape(Init(g))
    ensures DeadUnnamed(Init(g))
  {
  }

  lemma LiveNamed(t: Ssd, a: Ppa)
    requires Inv(t) && Shape(t) && a in t.nand.status && t.nand.status[a] == PgValid
    ensures t.g.ValidPpa(a)
    ensures var r := t.rmap[t.g.RmapIdx(a)]; r.Some? && r.value < |t.maptbl| && t.maptbl[r.value] == Some(a)
  {
    hide Consistent;
  }

  lemma DeadHere(t: Ssd, a: Ppa)
    requires Shape(t) && DeadUnnamed(t) && a in t.nand.status && t.nand.status[a] == PgInvalid
    ensures t.g.ValidPpa(a) && t.rmap[t.g.RmapIdx(a)].None?
  {
    hide Geometry.RmapIdx;
  }
}
