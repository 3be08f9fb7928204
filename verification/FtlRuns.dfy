/** Whole runs of the FTL thread: requests, the forced collections before a write and
    the background collection after each request. */
module FtlRuns {
  import opened Wrappers
  import opened Arithmetic
  import opened Geometries
  import opened Queues
  import opened FtlStates
  import opened FtlInvariants
  import opened FtlGcModel
  import opened FtlRunModel
  import opened FtlSteps
  import opened FtlGc

  // ----- The start ---------------------------------------------------------------------------

  lemma InitCounts(g: Geometry)
    requires g.Positive()
    ensures Shape(Init(g)) && LinesCounted(g, Init(g).nand.status, Init(g).lm, None) && BlksCounted(Init(g).nand)
  {
    var s := Init(g);
    forall l: nat, x | x != PgFree ensures InLine(s.nand.status, l, x) == {} {
    }
    forall b: Blk, x | x != PgFree ensures InBlk(s.nand.status, b, x) == {} {
    }
  }

  lemma InitPartition(g: Geometry)
    requires g.Positive()
    ensures Partition(g, Init(g).lm, 0, None) && Kinds(g, Init(g).lm)
  {
    var lm := Init(g).lm;
    forall l: nat ensures Places(lm, 0, None, l) == if l < g.TtLines() then 1 else 0 {
      if 0 < l < g.TtLines() {
        assert lm.free[l - 1] == l;
      }
    }
  }

  lemma InitHolds(g: Geometry)
    requires g.Positive()
    ensures Inv(Init(g)) && Room(Init(g)) == g.TtLines() * g.PgsPerLine() && MappedLpns(Init(g)) == {}
  {
    InitCounts(g);
    InitPartition(g);
    var s := Init(g);
    assert g.StripePos(s.wp.page) == 0;
    assert (g.TtLines() - 1) * g.PgsPerLine() + g.PgsPerLine() == g.TtLines() * g.PgsPerLine();
  }

  // ----- Live pages and mapped logical pages -----------------------------------------------------

  /** Each step of an injection from x onto y pairs one element off. */
  lemma {:induction false} BijectionCounts<T, U>(x: set<T>, y: set<U>, f: map<T, U>)
    requires f.Keys == x && (forall u :: u in y <==> exists t :: t in x && f[t] == u)
    requires forall t, t' :: t in x && t' in x && f[t] == f[t'] ==> t == t'
    ensures |x| == |y|
    decreases x
  {
    if x == {} {
      assert forall u :: u !in y;
    } else {
      var t :| t in x;
      assert f[t] in y;
      var x', y', f' := x - {t}, y - {f[t]}, f - {t};
      forall u | u in y' ensures exists t' :: t' in x' && f'[t'] == u {
        var t' :| t' in x && f[t'] == u;
        assert t' in x' && f'[t'] == u;
      }
      BijectionCounts(x', y', f');
    }
  }

  /** As many logical pages are mapped as pages are live. */
  lemma MappedIsLive(s: Ssd)
    requires Inv(s)
    ensures |MappedLpns(s)| == |WithStatus(s.nand.status, PgValid)|
  {
    var x, y := MappedLpns(s), WithStatus(s.nand.status, PgValid);
    var f := map l | l in x :: s.maptbl[l].value;
    forall a | a in y ensures exists l :: l in x && f[l] == a {
      var r := s.rmap[s.g.RmapIdx(a)];
      assert r.value in x && f[r.value] == a;
    }
    BijectionCounts(x, y, f);
  }

  lemma OneMoreLine(st: map<Ppa, PgStatus>, q: seq<nat>, x: PgStatus)
    requires NoDup(q) && q != []
    ensures |InLines(st, q, x)| == |InLines(st, q[1..], x)| + |InLine(st, q[0], x)|
  {
    var l, rest := q[0], q[1..];
    assert q == [l] + rest && l !in rest;
    assert InLines(st, q, x) == InLines(st, rest, x) + InLine(st, l, x);
    assert InLines(st, rest, x) !! InLine(st, l, x);
  }

  lemma FullLineLive(s: Ssd, l: nat)
    requires Inv(s) && l in s.lm.full
    ensures |InLine(s.nand.status, l, PgValid)| == s.g.PgsPerLine()
  {
    assert Places(s.lm, s.wp.curline, None, l) == if l < s.g.TtLines() then 1 else 0;
  }

  lemma {:induction false} LinesCount(st: map<Ppa, PgStatus>, q: seq<nat>, x: PgStatus, p: nat)
    requires NoDup(q) && forall l :: l in q ==> |InLine(st, l, x)| == p
    ensures |InLines(st, q, x)| == |q| * p
  {
    if q == [] {
      assert InLines(st, q, x) == {};
    } else {
      LinesCount(st, q[1..], x, p);
      OneMoreLine(st, q, x);
      assert (|q| - 1) * p + p == |q| * p;
    }
  }

  lemma {:induction false} SetOfNoDup(q: seq<nat>)
    requires NoDup(q)
    ensures |SetOf(q)| == |q|
  {
    if q != [] {
      SetOfNoDup(q[1..]);
      assert q == [q[0]] + q[1..] && q[0] !in q[1..];
      assert SetOf(q) == SetOf(q[1..]) + {q[0]};
    }
  }

  lemma LinesCover(g: Geometry, lm: LineMgmt, cur: nat)
    requires Partition(g, lm, cur, None)
    ensures var f, u, v, c := SetOf(lm.free), SetOf(lm.full), lm.victims, {cur};
            NatsBelow(g.TtLines()) == f + u + v + c && f !! u && (f + u) !! v && (f + u + v) !! c
  {
    hide Geometry.TtLines, Partition;
    forall l: nat ensures l in lm.free || l in lm.full || l in lm.victims || l == cur <==> l < g.TtLines()
      ensures !(l in lm.free && l in lm.full) && !((l in lm.free || l in lm.full) && l in lm.victims)
      ensures !((l in lm.free || l in lm.full || l in lm.victims) && l == cur)
    {
      LineOnce(g, lm, cur, l);
    }
  }

  lemma LineOnce(g: Geometry, lm: LineMgmt, cur: nat, l: nat)
    requires Partition(g, lm, cur, None)
    ensures l in lm.free || l in lm.full || l in lm.victims || l == cur <==> l < g.TtLines()
    ensures !(l in lm.free && l in lm.full) && !((l in lm.free || l in lm.full) && l in lm.victims)
    ensures !((l in lm.free || l in lm.full || l in lm.victims) && l == cur)
  {
    assert Places(lm, cur, None, l) == if l < g.TtLines() then 1 else 0;
  }

  /** Free, full, victim and open lines are all the lines. */
  lemma LinesAddUp(g: Geometry, lm: LineMgmt, cur: nat)
    requires Partition(g, lm, cur, None)
    ensures |lm.free| + |lm.full| + |lm.victims| + 1 == g.TtLines()
  {
    LinesCover(g, lm, cur);
    SetOfNoDup(lm.free);
    SetOfNoDup(lm.full);
  }

  /** Full lines hold that many live, hence mapped, pages. */
  lemma FullLinesAreMapped(s: Ssd)
    requires Inv(s)
    ensures |s.lm.full| * s.g.PgsPerLine() <= |MappedLpns(s)|
  {
    forall l | l in s.lm.full ensures |InLine(s.nand.status, l, PgValid)| == s.g.PgsPerLine() {
      FullLineLive(s, l);
    }
    LinesCount(s.nand.status, s.lm.full, PgValid, s.g.PgsPerLine());
    MappedIsLive(s);
    SubsetCounts(InLines(s.nand.status, s.lm.full, PgValid), WithStatus(s.nand.status, PgValid));
  }

  lemma SubsetCounts<T>(x: set<T>, y: set<T>)
    requires x <= y
    ensures |x| <= |y|
  {
    assert y == x + (y - x);
  }

  /** With few enough mapped pages a device without victims has free lines above the mark. */
  lemma NoVictimsMeansFree(s: Ssd)
    requires Inv(s) && s.lm.victims == {}
    requires |MappedLpns(s)| < (s.g.TtLines() - 1 - s.g.gcThresLinesHigh) * s.g.PgsPerLine()
    ensures !ShouldGcHigh(s)
  {
    FullLinesAreMapped(s);
    LinesAddUp(s.g, s.lm, s.wp.curline);
    MulLess(|s.lm.full|, s.g.TtLines() - 1 - s.g.gcThresLinesHigh, s.g.PgsPerLine());
  }

  // ----- Free pages ---------------------------------------------------------------------------------

  lemma FreeLineBlank(s: Ssd, l: nat)
    requires Inv(s) && l in s.lm.free
    ensures |InLine(s.nand.status, l, PgFree)| == s.g.PgsPerLine()
  {
    assert Places(s.lm, s.wp.curline, None, l) == if l < s.g.TtLines() then 1 else 0;
    LineOccupancy(s.g, s.nand, l);
    assert InLine(s.nand.status, l, PgValid) == {} && InLine(s.nand.status, l, PgInvalid) == {};
  }

  lemma OpenLineBlanks(s: Ssd)
    requires Inv(s)
    ensures |InLine(s.nand.status, s.wp.curline, PgFree)| == s.g.PgsPerLine() - s.g.StripePos(s.wp.page)
  {
    s.g.StripeInRange(s.wp.page);
    OpenLineCount(s, None, s.g.StripePos(s.wp.page));
    LineOccupancy(s.g, s.nand, s.wp.curline);
  }

  lemma FreePagesSplit(s: Ssd)
    requires Inv(s)
    ensures WithStatus(s.nand.status, PgFree)
            == InLines(s.nand.status, s.lm.free, PgFree) + InLine(s.nand.status, s.wp.curline, PgFree)
    ensures InLines(s.nand.status, s.lm.free, PgFree) !! InLine(s.nand.status, s.wp.curline, PgFree)
  {
    var st := s.nand.status;
    forall a | a in st && st[a] == PgFree ensures (a.blk in s.lm.free) != (a.blk == s.wp.curline) {
      assert Places(s.lm, s.wp.curline, None, a.blk) == 1;
    }
  }

  /** Room is the number of free pages on the device. */
  lemma RoomIsFreePages(s: Ssd)
    requires Inv(s)
    ensures Room(s) == |WithStatus(s.nand.status, PgFree)|
  {
    forall l | l in s.lm.free ensures |InLine(s.nand.status, l, PgFree)| == s.g.PgsPerLine() {
      FreeLineBlank(s, l);
    }
    LinesCount(s.nand.status, s.lm.free, PgFree, s.g.PgsPerLine());
    OpenLineBlanks(s);
    FreePagesSplit(s);
  }

  /** The page about to be programmed is blank; in its block the pages below it have been
      programmed since the last erase and the pages above it have not. */
  lemma ProgramOrder(s: Ssd, dangling: Option<nat>, a: Ppa)
    requires Consistent(s, dangling, s.g.StripePos(s.wp.page))
    requires a in s.nand.status && BlkOf(a) == BlkOf(s.wp.page)
    ensures s.nand.status[a] == PgFree <==> a.pg >= s.wp.page.pg
  {
    if a.pg < s.wp.page.pg {
      s.g.StripeIncreasesInBlock(a, s.wp.page);
    } else if a.pg > s.wp.page.pg {
      s.g.StripeIncreasesInBlock(s.wp.page, a);
    }
  }

  /** A collection never lowers the number of free lines and raises it by at most one. */
  lemma CollectionKeepsFreeLines(s: Ssd, s': Ssd, v: nat)
    requires Inv(s) && v in s.lm.victims && Collected(s, s', v)
    ensures s.lm.freeCnt <= s'.lm.freeCnt <= s.lm.freeCnt + 1
  {
    VictimCounters(s, v);
    s.g.StripeInRange(s.wp.page);
    s.g.StripeInRange(s'.wp.page);
    LinesFromRoom(|s.lm.free|, |s'.lm.free|, s.g.PgsPerLine(), s.g.StripePos(s.wp.page),
                  s.g.StripePos(s'.wp.page), s.lm.ipc[v]);
  }

  lemma LinesFromRoom(f: int, f': int, p: int, k: int, k': int, gain: int)
    requires 0 <= k < p && 0 <= k' < p && 0 <= gain <= p
    requires f' * p + p - k' == f * p + p - k + gain
    ensures f <= f' <= f + 1
  {
    var d := f' - f;
    assert d * p == f' * p - f * p;
    if d <= -1 {
      MulMonotone(d, -1, p);
    } else if d >= 2 {
      MulMonotone(2, d, p);
    }
  }

  // ----- The forced loop of ssd_write -------------------------------------------------------------

  lemma CollectedKeepsMapped(s: Ssd, s': Ssd, v: nat)
    requires Inv(s) && Collected(s, s', v)
    ensures AllCollected(s, s', 1)
  {
    assert forall l: nat :: l in MappedLpns(s') <==> l in MappedLpns(s);
  }

  /** With a line's worth of room the forced loop never aborts; each round adds room and
      removes invalid pages, so there are at most as many rounds as invalid pages. */
  lemma {:induction false} ForcedLoopRuns(s: Ssd, picks: seq<nat>)
    requires Inv(s) && ForcedPicks(s, picks) && Room(s) >= s.g.PgsPerLine()
    ensures LoopDone(s, CollectAll(s, picks), |picks|)
    decreases |picks|
  {
    if picks != [] {
      var v := picks[0];
      VictimCounters(s, v);
      CollectKeepsInvariant(s, v);
      CollectedKeepsMapped(s, CollectLine(s, v).s, v);
      ForcedLoopRuns(CollectLine(s, v).s, picks[1..]);
    }
  }

  // ----- Host writes ----------------------------------------------------------------------------

  lemma MapOneMore(m: seq<Option<Ppa>>, m': seq<Option<Ppa>>, lpn: nat, n: nat, a: Ppa)
    requires 0 < n && lpn + n <= |m| && RangeMapped(m, m', lpn, n - 1)
    ensures RangeMapped(m, m'[lpn + n - 1 := Some(a)], lpn, n)
  {
    var m'' := m'[lpn + n - 1 := Some(a)];
    assert Mapped(m'') == Mapped(m') + {lpn + n - 1};
  }

  lemma WriteOneMore(s: Ssd, lpn: nat, n: nat, t: Ssd)
    requires 0 < n && lpn + n <= |s.maptbl| && PagesWritten(s, lpn, n - 1, Ok(t))
    ensures PagesWritten(s, lpn, n, WritePage(t, lpn + n - 1))
  {
    WritePageKeepsInvariant(t, lpn + n - 1);
    MapOneMore(s.maptbl, t.maptbl, lpn, n, t.wp.page);
  }

  lemma WriteNext(s: Ssd, lpn: nat, n: nat)
    requires Shape(s) && 0 < n && lpn + n <= |s.maptbl| && PagesWritten(s, lpn, n - 1, WritePages(s, lpn, n - 1))
    ensures PagesWritten(s, lpn, n, WritePages(s, lpn, n))
  {
    var r := WritePages(s, lpn, n - 1);
    if r.Ok? {
      WriteOneMore(s, lpn, n, r.s);
    }
  }

  lemma NothingWritten(s: Ssd, lpn: nat)
    requires Inv(s)
    ensures PagesWritten(s, lpn, 0, Ok(s))
  {
    s.g.StripeInRange(s.wp.page);
    RoomOfOne(s);
  }

  /** The write loop over n pages costs n pages of room and aborts exactly when there are
      no more than n.  It maps exactly the pages written and leaves the other entries alone. */
  lemma {:induction false} WritePagesKeepInvariant(s: Ssd, lpn: nat, n: nat)
    requires Inv(s) && lpn + n <= |s.maptbl|
    ensures PagesWritten(s, lpn, n, WritePages(s, lpn, n))
  {
    if n == 0 {
      NothingWritten(s, lpn);
    } else {
      WritePagesKeepInvariant(s, lpn, n - 1);
      WriteNext(s, lpn, n);
    }
  }

  // ----- Requests ---------------------------------------------------------------------------------

  /** In a steady state the forced loop reaches its goal: it stops with more than
      gcThresLinesHigh free lines, never for want of victims. */
  lemma ForcedLoopReachesGoal(s: Ssd, picks: seq<nat>, used: set<nat>)
    requires Steady(s, used) && ForcedPicks(s, picks)
    ensures GoalMet(s, CollectAll(s, picks), |picks|)
  {
    ForcedLoopRuns(s, picks);
    GoalReached(s, CollectAll(s, picks), |picks|, used);
  }

  lemma GoalReached(s: Ssd, r: Run, n: nat, used: set<nat>)
    requires MappedLpns(s) <= used && Provisioned(s.g, used) && LoopDone(s, r, n)
    ensures GoalMet(s, r, n)
  {
    var t := r.s;
    if t.lm.victims == {} {
      SubsetCounts(MappedLpns(t), used);
      NoVictimsMeansFree(t);
    }
    RoomAboveMark(t);
  }

  lemma RoomAboveMark(s: Ssd)
    requires Inv(s) && !ShouldGcHigh(s)
    ensures Room(s) > (s.g.gcThresLinesHigh + 1) * s.g.PgsPerLine()
  {
    s.g.StripeInRange(s.wp.page);
    MulMonotone(s.g.gcThresLinesHigh + 1, |s.lm.free|, s.g.PgsPerLine());
  }

  lemma SteadyShape(s: Ssd, used: set<nat>)
    requires Steady(s, used)
    ensures Shape(s) && Inv(s) && s.g.Positive()
  {
  }

  /** An admissible request in a steady state is served without abort. */
  lemma ServeIsSteady(s: Ssd, op: Op, used: set<nat>)
    requires Steady(s, used) && Admissible(s.g, op, used) && Possible(s, op)
    ensures Serve(s, op.req).Ok? && Steady(Serve(s, op.req).s, used)
  {
    hide Inv, NandShape, LineShape, WpShape, CollectAll, WritePages, ForcedPicks, Room, StartLpn, PageCount, Provisioned,
         MappedLpns, Geometry.PgsPerLine, Geometry.TtPgs, Geometry.Positive;
    SteadyShape(s, used);
    if op.req.WriteReq? {
      var lpn, n := StartLpn(s.g, op.req), PageCount(s.g, op.req);
      ForcedLoopReachesGoal(s, op.req.forced, used);
      var t := CollectAll(s, op.req.forced).s;
      WriteStaysSteady(s, t, lpn, n, used);
    }
  }

  /** Writing what the kept free lines have room for. */
  lemma WriteStaysSteady(s: Ssd, t: Ssd, lpn: nat, n: nat, used: set<nat>)
    requires Inv(t) && Provisioned(t.g, used) && MappedLpns(t) <= used && Shape(t)
    requires Room(t) > (t.g.gcThresLinesHigh + 1) * t.g.PgsPerLine()
    requires Range(lpn, n) <= used && lpn + n <= t.g.TtPgs() && n <= t.g.gcThresLinesHigh * t.g.PgsPerLine()
    ensures WritePages(t, lpn, n).Ok? && Steady(WritePages(t, lpn, n).s, used)
  {
    hide Inv, NandShape, LineShape, WpShape, WritePages, Room, Geometry.PgsPerLine, Geometry.TtPgs;
    WritePagesKeepInvariant(t, lpn, n);
    assert (t.g.gcThresLinesHigh + 1) * t.g.PgsPerLine() == t.g.gcThresLinesHigh * t.g.PgsPerLine() + t.g.PgsPerLine();
  }

  lemma StepIsSteady(s: Ssd, op: Op, used: set<nat>)
    requires Steady(s, used) && Admissible(s.g, op, used) && Possible(s, op)
    ensures Step(s, op).Ok? && Steady(Step(s, op).s, used)
  {
    hide Inv, NandShape, LineShape, WpShape, Serve, CollectLine, ForcedPicks, Room, Steady, Admissible, Geometry.Positive;
    SteadyShape(s, used);
    ServeIsSteady(s, op, used);
    if op.background.Some? {
      var t, v := Serve(s, op.req).s, op.background.value;
      CollectionStaysSteady(t, v, used);
    }
  }

  lemma CollectionStaysSteady(t: Ssd, v: nat, used: set<nat>)
    requires Steady(t, used) && v in t.lm.victims && Shape(t)
    ensures v < t.g.TtLines() && CollectLine(t, v).Ok? && Steady(CollectLine(t, v).s, used)
  {
    hide Inv, Shape, CollectLine, Room, Provisioned, MappedLpns;
    VictimCounters(t, v);
    CollectKeepsInvariant(t, v);
    CollectedKeepsMapped(t, CollectLine(t, v).s, v);
  }

  lemma {:induction false} RunIsSteady(s: Ssd, ops: seq<Op>, used: set<nat>)
    requires Steady(s, used) && (forall i :: 0 <= i < |ops| ==> Admissible(s.g, ops[i], used))
    requires AllPossible(s, ops)
    ensures RunAll(s, ops).Ok? && Steady(RunAll(s, ops).s, used)
    decreases |ops|
  {
    if ops != [] {
      StepIsSteady(s, ops[0], used);
      RunIsSteady(Step(s, ops[0]).s, ops[1..], used);
    }
  }

  /** Space safety of whole runs: on a provisioned device no sequence of admissible
      requests, forced collections and background collections, whatever victims the
      heap picks among equals, reaches the abort() for want of a free line. */
  lemma RunFromInitIsSafe(g: Geometry, ops: seq<Op>, used: set<nat>)
    requires Provisioned(g, used) && forall i :: 0 <= i < |ops| ==> Admissible(g, ops[i], used)
    requires Shape(Init(g)) && AllPossible(Init(g), ops)
    ensures RunAll(Init(g), ops).Ok? && Steady(RunAll(Init(g), ops).s, used)
  {
    InitHolds(g);
    MulMonotone(1, g.TtLines(), g.PgsPerLine());
    RunIsSteady(Init(g), ops, used);
  }
}
