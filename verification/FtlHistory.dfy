/** What every run of the FTL thread keeps, on any device and for any requests. */
module FtlHistory {
  import opened Wrappers
  import opened Arithmetic
  import opened Geometries
  import opened FtlStates
  import opened FtlInvariants
  import opened FtlGcModel
  import opened FtlSteps
  import opened FtlGc
  import opened FtlRunModel
  import opened FtlRuns

  // ----- The invariant over every run ---------------------------------------------------------

  /** Collections under way or done, with or without space. */
  ghost predicate Survives(s: Ssd, r: Run) {
    !r.Fault? && (r.Ok? ==> Inv(r.s) && r.s.g == s.g && MappedLpns(r.s) == MappedLpns(s))
  }

  lemma CollectSurvives(s: Ssd, v: nat)
    requires Inv(s) && v in s.lm.victims
    ensures Shape(s) && v < s.g.TtLines() && Survives(s, CollectLine(s, v))
  {
    hide CollectLine, Shape, Consistent, Maps;
    InvShape(s);
    CollectKeepsInvariant(s, v);
    if CollectLine(s, v).Ok? {
      CollectedKeepsMapped(s, CollectLine(s, v).s, v);
    }
  }

  lemma {:induction false} ForcedLoopSurvives(s: Ssd, picks: seq<nat>)
    requires Inv(s) && Shape(s) && ForcedPicks(s, picks)
    ensures Survives(s, CollectAll(s, picks))
    decreases |picks|
  {
    hide CollectLine, Shape, Inv, MappedLpns;
    if picks != [] {
      CollectSurvives(s, picks[0]);
      var r := CollectLine(s, picks[0]);
      if r.Ok? {
        ForcedLoopSurvives(r.s, picks[1..]);
      }
    }
  }

  /** The request stays below `tt_pgs`. */
  predicate InRange(g: Geometry, req: Request)
    requires g.Positive()
  {
    req.WriteReq? ==> StartLpn(g, req) + PageCount(g, req) <= g.TtPgs()
  }

  /** The logical pages that a request writes. */
  ghost function LpnsOf(g: Geometry, req: Request): set<nat>
    requires g.Positive()
  {
    if req.WriteReq? then Range(StartLpn(g, req), PageCount(g, req)) else {}
  }

  /** Past the end of the map the loop of `ssd_write` indexes out of it, if it gets that far. */
  lemma PastTheEnd(s: Ssd, lpn: nat, n: nat)
    requires Shape(s) && lpn + n > |s.maptbl| && n > 0
    ensures !WritePages(s, lpn, n).Ok?
  {
    var r := WritePages(s, lpn, n - 1);
    if r.Ok? {
      hide NandShape, LineShape, WpShape, AdvanceWritePointer, PlacePage, DropOld;
      assert |r.s.maptbl| == |s.maptbl|;
    }
  }

  /** Outcome r of serving a request in s. */
  ghost predicate Served(s: Ssd, req: Request, r: Run) {
    s.g.Positive()
    && (r.Fault? ==> !InRange(s.g, req))
    && (r.Ok? ==> InRange(s.g, req) && Inv(r.s) && r.s.g == s.g
                  && MappedLpns(r.s) == MappedLpns(s) + LpnsOf(s.g, req))
  }

  lemma WritesServed(s: Ssd, t: Ssd, req: Request)
    requires Shape(s) && Shape(t) && Inv(t) && t.g == s.g && MappedLpns(t) == MappedLpns(s) && req.WriteReq?
    ensures Served(s, req, WritePages(t, StartLpn(s.g, req), PageCount(s.g, req)))
  {
    hide Inv, WritePages, Geometry.TtPgs, StartLpn, PageCount, NandShape, LineShape, WpShape;
    var lpn, n := StartLpn(s.g, req), PageCount(s.g, req);
    if InRange(s.g, req) {
      WritePagesKeepInvariant(t, lpn, n);
    } else {
      SomePage(s.g, req);
      PastTheEnd(t, lpn, n);
    }
  }

  lemma SomePage(g: Geometry, req: Request)
    requires g.Positive() && req.WriteReq?
    ensures PageCount(g, req) > 0
  {
    DivMonotone(req.slba, req.slba + req.nlb - 1, g.secsPerPg);
  }

  lemma ServeKeepsInvariant(s: Ssd, req: Request)
    requires Inv(s) && Shape(s) && (req.WriteReq? ==> ForcedPicks(s, req.forced))
    ensures Served(s, req, Serve(s, req))
  {
    hide Inv, WritePages, CollectAll, ForcedPicks, NandShape, LineShape, WpShape, StartLpn, PageCount;
    if req.WriteReq? {
      ForcedLoopSurvives(s, req.forced);
      var r := CollectAll(s, req.forced);
      if r.Ok? {
        WritesServed(s, r.s, req);
      }
    }
  }

  lemma StepKeepsInvariant(s: Ssd, op: Op)
    requires Inv(s) && Shape(s) && Possible(s, op)
    ensures Served(s, op.req, Step(s, op))
  {
    hide Inv, Serve, CollectLine, ForcedPicks, Shape, InRange, MappedLpns, LpnsOf;
    ServeKeepsInvariant(s, op.req);
    var r := Serve(s, op.req);
    if r.Ok? && op.background.Some? {
      CollectSurvives(r.s, op.background.value);
    }
  }

  /** The logical pages that the requests write. */
  ghost function LpnsOfAll(g: Geometry, ops: seq<Op>): set<nat>
    requires g.Positive()
  {
    if ops == [] then {} else LpnsOf(g, ops[0].req) + LpnsOfAll(g, ops[1..])
  }

  predicate AllInRange(g: Geometry, ops: seq<Op>)
    requires g.Positive()
  {
    forall i :: 0 <= i < |ops| ==> InRange(g, ops[i].req)
  }

  /** Every run of host writes, forced and background collections, on any device and for any
      choice among victims, keeps the invariant, in particular that the two page maps are
      mutual inverses.  It maps exactly the logical pages written.  No assertion fails and no
      table is left unless a request reaches past `tt_pgs`; the other way to stop is the
      abort() for want of a free line. */
  lemma {:induction false} RunKeepsInvariant(s: Ssd, ops: seq<Op>)
    requires Inv(s) && Shape(s) && AllPossible(s, ops)
    ensures s.g.Positive()
    ensures RunAll(s, ops).Fault? ==> !AllInRange(s.g, ops)
    ensures RunAll(s, ops).Ok? ==>
              var t := RunAll(s, ops).s;
              && Inv(t) && t.g == s.g && AllInRange(s.g, ops)
              && MappedLpns(t) == MappedLpns(s) + LpnsOfAll(s.g, ops)
    decreases |ops|
  {
    hide Inv, Step, Possible, InRange, MappedLpns, LpnsOf, NandShape, LineShape, WpShape;
    if ops != [] {
      StepKeepsInvariant(s, ops[0]);
      var r := Step(s, ops[0]);
      if r.Ok? {
        RunKeepsInvariant(r.s, ops[1..]);
        assert AllInRange(s.g, ops[1..]) && InRange(s.g, ops[0].req) ==> AllInRange(s.g, ops);
        assert AllInRange(s.g, ops) ==> AllInRange(s.g, ops[1..]);
      }
    }
  }

  // ----- Logical pages by sectors ---------------------------------------------------------------

  /** Sector x is in logical page l. */
  ghost predicate InPage(g: Geometry, x: nat, l: nat) {
    l * g.secsPerPg <= x < l * g.secsPerPg + g.secsPerPg
  }

  /** The request writes a sector of logical page l. */
  ghost predicate WritesTo(g: Geometry, req: Request, l: nat) {
    req.WriteReq? && exists x: nat :: req.slba <= x < req.slba + req.nlb && InPage(g, x, l)
  }

  lemma PageOfSector(g: Geometry, x: nat, l: nat)
    requires g.Positive()
    ensures InPage(g, x, l) <==> x / g.secsPerPg == l
  {
    if InPage(g, x, l) {
      DivModUnique(l, x - l * g.secsPerPg, g.secsPerPg);
    }
  }

  lemma PagesOfRequest(g: Geometry, req: Request)
    requires g.Positive() && req.WriteReq?
    ensures StartLpn(g, req) == req.slba / g.secsPerPg
    ensures StartLpn(g, req) + PageCount(g, req) - 1 == (req.slba + req.nlb - 1) / g.secsPerPg
  {
  }

  /** A request maps exactly the logical pages of which it writes a sector, from the page of
      its first sector to that of its last, whatever their alignment. */
  lemma LpnsBySectors(g: Geometry, req: Request, l: nat)
    requires g.Positive()
    ensures l in LpnsOf(g, req) <==> WritesTo(g, req, l)
  {
    hide StartLpn, PageCount, InPage;
    if req.WriteReq? {
      var first, last, n := req.slba, req.slba + req.nlb - 1, g.secsPerPg;
      PagesOfRequest(g, req);
      if l in LpnsOf(g, req) {
        var x := if l == first / n then first else l * n;
        PageOfSector(g, x, l);
        if l != first / n { LaterPage(first, last, l, n); }
      }
      if WritesTo(g, req, l) {
        var x: nat :| first <= x <= last && InPage(g, x, l);
        PageOfSector(g, x, l);
        DivMonotone(first, x, n);
        DivMonotone(x, last, n);
      }
    }
  }

  /** The first sector of a page after that of `first` and up to that of `last`. */
  lemma LaterPage(first: nat, last: nat, l: nat, n: nat)
    requires n > 0 && first / n < l <= last / n
    ensures first <= l * n <= last && l * n / n == l
  {
    DivModUnique(l, 0, n);
    MulMonotone(first / n + 1, l, n);
    assert (first / n + 1) * n == (first / n) * n + n;
    MulMonotone(l, last / n, n);
  }

  /** A request stays in range exactly if its last sector is one of the device. */
  lemma RangeBySectors(g: Geometry, req: Request)
    requires g.Positive() && req.WriteReq?
    ensures InRange(g, req) <==> req.slba + req.nlb <= g.TtPgs() * g.secsPerPg
  {
    hide StartLpn, PageCount, Geometry.TtPgs;
    PagesOfRequest(g, req);
    var last, n := req.slba + req.nlb - 1, g.secsPerPg;
    assert last == (last / n) * n + last % n;
    if last / n < g.TtPgs() {
      ScaledGap(last / n, g.TtPgs(), n);
    } else {
      MulMonotone(g.TtPgs(), last / n, n);
    }
  }

  /** Some request of the run writes a sector of logical page l. */
  ghost predicate WrittenInRun(g: Geometry, ops: seq<Op>, l: nat) {
    exists i :: 0 <= i < |ops| && WritesTo(g, ops[i].req, l)
  }

  lemma {:induction false} LpnsOfRun(g: Geometry, ops: seq<Op>, l: nat)
    requires g.Positive()
    ensures l in LpnsOfAll(g, ops) <==> WrittenInRun(g, ops, l)
    decreases |ops|
  {
    hide LpnsOf, WritesTo;
    if ops != [] {
      LpnsBySectors(g, ops[0].req, l);
      LpnsOfRun(g, ops[1..], l);
      if WrittenInRun(g, ops[1..], l) {
        var i :| 0 <= i < |ops| - 1 && WritesTo(g, ops[1..][i].req, l);
        assert ops[1..][i] == ops[i + 1];
      }
      if WrittenInRun(g, ops, l) && !WritesTo(g, ops[0].req, l) {
        var i :| 0 <= i < |ops| && WritesTo(g, ops[i].req, l);
        assert ops[i] == ops[1..][i - 1];
      }
    }
  }

  /** From `ssd_init` exactly those logical pages are mapped of which a request has written a
      sector. */
  lemma RunFromInit(g: Geometry, ops: seq<Op>)
    requires g.Positive() && Shape(Init(g)) && AllPossible(Init(g), ops)
    ensures RunAll(Init(g), ops).Fault? ==>
              exists i :: 0 <= i < |ops| && ops[i].req.WriteReq?
                          && ops[i].req.slba + ops[i].req.nlb > g.TtPgs() * g.secsPerPg
    ensures RunAll(Init(g), ops).Ok? ==>
              && Inv(RunAll(Init(g), ops).s)
              && forall l: nat :: l in MappedLpns(RunAll(Init(g), ops).s) <==> WrittenInRun(g, ops, l)
  {
    hide Inv, RunAll, AllPossible, Shape, WrittenInRun, InRange, MappedLpns, Geometry.TtPgs;
    InitHolds(g);
    RunKeepsInvariant(Init(g), ops);
    if RunAll(Init(g), ops).Fault? {
      var i :| 0 <= i < |ops| && !InRange(g, ops[i].req);
      OnlyWritesLeave(g, ops[i].req);
      RangeBySectors(g, ops[i].req);
    }
    forall l: nat ensures l in LpnsOfAll(g, ops) <==> WrittenInRun(g, ops, l) {
      LpnsOfRun(g, ops, l);
    }
  }

  lemma OnlyWritesLeave(g: Geometry, req: Request)
    requires g.Positive() && !InRange(g, req)
    ensures req.WriteReq?
  {
  }

  // ----- The two other ways to end -------------------------------------------------------------

  /** A request for n whole pages. */
  lemma PagesOf(g: Geometry, lpn: nat, n: nat)
    requires g.Positive() && n > 0
    ensures n * g.secsPerPg >= 1
    ensures var req := WriteReq(lpn * g.secsPerPg, n * g.secsPerPg, []); StartLpn(g, req) == lpn && PageCount(g, req) == n
  {
    MulMonotone(1, n, g.secsPerPg);
    DivModUnique(lpn, 0, g.secsPerPg);
    assert (lpn + n - 1) * g.secsPerPg + g.secsPerPg == lpn * g.secsPerPg + n * g.secsPerPg;
    DivModUnique(lpn + n - 1, g.secsPerPg - 1, g.secsPerPg);
  }

  lemma NothingToCollect(g: Geometry, req: Request)
    requires g.Positive() && Shape(Init(g)) && req.WriteReq? && req.forced == []
    ensures ForcedPicks(Init(g), req.forced)
    ensures Serve(Init(g), req) == WritePages(Init(g), StartLpn(g, req), PageCount(g, req))
  {
    hide Shape, WritePages, StartLpn, PageCount;
  }

  /** A run of one request that does not complete. */
  lemma EndsAtOnce(s: Ssd, op: Op)
    requires Shape(s) && !Serve(s, op.req).Ok? && (op.req.WriteReq? ==> ForcedPicks(s, op.req.forced))
    ensures AllPossible(s, [op]) && RunAll(s, [op]) == Serve(s, op.req)
  {
    hide Serve, Shape, ForcedPicks;
  }

  /** On every new device: a first write just past the last page leaves the map, and a first
      write of all pages ends in the abort(). */
  lemma BothEndsReached(g: Geometry)
    requires g.Positive() && Shape(Init(g))
    ensures g.TtPgs() * g.secsPerPg >= 1
    ensures var past := Op(WriteReq(g.TtPgs() * g.secsPerPg, g.secsPerPg, []), None);
            AllPossible(Init(g), [past]) && RunAll(Init(g), [past]).Fault?
    ensures var all := Op(WriteReq(0, g.TtPgs() * g.secsPerPg, []), None);
            AllPossible(Init(g), [all]) && RunAll(Init(g), [all]).Aborted?
  {
    hide Inv, Shape, WritePages, Serve, ForcedPicks, RunAll, AllPossible, Geometry.TtPgs, StartLpn, PageCount, Room;
    var s := Init(g);
    SomePages(g);
    InitHolds(g);
    PagesOf(g, g.TtPgs(), 1);
    var past := Op(WriteReq(g.TtPgs() * g.secsPerPg, g.secsPerPg, []), None);
    NothingToCollect(g, past.req);
    FirstPagePast(g);
    EndsAtOnce(s, past);
    PagesOf(g, 0, g.TtPgs());
    var all := Op(WriteReq(0, g.TtPgs() * g.secsPerPg, []), None);
    NothingToCollect(g, all.req);
    WritePagesKeepInvariant(s, 0, g.TtPgs());
    EndsAtOnce(s, all);
  }

  lemma FirstPagePast(g: Geometry)
    requires g.Positive() && Shape(Init(g))
    ensures WritePages(Init(g), g.TtPgs(), 1).Fault?
  {
    hide Shape;
    assert WritePages(Init(g), g.TtPgs(), 0) == Ok(Init(g));
  }

  lemma SomePages(g: Geometry)
    requires g.Positive()
    ensures g.TtPgs() >= 1 && g.TtLines() * g.PgsPerLine() == g.TtPgs() && |Init(g).maptbl| == g.TtPgs()
  {
    MulMonotone(1, g.pgsPerBlk, g.blksPerPl);
    MulMonotone(1, g.PgsPerLun(), g.lunsPerCh);
    MulMonotone(1, g.PgsPerCh(), g.nchs);
  }
}
