/** The state of a collection under way and the effect of a finished one; module FtlGc
    holds the proofs. */
module FtlGcModel {
  import opened Wrappers
  import opened Geometries
  import opened FtlStates
  import opened FtlInvariants

  /** The index of a block within its line, in the order of the loops of `do_gc`. */
  function BlkIdx(g: Geometry, b: Blk): nat {
    b.ch * g.lunsPerCh + b.lun
  }

  /** The pages of line v that were live in st0 and lie in its first k blocks. */
  ghost function Copied(g: Geometry, st0: map<Ppa, PgStatus>, v: nat, k: nat): set<Ppa> {
    set a | a in st0 && a.blk == v && st0[a] == PgValid && BlkIdx(g, BlkOf(a)) < k
  }

  /** The live pages of block b below page n. */
  ghost function CopiedInBlk(st0: map<Ppa, PgStatus>, b: Blk, n: nat): set<Ppa> {
    set a | a in st0 && BlkOf(a) == b && st0[a] == PgValid && a.pg < n
  }

  /** Line v: the first k blocks are erased, the others still as in st0. */
  ghost predicate VictimPages(g: Geometry, st0: map<Ppa, PgStatus>, st: map<Ppa, PgStatus>, v: nat, k: nat) {
    st.Keys == st0.Keys
    && forall a :: a in st && a.blk == v ==> st[a] == if BlkIdx(g, BlkOf(a)) < k then PgFree else st0[a]
  }

  /** Outside line v pages are only programmed. */
  ghost predicate OtherPages(st0: map<Ppa, PgStatus>, st: map<Ppa, PgStatus>, v: nat) {
    st.Keys == st0.Keys
    && forall a :: a in st && a.blk != v ==> st[a] == st0[a] || (st0[a] == PgFree && st[a] == PgValid)
  }

  /** No logical page is mapped or unmapped; only those in line v are relocated. */
  ghost predicate LpnsKept(m0: seq<Option<Ppa>>, m: seq<Option<Ppa>>, v: nat) {
    |m| == |m0|
    && forall l :: 0 <= l < |m| ==>
         && m[l].Some? == m0[l].Some?
         && (m0[l].Some? && m[l] != m0[l] ==> m0[l].value.blk == v && m[l].value.blk != v)
  }

  /** The invariant while line v is out of the heap and `moved` has been copied out. */
  ghost predicate Sound(s: Ssd, v: nat, moved: set<Ppa>) {
    var k := s.g.StripePos(s.wp.page);
    Consistent(s, Some(v), k) && Maps(s, None, moved)
  }

  /** How the state differs from the start: k blocks done, `moved` copied out of the next. */
  ghost predicate Changed(s0: Ssd, s: Ssd, v: nat, k: nat, moved: set<Ppa>) {
    var st0, st := s0.nand.status, s.nand.status;
    && s.g == s0.g && v < |s.lm.vpc| == |s0.lm.vpc|
    && VictimPages(s.g, st0, st, v, k)
    && OtherPages(st0, st, v)
    && LpnsKept(s0.maptbl, s.maptbl, v)
    && (forall a :: a in moved ==> a in s0.nand.status && a.blk == v && BlkIdx(s.g, BlkOf(a)) == k)
    && s.lm.ipc == s0.lm.ipc && s.lm.vpc[v] == s0.lm.vpc[v]
    && Room(s) + |moved| + |Copied(s.g, s0.nand.status, v, k)| == Room(s0)
  }

  /** Outcome r of a part of a collection started in s0 that leads from s to a state with k
      finished blocks and m moved out: it programs `cost` pages and aborts exactly when
      there is no more room than that. */
  ghost predicate Outcome(s0: Ssd, s: Ssd, v: nat, k: nat, m: set<Ppa>, cost: nat, r: Run) {
    && !r.Fault? && (r.Aborted? <==> Room(s) <= cost)
    && (r.Ok? ==> Sound(r.s, v, m) && Changed(s0, r.s, v, k, m) && Room(r.s) == Room(s) - cost)
  }

  /** Line v is being collected and b, its k-th block, is the next to be cleaned. */
  ghost predicate BlkStart(s0: Ssd, s: Ssd, v: nat, k: nat, b: Blk) {
    && Sound(s, v, {}) && Changed(s0, s, v, k, {}) && IsBlk(s.g, v, k, b)
  }

  /** b is the k-th block of line v. */
  ghost predicate IsBlk(g: Geometry, v: nat, k: nat, b: Blk) {
    g.ValidBlk(b) && b.blk == v && BlkIdx(g, b) == k
  }

  /** Page a of the k-th block of v is the next to be visited; m has been moved out. */
  ghost predicate PageDue(s0: Ssd, s: Ssd, v: nat, k: nat, m: set<Ppa>, a: Ppa) {
    && Sound(s, v, m) && Changed(s0, s, v, k, m) && a !in m
    && s.g.ValidPpa(a) && IsBlk(s.g, v, k, BlkOf(a))
  }

  /** What one collection of v does to the state. */
  ghost predicate Collected(s: Ssd, s': Ssd, v: nat) {
    var st, st' := s.nand.status, s'.nand.status;
    && v < |s.lm.ipc| && Inv(s') && s'.g == s.g
    && Room(s') == Room(s) + s.lm.ipc[v]
    && |WithStatus(st', PgInvalid)| == |WithStatus(st, PgInvalid)| - s.lm.ipc[v]
    && s.lm.ipc[v] >= 1
    && LpnsKept(s.maptbl, s'.maptbl, v) && OtherPages(st, st', v)
    && (forall a :: a in st' && a.blk == v ==> st'[a] == PgFree)
  }
}
