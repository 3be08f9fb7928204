/** `struct line_mgmt` of femu/bbssd/ftl.c in memory: one column per field of `struct line`,
    the free and full lists, and the victim heap, whose priorities are the `vpc` column and
    whose back-pointers are the `pos` column. */
module LineManagers {
  import opened Geometries
  import opened Queues
  import opened FtlStates
  import opened PQueues

  lemma MembersHavePositions(v: seq<nat>, pos: seq<nat>, n: nat)
    requires Slots(v, n, |pos|) && Indexed(v, pos, n, 0)
    ensures forall l :: l in Elems(v, n) ==> l < |pos| && pos[l] != 0
  {
    forall l | l in Elems(v, n) ensures l < |pos| && pos[l] != 0 {
      PositionOf(v, pos, n, l);
    }
  }

  class LineManager {
    const g: Geometry
    const vpc: array<nat>
    const ipc: array<nat>
    const pos: array<nat>
    const victimPq: PQueue
    var free: seq<nat>
    var full: seq<nat>
    var freeCnt: int
    var fullCnt: int
    var victimCnt: int

    ghost function Repr(): set<object>
      reads this, victimPq
    {
      {this, vpc, ipc, pos, victimPq, victimPq.d}
    }

    /** A line has a position exactly while it is in the heap. */
    ghost predicate Positioned()
      requires victimPq.size <= victimPq.d.Length
      reads victimPq, victimPq.d, pos
    {
      forall l :: 0 <= l < pos.Length ==> (pos[l] != 0 <==> l in victimPq.Elements())
    }

    ghost predicate Valid()
      reads Repr()
    {
      && vpc.Length == g.TtLines() && ipc.Length == g.TtLines() && pos.Length == g.TtLines()
      && ipc != vpc && ipc != pos && ipc != victimPq.d
      && victimPq.pri == vpc && victimPq.pos == pos && victimPq.Valid()
      && Positioned()
    }

    ghost function View(): (lm: LineMgmt)
      requires Valid()
      reads Repr()
      ensures LineShape(g, lm)
    {
      LineMgmt(vpc[..], ipc[..], free, full, victimPq.Elements(), freeCnt, fullCnt, victimCnt)
    }

    /** `ssd_init_lines`, followed by the removal of the first line in `ssd_init_write_pointer`. */
    constructor (g: Geometry)
      requires g.Positive()
      ensures Valid() && this.g == g && fresh(Repr())
      ensures View() == LineMgmt(seq(g.TtLines(), _ => 0), seq(g.TtLines(), _ => 0),
                                 seq(g.TtLines(), i => i), [], {}, g.TtLines(), 0, 0)
    {
      this.g := g;
      var n := g.TtLines();
      var v := new nat[n](_ => 0);
      var i := new nat[n](_ => 0);
      var p := new nat[n](_ => 0);
      var pq := new PQueue(n, v, p);
      vpc, ipc, pos, victimPq := v, i, p, pq;
      full, fullCnt, victimCnt := [], 0, 0;
      var list: seq<nat>, cnt := [], 0;
      for l := 0 to n
        invariant cnt == l && list == seq(l, j => j)
      {
        list := list + [l];
        cnt := cnt + 1;
      }
      free, freeCnt := list, cnt;
      new;
      assert freeCnt == g.TtLines();
    }

    /** Line part of `mark_page_invalid`, with its assertions. */
    method Invalidate(l: nat)
      requires Valid() && l < g.TtLines()
      requires 0 < View().vpc[l] <= g.PgsPerLine() && View().ipc[l] < g.PgsPerLine()
      requires View().vpc[l] == g.PgsPerLine() ==> View().ipc[l] == 0 && l in full && l !in View().victims
      modifies Repr()
      ensures Valid() && fresh(Repr() - old(Repr()))
      ensures View() == InvalidateInLine(g, old(View()), l)
    {
      var wasFull := false;
      assert 0 <= ipc[l] < g.PgsPerLine();
      if vpc[l] == g.PgsPerLine() {
        assert ipc[l] == 0;
        wasFull := true;
      }
      IncrementIpc(l);
      assert 0 < vpc[l] <= g.PgsPerLine();
      DecrementVpc(l);
      if wasFull {
        FullToVictim(l);
      }
    }

    /** A full line that has lost a page becomes a victim. */
    method FullToVictim(l: nat)
      requires Valid() && l < g.TtLines() && l !in victimPq.Elements()
      modifies this`full, this`fullCnt, this`victimCnt, victimPq, victimPq.d, pos
      ensures Valid() && fresh(Repr() - old(Repr()))
      ensures View() == old(View()).(full := Without(old(full), l), fullCnt := old(fullCnt) - 1,
                                     victims := old(View()).victims + {l}, victimCnt := old(victimCnt) + 1)
    {
      full := Without(full, l);
      fullCnt := fullCnt - 1;
      AddVictim(l);
    }

    method IncrementIpc(l: nat)
      requires Valid() && l < g.TtLines()
      modifies ipc
      ensures Valid() && View() == old(View()).(ipc := old(View()).ipc[l := old(ipc[l]) + 1])
    {
      ipc[l] := ipc[l] + 1;
    }

    /** `if (line->pos) pqueue_change_priority(...) else line->vpc--`. */
    method DecrementVpc(l: nat)
      requires Valid() && l < g.TtLines() && vpc[l] > 0
      modifies vpc, pos, victimPq.d
      ensures Valid() && View() == old(View()).(vpc := old(View()).vpc[l := old(vpc[l]) - 1])
    {
      if pos[l] != 0 {
        victimPq.ChangePriority(vpc[l] - 1, l);
        MembersHavePositions(victimPq.d[..], pos[..], victimPq.size);
      } else {
        OutsidersPriority(victimPq.d[..], vpc[..], victimPq.size, l, vpc[l] - 1);
        vpc[l] := vpc[l] - 1;
      }
    }

    static lemma OutsidersPriority(v: seq<nat>, pri: seq<nat>, n: nat, l: nat, x: nat)
      requires Slots(v, n, |pri|) && HeapOrdered(v, pri, n) && l < |pri| && l !in Elems(v, n)
      ensures HeapOrdered(v, pri[l := x], n)
    {
      forall j | 1 <= j < n ensures v[j] != l {
        assert v[j] in Elems(v, n);
      }
    }

    /** `pqueue_insert(lm->victim_line_pq, line); lm->victim_line_cnt++`. */
    method AddVictim(l: nat)
      requires Valid() && l < g.TtLines() && l !in victimPq.Elements()
      modifies this`victimCnt, victimPq, victimPq.d, pos
      ensures Valid() && fresh(Repr() - old(Repr()))
      ensures View() == old(View()).(victims := old(View()).victims + {l}, victimCnt := old(victimCnt) + 1)
    {
      victimPq.Insert(l);
      MembersHavePositions(victimPq.d[..], pos[..], victimPq.size);
      victimCnt := victimCnt + 1;
    }

    /** Line part of `mark_page_valid`, with its assertion. */
    method IncrementVpc(l: nat)
      requires Valid() && l < g.TtLines() && View().vpc[l] < g.PgsPerLine() && l !in View().victims
      modifies vpc
      ensures Valid() && View() == old(View()).(vpc := old(View()).vpc[l := old(vpc[l]) + 1])
    {
      assert 0 <= vpc[l] < g.PgsPerLine();
      OutsidersPriority(victimPq.d[..], vpc[..], victimPq.size, l, vpc[l] + 1);
      vpc[l] := vpc[l] + 1;
    }

    /** The used-up open line becomes a full line or a victim (ssd_advance_write_pointer). */
    method Close(l: nat)
      requires Valid() && l < g.TtLines() && l !in View().victims
      requires View().vpc[l] + View().ipc[l] == g.PgsPerLine()
      modifies Repr()
      ensures Valid() && fresh(Repr() - old(Repr())) && View() == CloseLine(g, old(View()), l)
    {
      if vpc[l] == g.PgsPerLine() {
        assert ipc[l] == 0;
        full := full + [l];
        fullCnt := fullCnt + 1;
      } else {
        assert 0 <= vpc[l] < g.PgsPerLine();
        assert ipc[l] > 0;
        AddVictim(l);
      }
    }

    /** `get_next_free_line`. */
    method GetNextFree() returns (found: bool, l: nat)
      requires Valid()
      modifies this`free, this`freeCnt
      ensures Valid() && (found <==> old(free) != [])
      ensures !found ==> View() == old(View())
      ensures found ==> l == old(free)[0] && View() == TakeFreeLine(old(View()))
    {
      if free == [] {
        return false, 0;
      }
      found, l := true, free[0];
      free := free[1..];
      freeCnt := freeCnt - 1;
    }

    /** `select_victim_line`: a victim of least vpc, unless there is none or it holds too few
        invalid pages and the collection is not forced. */
    method SelectVictim(force: bool) returns (found: bool, v: nat)
      requires Valid()
      modifies this`victimCnt, victimPq, victimPq.d, pos
      ensures Valid() && victimPq.d == old(victimPq.d)
      ensures View() == if found then TakeVictim(old(View()), v) else old(View())
      ensures found ==> LeastValid(old(View()), v)
      ensures found ==> WorthCleaning(g, old(View()), v, force)
      ensures !found && old(View()).victims != {} ==> LeastValid(old(View()), v)
      ensures !found && old(View()).victims != {} ==> !WorthCleaning(g, old(View()), v, force)
    {
      found, v := victimPq.Peek();
      if !found {
        return;
      }
      if !force && ipc[v] < g.PgsPerLine() / 8 {
        return false, v;
      }
      PopVictim(v);
    }

    method PopVictim(ghost v: nat)
      requires Valid() && v in victimPq.Elements() && v == victimPq.d[1]
      modifies this`victimCnt, victimPq, victimPq.d, pos
      ensures Valid() && victimPq.d == old(victimPq.d) && View() == TakeVictim(old(View()), v)
    {
      var found, line := victimPq.Pop();
      MembersHavePositions(victimPq.d[..], pos[..], victimPq.size);
      UnlistedPosition(victimPq.d[..], pos[..], victimPq.size, line);
      pos[line] := 0;
      victimCnt := victimCnt - 1;
    }

    static lemma UnlistedPosition(v: seq<nat>, pos: seq<nat>, n: nat, l: nat)
      requires Slots(v, n, |pos|) && Indexed(v, pos, n, 0) && l < |pos| && l !in Elems(v, n)
      ensures Indexed(v, pos[l := 0], n, 0)
    {
      forall j | 1 <= j < n ensures v[j] != l {
        assert v[j] in Elems(v, n);
      }
    }

    /** `mark_line_free`. */
    method MarkFree(l: nat)
      requires Valid() && l < g.TtLines() && l !in View().victims
      modifies this`free, this`freeCnt, vpc, ipc
      ensures Valid() && View() == MarkLineFree(old(View()), l)
    {
      OutsidersPriority(victimPq.d[..], vpc[..], victimPq.size, l, 0);
      ipc[l] := 0;
      vpc[l] := 0;
      free := free + [l];
      freeCnt := freeCnt + 1;
    }
  }
}
