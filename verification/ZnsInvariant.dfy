/** The resource invariant of zoned namespaces: each zone is in the queue of its state and in
    no other, the counters count open and active zones, and neither exceeds its limit. */
module ZnsInvariant {
  import opened Queues
  import opened ZnsModel

  ghost predicate ListedIn(s: Zns, st: ZState) {
    && NoDup(ListOf(s, st))
    && forall i: nat :: i in ListOf(s, st) <==> i < |s.zones| && s.zones[i].zs == st
  }

  ghost predicate Listed(s: Zns) {
    ListedIn(s, ExpOpen) && ListedIn(s, ImpOpen) && ListedIn(s, Closed) && ListedIn(s, Full)
  }

  predicate Queued(st: ZState) {
    st == ExpOpen || st == ImpOpen || st == Closed || st == Full
  }

  function Opens(s: Zns): nat { |s.expOpen| + |s.impOpen| }
  function Actives(s: Zns): nat { Opens(s) + |s.closed| }

  /** The counters, kept only for resources that have a limit. */
  ghost predicate Balanced(s: Zns) {
    && s.nrOpen == (if s.maxOpen == 0 then 0 else Opens(s))
    && s.nrActive == (if s.maxActive == 0 then 0 else Actives(s))
    && s.nrOpen <= s.maxOpen && s.nrActive <= s.maxActive
  }

  ghost predicate Inv(s: Zns) {
    s.zoneSize > 0 && |s.zones| > 0 && Listed(s) && Balanced(s)
  }

  lemma InvShaped(s: Zns)
    requires Inv(s)
    ensures Shaped(s)
  {
    assert ListedIn(s, ExpOpen) && ListedIn(s, ImpOpen) && ListedIn(s, Closed) && ListedIn(s, Full);
    MembersBelow(s, ExpOpen);
    MembersBelow(s, ImpOpen);
    MembersBelow(s, Closed);
    MembersBelow(s, Full);
  }

  lemma MembersBelow(s: Zns, st: ZState)
    requires ListedIn(s, st)
    ensures Within(ListOf(s, st), |s.zones|)
  {
    forall k | 0 <= k < |ListOf(s, st)| ensures ListOf(s, st)[k] < |s.zones| {
      assert ListOf(s, st)[k] in ListOf(s, st);
    }
  }

  // ----- Changing the state of one zone ------------------------------------------------------------

  function Bit(b: bool): int { if b then 1 else 0 }

  /** s and t agree on everything but queues, zones and counters. */
  ghost predicate SameConfig(s: Zns, t: Zns) {
    t.zoneSize == s.zoneSize && t.extSize == s.extSize && t.maxOpen == s.maxOpen && t.maxActive == s.maxActive
    && |t.zones| == |s.zones|
  }

  /** s became t by moving zone i from the queue of its state to that of `to`. */
  ghost predicate Requeued(s: Zns, t: Zns, i: nat, to: ZState)
    requires i < |s.zones|
  {
    && SameConfig(s, t) && Listed(t) && t.nrOpen == s.nrOpen && t.nrActive == s.nrActive
    && t.zones == s.zones[i := Entered(s.zones[i], to)]
    && var was := s.zones[i].zs;
       && |t.expOpen| == |s.expOpen| - Bit(was == ExpOpen) + Bit(to == ExpOpen)
       && |t.impOpen| == |s.impOpen| - Bit(was == ImpOpen) + Bit(to == ImpOpen)
       && |t.closed| == |s.closed| - Bit(was == Closed) + Bit(to == Closed)
       && |t.full| == |s.full| - Bit(was == Full) + Bit(to == Full)
  }

  lemma InUseIffQueued(s: Zns, i: nat)
    requires Listed(s) && i < |s.zones|
    ensures InUse(s, i) <==> Queued(s.zones[i].zs)
    ensures forall st :: Queued(st) && i in ListOf(s, st) ==> s.zones[i].zs == st
  {
    assert ListedIn(s, ExpOpen) && ListedIn(s, ImpOpen) && ListedIn(s, Closed) && ListedIn(s, Full);
  }

  /** The queue of state st without zone i. */
  ghost function Kept(s: Zns, i: nat, st: ZState): seq<nat>
    requires i < |s.zones|
  {
    if s.zones[i].zs == st then Without(ListOf(s, st), i) else ListOf(s, st)
  }

  /** Zone i goes to state `to` and is put at the end (or the front) of its queue. */
  lemma MovedIsListed(s: Zns, t: Zns, i: nat, to: ZState, st: ZState)
    requires ListedIn(s, st) && i < |s.zones| == |t.zones|
    requires t.zones[i].zs == to && forall k :: 0 <= k < |s.zones| && k != i ==> t.zones[k].zs == s.zones[k].zs
    requires if to == st then ListOf(t, st) == Kept(s, i, st) + [i] || ListOf(t, st) == [i] + Kept(s, i, st)
             else ListOf(t, st) == Kept(s, i, st)
    ensures ListedIn(t, st)
    ensures |ListOf(t, st)| == |ListOf(s, st)| - Bit(s.zones[i].zs == st) + Bit(to == st)
  {
    hide ListOf;
    if s.zones[i].zs == st {
      WithoutElems(ListOf(s, st), i);
    }
  }

  lemma AssignLists(s: Zns, i: nat, to: ZState, st: ZState)
    requires Listed(s) && i < |s.zones| && Queued(st)
    ensures var t := AssignState(s, i, to);
            && ListedIn(t, st)
            && |ListOf(t, st)| == |ListOf(s, st)| - Bit(s.zones[i].zs == st) + Bit(to == st)
  {
    hide ListedIn;
    InUseIffQueued(s, i);
    assert ListedIn(s, st);
    MovedIsListed(s, AssignState(s, i, to), i, to, st);
  }

  /** `zns_assign_zone_state` moves the zone to the queue of its new state. */
  lemma AssignRequeues(s: Zns, i: nat, to: ZState)
    requires Listed(s) && i < |s.zones|
    ensures Requeued(s, AssignState(s, i, to), i, to)
  {
    hide ListedIn;
    AssignLists(s, i, to, ExpOpen);
    AssignLists(s, i, to, ImpOpen);
    AssignLists(s, i, to, Closed);
    AssignLists(s, i, to, Full);
  }

  /** Changing pointers or attributes of a zone leaves the queues alone. */
  lemma SameStatesListed(s: Zns, t: Zns)
    requires Listed(s) && |t.zones| == |s.zones| && (forall i :: 0 <= i < |s.zones| ==> t.zones[i].zs == s.zones[i].zs)
    requires t.expOpen == s.expOpen && t.impOpen == s.impOpen && t.closed == s.closed && t.full == s.full
    ensures Listed(t)
  {
  }

  // ----- Zone operations -----------------------------------------------------------------------------

  lemma OpenKeepsInv(s: Zns, i: nat)
    requires Inv(s) && i < |s.zones|
    ensures Inv(OpenZone(s, i).s) && SameConfig(s, OpenZone(s, i).s)
  {
    hide Listed, AssignState;
    match s.zones[i].zs
    case Empty => if AorCheck(s, 1, 0) == Success { AssignLater(s, IncOpen(IncActive(s)), i, ExpOpen); }
    case Closed => AssignLater(s, IncOpen(s), i, ExpOpen);
    case ImpOpen => AssignLater(s, s, i, ExpOpen);
    case _ =>
  }

  /** Assigning the state once counters and pointers have been updated. */
  lemma AssignLater(s: Zns, s1: Zns, i: nat, to: ZState)
    requires Listed(s) && SameConfig(s, s1) && i < |s.zones|
    requires forall k :: 0 <= k < |s.zones| ==> s1.zones[k].zs == s.zones[k].zs
    requires s1.expOpen == s.expOpen && s1.impOpen == s.impOpen && s1.closed == s.closed && s1.full == s.full
    ensures Requeued(s1, AssignState(s1, i, to), i, to)
  {
    SameStatesListed(s, s1);
    AssignRequeues(s1, i, to);
  }

  lemma CloseKeepsInv(s: Zns, i: nat)
    requires Inv(s) && i < |s.zones|
    ensures Inv(CloseZone(s, i).s) && SameConfig(s, CloseZone(s, i).s)
  {
    hide Listed, AssignState;
    AssignLater(s, DecOpen(s), i, Closed);
  }

  lemma FinishKeepsInv(s: Zns, i: nat)
    requires Inv(s) && i < |s.zones|
    ensures Inv(FinishZone(s, i).s) && SameConfig(s, FinishZone(s, i).s)
  {
    hide Listed, AssignState;
    var z := s.zones[i];
    AssignLater(s, WithPointers(Released(s, z.zs), i, z.Boundary()), i, Full);
  }

  lemma ResetKeepsInv(s: Zns, i: nat)
    requires Inv(s) && i < |s.zones|
    ensures Inv(ResetZone(s, i).s) && SameConfig(s, ResetZone(s, i).s)
  {
    hide Listed, AssignState;
    var z := s.zones[i];
    AssignLater(s, WithPointers(Released(s, z.zs), i, z.zslba), i, Empty);
  }

  lemma OfflineKeepsInv(s: Zns, i: nat)
    requires Inv(s) && i < |s.zones|
    ensures Inv(OfflineZone(s, i).s) && SameConfig(s, OfflineZone(s, i).s)
  {
    hide Listed, AssignState;
    AssignLater(s, s, i, Offline);
  }

  lemma ApplyKeepsInv(s: Zns, i: nat, op: ZoneOp)
    requires Inv(s) && i < |s.zones|
    ensures Inv(Apply(s, i, op).s) && SameConfig(s, Apply(s, i, op).s)
  {
    hide Inv, OpenZone, CloseZone, FinishZone, ResetZone, OfflineZone;
    match op
    case OpOpen => OpenKeepsInv(s, i);
    case OpClose => CloseKeepsInv(s, i);
    case OpFinish => FinishKeepsInv(s, i);
    case OpReset => ResetKeepsInv(s, i);
    case OpOffline => OfflineKeepsInv(s, i);
  }

  lemma SetZdExtKeepsInv(s: Zns, i: nat)
    requires Inv(s) && i < |s.zones|
    ensures Inv(SetZdExt(s, i).s) && SameConfig(s, SetZdExt(s, i).s)
  {
    hide Listed, AssignState;
    var s1 := IncActive(s);
    AssignLater(s, s1.(zones := s1.zones[i := s1.zones[i].(ext := true)]), i, Closed);
  }

  lemma {:induction false} BulkKeepsInv(s: Zns, q: seq<nat>, op: ZoneOp)
    requires Inv(s) && Within(q, |s.zones|)
    ensures Inv(BulkList(s, q, op).s) && SameConfig(s, BulkList(s, q, op).s)
    decreases |q|
  {
    hide Inv, Apply;
    if q != [] {
      ApplyKeepsInv(s, q[0], op);
      BulkKeepsInv(BulkOne(s, q[0], op).s, q[1..], op);
    }
  }

  // ----- Writes ----------------------------------------------------------------------------------------

  /** Closing the oldest implicitly open zone is an ordinary close. */
  lemma AutoTransitionCloses(s: Zns)
    requires Inv(s)
    ensures s.impOpen != [] ==> s.impOpen[0] < |s.zones| && s.zones[s.impOpen[0]].zs == ImpOpen
    ensures AutoTransition(s)
            == if s.maxOpen != 0 && s.nrOpen == s.maxOpen && s.impOpen != [] then
                 CloseZone(s, s.impOpen[0]).s
               else s
  {
    assert ListedIn(s, ImpOpen);
    if s.impOpen != [] {
      var i := s.impOpen[0];
      assert i in s.impOpen && s.impOpen == [i] + s.impOpen[1..] && i !in s.impOpen[1..];
      InUseIffQueued(s, i);
      assert i !in s.expOpen && i !in s.closed && i !in s.full;
      assert Without(s.impOpen, i) == s.impOpen[1..];
    }
  }

  /** What `zns_auto_open_zone` leaves: the invariant, an unchanged zone i, and on success
      room for the resources that zone i will take. */
  lemma AutoOpenKeepsInv(s: Zns, i: nat)
    requires Inv(s) && i < |s.zones|
    ensures s.impOpen != [] ==> s.impOpen[0] < |s.zones|
    ensures var r := AutoOpen(s, i);
            && Inv(r.s) && SameConfig(s, r.s) && r.s.zones[i] == s.zones[i]
            && (r.status == Success ==>
                  && (s.zones[i].zs == Empty ==> AorCheck(r.s, 1, 1) == Success)
                  && (s.zones[i].zs == Closed ==> AorCheck(r.s, 0, 1) == Success))
  {
    hide Inv, AutoTransition;
    AutoTransitionCloses(s);
    if s.impOpen != [] {
      CloseKeepsInv(s, s.impOpen[0]);
      CloseOnlyOne(s, s.impOpen[0]);
    }
  }

  lemma CloseOnlyOne(s: Zns, i: nat)
    requires i < |s.zones|
    ensures forall k :: 0 <= k < |s.zones| && k != i ==> CloseZone(s, i).s.zones[k] == s.zones[k]
  {
  }

  lemma AdvanceKeepsInv(s: Zns, i: nat, nlb: nat)
    requires Inv(s) && i < |s.zones|
    requires s.zones[i].zs == Empty ==> AorCheck(s, 1, 1) == Success
    requires s.zones[i].zs == Closed ==> AorCheck(s, 0, 1) == Success
    ensures Inv(AdvanceWp(s, i, nlb)) && SameConfig(s, AdvanceWp(s, i, nlb))
  {
    hide Listed, AssignState;
    var z := s.zones[i];
    var s1 := s.(zones := s.zones[i := z.(wPtr := z.wPtr + nlb)]);
    SameStatesListed(s, s1);
    AssignLater(s, IncOpen(IncActive(s1)), i, ImpOpen);
    AssignLater(s, IncOpen(s1), i, ImpOpen);
  }

  lemma FinalizeKeepsInv(s: Zns, i: nat, nlb: nat)
    requires Inv(s) && i < |s.zones|
    ensures Inv(FinalizeWrite(s, i, nlb)) && SameConfig(s, FinalizeWrite(s, i, nlb))
  {
    hide Listed, AssignState;
    var z := s.zones[i];
    var s1 := s.(zones := s.zones[i := z.(wp := z.wp + nlb)]);
    SameStatesListed(s, s1);
    AssignLater(s, Released(s1, z.zs), i, Full);
  }

  /** A write keeps the invariant whether or not its data can be mapped, and whether or not
      it leads past the boundary of the zone. */
  lemma WriteZoneKeepsInv(s: Zns, i: nat, nlb: Blocks, mapped: bool)
    requires Inv(s) && Shaped(s) && i < |s.zones|
    ensures Inv(WriteZone(s, i, nlb, mapped).s) && SameConfig(s, WriteZone(s, i, nlb, mapped).s)
  {
    hide Inv, AutoOpen, AdvanceWp, FinalizeWrite, AorCheck;
    AutoOpenKeepsInv(s, i);
    var r := AutoOpen(s, i);
    if r.status == Success {
      AdvanceKeepsInv(r.s, i, nlb);
      FinalizeKeepsInv(AdvanceWp(r.s, i, nlb), i, nlb);
    }
  }

  // ----- Shutdown ------------------------------------------------------------------------------------------

  /** The queue of state st after the shutdown of zone i. */
  lemma ShutQueues(s: Zns, i: nat, st: ZState)
    requires i < |s.zones| && Queued(st) && s.zones[i].zs in {Closed, ImpOpen, ExpOpen}
    ensures var t := ShutZone(s, i); var to := t.zones[i].zs;
            && |t.zones| == |s.zones| && (forall k :: 0 <= k < |s.zones| && k != i ==> t.zones[k] == s.zones[k])
            && ListOf(t, st) == if to == st then [i] + Kept(s, i, st) else Kept(s, i, st)
  {
    hide Without;
  }

  lemma ShutLists(s: Zns, i: nat, st: ZState)
    requires Listed(s) && i < |s.zones| && Queued(st) && Queued(s.zones[i].zs) && s.zones[i].zs != Full
    ensures var t := ShutZone(s, i);
            && ListedIn(t, st)
            && |ListOf(t, st)| == |ListOf(s, st)| - Bit(s.zones[i].zs == st) + Bit(t.zones[i].zs == st)
  {
    hide ListedIn, ShutZone, Kept;
    assert ListedIn(s, st);
    ShutQueues(s, i, st);
    MovedIsListed(s, ShutZone(s, i), i, ShutZone(s, i).zones[i].zs, st);
  }

  lemma ShutKeepsInv(s: Zns, i: nat)
    requires Inv(s) && i < |s.zones| && Queued(s.zones[i].zs) && s.zones[i].zs != Full
    ensures Inv(ShutZone(s, i)) && SameConfig(s, ShutZone(s, i))
  {
    hide ListedIn, Balanced, ShutZone;
    ShutLists(s, i, ExpOpen);
    ShutLists(s, i, ImpOpen);
    ShutLists(s, i, Closed);
    ShutLists(s, i, Full);
    ShutBalances(s, i);
  }

  lemma ShutBalances(s: Zns, i: nat)
    requires Balanced(s) && i < |s.zones| && s.zones[i].zs in {Closed, ImpOpen, ExpOpen} && |s.zones| > 0
    requires forall st :: Queued(st) ==>
               |ListOf(ShutZone(s, i), st)| == |ListOf(s, st)| - Bit(s.zones[i].zs == st) + Bit(ShutZone(s, i).zones[i].zs == st)
    ensures Balanced(ShutZone(s, i)) && SameConfig(s, ShutZone(s, i))
  {
    hide Without;
    var t := ShutZone(s, i);
    assert |ListOf(t, ExpOpen)| == |t.expOpen| && |ListOf(t, ImpOpen)| == |t.impOpen| && |ListOf(t, Closed)| == |t.closed|;
  }
}
