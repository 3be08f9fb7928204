/** What a finished call did, over whole runs: it got what there was room for at one moment
    between its start and its end. */
module RingCalls {
  import opened RingModel
  import opened RingProofs
  import opened RingRuns

  // ----- Runs one step longer ----------------------------------------------------------------------

  /** A run is a shorter run and a last step. */
  lemma {:induction false} RunSplit(s: Ring, steps: seq<Step>, x: Step)
    ensures IsRun(s, steps + [x]) <==> IsRun(s, steps) && Enabled(RunAll(s, steps), x)
    ensures IsRun(s, steps + [x]) ==>
              && RunAll(s, steps + [x]) == Next(RunAll(s, steps), x)
              && (PromptThroughout(s, steps + [x]) <==> PromptThroughout(s, steps) && Prompt(RunAll(s, steps), x))
    decreases |steps|
  {
    hide Enabled, Prompt, Next;
    if steps == [] {
      assert [] + [x] == [x] && [x][1..] == [];
    } else {
      assert (steps + [x])[1..] == steps[1..] + [x];
      if Enabled(s, steps[0]) {
        RunSplit(Next(s, steps[0]), steps[1..], x);
      }
    }
  }

  // ----- The moment of a call --------------------------------------------------------------------

  predicate Settled(th: Thread) {
    th.Decided? || th.Copying? || th.Done?
  }

  /** After the first k steps thread t was in the call it is in (or has finished) after all of
      them, and there was room for as many objects as it recorded. */
  ghost predicate DuringCall(s: Ring, steps: seq<Step>, t: nat, k: nat)
    requires IsRun(s, steps) && t < |RunAll(s, steps).threads| && Settled(RunAll(s, steps).threads[t])
  {
    && k <= |steps| && IsRun(s, steps[..k])
    && var was, th := RunAll(s, steps[..k]), RunAll(s, steps).threads[t];
       t < |was.threads| && (was.threads[t].HeadLoaded? || was.threads[t].Decided?)
       && was.threads[t].req == th.req && was.RoomLeft(th.req.side) == th.room
       && forall j :: k <= j < |steps| && steps[j].Begin? ==> steps[j].t != t
  }

  /** The step leaves t in its call, with the room it has recorded. */
  ghost predicate KeepsRoom(s: Ring, x: Step, t: nat)
    requires Enabled(s, x) && t < |s.threads|
  {
    && Settled(s.threads[t]) && Settled(Next(s, x).threads[t]) && (x.Begin? ==> x.t != t)
    && Next(s, x).threads[t].req == s.threads[t].req && Next(s, x).threads[t].room == s.threads[t].room
  }

  /** The step is the one in which t records the room. */
  ghost predicate FindsRoom(s: Ring, x: Step, t: nat)
    requires Enabled(s, x) && t < |s.threads|
  {
    && !x.Begin? && (s.threads[t].HeadLoaded? || s.threads[t].Decided?) && Settled(Next(s, x).threads[t])
    && Next(s, x).threads[t].req == s.threads[t].req
    && Next(s, x).threads[t].room == s.RoomLeft(s.threads[t].req.side)
  }

  lemma StepRecords(s: Ring, x: Step, t: nat)
    requires Enabled(s, x) && t < |s.threads| == |Next(s, x).threads| && Settled(Next(s, x).threads[t])
    ensures KeepsRoom(s, x, t) || FindsRoom(s, x, t)
  {
    hide W, Available, Slot;
  }

  lemma MomentKept(s: Ring, steps: seq<Step>, x: Step, t: nat, k: nat)
    requires IsRun(s, steps) && IsRun(s, steps + [x]) && Enabled(RunAll(s, steps), x)
    requires RunAll(s, steps + [x]) == Next(RunAll(s, steps), x)
    requires t < |RunAll(s, steps).threads| == |RunAll(s, steps + [x]).threads|
    requires KeepsRoom(RunAll(s, steps), x, t) && DuringCall(s, steps, t, k)
    ensures DuringCall(s, steps + [x], t, k)
  {
    hide IsRun, RunAll, Enabled, Next;
    assert (steps + [x])[..k] == steps[..k];
  }

  lemma MomentFound(s: Ring, steps: seq<Step>, x: Step, t: nat)
    requires IsRun(s, steps) && IsRun(s, steps + [x]) && Enabled(RunAll(s, steps), x)
    requires RunAll(s, steps + [x]) == Next(RunAll(s, steps), x)
    requires t < |RunAll(s, steps).threads| == |RunAll(s, steps + [x]).threads|
    requires FindsRoom(RunAll(s, steps), x, t)
    ensures DuringCall(s, steps + [x], t, |steps|)
  {
    hide IsRun, RunAll, Enabled, Next;
    assert (steps + [x])[..|steps|] == steps;
  }

  lemma SameThreads(s: Ring, x: Step)
    requires Enabled(s, x)
    ensures |Next(s, x).threads| == |s.threads|
  {
    hide W, Available, Slot;
  }

  lemma {:induction false} RoomWasFound(s: Ring, steps: seq<Step>, t: nat) returns (k: nat)
    requires IsRun(s, steps) && t < |s.threads| && s.threads[t].Idle?
    ensures t < |RunAll(s, steps).threads|
    ensures Settled(RunAll(s, steps).threads[t]) ==> DuringCall(s, steps, t, k)
    decreases |steps|
  {
    hide Enabled, Next, DuringCall, KeepsRoom, FindsRoom;
    if steps == [] {
      k := 0;
    } else {
      var shorter, x := steps[..|steps| - 1], steps[|steps| - 1];
      assert steps == shorter + [x];
      RunSplit(s, shorter, x);
      k := RoomWasFound(s, shorter, t);
      var was := RunAll(s, shorter);
      SameThreads(was, x);
      if Settled(Next(was, x).threads[t]) {
        StepRecords(was, x, t);
        if KeepsRoom(was, x, t) {
          KeptSettled(was, x, t);
          MomentKept(s, shorter, x, t, k);
        } else {
          MomentFound(s, shorter, x, t);
          k := |shorter|;
        }
      }
    }
  }

  lemma KeptSettled(s: Ring, x: Step, t: nat)
    requires Enabled(s, x) && t < |s.threads| && KeepsRoom(s, x, t)
    ensures Settled(s.threads[t])
  {
    hide Enabled, Next;
  }

  // ----- No number comes round ----------------------------------------------------------------------

  predicate Wrapped(th: Thread) {
    (th.Copying? || th.Done?) && th.wrapped
  }

  predicate NoneWrapped(s: Ring) {
    forall t :: 0 <= t < |s.threads| ==> !Wrapped(s.threads[t])
  }

  lemma PromptNotWrapped(s: Ring, x: Step)
    requires Inv(s) && Enabled(s, x) && Prompt(s, x) && NoneWrapped(s)
    ensures NoneWrapped(Next(s, x))
  {
    hide Inv, W, Available, Amount, Slot;
    if x.MoveHead? && MovesHead(s, s.threads[x.t]) {
      SameHead(s, x.t);
    }
  }

  lemma {:induction false} PromptRunNotWrapped(s: Ring, steps: seq<Step>)
    requires Inv(s) && IsRun(s, steps) && PromptThroughout(s, steps) && NoneWrapped(s)
    ensures Inv(RunAll(s, steps)) && NoneWrapped(RunAll(s, steps))
    decreases |steps|
  {
    hide Inv, Enabled, Prompt, Next, NoneWrapped;
    if steps != [] {
      PromptNotWrapped(s, steps[0]);
      PromptHasRoom(s, steps[0]);
      StepKeepsInv(s, steps[0]);
      PromptRunNotWrapped(Next(s, steps[0]), steps[1..]);
    }
  }

  // ----- Finished calls --------------------------------------------------------------------------------

  /** Thread t has finished a call that got as many objects as there was room for after the
      first k steps, while it was under way. */
  ghost predicate RightAt(s: Ring, steps: seq<Step>, t: nat, k: nat)
    requires IsRun(s, steps) && t < |RunAll(s, steps).threads| && RunAll(s, steps).threads[t].Done?
  {
    && DuringCall(s, steps, t, k)
    && var th := RunAll(s, steps).threads[t];
       var room := RunAll(s, steps[..k]).RoomLeft(th.req.side);
       && 0 <= room
       && th.n == if th.req.max <= room then th.req.max else if th.req.fixed then 0 else room
  }

  /** In every run in which no head or limit gets 2^32 past a head that a call has loaded, each
      finished call, refused or not, returned what there was room for at one moment between its
      start and its end: all it asked for if that fitted, and otherwise nothing or as much as
      fitted. */
  lemma FinishedCalls(size: nat, capacity: Word, sp: bool, sc: bool, m: nat, steps: seq<Step>, t: nat)
    requires capacity < size && WORD % size == 0 && t < m
    requires IsRun(Start(size, capacity, sp, sc, m), steps)
    requires PromptThroughout(Start(size, capacity, sp, sc, m), steps)
    ensures var s := Start(size, capacity, sp, sc, m);
            && t < |RunAll(s, steps).threads|
            && (RunAll(s, steps).threads[t].Done? ==> exists k: nat :: RightAt(s, steps, t, k))
  {
    hide Inv, IsRun, RunAll, PromptThroughout;
    var s := Start(size, capacity, sp, sc, m);
    StartHolds(size, capacity, sp, sc, m);
    PromptRunNotWrapped(s, steps);
    var k := RoomWasFound(s, steps, t);
    if RunAll(s, steps).threads[t].Done? {
      CallResult(RunAll(s, steps), t);
      assert RightAt(s, steps, t, k);
    }
  }
}
