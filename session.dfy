/** The poll loops of `query_internal` (synchronous) and `query_async_internal` (asynchronous)
    as functions of a script: one tick per loop iteration, carrying the provider's answers and
    the clock reading taken at the fire-time test. Sleeping is not modelled. */
module Session {
  import opened Types
  import opened Config
  import opened Provider
  import opened Snapshots
  import opened Refresh

  /** One iteration of a poll loop: the provider's answers to `refresh_data`, and the reading
      of the millisecond clock at the fire-time test. */
  datatype Tick = Tick(step: ProviderStep, now: Uint64)

  /** One iteration of the asynchronous loop: whether the owner has raised the close flag
      (from `cleanup`, on its own thread) before the flag is tested at the top of the loop. */
  datatype AsyncTick = AsyncTick(closeRequested: bool, tick: Tick)

  /** Why a loop stopped. `ScriptEnded` means the script ran out while the loop would go on. */
  datatype End = ByCount | ByTime | Cancelled | NoRows | ScriptEnded

  /** The snapshots a loop emitted, in order, and why it stopped. */
  datatype Outcome = Outcome(snapshots: seq<Snapshot>, end: End)

  /** What `query()` gives back: a refusal (the source throws) or the loop's outcome. */
  datatype QueryResult = Rejected | Ran(outcome: Outcome)

  /** `acc` emitted first, then the rest of a loop. */
  function Prefixed(acc: seq<Snapshot>, o: Outcome): (r: Outcome) {
    Outcome(acc + o.snapshots, o.end)
  }

  /** `s` emitted first, then the rest of a loop. */
  function Then(s: Snapshot, o: Outcome): (r: Outcome) {
    Outcome([s] + o.snapshots, o.end)
  }

  /** Emitting `acc` and then `s` ahead of a loop's rest is emitting `acc + [s]` ahead of it. */
  lemma PrefixedThen(acc: seq<Snapshot>, s: Snapshot, o: Outcome)
    ensures Prefixed(acc, Then(s, o)) == Prefixed(acc + [s], o)
  {
    assert acc + ([s] + o.snapshots) == (acc + [s]) + o.snapshots;
  }

  /** Putting a snapshot in front of a chain that starts from its columns extends the chain. */
  lemma ChainedThen(prev: Columns, s: Snapshot, o: Outcome)
    requires s.prevResult == prev && Chained(s.result, o.snapshots)
    ensures Chained(prev, Then(s, o).snapshots)
  {
    var snaps := Then(s, o).snapshots;
    forall k | 0 < k < |snaps| ensures snaps[k].prevResult == snaps[k - 1].result {
      assert snaps[k] == o.snapshots[k - 1];
      if k > 1 {
        assert snaps[k - 1] == o.snapshots[k - 2];
      }
    }
  }

  /** `query_internal`'s loop from a buffer of `capacity` slots, with `prev` as the previous
      columns and `fired` counted cycles. A cycle whose buffer is null or whose row 0 is null
      is skipped without counting, testing the bounds or emitting. */
  function SyncRun(vars: map<Uint64, string>, c: Config, start: Uint64, capacity: nat,
                   prev: Columns, fired: nat, ticks: seq<Tick>): (o: Outcome)
    ensures |o.snapshots| <= |ticks|
    ensures o.end == ByCount || o.end == ByTime || o.end == ScriptEnded
    ensures o.end != ScriptEnded ==> o.snapshots != []
    ensures o.end == ByCount ==> CountReached(c, fired + |o.snapshots|)
    decreases |ticks|
  {
    if ticks == [] then Outcome([], ScriptEnded)
    else
      var plan := RefreshPlan(capacity, ticks[0].step);
      if plan.delivered == [] then SyncRun(vars, c, start, plan.capacity, prev, fired, ticks[1..])
      else
        var cur := CycleResults(vars, plan.delivered);
        var snap := Snapshot(cur, prev);
        if CountReached(c, fired + 1) then Outcome([snap], ByCount)
        else if TimeReached(c, start, ticks[0].now) then Outcome([snap], ByTime)
        else Then(snap, SyncRun(vars, c, start, plan.capacity, cur, fired + 1, ticks[1..]))
  }


  /** Proof helper: `SyncRun` with the snapshots emitted so far carried along, as the loop
      keeps them. It serves as the invariant of `QueryInternal`'s loop, and
      `SyncLoopIsSyncRun` ties it back to `SyncRun`. */
  function SyncLoop(vars: map<Uint64, string>, c: Config, start: Uint64, capacity: nat,
                    prev: Columns, fired: nat, acc: seq<Snapshot>, ticks: seq<Tick>): (o: Outcome)
    decreases |ticks|
  {
    if ticks == [] then Outcome(acc, ScriptEnded)
    else
      var plan := RefreshPlan(capacity, ticks[0].step);
      if plan.delivered == [] then SyncLoop(vars, c, start, plan.capacity, prev, fired, acc, ticks[1..])
      else
        var cur := CycleResults(vars, plan.delivered);
        var snap := Snapshot(cur, prev);
        if CountReached(c, fired + 1) then Outcome(acc + [snap], ByCount)
        else if TimeReached(c, start, ticks[0].now) then Outcome(acc + [snap], ByTime)
        else SyncLoop(vars, c, start, plan.capacity, cur, fired + 1, acc + [snap], ticks[1..])
  }

  /** Carrying the emitted snapshots along changes nothing: the loop's result is what was
      emitted before it, followed by what `SyncRun` emits from the same state. */
  lemma {:induction false} SyncLoopIsSyncRun(vars: map<Uint64, string>, c: Config, start: Uint64, capacity: nat,
                                             prev: Columns, fired: nat, acc: seq<Snapshot>, ticks: seq<Tick>)
    ensures SyncLoop(vars, c, start, capacity, prev, fired, acc, ticks) ==
            Prefixed(acc, SyncRun(vars, c, start, capacity, prev, fired, ticks))
    decreases |ticks|
  {
    if ticks != [] {
      var plan := RefreshPlan(capacity, ticks[0].step);
      if plan.delivered == [] {
        SyncLoopIsSyncRun(vars, c, start, plan.capacity, prev, fired, acc, ticks[1..]);
      } else {
        var cur := CycleResults(vars, plan.delivered);
        var snap := Snapshot(cur, prev);
        if !CountReached(c, fired + 1) && !TimeReached(c, start, ticks[0].now) {
          SyncLoopIsSyncRun(vars, c, start, plan.capacity, cur, fired + 1, acc + [snap], ticks[1..]);
          PrefixedThen(acc, snap, SyncRun(vars, c, start, plan.capacity, cur, fired + 1, ticks[1..]));
        }
      }
    } else {
      assert acc + [] == acc;
    }
  }
  /** `query_async_internal`'s loop. `signal` is the close flag as the loop finds it. The flag
      is tested first; a cycle without rows ends the loop instead of being skipped. */
  function AsyncRun(vars: map<Uint64, string>, c: Config, start: Uint64, capacity: nat,
                    prev: Columns, fired: nat, signal: bool, ticks: seq<AsyncTick>): (o: Outcome)
    ensures |o.snapshots| <= |ticks|
    ensures (o.end == ByCount || o.end == ByTime) ==> o.snapshots != []
    ensures o.end == ByCount ==> CountReached(c, fired + |o.snapshots|)
    ensures signal && ticks != [] ==> o == Outcome([], Cancelled)
    decreases |ticks|
  {
    if ticks == [] then Outcome([], ScriptEnded)
    else if signal || ticks[0].closeRequested then Outcome([], Cancelled)
    else
      var plan := RefreshPlan(capacity, ticks[0].tick.step);
      if plan.delivered == [] then Outcome([], NoRows)
      else
        var cur := CycleResults(vars, plan.delivered);
        var snap := Snapshot(cur, prev);
        if CountReached(c, fired + 1) then Outcome([snap], ByCount)
        else if TimeReached(c, start, ticks[0].tick.now) then Outcome([snap], ByTime)
        else Then(snap, AsyncRun(vars, c, start, plan.capacity, cur, fired + 1, false, ticks[1..]))
  }

  /** Proof helper: `AsyncRun` with the snapshots emitted so far carried along, as the loop
      keeps them. It serves as the invariant of `QueryAsyncInternal`'s loop, and
      `AsyncLoopIsAsyncRun` ties it back to `AsyncRun`. */
  function AsyncLoop(vars: map<Uint64, string>, c: Config, start: Uint64, capacity: nat,
                     prev: Columns, fired: nat, signal: bool, acc: seq<Snapshot>, ticks: seq<AsyncTick>): (o: Outcome)
    decreases |ticks|
  {
    if ticks == [] then Outcome(acc, ScriptEnded)
    else if signal || ticks[0].closeRequested then Outcome(acc, Cancelled)
    else
      var plan := RefreshPlan(capacity, ticks[0].tick.step);
      if plan.delivered == [] then Outcome(acc, NoRows)
      else
        var cur := CycleResults(vars, plan.delivered);
        var snap := Snapshot(cur, prev);
        if CountReached(c, fired + 1) then Outcome(acc + [snap], ByCount)
        else if TimeReached(c, start, ticks[0].tick.now) then Outcome(acc + [snap], ByTime)
        else AsyncLoop(vars, c, start, plan.capacity, cur, fired + 1, false, acc + [snap], ticks[1..])
  }

  /** The same for the asynchronous loop. */
  lemma {:induction false} AsyncLoopIsAsyncRun(vars: map<Uint64, string>, c: Config, start: Uint64, capacity: nat,
                                               prev: Columns, fired: nat, signal: bool, acc: seq<Snapshot>,
                                               ticks: seq<AsyncTick>)
    ensures AsyncLoop(vars, c, start, capacity, prev, fired, signal, acc, ticks) ==
            Prefixed(acc, AsyncRun(vars, c, start, capacity, prev, fired, signal, ticks))
    decreases |ticks|
  {
    if ticks == [] || signal || ticks[0].closeRequested {
      assert acc + [] == acc;
    } else {
      var plan := RefreshPlan(capacity, ticks[0].tick.step);
      if plan.delivered == [] {
        assert acc + [] == acc;
      } else {
        var cur := CycleResults(vars, plan.delivered);
        var snap := Snapshot(cur, prev);
        if !CountReached(c, fired + 1) && !TimeReached(c, start, ticks[0].tick.now) {
          AsyncLoopIsAsyncRun(vars, c, start, plan.capacity, cur, fired + 1, false, acc + [snap], ticks[1..]);
          PrefixedThen(acc, snap, AsyncRun(vars, c, start, plan.capacity, cur, fired + 1, false, ticks[1..]));
        }
      }
    }
  }

  /** Each emitted snapshot's previous columns are the columns of the one emitted before it,
      and the first one's are `prev` (empty when a query starts). */
  lemma {:induction false} SyncSnapshotsChain(vars: map<Uint64, string>, c: Config, start: Uint64,
                                              capacity: nat, prev: Columns, fired: nat, ticks: seq<Tick>)
    ensures Chained(prev, SyncRun(vars, c, start, capacity, prev, fired, ticks).snapshots)
    decreases |ticks|
  {
    if ticks != [] {
      var plan := RefreshPlan(capacity, ticks[0].step);
      if plan.delivered == [] {
        SyncSnapshotsChain(vars, c, start, plan.capacity, prev, fired, ticks[1..]);
      } else {
        var cur := CycleResults(vars, plan.delivered);
        if !CountReached(c, fired + 1) && !TimeReached(c, start, ticks[0].now) {
          var rest := SyncRun(vars, c, start, plan.capacity, cur, fired + 1, ticks[1..]);
          SyncSnapshotsChain(vars, c, start, plan.capacity, cur, fired + 1, ticks[1..]);
          ChainedThen(prev, Snapshot(cur, prev), rest);
        }
      }
    }
  }

  /** The same chain for the asynchronous loop: what the callback sees, in call order. */
  lemma {:induction false} AsyncSnapshotsChain(vars: map<Uint64, string>, c: Config, start: Uint64,
                                               capacity: nat, prev: Columns, fired: nat, signal: bool,
                                               ticks: seq<AsyncTick>)
    ensures Chained(prev, AsyncRun(vars, c, start, capacity, prev, fired, signal, ticks).snapshots)
    decreases |ticks|
  {
    if ticks != [] && !signal && !ticks[0].closeRequested {
      var plan := RefreshPlan(capacity, ticks[0].tick.step);
      if plan.delivered != [] {
        var cur := CycleResults(vars, plan.delivered);
        if !CountReached(c, fired + 1) && !TimeReached(c, start, ticks[0].tick.now) {
          var rest := AsyncRun(vars, c, start, plan.capacity, cur, fired + 1, false, ticks[1..]);
          AsyncSnapshotsChain(vars, c, start, plan.capacity, cur, fired + 1, false, ticks[1..]);
          ChainedThen(prev, Snapshot(cur, prev), rest);
        }
      }
    }
  }

  /** With a finite fire count of at least one, the synchronous loop emits at most that many
      snapshots (less the cycles already counted), exactly that many when the count ends it,
      and it ends only by count, by time, or when the script runs out. */
  lemma {:induction false} SyncCountBound(vars: map<Uint64, string>, c: Config, start: Uint64,
                                          capacity: nat, prev: Columns, fired: nat, ticks: seq<Tick>)
    requires c.fireCount >= 1 && fired < c.fireCount
    ensures var o := SyncRun(vars, c, start, capacity, prev, fired, ticks);
            && |o.snapshots| <= c.fireCount - fired
            && (o.end == ByCount <==> |o.snapshots| == c.fireCount - fired)
            && o.end in {ByCount, ByTime, ScriptEnded}
    decreases |ticks|
  {
    if ticks != [] {
      var plan := RefreshPlan(capacity, ticks[0].step);
      if plan.delivered == [] {
        SyncCountBound(vars, c, start, plan.capacity, prev, fired, ticks[1..]);
      } else if !CountReached(c, fired + 1) && !TimeReached(c, start, ticks[0].now) {
        var cur := CycleResults(vars, plan.delivered);
        SyncCountBound(vars, c, start, plan.capacity, cur, fired + 1, ticks[1..]);
      }
    }
  }

  /** The asynchronous loop obeys the same fire-count bound, and a cancellation or a cycle
      without rows can also end it early. */
  lemma {:induction false} AsyncCountBound(vars: map<Uint64, string>, c: Config, start: Uint64,
                                           capacity: nat, prev: Columns, fired: nat, signal: bool,
                                           ticks: seq<AsyncTick>)
    requires c.fireCount >= 1 && fired < c.fireCount
    ensures var o := AsyncRun(vars, c, start, capacity, prev, fired, signal, ticks);
            && |o.snapshots| <= c.fireCount - fired
            && (o.end == ByCount <==> |o.snapshots| == c.fireCount - fired)
    decreases |ticks|
  {
    if ticks != [] && !signal && !ticks[0].closeRequested {
      var plan := RefreshPlan(capacity, ticks[0].tick.step);
      if plan.delivered != [] && !CountReached(c, fired + 1) && !TimeReached(c, start, ticks[0].tick.now) {
        var cur := CycleResults(vars, plan.delivered);
        AsyncCountBound(vars, c, start, plan.capacity, cur, fired + 1, false, ticks[1..]);
      }
    }
  }

  /** A loop stops by count only under a finite fire count and by time only under a finite
      fire time; with both infinite the synchronous loop can only run out of script. */
  lemma {:induction false} SyncEndsOnlyByFiniteBounds(vars: map<Uint64, string>, c: Config, start: Uint64,
                                                      capacity: nat, prev: Columns, fired: nat, ticks: seq<Tick>)
    ensures var o := SyncRun(vars, c, start, capacity, prev, fired, ticks);
            && (o.end == ByCount ==> c.fireCount != Infinite)
            && (o.end == ByTime ==> c.fireTime != Infinite)
            && (BothInfinite(c) ==> o.end == ScriptEnded)
    decreases |ticks|
  {
    if ticks != [] {
      var plan := RefreshPlan(capacity, ticks[0].step);
      if plan.delivered == [] {
        SyncEndsOnlyByFiniteBounds(vars, c, start, plan.capacity, prev, fired, ticks[1..]);
      } else if !CountReached(c, fired + 1) && !TimeReached(c, start, ticks[0].now) {
        var cur := CycleResults(vars, plan.delivered);
        SyncEndsOnlyByFiniteBounds(vars, c, start, plan.capacity, cur, fired + 1, ticks[1..]);
      }
    }
  }

  /** While every clock reading is before the deadline, the fire time never ends the loop. */
  lemma {:induction false} SyncNoTimeoutBeforeDeadline(vars: map<Uint64, string>, c: Config, start: Uint64,
                                                       capacity: nat, prev: Columns, fired: nat, ticks: seq<Tick>)
    requires forall k :: 0 <= k < |ticks| ==> ticks[k].now < Deadline(start, c.fireTime)
    ensures SyncRun(vars, c, start, capacity, prev, fired, ticks).end != ByTime
    decreases |ticks|
  {
    if ticks != [] {
      var plan := RefreshPlan(capacity, ticks[0].step);
      if plan.delivered == [] {
        SyncNoTimeoutBeforeDeadline(vars, c, start, plan.capacity, prev, fired, ticks[1..]);
      } else {
        var cur := CycleResults(vars, plan.delivered);
        SyncNoTimeoutBeforeDeadline(vars, c, start, plan.capacity, cur, fired + 1, ticks[1..]);
      }
    }
  }

  /** Once every clock reading is at or past a finite deadline, the first counted cycle is
      the last: at most one snapshot is emitted. */
  lemma {:induction false} SyncStopsAtFirstLateCycle(vars: map<Uint64, string>, c: Config, start: Uint64,
                                                     capacity: nat, prev: Columns, fired: nat, ticks: seq<Tick>)
    requires c.fireTime != Infinite
    requires forall k :: 0 <= k < |ticks| ==> ticks[k].now >= Deadline(start, c.fireTime)
    ensures |SyncRun(vars, c, start, capacity, prev, fired, ticks).snapshots| <= 1
    decreases |ticks|
  {
    if ticks != [] {
      var plan := RefreshPlan(capacity, ticks[0].step);
      if plan.delivered == [] {
        SyncStopsAtFirstLateCycle(vars, c, start, plan.capacity, prev, fired, ticks[1..]);
      }
    }
  }

  /** When the provider's Refresh keeps failing, the synchronous loop neither emits nor
      counts nor tests its bounds: it runs through the whole script, whatever the bounds. */
  lemma {:induction false} SyncSpinsWithoutRows(vars: map<Uint64, string>, c: Config, start: Uint64,
                                                capacity: nat, prev: Columns, fired: nat, ticks: seq<Tick>)
    requires forall k :: 0 <= k < |ticks| ==> !ticks[k].step.refreshOk
    ensures SyncRun(vars, c, start, capacity, prev, fired, ticks) == Outcome([], ScriptEnded)
    decreases |ticks|
  {
    if ticks != [] {
      SyncSpinsWithoutRows(vars, c, start, capacity, prev, fired, ticks[1..]);
    }
  }

  /** What a poll loop leaves behind in the helper: the objects it released, in order, and
      the capacity of the row buffer when it stops. */
  datatype Effects = Effects(released: seq<Obj>, capacity: nat)

  /** The effects of the synchronous loop: every cycle that delivers rows releases all of
      them (lines 562-565) before the bounds are tested; a skipped cycle releases nothing, but
      its refresh may still have grown the buffer. */
  function SyncEffects(c: Config, start: Uint64, capacity: nat, fired: nat, ticks: seq<Tick>): (e: Effects)
    ensures e.capacity >= capacity
    ensures ticks != [] ==> RefreshPlan(capacity, ticks[0].step).delivered <= e.released
    ensures ticks == [] ==> e == Effects([], capacity)
    decreases |ticks|
  {
    if ticks == [] then Effects([], capacity)
    else
      var plan := RefreshPlan(capacity, ticks[0].step);
      if plan.delivered == [] then SyncEffects(c, start, plan.capacity, fired, ticks[1..])
      else if CountReached(c, fired + 1) || TimeReached(c, start, ticks[0].now) then
        Effects(plan.delivered, plan.capacity)
      else
        var rest := SyncEffects(c, start, plan.capacity, fired + 1, ticks[1..]);
        Effects(plan.delivered + rest.released, rest.capacity)
  }

  /** The effects of the asynchronous loop: nothing once the close flag is seen; a cycle
      without rows ends the loop with nothing released, at the capacity its refresh left; every
      other cycle releases all its rows (lines 477-480). */
  function AsyncEffects(c: Config, start: Uint64, capacity: nat, fired: nat, signal: bool,
                        ticks: seq<AsyncTick>): (e: Effects)
    ensures e.capacity >= capacity
    ensures ticks != [] && (signal || ticks[0].closeRequested) ==> e == Effects([], capacity)
    ensures ticks != [] && !signal && !ticks[0].closeRequested ==>
            RefreshPlan(capacity, ticks[0].tick.step).delivered <= e.released
    decreases |ticks|
  {
    if ticks == [] || signal || ticks[0].closeRequested then Effects([], capacity)
    else
      var plan := RefreshPlan(capacity, ticks[0].tick.step);
      if plan.delivered == [] then Effects([], plan.capacity)
      else if CountReached(c, fired + 1) || TimeReached(c, start, ticks[0].tick.now) then
        Effects(plan.delivered, plan.capacity)
      else
        var rest := AsyncEffects(c, start, plan.capacity, fired + 1, false, ticks[1..]);
        Effects(plan.delivered + rest.released, rest.capacity)
  }

  /** Proof helper: `SyncEffects` with the objects released so far carried along, as the
      helper's `Released` history keeps them; `SyncEffectsLoopIsSyncEffects` ties it back. */
  function SyncEffectsLoop(c: Config, start: Uint64, capacity: nat, fired: nat, released: seq<Obj>,
                           ticks: seq<Tick>): (e: Effects)
    decreases |ticks|
  {
    if ticks == [] then Effects(released, capacity)
    else
      var plan := RefreshPlan(capacity, ticks[0].step);
      if plan.delivered == [] then SyncEffectsLoop(c, start, plan.capacity, fired, released, ticks[1..])
      else if CountReached(c, fired + 1) || TimeReached(c, start, ticks[0].now) then
        Effects(released + plan.delivered, plan.capacity)
      else SyncEffectsLoop(c, start, plan.capacity, fired + 1, released + plan.delivered, ticks[1..])
  }

  /** Carrying the released objects along changes nothing: the result is those objects
      followed by what `SyncEffects` releases from the same state, at the same capacity. */
  lemma {:induction false} SyncEffectsLoopIsSyncEffects(c: Config, start: Uint64, capacity: nat, fired: nat,
                                                        released: seq<Obj>, ticks: seq<Tick>)
    ensures var e := SyncEffects(c, start, capacity, fired, ticks);
            SyncEffectsLoop(c, start, capacity, fired, released, ticks) == Effects(released + e.released, e.capacity)
    decreases |ticks|
  {
    if ticks == [] {
      assert released + [] == released;
    } else {
      var plan := RefreshPlan(capacity, ticks[0].step);
      if plan.delivered == [] {
        SyncEffectsLoopIsSyncEffects(c, start, plan.capacity, fired, released, ticks[1..]);
      } else if !CountReached(c, fired + 1) && !TimeReached(c, start, ticks[0].now) {
        var rest := SyncEffects(c, start, plan.capacity, fired + 1, ticks[1..]);
        SyncEffectsLoopIsSyncEffects(c, start, plan.capacity, fired + 1, released + plan.delivered, ticks[1..]);
        assert released + plan.delivered + rest.released == released + (plan.delivered + rest.released);
      }
    }
  }

  /** Proof helper: `AsyncEffects` with the objects released so far carried along. */
  function AsyncEffectsLoop(c: Config, start: Uint64, capacity: nat, fired: nat, signal: bool,
                            released: seq<Obj>, ticks: seq<AsyncTick>): (e: Effects)
    decreases |ticks|
  {
    if ticks == [] || signal || ticks[0].closeRequested then Effects(released, capacity)
    else
      var plan := RefreshPlan(capacity, ticks[0].tick.step);
      if plan.delivered == [] then Effects(released, plan.capacity)
      else if CountReached(c, fired + 1) || TimeReached(c, start, ticks[0].tick.now) then
        Effects(released + plan.delivered, plan.capacity)
      else AsyncEffectsLoop(c, start, plan.capacity, fired + 1, false, released + plan.delivered, ticks[1..])
  }

  /** The same for the asynchronous loop. */
  lemma {:induction false} AsyncEffectsLoopIsAsyncEffects(c: Config, start: Uint64, capacity: nat, fired: nat,
                                                          signal: bool, released: seq<Obj>, ticks: seq<AsyncTick>)
    ensures var e := AsyncEffects(c, start, capacity, fired, signal, ticks);
            AsyncEffectsLoop(c, start, capacity, fired, signal, released, ticks) ==
            Effects(released + e.released, e.capacity)
    decreases |ticks|
  {
    if ticks == [] || signal || ticks[0].closeRequested {
      assert released + [] == released;
    } else {
      var plan := RefreshPlan(capacity, ticks[0].tick.step);
      if plan.delivered == [] {
        assert released + [] == released;
      } else if !CountReached(c, fired + 1) && !TimeReached(c, start, ticks[0].tick.now) {
        var rest := AsyncEffects(c, start, plan.capacity, fired + 1, false, ticks[1..]);
        AsyncEffectsLoopIsAsyncEffects(c, start, plan.capacity, fired + 1, false, released + plan.delivered, ticks[1..]);
        assert released + plan.delivered + rest.released == released + (plan.delivered + rest.released);
      }
    }
  }

  /** A synchronous query releases at least as many objects as it returns snapshots, and it
      releases some exactly when it returns some: every cycle that delivers rows is emitted. */
  lemma {:induction false} SyncReleasesEveryCountedCycle(vars: map<Uint64, string>, c: Config, start: Uint64,
                                                         capacity: nat, prev: Columns, fired: nat, ticks: seq<Tick>)
    ensures |SyncEffects(c, start, capacity, fired, ticks).released| >=
            |SyncRun(vars, c, start, capacity, prev, fired, ticks).snapshots|
    ensures SyncEffects(c, start, capacity, fired, ticks).released == [] <==>
            SyncRun(vars, c, start, capacity, prev, fired, ticks).snapshots == []
    decreases |ticks|
  {
    if ticks != [] {
      var plan := RefreshPlan(capacity, ticks[0].step);
      if plan.delivered == [] {
        SyncReleasesEveryCountedCycle(vars, c, start, plan.capacity, prev, fired, ticks[1..]);
      } else if !CountReached(c, fired + 1) && !TimeReached(c, start, ticks[0].now) {
        SyncReleasesEveryCountedCycle(vars, c, start, plan.capacity, CycleResults(vars, plan.delivered),
                                      fired + 1, ticks[1..]);
      }
    }
  }

  /** The same for the snapshots the asynchronous loop hands to the callback: a cycle without
      rows ends the loop, so it neither releases nor emits. */
  lemma {:induction false} AsyncReleasesEveryCountedCycle(vars: map<Uint64, string>, c: Config, start: Uint64,
                                                          capacity: nat, prev: Columns, fired: nat, signal: bool,
                                                          ticks: seq<AsyncTick>)
    ensures |AsyncEffects(c, start, capacity, fired, signal, ticks).released| >=
            |AsyncRun(vars, c, start, capacity, prev, fired, signal, ticks).snapshots|
    ensures AsyncEffects(c, start, capacity, fired, signal, ticks).released == [] <==>
            AsyncRun(vars, c, start, capacity, prev, fired, signal, ticks).snapshots == []
    decreases |ticks|
  {
    if ticks != [] && !signal && !ticks[0].closeRequested {
      var plan := RefreshPlan(capacity, ticks[0].tick.step);
      if plan.delivered != [] && !CountReached(c, fired + 1) && !TimeReached(c, start, ticks[0].tick.now) {
        AsyncReleasesEveryCountedCycle(vars, c, start, plan.capacity, CycleResults(vars, plan.delivered),
                                       fired + 1, false, ticks[1..]);
      }
    }
  }

  /** A finite fire count of zero or below with an infinite fire time passes the refusal test,
      yet the synchronous loop can never stop: only the script running out ends it. */
  lemma {:induction false} NonPositiveCountNeverStops(vars: map<Uint64, string>, c: Config, start: Uint64,
                                                      capacity: nat, prev: Columns, fired: nat, ticks: seq<Tick>)
    requires c.fireCount != Infinite && c.fireCount <= 0 && c.fireTime == Infinite
    ensures !BothInfinite(c)
    ensures SyncRun(vars, c, start, capacity, prev, fired, ticks).end == ScriptEnded
    decreases |ticks|
  {
    if ticks != [] {
      var plan := RefreshPlan(capacity, ticks[0].step);
      if plan.delivered == [] {
        NonPositiveCountNeverStops(vars, c, start, plan.capacity, prev, fired, ticks[1..]);
      } else {
        NonPositiveCountNeverStops(vars, c, start, plan.capacity, CycleResults(vars, plan.delivered),
                                   fired + 1, ticks[1..]);
      }
    }
  }

  /** A close request seen at the top of the asynchronous loop stops it before any further
      refresh, with nothing emitted in that iteration. */
  lemma AsyncCancelEmitsNothing(vars: map<Uint64, string>, c: Config, start: Uint64,
                                capacity: nat, prev: Columns, fired: nat, signal: bool, ticks: seq<AsyncTick>)
    requires ticks != [] && (signal || ticks[0].closeRequested)
    ensures AsyncRun(vars, c, start, capacity, prev, fired, signal, ticks) == Outcome([], Cancelled)
  {
  }

  /** The two loops agree as long as the provider delivers rows every cycle and nobody asks
      the asynchronous loop to close: the callback sees exactly what the query returns. */
  lemma {:induction false} SyncAsyncAgree(vars: map<Uint64, string>, c: Config, start: Uint64,
                                          capacity: nat, prev: Columns, fired: nat, ticks: seq<AsyncTick>)
    requires forall k :: 0 <= k < |ticks| ==>
               !ticks[k].closeRequested &&
               forall cap: nat :: RefreshPlan(cap, ticks[k].tick.step).delivered != []
    ensures AsyncRun(vars, c, start, capacity, prev, fired, false, ticks) ==
            SyncRun(vars, c, start, capacity, prev, fired, SyncTicks(ticks))
    decreases |ticks|
  {
    if ticks != [] {
      var plan := RefreshPlan(capacity, ticks[0].tick.step);
      assert SyncTicks(ticks)[1..] == SyncTicks(ticks[1..]);
      SyncAsyncAgree(vars, c, start, plan.capacity, CycleResults(vars, plan.delivered), fired + 1, ticks[1..]);
    }
  }

  /** The synchronous script matching an asynchronous one (close requests dropped). */
  function SyncTicks(ticks: seq<AsyncTick>): (r: seq<Tick>)
    ensures |r| == |ticks| && forall k :: 0 <= k < |ticks| ==> r[k] == ticks[k].tick
  {
    seq(|ticks|, k requires 0 <= k < |ticks| => ticks[k].tick)
  }
}
