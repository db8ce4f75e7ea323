/** The helper object (`wmi_helper<AnySize>`): its binding registry, its row buffer and the
    two poll loops that drive them. */
module Helper {
  import opened Types
  import opened Config
  import opened Provider
  import opened Cells
  import opened Snapshots
  import opened Refresh
  import opened Session

  /** Pushing a cell onto the column of `h` (creating the key if absent) in a map that holds
      `col` at `h` only when `col` is non-empty gives the map holding `col + [cell]` there. */
  lemma PushExtendsColumn(results: Columns, h: Uint64, col: seq<Cell>, updated: Columns, cell: Cell)
    requires h !in results
    requires updated == if col == [] then results else results[h := col]
    ensures updated[h := (if h in updated then updated[h] else []) + [cell]] == results[h := col + [cell]]
  {
    if col == [] {
      assert [] + [cell] == [cell];
    }
  }

  /** The objects held by a run of non-null slots. */
  function ObjectsIn(slots: seq<Slot>): (objs: seq<Obj>)
    requires forall i :: 0 <= i < |slots| ==> slots[i].Ptr?
  {
    seq(|slots|, i requires 0 <= i < |slots| => slots[i].obj)
  }

  class WmiHelper {
    /** `std::hash<std::wstring>`, which the model does not interpret. */
    const hash: string -> Uint64
    var config: Config
    /** `bound_vars_`: binding handle to property name. */
    var boundVars: map<Uint64, string>
    /** `ap_enum_access_` and `ap_enum_access_length_`. */
    var rows: array?<Slot>
    var rowsLength: nat
    /** `thread_close_signal_` and `thread_running`. */
    var closeSignal: bool
    var threadRunning: bool
    /** Buffers replaced by a larger one and never freed. */
    ghost var Abandoned: set<array<Slot>>
    /** Every object released so far, in release order. */
    ghost var Released: seq<Obj>

    /** The buffer is null exactly when its recorded length is zero, and otherwise has that length. */
    ghost predicate Valid()
      reads this`rows, this`rowsLength
    {
      && (rows == null <==> rowsLength == 0)
      && (rows != null ==> rows.Length == rowsLength)
    }

    ghost function Slots(): seq<Slot>
      reads this`rows, rows
    {
      if rows == null then [] else rows[..]
    }

    /** Between cycles every slot is null: each cycle releases and nulls the rows it read. */
    /** Since the buffer `before` was current with `abandoned` leaked: no leak was forgotten,
        nothing new leaked while the buffer stayed, and `before` leaked once it was replaced. */
    ghost predicate AbandonedSince(before: array?<Slot>, abandoned: set<array<Slot>>)
      reads this`rows, this`Abandoned
    {
      && abandoned <= Abandoned
      && (rows == before ==> Abandoned == abandoned)
      && (rows != before && before != null ==> before in Abandoned)
    }

    ghost predicate Resting()
      reads this`rows, this`rowsLength, rows
    {
      Valid() && forall i :: 0 <= i < |Slots()| ==> Slots()[i] == Null
    }

    /** A helper after `init` stored its configuration (the COM setup is not modelled). */
    constructor (hash: string -> Uint64, config: Config)
      ensures this.hash == hash && this.config == config
      ensures boundVars == map[] && rows == null && rowsLength == 0
      ensures !closeSignal && !threadRunning && Abandoned == {} && Released == []
      ensures Resting()
    {
      this.hash := hash;
      this.config := config;
      boundVars := map[];
      rows := null;
      rowsLength := 0;
      closeSignal := false;
      threadRunning := false;
      Abandoned := {};
      Released := [];
    }

    /** `capture_var`: bind `name` under its hash and return the hash. Re-binding the same
        name changes nothing; a different name with the same hash replaces the older one. */
    method CaptureVar(name: string) returns (h: Uint64)
      modifies this`boundVars
      ensures h == hash(name)
      ensures boundVars == old(boundVars)[h := name]
      ensures forall k :: k != h ==> (k in boundVars <==> k in old(boundVars))
      ensures forall k :: k != h && k in boundVars ==> boundVars[k] == old(boundVars)[k]
      ensures old(h in boundVars && boundVars[h] == name) ==> boundVars == old(boundVars)
    {
      h := hash(name);
      boundVars := boundVars[h := name];
    }

    /** `refresh_data`: follows `RefreshPlan` on the current capacity. A grown buffer is a
        fresh array; the one it replaces is abandoned, not freed. */
    method RefreshData(step: ProviderStep) returns (count: nat)
      requires Valid()
      modifies this`rows, this`rowsLength, this`Abandoned, rows
      ensures Valid()
      ensures var p := RefreshPlan(old(rowsLength), step);
              && count == p.count
              && rowsLength == p.capacity
              && (p.zeroed ==> Slots() == Fill(p.delivered, p.capacity))
              && (!p.zeroed ==> rows == old(rows) && Slots() == old(Slots()))
      ensures rowsLength == old(rowsLength) ==> rows == old(rows) && Abandoned == old(Abandoned)
      ensures rowsLength != old(rowsLength) ==>
                fresh(rows) && Abandoned == old(Abandoned) + (if old(rows) == null then {} else {old(rows)})
    {
      if !step.refreshOk {
        return 0;
      }
      if rowsLength > 0 {
        forall i | 0 <= i < rows.Length {
          rows[i] := Null;
        }
      }
      var first := GetObjects(rowsLength, step.first);
      if rows != null {
        forall i | 0 <= i < |first.written| {
          rows[i] := Ptr(first.written[i]);
        }
      }
      count := first.returned;
      if first.hr == BufferTooSmall && first.returned > rowsLength {
        if rows != null {
          Abandoned := Abandoned + {rows};
        }
        rows := new Slot[first.returned](_ => Null);
        rowsLength := first.returned;
        var retry := GetObjects(rowsLength, step.retry);
        if retry.hr != Success {
          return 0;
        }
        forall i | 0 <= i < |retry.written| {
          rows[i] := Ptr(retry.written[i]);
        }
        count := retry.returned;
      }
    }

    /** One cycle's reads (the body shared by both loops): resolve each bound variable on
        row 0, read it from every row, then release and null every row. */
    method AssembleCycle(numRows: nat) returns (results: Columns)
      requires Valid() && rows != null && 1 <= numRows <= rows.Length
      requires forall i :: 0 <= i < numRows ==> rows[i].Ptr?
      modifies rows, this`Released
      ensures results == CycleResults(boundVars, ObjectsIn(old(rows[..numRows])))
      ensures Released == old(Released) + ObjectsIn(old(rows[..numRows]))
      ensures forall i :: 0 <= i < numRows ==> rows[i] == Null
      ensures forall i :: numRows <= i < rows.Length ==> rows[i] == old(rows[i])
    {
      ghost var objs := ObjectsIn(rows[..numRows]);
      results := map[];
      var pending := boundVars.Keys;
      assert boundVars - pending == map[];
      while pending != {}
        invariant pending <= boundVars.Keys
        invariant results == CycleResults(boundVars - pending, objs)
        invariant unchanged(rows) && Released == old(Released)
        decreases pending
      {
        var h :| h in pending;
        CycleResultsExtend(boundVars, pending, h, objs);
        pending := pending - {h};
        assert rows[0].obj == objs[0] && ObjectsIn(rows[..numRows]) == objs;
        var lookup := GetPropertyHandle(rows[0].obj, boundVars[h]);
        if lookup.None? {
          continue;
        }
        results := ReadColumn(results, h, lookup.value, numRows);
      }
      assert boundVars - pending == boundVars;
      assert rows[..numRows] == old(rows[..numRows]);
      ReleaseRows(numRows);
    }

    /** The reads of one resolved property over rows `0 .. numRows-1`, in row order, each
        successful one pushed onto the column of `h`: the key appears with the first push. */
    method ReadColumn(results: Columns, h: Uint64, p: PropertyHandle, numRows: nat) returns (updated: Columns)
      requires rows != null && numRows <= rows.Length && h !in results
      requires forall i :: 0 <= i < numRows ==> rows[i].Ptr?
      ensures var col := Column(ObjectsIn(rows[..numRows]), p);
              updated == if col == [] then results else results[h := col]
    {
      ghost var objs := ObjectsIn(rows[..numRows]);
      ghost var col: seq<Cell> := [];
      updated := results;
      for i := 0 to numRows
        invariant col == Column(objs[..i], p)
        invariant updated == if col == [] then results else results[h := col]
      {
        assert objs[i] == rows[i].obj;
        ColumnOfPrefix(objs, i, p);
        var cell := ReadCell(rows[i].obj, p);
        if cell.Some? {
          PushExtendsColumn(results, h, col, updated, cell.value);
          updated := updated[h := (if h in updated then updated[h] else []) + [cell.value]];
          col := col + [cell.value];
        }
      }
      assert objs[..numRows] == objs;
    }

    /** Release every row read this cycle, in order, and null its slot. */
    method ReleaseRows(numRows: nat)
      requires rows != null && numRows <= rows.Length
      requires forall i :: 0 <= i < numRows ==> rows[i].Ptr?
      modifies rows, this`Released
      ensures Released == old(Released) + ObjectsIn(old(rows[..numRows]))
      ensures forall i :: 0 <= i < numRows ==> rows[i] == Null
      ensures forall i :: numRows <= i < rows.Length ==> rows[i] == old(rows[i])
    {
      ghost var objs := ObjectsIn(rows[..numRows]);
      for i := 0 to numRows
        invariant forall k :: 0 <= k < i ==> rows[k] == Null
        invariant forall k :: i <= k < rows.Length ==> rows[k] == old(rows[k])
        invariant Released == old(Released) + objs[..i]
      {
        assert objs[..i + 1] == objs[..i] + [objs[i]];
        Released := Released + [rows[i].obj];
        rows[i] := Null;
      }
      assert objs[..numRows] == objs;
    }

    /** One poll cycle up to emission: `refresh_data`, then, unless the buffer or its row 0
        is null, the reads of `AssembleCycle`. `None` is the null-row case, which the
        synchronous loop skips and the asynchronous loop stops at. */
    method PollCycle(step: ProviderStep) returns (cur: Option<Columns>)
      requires Resting()
      modifies this`rows, this`rowsLength, this`Abandoned, this`Released, rows
      ensures Resting()
      ensures var p := RefreshPlan(old(rowsLength), step);
              && rowsLength == p.capacity
              && (cur.None? <==> p.delivered == [])
              && (cur.Some? ==> cur.value == CycleResults(boundVars, p.delivered))
      ensures Released == old(Released) + RefreshPlan(old(rowsLength), step).delivered
      ensures rows != null ==> rows == old(rows) || fresh(rows)
      ensures rowsLength == old(rowsLength) ==> rows == old(rows) && Abandoned == old(Abandoned)
      ensures rowsLength != old(rowsLength) ==>
                fresh(rows) && Abandoned == old(Abandoned) + (if old(rows) == null then {} else {old(rows)})
    {
      ghost var plan := RefreshPlan(rowsLength, step);
      var numRows := RefreshData(step);
      if rows == null || rows[0] == Null {
        return None;
      }
      assert ObjectsIn(rows[..numRows]) == plan.delivered;
      var columns := AssembleCycle(numRows);
      return Some(columns);
    }

    /** `query()`: refused when both bounds are infinite (the source throws); otherwise the
        synchronous loop of `query_internal`, started at the clock reading `start`. */
    method Query(ticks: seq<Tick>, start: Uint64) returns (r: QueryResult)
      requires Resting()
      modifies this`rows, this`rowsLength, this`Abandoned, this`Released, rows
      ensures Resting() && rowsLength >= old(rowsLength)
      ensures r.Rejected? <==> BothInfinite(config)
      ensures r.Rejected? ==> rows == old(rows) && rowsLength == old(rowsLength) && Released == old(Released)
      ensures r.Rejected? ==> Abandoned == old(Abandoned)
      ensures r.Ran? ==> r.outcome == SyncRun(boundVars, config, start, old(rowsLength), map[], 0, ticks)
      ensures r.Ran? ==> var e := SyncEffects(config, start, old(rowsLength), 0, ticks);
                         Released == old(Released) + e.released && rowsLength == e.capacity
      ensures AbandonedSince(old(rows), old(Abandoned))
    {
      if BothInfinite(config) {
        return Rejected;
      }
      var o := QueryInternal(ticks, start);
      return Ran(o);
    }

    /** `query_internal`: poll until the fire count or the fire time is reached, skipping
        (without counting) a cycle whose buffer or row 0 is null; exactly what `SyncRun` says. */
    method QueryInternal(ticks: seq<Tick>, start: Uint64) returns (o: Outcome)
      requires Resting()
      modifies this`rows, this`rowsLength, this`Abandoned, this`Released, rows
      ensures Resting() && rowsLength >= old(rowsLength)
      ensures o == SyncRun(boundVars, config, start, old(rowsLength), map[], 0, ticks)
      ensures var e := SyncEffects(config, start, old(rowsLength), 0, ticks);
              Released == old(Released) + e.released && rowsLength == e.capacity
      ensures AbandonedSince(old(rows), old(Abandoned))
    {
      ghost var capacity0 := rowsLength;
      ghost var effects := SyncEffectsLoop(config, start, capacity0, 0, Released, ticks);
      SyncEffectsLoopIsSyncEffects(config, start, capacity0, 0, Released, ticks);
      SyncLoopIsSyncRun(boundVars, config, start, capacity0, map[], 0, [], ticks);
      var acc: seq<Snapshot> := [];
      var prev: Columns := map[];
      var fired: nat := 0;
      var i := 0;
      while i < |ticks|
        invariant 0 <= i <= |ticks|
        invariant Resting() && rowsLength >= capacity0
        invariant rows != null ==> rows == old(rows) || fresh(rows)
        invariant SyncLoop(boundVars, config, start, capacity0, map[], 0, [], ticks) ==
                  SyncLoop(boundVars, config, start, rowsLength, prev, fired, acc, ticks[i..])
        invariant effects == SyncEffectsLoop(config, start, rowsLength, fired, Released, ticks[i..])
        invariant AbandonedSince(old(rows), old(Abandoned))
        decreases |ticks| - i
      {
        var tick := ticks[i];
        assert ticks[i..][1..] == ticks[i + 1..];
        i := i + 1;
        var polled := SyncIteration(tick, start, prev, fired, acc, ticks[i - 1..]);
        if polled.None? {
          continue;
        }
        var cur := polled.value;
        acc := acc + [Snapshot(cur, prev)];
        prev := cur;
        fired := fired + 1;
        if CountReached(config, fired) {
          return Outcome(acc, ByCount);
        }
        if TimeReached(config, start, tick.now) {
          return Outcome(acc, ByTime);
        }
      }
      return Outcome(acc, ScriptEnded);
    }

    /** One iteration of `query_internal`'s loop up to the bound tests: poll once, releasing
        the delivered rows. `cur` is the cycle's columns, or `None` for a skipped cycle. */
    method SyncIteration(tick: Tick, start: Uint64, prev: Columns, fired: nat,
                         ghost acc: seq<Snapshot>, ghost script: seq<Tick>) returns (cur: Option<Columns>)
      requires Resting()
      requires script != [] && script[0] == tick
      modifies this`rows, this`rowsLength, this`Abandoned, this`Released, rows
      ensures Resting() && rowsLength >= old(rowsLength)
      ensures rows != null ==> rows == old(rows) || fresh(rows)
      ensures Released == old(Released) + RefreshPlan(old(rowsLength), tick.step).delivered
      ensures SyncEffectsLoop(config, start, old(rowsLength), fired, old(Released), script) ==
              if cur.Some? && (CountReached(config, fired + 1) || TimeReached(config, start, tick.now))
              then Effects(Released, rowsLength)
              else SyncEffectsLoop(config, start, rowsLength, if cur.Some? then fired + 1 else fired, Released, script[1..])
      ensures rowsLength == old(rowsLength) ==> rows == old(rows) && Abandoned == old(Abandoned)
      ensures rowsLength != old(rowsLength) ==>
                fresh(rows) && Abandoned == old(Abandoned) + (if old(rows) == null then {} else {old(rows)})
      ensures cur.None? ==>
              SyncLoop(boundVars, config, start, old(rowsLength), prev, fired, acc, script) ==
              SyncLoop(boundVars, config, start, rowsLength, prev, fired, acc, script[1..])
      ensures cur.Some? ==>
              var acc' := acc + [Snapshot(cur.value, prev)];
              SyncLoop(boundVars, config, start, old(rowsLength), prev, fired, acc, script) ==
              if CountReached(config, fired + 1) then Outcome(acc', ByCount)
              else if TimeReached(config, start, tick.now) then Outcome(acc', ByTime)
              else SyncLoop(boundVars, config, start, rowsLength, cur.value, fired + 1, acc', script[1..])
    {
      ghost var released := Released;
      cur := PollCycle(tick.step);
      assert cur.None? ==> Released == released + [] == released;
    }

    /** `query_async`: marks the session running and runs `query_async_internal`. The worker
        thread is run in line, after the flag is set; the callback's calls are the snapshots. */
    method QueryAsync(ticks: seq<AsyncTick>, start: Uint64) returns (o: Outcome)
      requires Resting()
      modifies this`rows, this`rowsLength, this`Abandoned, this`Released, rows
      modifies this`closeSignal, this`threadRunning
      ensures Resting() && rowsLength >= old(rowsLength)
      ensures o == AsyncRun(boundVars, config, start, old(rowsLength), map[], 0, old(closeSignal), ticks)
      ensures threadRunning <==> o.end == NoRows || o.end == ScriptEnded
      ensures var e := AsyncEffects(config, start, old(rowsLength), 0, old(closeSignal), ticks);
              Released == old(Released) + e.released && rowsLength == e.capacity
      ensures AbandonedSince(old(rows), old(Abandoned))
    {
      threadRunning := true;
      o := QueryAsyncInternal(ticks, start);
    }

    /** `query_async_internal`: test the close flag first, stop at a cycle without rows, emit
        one snapshot per counted cycle, and stop at the fire count or the fire time. The flag
        `threadRunning` is cleared on every exit except the one for a cycle without rows. */
    method QueryAsyncInternal(ticks: seq<AsyncTick>, start: Uint64) returns (o: Outcome)
      requires Resting()
      modifies this`rows, this`rowsLength, this`Abandoned, this`Released, rows
      modifies this`closeSignal, this`threadRunning
      ensures Resting() && rowsLength >= old(rowsLength)
      ensures o == AsyncRun(boundVars, config, start, old(rowsLength), map[], 0, old(closeSignal), ticks)
      ensures o.end == NoRows || o.end == ScriptEnded ==> threadRunning == old(threadRunning)
      ensures o.end != NoRows && o.end != ScriptEnded ==> !threadRunning
      ensures closeSignal <==> ticks == [] && old(closeSignal)
      ensures var e := AsyncEffects(config, start, old(rowsLength), 0, old(closeSignal), ticks);
              Released == old(Released) + e.released && rowsLength == e.capacity
      ensures AbandonedSince(old(rows), old(Abandoned))
    {
      ghost var capacity0, signal0, running0 := rowsLength, closeSignal, threadRunning;
      ghost var released0 := Released;
      ghost var effects := AsyncEffectsLoop(config, start, capacity0, 0, signal0, released0, ticks);
      ghost var whole := AsyncLoop(boundVars, config, start, capacity0, map[], 0, signal0, [], ticks);
      var acc: seq<Snapshot> := [];
      var prev: Columns := map[];
      var fired: nat := 0;
      var stop: Option<End> := None;
      var i := 0;
      while i < |ticks| && stop.None?
        invariant 0 <= i <= |ticks|
        invariant Resting() && rowsLength >= capacity0
        invariant rows != null ==> rows == old(rows) || fresh(rows)
        invariant threadRunning == if stop.None? || stop == Some(NoRows) then running0 else false
        invariant closeSignal == (i == 0 && signal0)
        invariant stop.Some? ==> i > 0 && stop.value != ScriptEnded
        invariant whole == if stop.Some? then Outcome(acc, stop.value)
                           else AsyncLoop(boundVars, config, start, rowsLength, prev, fired, closeSignal, acc, ticks[i..])
        invariant effects == if stop.Some? then Effects(Released, rowsLength)
                             else AsyncEffectsLoop(config, start, rowsLength, fired, closeSignal, Released, ticks[i..])
        invariant AbandonedSince(old(rows), old(Abandoned))
        decreases |ticks| - i
      {
        assert ticks[i..][1..] == ticks[i + 1..];
        var snap;
        snap, stop := AsyncIteration(ticks[i], start, prev, fired, acc, ticks[i..]);
        if snap.Some? {
          acc := acc + [snap.value];
          prev := snap.value.result;
          fired := fired + 1;
        }
        i := i + 1;
      }
      o := Outcome(acc, if stop.Some? then stop.value else ScriptEnded);
      AsyncEffectsLoopIsAsyncEffects(config, start, capacity0, 0, signal0, released0, ticks);
      AsyncLoopIsAsyncRun(boundVars, config, start, capacity0, map[], 0, signal0, [], ticks);
    }

    /** One iteration of `query_async_internal`'s loop: test (and clear) the close flag, poll,
        stop at a cycle without rows, otherwise emit a snapshot and test the two bounds.
        `snap` is the callback's call, if any; `stop` is why the loop ends here, if it does. */
    method AsyncIteration(tick: AsyncTick, start: Uint64, prev: Columns, fired: nat,
                          ghost acc: seq<Snapshot>, ghost script: seq<AsyncTick>)
      returns (snap: Option<Snapshot>, stop: Option<End>)
      requires Resting()
      requires script != [] && script[0] == tick
      modifies this`rows, this`rowsLength, this`Abandoned, this`Released, rows
      modifies this`closeSignal, this`threadRunning
      ensures Resting() && rowsLength >= old(rowsLength)
      ensures rows != null ==> rows == old(rows) || fresh(rows)
      ensures !closeSignal
      ensures threadRunning == if stop.None? || stop == Some(NoRows) then old(threadRunning) else false
      ensures stop.None? ==> snap.Some? && snap.value.prevResult == prev
      ensures stop != Some(ScriptEnded)
      ensures var acc' := if snap.Some? then acc + [snap.value] else acc;
              AsyncLoop(boundVars, config, start, old(rowsLength), prev, fired, old(closeSignal), acc, script) ==
              if stop.Some? then Outcome(acc', stop.value)
              else AsyncLoop(boundVars, config, start, rowsLength, snap.value.result, fired + 1, false, acc', script[1..])
      ensures stop == Some(Cancelled) ==>
                rows == old(rows) && rowsLength == old(rowsLength) && Released == old(Released) && Abandoned == old(Abandoned)
      ensures stop != Some(Cancelled) ==> Released == old(Released) + RefreshPlan(old(rowsLength), tick.tick.step).delivered
      ensures rowsLength == old(rowsLength) ==> rows == old(rows) && Abandoned == old(Abandoned)
      ensures rowsLength != old(rowsLength) ==>
                fresh(rows) && Abandoned == old(Abandoned) + (if old(rows) == null then {} else {old(rows)})
      ensures AsyncEffectsLoop(config, start, old(rowsLength), fired, old(closeSignal), old(Released), script) ==
              if stop.Some? then Effects(Released, rowsLength)
              else AsyncEffectsLoop(config, start, rowsLength, fired + 1, false, Released, script[1..])
    {
      if tick.closeRequested {
        closeSignal := true;
      }
      if closeSignal {
        closeSignal := false;
        threadRunning := false;
        return None, Some(Cancelled);
      }
      ghost var released := Released;
      var polled := PollCycle(tick.tick.step);
      if polled.None? {
        assert Released == released + [] == released;
        return None, Some(NoRows);
      }
      var cur := polled.value;
      snap := Some(Snapshot(cur, prev));
      if CountReached(config, fired + 1) {
        threadRunning := false;
        return snap, Some(ByCount);
      }
      if TimeReached(config, start, tick.tick.now) {
        threadRunning := false;
        return snap, Some(ByTime);
      }
      stop := None;
    }
  }
}
