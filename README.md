# WmiHelper poll loop, modelled in Dafny

`WmiHelper.hpp` is a header-only C++ wrapper around a WMI high-performance
enumerator. A caller binds property names (`capture_var`) and then polls one
WMI class, either synchronously (`query`, which returns every snapshot once a
fire count or a fire time is reached) or on a worker thread
(`query_async`, which hands each snapshot to a callback until cancelled or
bounded). Each poll cycle does the following:
- refreshes the enumerator;
- enumerates the class's instances into a row buffer that grows on demand (`refresh_data`);
- reads every bound property from every row into fixed-size `wmi_any<32>` cells;
- releases the rows;
- emits a `{result, prev_result}` pair.

This project models the class `wmi_helper` (instantiated as `wmi_helper_32`)
with the WMI provider as a scripted oracle. It proves what each of those steps
does to the helper's state and what the two loops emit.

Modules, one per file:

- `Types`: fixed-width integers and `Option`.
- `Config`: `wmi_helper_config`, its two constructors and their defaults, the
  `infinite` marker, and the two termination tests. The fire-time deadline is
  computed with unsigned 64-bit wrap-around, as `start_time + fire_time` is in
  the source.
- `Provider`: the provider's answers (`GetObjects`, `GetPropertyHandle`,
  `ReadPropertyValue`) as functions of scripted inputs.
- `Cells`: the value cell. It has the read as the source writes it and the
  corrected read, with the 32-byte ceiling of the reserved area, that the rest of
  the model uses (see Findings).
- `Snapshots`: the columns one cycle collects, as functions of the enumerated
  rows.
- `Refresh`: `refresh_data` as a function (`RefreshPlan`) from the buffer
  capacity and one provider step to the count, the new capacity and the rows
  delivered.
- `Session`: both poll loops as functions of a script of ticks. Each tick
  holds the provider's answers for one iteration and the clock reading used by
  the fire-time test; an asynchronous tick also says whether `cleanup` raised
  the close flag.
- `Helper`: the class `WmiHelper`. It keeps the source's fields:
  - the bound-variable map;
  - the row buffer as an `array` plus its length;
  - the close and running flags.

  Its methods mutate those fields as the source does. Each method is proved
  against the functions above: `Query` returns exactly `SyncRun`, `QueryAsync`
  returns exactly `AsyncRun`, and `RefreshData` leaves the buffer as
  `RefreshPlan` says.

Behaviour of the code that the model keeps:
- A failed retry after growth gives a cycle with no rows. The synchronous loop
  skips that cycle without emitting it, and the asynchronous loop stops.
- A string is read like any other value: one `ReadPropertyValue` call into the
  cell, with no separate read of its length.
- A grown buffer replaces the old one without freeing it; the helper's
  abandoned buffers are tracked as a ghost set.
- A finite fire count of zero or below with an infinite fire time passes the
  refusal test of `query()`, yet no cycle can ever reach that count, so the
  synchronous loop never stops.

## Model

| member | source | states |
|---|---|---|
| Config.DefaultConfig | WmiHelper.hpp:106-115 | a default-constructed configuration has no class name, fire count `infinite`, fire time 5000 ms, 2 updates per second, server `\\.\root\cimv2` and empty credentials |
| Config.ConfigFor | WmiHelper.hpp:63-66 | the class-name constructor stores its arguments; its own defaults are `infinite`, `infinite` and 2, and the server and credentials keep their member defaults |
| Config.ClassNameOnlyConfigIsRefused | WmiHelper.hpp:401-405 | a configuration built from a class name alone has both bounds infinite, so a synchronous query refuses it; the default configuration and one with a finite count are accepted |
| Config.Deadline | WmiHelper.hpp:580 | `start_time + fire_time` in `uint64`: the plain sum when it fits, otherwise the sum wrapped by 2^64 in either direction |
| Config.BothInfinite | WmiHelper.hpp:401-402 | the refusal test: when both bounds are the `infinite` marker, neither the fire-count test nor the fire-time test can ever be met; otherwise at least one bound is finite |
| Config.CountReached | WmiHelper.hpp:572-577 | the fire-count test: never met under an infinite count, and met only when the counter equals the finite count |
| Config.TimeReached | WmiHelper.hpp:579-584 | the fire-time test: never met under an infinite fire time; otherwise met exactly when the clock reading is at or past the wrapped deadline |
| Config.NonPositiveBoundsQuirks | WmiHelper.hpp:572-584 | each on its own: a finite fire count of zero or below is never reached by the counter, which starts at one; a negative finite fire time whose sum with the start does not wrap is already reached at the start time |
| Provider.GetObjects | WmiHelper.hpp:367-374 | the enumerator writes at most `capacity` rows; it succeeds exactly when the objects fit and then writes them all and returns their number; it reports buffer-too-small exactly for a too-small answer or objects that do not fit; on any failure it writes nothing |
| Provider.GetPropertyHandle | WmiHelper.hpp:536-542 | the lookup on row 0 succeeds exactly when the object has the property, and yields its handle |
| Provider.ReadPropertyValue | WmiHelper.hpp:552-555 | a read succeeds exactly when the handle is known and the value fits the given byte count, and then yields the value whole |
| Cells.SizeOfAny | WmiHelper.hpp:23-26 | `sizeof(wmi_any<n>)` is a 4-byte tag plus `n` bytes padded to a multiple of 4: between `n + 4` and `n + 7` |
| Cells.Pad | WmiHelper.hpp:546-552 | a value read into a zero-initialised cell fills the first bytes of the 32-byte reserved area; the rest stays zero |
| Cells.ReadCapacityAsWritten | WmiHelper.hpp:552 | the byte count the source passes to the read is the whole cell, 36 bytes, not the 32-byte reserved area it reads into |
| Cells.ReadBytesAsWritten | WmiHelper.hpp:552-555 | the source's read accepts exactly the values of at most 36 bytes for a known handle |
| Cells.AsWrittenReadOverrunsReserved | WmiHelper.hpp:552 | a 34-byte value is accepted by the source's read although the reserved area holds 32 bytes |
| Cells.ReadCell | WmiHelper.hpp:546-557 | the corrected read succeeds exactly when the handle is known and the value fits the reserved area; the cell carries the tag resolved on row 0, a 32-byte payload, and the value as its prefix |
| Cells.ReadCellAgreesWhereNoOverrun | WmiHelper.hpp:552-555 | every value the corrected read accepts is accepted by the source's read, and where the source's read accepts a value that fits, both give the same cell |
| Snapshots.Column | WmiHelper.hpp:544-558 | a column never has more cells than there are rows |
| Snapshots.ReadableRows | WmiHelper.hpp:544-558 | the rows whose read succeeds, as ascending positions: each listed row reads, and every row that reads is listed |
| Snapshots.ColumnIsReadsInRowOrder | WmiHelper.hpp:544-558 | a column holds exactly one cell per readable row, and its k-th cell is the read of the k-th readable row |
| Snapshots.ReadableColumn | WmiHelper.hpp:544-558 | a property's column is non-empty exactly when some row reads, and every cell has the property's tag and a full reserved area |
| Snapshots.NamedColumn | WmiHelper.hpp:536-542 | a name that does not resolve on row 0 gives no cells |
| Snapshots.CycleResults | WmiHelper.hpp:529-560 | a cycle only reports bound variables |
| Snapshots.CycleResultsInsert | WmiHelper.hpp:529-560 | binding one more variable adds its column when it has cells and leaves every other entry as it was |
| Snapshots.CycleResultsExtend | WmiHelper.hpp:529-560 | processing one more bound variable in the loop adds its column when it has cells and changes nothing else, whatever order the map is visited in |
| Snapshots.CycleResultsColumn | WmiHelper.hpp:536-558 | a variable has a key in a cycle's result exactly when it is bound, its property resolves on row 0, and some row's read succeeds; its column then has between 1 and `num_rows` cells, one per readable row, each with the row-0 tag |
| Refresh.RefreshPlan | WmiHelper.hpp:351-397 | a failed Refresh returns 0 and leaves buffer and capacity alone; the capacity never shrinks; it grows exactly on buffer-too-small with a larger required count, and to exactly that count; a failed retry returns 0 and delivers nothing; otherwise the first call's count is passed through whatever its outcome; delivered rows fit the buffer |
| Refresh.SteadyProviderDelivers | WmiHelper.hpp:367-394 | a provider holding the same objects for both calls always has them delivered: they fit, or the buffer grows to exactly their number and the retry succeeds |
| Refresh.Fill | WmiHelper.hpp:361-370 | after zeroing and enumerating, the delivered objects occupy the first slots and every later slot is null |
| Refresh.Capacities | WmiHelper.hpp:373-385 | the capacity before each of a run of refreshes starts at the initial capacity, one entry per refresh plus the final one |
| Refresh.CapacityNeverShrinks | WmiHelper.hpp:373-385 | across any run of refreshes the capacity is non-decreasing |
| Session.SyncRun | WmiHelper.hpp:518-587 | the synchronous loop emits at most one snapshot per tick; it stops only by count, by time, or when the script runs out, having emitted at least one snapshot when it stops by a bound, and a stop by count comes exactly when the counter reaches the fire count |
| Session.AsyncRun | WmiHelper.hpp:424-506 | the asynchronous loop emits at most one snapshot per tick; a stop by a bound follows at least one snapshot, a stop by count comes exactly when the counter reaches the fire count, and a close flag already raised stops it with nothing emitted |
| Session.SyncLoopIsSyncRun | WmiHelper.hpp:518-587 | running the synchronous loop with the snapshots emitted so far carried along gives those snapshots followed by what `SyncRun` emits |
| Session.AsyncLoopIsAsyncRun | WmiHelper.hpp:424-506 | the same for the asynchronous loop and `AsyncRun` |
| Session.SyncSnapshotsChain | WmiHelper.hpp:515-568 | in what a synchronous query returns, the first snapshot's previous result is the starting one (empty for a query), and each later one's previous result is the result before it |
| Session.AsyncSnapshotsChain | WmiHelper.hpp:421-485 | the same chain holds for the snapshots handed to the callback, in call order |
| Session.SyncCountBound | WmiHelper.hpp:570-584 | with a finite fire count of at least one, a synchronous query returns at most that many snapshots, exactly that many when the count ends it, and it ends only by count, by time, or when the script runs out |
| Session.AsyncCountBound | WmiHelper.hpp:487-495 | the asynchronous loop calls the callback at most fire-count times, and exactly that many times when the count ends it |
| Session.SyncEndsOnlyByFiniteBounds | WmiHelper.hpp:572-584 | the loop stops by count only under a finite fire count and by time only under a finite fire time; with both infinite it never stops |
| Session.SyncNoTimeoutBeforeDeadline | WmiHelper.hpp:579-584 | while every clock reading is before the deadline, the fire time never ends the loop |
| Session.SyncStopsAtFirstLateCycle | WmiHelper.hpp:579-584 | once every clock reading is at or past a finite deadline, at most one snapshot is emitted |
| Session.SyncSpinsWithoutRows | WmiHelper.hpp:524-527 | when Refresh keeps failing, the synchronous loop emits nothing, counts nothing and never tests its bounds: it runs as long as it is driven |
| Session.SyncEffects | WmiHelper.hpp:518-587 | what the synchronous loop leaves behind: the released rows begin with the first cycle's delivered rows, and the final capacity is never below the starting one; an empty script releases nothing and keeps the capacity |
| Session.AsyncEffects | WmiHelper.hpp:424-506 | what the asynchronous loop leaves behind: a close flag seen at the top of the loop releases nothing and keeps the capacity; otherwise the released rows begin with the first refresh's delivered rows; the final capacity is never below the starting one |
| Session.SyncEffectsLoopIsSyncEffects | WmiHelper.hpp:518-587 | carrying the rows released so far along the synchronous loop gives those rows followed by `SyncEffects`'s, at `SyncEffects`'s final capacity |
| Session.AsyncEffectsLoopIsAsyncEffects | WmiHelper.hpp:424-506 | the same for the asynchronous loop and `AsyncEffects` |
| Session.SyncReleasesEveryCountedCycle | WmiHelper.hpp:529-568 | a synchronous query releases at least as many rows as it returns snapshots, and it releases some exactly when it returns some |
| Session.AsyncReleasesEveryCountedCycle | WmiHelper.hpp:440-485 | the asynchronous loop releases at least as many rows as it hands snapshots to the callback, and it releases some exactly when it calls the callback |
| Session.NonPositiveCountNeverStops | WmiHelper.hpp:570-577 | a finite fire count of zero or below with an infinite fire time is not refused, and the synchronous loop then ends only when the script runs out |
| Session.AsyncCancelEmitsNothing | WmiHelper.hpp:428-433 | a close request seen at the top of the asynchronous loop ends it before any refresh, with nothing emitted |
| Session.SyncAsyncAgree | WmiHelper.hpp:424-506 | while the provider's answers deliver rows every cycle, whatever the buffer's capacity, and nobody cancels, the callback sees exactly the snapshots a synchronous query would return, and both loops stop for the same reason |
| Helper.WmiHelper.constructor | WmiHelper.hpp:599-613 | a new helper has no bindings, a null buffer of length 0, both flags clear, and the given configuration and hash |
| Helper.WmiHelper.CaptureVar | WmiHelper.hpp:342-349 | returns `hash(name)` and binds it to `name`; no other key changes; binding a name already bound under its hash changes nothing |
| Helper.WmiHelper.RefreshData | WmiHelper.hpp:351-397 | returns `RefreshPlan`'s count and leaves the capacity and slots as it says; a grown buffer is a fresh array and the old one is abandoned, not freed |
| Helper.WmiHelper.AssembleCycle | WmiHelper.hpp:529-565 | the columns built are `CycleResults` of the rows read; those rows are released in order and their slots nulled; later slots are untouched |
| Helper.WmiHelper.ReadColumn | WmiHelper.hpp:544-558 | pushing each successful read onto the variable's column, in row order, adds exactly that property's column, and creates the key only with the first cell |
| Helper.WmiHelper.ReleaseRows | WmiHelper.hpp:562-565 | every row read this cycle is released in row order and its slot nulled; later slots are untouched |
| Helper.WmiHelper.PollCycle | WmiHelper.hpp:524-565 | one cycle up to emission: no columns exactly when no rows were delivered, otherwise `CycleResults` of the delivered rows; exactly the delivered rows are released, in order; every slot is null afterwards; the buffer is kept when the capacity stays, and otherwise is a fresh array with the old one added to the abandoned set |
| Helper.WmiHelper.Query | WmiHelper.hpp:399-408 | refuses exactly the configurations with both bounds infinite, before any cycle and without touching the buffer, releasing or abandoning anything; otherwise returns what `SyncRun` describes, releases exactly the rows `SyncEffects` lists and ends at its capacity; abandoned buffers are only ever added, and the original buffer is among them once it has been replaced |
| Helper.WmiHelper.QueryInternal | WmiHelper.hpp:510-590 | the synchronous loop returns exactly `SyncRun` from the current capacity, empty previous result and a zero count; every slot is null afterwards, the rows released over the loop and the final capacity are exactly `SyncEffects`'s; abandoned buffers are only ever added, none when the buffer stays, and the original buffer is among them once it has been replaced |
| Helper.WmiHelper.QueryAsync | WmiHelper.hpp:410-414 | the callback receives exactly `AsyncRun`'s snapshots; the running flag is left set only when the loop stopped at a cycle without rows or was not stopped; the rows released and the final capacity are exactly `AsyncEffects`'s, and the abandoned buffers follow the same rule as for `Query` |
| Helper.WmiHelper.QueryAsyncInternal | WmiHelper.hpp:418-508 | the asynchronous loop emits exactly `AsyncRun`; it clears the running flag on cancellation and on reaching either bound, leaves it as it was when it stops at a cycle without rows, and consumes the close flag once it has run an iteration; the rows released over the loop and the final capacity are exactly `AsyncEffects`'s; abandoned buffers are only ever added, none when the buffer stays, and the original buffer is among them once it has been replaced |
| Helper.WmiHelper.SyncIteration | WmiHelper.hpp:520-565 | one iteration of the synchronous loop up to its bound tests polls once and releases exactly the rows its refresh delivered, as one step of the synchronous loop function and of `SyncEffects`; the buffer is kept when the capacity stays, and otherwise is a fresh array with the old one abandoned |
| Helper.WmiHelper.AsyncIteration | WmiHelper.hpp:424-505 | one iteration tests and clears the close flag, polls once, and either stops (cancelled, no rows, count or time reached) or emits one snapshot chained to the previous result and continues, exactly as one step of the asynchronous loop function; a cancelled iteration leaves the buffer, its length and the released rows as they were, and any other iteration releases exactly the rows its refresh delivered; the buffer is kept when the capacity stays, and otherwise is a fresh array with the old one abandoned; the released rows and capacity follow one step of `AsyncEffects` |

## Left out

- COM and WMI setup and teardown (`init`, `cleanup`, the destructor) are not part of this model. They consist of foreign calls whose results are not modelled; the enumerator and refresher appear only through their scripted answers.
- Threads, the atomics and the mutex are left out. The worker thread of `query_async` is run in line, after `thread_running` is set; the source sets the flag after the thread starts, so a thread that finishes at once can have its cleared flag overwritten. `capture_var` takes no lock while the worker iterates `bound_vars_`, and the model has no concurrent binding. The close-flag wait in `cleanup` is left out; a session that stops at a cycle without rows leaves `threadRunning` set, and that wait would never end.
- Sleeping between cycles is left out, including `1000 / updates_per_second`, which divides by zero when the cadence is 0. The clock is an input: one reading per counted cycle.
- The scripts are finite, so a loop that the source would run forever ends the model with `ScriptEnded`. This happens under both infinite bounds, under a finite fire count of zero or below with an infinite fire time (`NonPositiveCountNeverStops`), or when no rows ever arrive in the synchronous loop.
- The fire counter is an unbounded `nat`; the source's `int` would overflow only after 2^31 cycles. Row counts are `nat`, not `ULONG`/`uint32`.
- The `nullptr` test after `new[]` (line 377) is left out; standard `new` throws instead of returning null.
- `std::hash` is a function the helper is given, not interpreted.
- `wmi_any`'s typed accessors (`get`, `data`, `get_wide_string`, `get_string`) are pointer casts over the reserved bytes and are not modelled. A cell is its tag and its 32 payload bytes.
- The provider's internals (how `GetPropertyHandle` and `ReadPropertyValue` decide) are oracles over each object's property map.
- `example.cpp` and `main.cpp` are demo programs and are not part of this model.
- Snapshots.Column: reads cells with the corrected 32-byte ceiling of `Cells.ReadCell`, not the 36-byte ceiling of lines 466 and 552. A value of 33 to 36 bytes, which the source accepts by writing past `reserved`, is skipped in the model, so every column, cycle result and loop outcome built on `Column` differs from the source for such values (see Findings).
- Helper.WmiHelper.QueryAsync: does not state the close flag afterwards. `QueryAsyncInternal` states it.
- Helper.WmiHelper.QueryAsync: runs the worker in line as a fresh session each time it is called. It does not capture that a second call without an intervening `cleanup` destroys a joinable `std::thread` and aborts the process.

## Findings

| source | as written | input that shows it | evidently intended | confidence | as-written member | corrected member |
|---|---|---|---|---|---|---|
| WmiHelper.hpp:552 | `ReadPropertyValue` is given `sizeof(any)` (36 bytes for `wmi_any<32>`) as its buffer size, but the buffer passed is `any.data<byte*>()`, the 32-byte `reserved` array; the same call is at line 466 | a property value of 33 to 36 bytes, such as a 16-character wide string with its terminator (34 bytes): the read succeeds and writes past `reserved` | pass the size of the reserved area (`AnySize`, 32), so that such a value fails the read and the row is skipped | not executed | Cells.AsWrittenReadOverrunsReserved | Cells.ReadCell |
