/** The enumeration buffer manager (`refresh_data`): refresh, zero the row buffer, enumerate,
    and on "buffer too small" grow the buffer to exactly the reported count and retry once. */
module Refresh {
  import opened Provider

  /** One slot of the row buffer: a null pointer or an enumerated object. */
  datatype Slot = Null | Ptr(obj: Obj)

  /** What one `refresh_data` call does: the count it returns, the buffer capacity afterwards,
      whether it zeroed the buffer (it does unless `Refresh` failed), whether it grew the
      buffer, and the objects left in slots `0 .. |delivered|-1`. */
  datatype Plan = Plan(count: nat, capacity: nat, zeroed: bool, grown: bool, delivered: seq<Obj>)

  function RefreshPlan(capacity: nat, step: ProviderStep): (p: Plan)
    // the buffer never shrinks, and what is delivered fits it
    ensures p.capacity >= capacity && |p.delivered| <= p.capacity
    // rows are delivered only by a successful enumeration, and then the count is theirs
    ensures p.delivered != [] ==> p.zeroed && p.count == |p.delivered|
    // a failed Refresh returns 0 and leaves the buffer and its capacity alone
    ensures p.zeroed <==> step.refreshOk
    ensures !step.refreshOk ==> p.count == 0 && p.capacity == capacity && !p.grown && p.delivered == []
    // growth happens only on "too small" with a larger required count, and to exactly that count
    ensures p.grown <==> p.capacity != capacity
    ensures p.grown <==>
              step.refreshOk && GetObjects(capacity, step.first).hr == BufferTooSmall &&
              GetObjects(capacity, step.first).returned > capacity
    ensures p.grown ==> p.capacity == GetObjects(capacity, step.first).returned
    // after growth the retry decides everything; a failed retry returns 0 and delivers nothing
    ensures p.grown ==> p.delivered == GetObjects(p.capacity, step.retry).written
    ensures p.grown && GetObjects(p.capacity, step.retry).hr != Success ==> p.count == 0
    // without growth, the first enumeration's count is passed through, whatever its outcome
    ensures step.refreshOk && !p.grown ==>
              p.count == GetObjects(capacity, step.first).returned &&
              p.delivered == GetObjects(capacity, step.first).written
  {
    if !step.refreshOk then Plan(0, capacity, false, false, [])
    else
      var first := GetObjects(capacity, step.first);
      if first.hr == BufferTooSmall && first.returned > capacity then
        var retry := GetObjects(first.returned, step.retry);
        if retry.hr != Success then Plan(0, first.returned, true, true, [])
        else Plan(retry.returned, first.returned, true, true, retry.written)
      else Plan(first.returned, capacity, true, false, first.written)
  }

  /** A provider that holds the same objects for both calls always delivers them: either they
      fit, or the buffer grows to exactly their number and the retry succeeds. */
  lemma SteadyProviderDelivers(capacity: nat, objs: seq<Obj>)
    ensures var p := RefreshPlan(capacity, ProviderStep(true, Objects(objs), Objects(objs)));
            p.delivered == objs && p.count == |objs| &&
            p.capacity == if |objs| <= capacity then capacity else |objs|
  {
  }

  /** The buffer contents after a zeroing and a delivery: the objects, then null slots. */
  function Fill(delivered: seq<Obj>, capacity: nat): (s: seq<Slot>)
    requires |delivered| <= capacity
    ensures |s| == capacity
    ensures forall i :: 0 <= i < |delivered| ==> s[i] == Ptr(delivered[i])
    ensures forall i :: |delivered| <= i < capacity ==> s[i] == Null
  {
    seq(capacity, i requires 0 <= i < capacity => if i < |delivered| then Ptr(delivered[i]) else Null)
  }

  /** The capacity before each of a sequence of `refresh_data` calls, and after the last. */
  function Capacities(capacity: nat, steps: seq<ProviderStep>): (caps: seq<nat>)
    ensures |caps| == |steps| + 1 && caps[0] == capacity
    decreases |steps|
  {
    if steps == [] then [capacity]
    else [capacity] + Capacities(RefreshPlan(capacity, steps[0]).capacity, steps[1..])
  }

  /** Across any sequence of refreshes the buffer capacity never decreases. */
  lemma {:induction false} CapacityNeverShrinks(capacity: nat, steps: seq<ProviderStep>)
    ensures forall i, j :: 0 <= i <= j <= |steps| ==>
              Capacities(capacity, steps)[i] <= Capacities(capacity, steps)[j]
    decreases |steps|
  {
    if steps != [] {
      var next := RefreshPlan(capacity, steps[0]).capacity;
      CapacityNeverShrinks(next, steps[1..]);
      var caps := Capacities(capacity, steps);
      assert caps[1..] == Capacities(next, steps[1..]);
      forall i, j | 0 <= i <= j <= |steps| ensures caps[i] <= caps[j] {
        if 0 < i {
          assert caps[i] == caps[1..][i - 1] && caps[j] == caps[1..][j - 1];
        } else if 0 < j {
          assert caps[1] == caps[1..][0] && caps[j] == caps[1..][j - 1];
        }
      }
    }
  }
}
