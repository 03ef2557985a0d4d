/** The store-wide growth budget and the dispatch deadline, in machine-width arithmetic. */
module Limits {
  const USIZE_MAX: nat := 0xFFFF_FFFF_FFFF_FFFF
  const U64_MAX: nat := 0xFFFF_FFFF_FFFF_FFFF

  type usize = n: nat | n <= USIZE_MAX

  const MAX_MEMORY_BYTES: usize := 512 * 1024 * 1024
  const MAX_TABLE_ELEMENTS: usize := 100_000

  /** One tick of the epoch, in nanoseconds. */
  const EPOCH_TICK: nat := 1_000_000_000

  function SaturatingSub(a: usize, b: usize): usize {
    if a < b then 0 else a - b
  }

  /** The growth stays within the cap, in unbounded arithmetic. */
  predicate Fits(running: nat, current: usize, desired: usize, cap: usize) {
    running + SaturatingSub(desired, current) <= cap
  }

  /** Store-wide totals of what the growth callbacks have granted. */
  class PackLimits {
    var memoryBytes: usize
    var tableElements: usize

    constructor ()
      ensures memoryBytes == 0 && tableElements == 0
    {
      memoryBytes, tableElements := 0, 0;
    }

    method MemoryGrowing(current: usize, desired: usize) returns (granted: bool)
      modifies this`memoryBytes
      ensures granted <==> Fits(old(memoryBytes), current, desired, 512 * 1024 * 1024)
      ensures memoryBytes == old(memoryBytes) + if granted then SaturatingSub(desired, current) else 0
    {
      granted, memoryBytes := Admit(memoryBytes, current, desired, MAX_MEMORY_BYTES);
    }

    method TableGrowing(current: usize, desired: usize) returns (granted: bool)
      modifies this`tableElements
      ensures granted <==> Fits(old(tableElements), current, desired, 100_000)
      ensures tableElements == old(tableElements) + if granted then SaturatingSub(desired, current) else 0
    {
      granted, tableElements := Admit(tableElements, current, desired, MAX_TABLE_ELEMENTS);
    }
  }

  /** The checked addition cannot hide a refusal that the cap alone would not
      make: a total past the machine width is past every cap. */
  method Admit(running: usize, current: usize, desired: usize, cap: usize) returns (ok: bool, total: usize)
    ensures ok <==> Fits(running, current, desired, cap)
    ensures total == running + if ok then SaturatingSub(desired, current) else 0
    ensures desired <= current ==> (ok <==> running <= cap) && total == running
    ensures desired > current ==> (ok <==> running + desired - current <= cap)
    ensures desired > current && ok ==> total == running + desired - current
    ensures !ok ==> total == running
  {
    var delta := SaturatingSub(desired, current);
    if running + delta > USIZE_MAX {
      return false, running;
    }
    if running + delta > cap {
      return false, running;
    }
    return true, running + delta;
  }

  /** One event at a store: a memory is declared, or one asks to grow. A granted
      growth may still not happen (`grew` false), and is not refunded. */
  datatype Request =
    | Declare
    | Grow(mem: nat, desired: usize, grew: bool)

  /** `sizes` are the memories' actual sizes, `deltas` what was granted so far. */
  datatype Store = Store(running: nat, sizes: seq<usize>, deltas: seq<nat>)

  /** What one request does to a store whose limiter follows `Admit`. */
  function Serve(cap: usize, s: Store, r: Request): Store {
    match r
    case Declare => s.(sizes := s.sizes + [0])
    case Grow(mem, desired, grew) =>
      if mem >= |s.sizes| then s
      else
        var delta := SaturatingSub(desired, s.sizes[mem]);
        if !Fits(s.running, s.sizes[mem], desired, cap) then s
        else Store(s.running + delta,
                   if grew then s.sizes[mem := desired] else s.sizes,
                   s.deltas + [delta])
  }

  function ServeAll(cap: usize, requests: seq<Request>): Store {
    if requests == [] then Store(0, [], [])
    else Serve(cap, ServeAll(cap, requests[..|requests| - 1]), requests[|requests| - 1])
  }

  function Sum(s: seq<nat>): nat {
    if s == [] then 0 else Sum(s[..|s| - 1]) + s[|s| - 1]
  }

  lemma {:induction false} SumUpdate(s: seq<nat>, i: nat, x: nat)
    requires i < |s|
    ensures Sum(s[i := x]) == Sum(s) - s[i] + x
  {
    var n := |s| - 1;
    if i < n {
      SumUpdate(s[..n], i, x);
      assert s[i := x][..n] == s[..n][i := x];
    } else {
      assert s[i := x][..n] == s[..n];
    }
  }

  lemma SumAppend(s: seq<nat>, x: nat)
    ensures Sum(s + [x]) == Sum(s) + x
  {
    assert (s + [x])[..|s|] == s;
  }

  /** A request in the store's own numbers: what is beyond the memory's size is charged
      if it stays within the cap, whether or not the growth then happens. */
  lemma ServedExactly(cap: usize, s: Store, mem: nat, desired: usize, grew: bool)
    requires mem < |s.sizes|
    ensures var t, size := Serve(cap, s, Grow(mem, desired, grew)), s.sizes[mem];
            && (desired <= size && s.running <= cap ==>
                  t == Store(s.running, if grew then s.sizes[mem := desired] else s.sizes, s.deltas + [0]))
            && (desired > size && s.running + desired - size <= cap ==>
                  t == Store(s.running + desired - size, if grew then s.sizes[mem := desired] else s.sizes,
                             s.deltas + [desired - size]))
            && (desired > size && s.running + desired - size > cap ==> t == s)
  {
  }

  /** Over every interleaving of requests from every memory of a store, the
      running total is the sum of the granted deltas, covers all the memories
      together, and never passes the cap. */
  lemma {:induction false} BudgetConserved(cap: usize, requests: seq<Request>)
    ensures var s := ServeAll(cap, requests);
            Sum(s.sizes) <= s.running == Sum(s.deltas) && s.running <= cap
  {
    if requests != [] {
      var n := |requests| - 1;
      BudgetConserved(cap, requests[..n]);
      var s := ServeAll(cap, requests[..n]);
      match requests[n] {
        case Declare =>
          SumAppend(s.sizes, 0);
        case Grow(mem, desired, grew) =>
          if mem < |s.sizes| {
            var delta := SaturatingSub(desired, s.sizes[mem]);
            SumUpdate(s.sizes, mem, desired);
            SumAppend(s.deltas, delta);
          }
      }
    }
  }

  /** A memory's request is refused exactly for want of budget, and then it is as if it
      had never been made: whatever is asked afterwards is answered the same. */
  lemma {:induction false} RefusalChangesNothing(
      cap: usize, before: seq<Request>, mem: nat, desired: usize, grew: bool, later: seq<Request>)
    requires mem < |ServeAll(cap, before).sizes|
    ensures var s, refused := ServeAll(cap, before), Grow(mem, desired, grew);
            && (|ServeAll(cap, before + [refused]).deltas| == |s.deltas| <==>
                  !Fits(s.running, s.sizes[mem], desired, cap))
            && (!Fits(s.running, s.sizes[mem], desired, cap) ==>
                  ServeAll(cap, before + [refused] + later) == ServeAll(cap, before + later))
    decreases later
  {
    var refused := Grow(mem, desired, grew);
    assert (before + [refused])[..|before|] == before;
    if later == [] {
      assert before + [refused] + later == before + [refused] && before + later == before;
    } else {
      var n := |later| - 1;
      RefusalChangesNothing(cap, before, mem, desired, grew, later[..n]);
      assert (before + [refused] + later)[..|before| + 1 + n] == before + [refused] + later[..n];
      assert (before + later)[..|before| + n] == before + later[..n];
    }
  }

  /** How many ticks a timeout is worth: at least one, the exact ceiling, and
      saturated only when the ceiling does not fit. */
  function DeadlineTicks(timeout: nat): (ticks: nat)
    ensures 1 <= ticks <= U64_MAX
    ensures timeout <= U64_MAX * 1_000_000_000 ==> timeout <= ticks * 1_000_000_000
    ensures timeout > U64_MAX * 1_000_000_000 ==> ticks == U64_MAX
    ensures ticks > 1 ==> (ticks - 1) * 1_000_000_000 < timeout
  {
    var ceiling := timeout / EPOCH_TICK + if timeout % EPOCH_TICK > 0 then 1 else 0;
    var ticks := if ceiling < 1 then 1 else ceiling;
    if ticks > U64_MAX then U64_MAX else ticks
  }
}
