/*
 * Per-cycle counters and the in-memory metrics aggregator: running totals over every
 * recorded cycle plus a bounded first-in-first-out window of the most recent cycles.
 */
module Observability {
  import opened Models

  /** The tally of one cycle; every counter starts at zero. */
  datatype CycleCounters = CycleCounters(
    symbolsRequested: int,
    quotesFetched: int,
    quotesInserted: int,
    quotesConflictSkipped: int,
    retries: int,
    errors: int)

  const ZeroCounters := CycleCounters(0, 0, 0, 0, 0, 0)

  datatype CycleSnapshot = CycleSnapshot(cycleId: string, elapsedMs: int, counters: CycleCounters)

  datatype MetricsSnapshot = MetricsSnapshot(
    cycles: int,
    quotesInserted: int,
    conflicts: int,
    errors: int,
    avgElapsedMs: real,
    lastCycles: seq<CycleSnapshot>)

  /** How many recent cycles are kept when the constructor is given no size. */
  const DefaultMaxSnapshots := 20

  function Min(a: int, b: int): int {
    if a <= b then a else b
  }

  /** The newest `max` entries of `q` (all of them if it is shorter; none if `max` is
      negative): what is left after dequeuing from the front while the queue is longer
      than `max` and not empty. */
  function Window<T>(q: seq<T>, max: int): seq<T> {
    q[|q| - Min(|q|, NonNegative(max))..]
  }

  /** One dequeue of the trimming loop does not change the window it is heading for. */
  lemma WindowDequeue<T>(q: seq<T>, max: int)
    requires |q| > max && |q| > 0
    ensures Window(q[1..], max) == Window(q, max)
  {
    var c := NonNegative(max);
    assert Min(|q|, c) == c && Min(|q| - 1, c) == c;
    assert q[1..][|q| - 1 - c..] == q[|q| - c..];
  }

  /** When the trimming loop stops, the queue is its own window. */
  lemma WindowWhole<T>(q: seq<T>, max: int)
    requires !(|q| > max && |q| > 0)
    ensures Window(q, max) == q
  {
    assert Min(|q|, NonNegative(max)) == |q|;
  }

  /** Trimming the window after every append keeps exactly the newest entries of the
      whole history: the queue never needs more than the window it already holds. */
  lemma WindowAppend<T>(h: seq<T>, x: T, max: int)
    ensures Window(Window(h, max) + [x], max) == Window(h + [x], max)
  {
    var c := NonNegative(max);
    var w := Window(h, max);
    var hx := h + [x];
    var wx := w + [x];
    assert |w| == Min(|h|, c);
    assert wx == hx[|h| - |w|..];
    var n := Min(|hx|, c);
    assert Min(|wx|, c) == n;
    assert Window(wx, max) == wx[|wx| - n..];
    assert wx[|wx| - n..] == hx[|hx| - n..];
  }

  /** The window holds `min(n, max)` entries and ends with the newest one. */
  lemma WindowShape<T>(h: seq<T>, x: T, max: int)
    ensures |Window(h + [x], max)| == Min(|h| + 1, NonNegative(max))
    ensures NonNegative(max) > 0 ==> Window(h + [x], max)[|Window(h + [x], max)| - 1] == x
  {
  }

  /** The four per-cycle quantities the aggregator keeps running totals of. */
  datatype Measure = Inserted | Conflicts | Errors | Elapsed

  function Measured(s: CycleSnapshot, m: Measure): int {
    match m
    case Inserted => s.counters.quotesInserted
    case Conflicts => s.counters.quotesConflictSkipped
    case Errors => s.counters.errors
    case Elapsed => s.elapsedMs
  }

  /** The sum of one measure over a history, accumulated oldest first. */
  function Total(h: seq<CycleSnapshot>, m: Measure): int {
    if h == [] then 0 else Total(h[..|h| - 1], m) + Measured(h[|h| - 1], m)
  }

  lemma TotalAppend(h: seq<CycleSnapshot>, s: CycleSnapshot, m: Measure)
    ensures Total(h + [s], m) == Total(h, m) + Measured(s, m)
  {
    assert (h + [s])[..|h|] == h;
  }

  /** `cycles == 0 ? 0 : (double)elapsed / cycles`, in exact arithmetic. */
  function AverageElapsed(elapsedTotalMs: int, cycles: int): (avg: real)
    ensures cycles == 0 ==> avg == 0.0
    ensures cycles != 0 ==> avg * (cycles as real) == elapsedTotalMs as real
  {
    if cycles == 0 then 0.0 else (elapsedTotalMs as real) / (cycles as real)
  }

  class InMemoryMetrics {
    const max: int

    var cycles: int
    var quotesInserted: int
    var conflicts: int
    var errors: int
    var elapsedTotalMs: int
    var lastCycles: seq<CycleSnapshot>

    /** Every snapshot ever recorded, oldest first. */
    ghost var history: seq<CycleSnapshot>

    /** The totals are sums over the history and the queue is its newest window. */
    ghost predicate Valid()
      reads this
    {
      && cycles == |history|
      && quotesInserted == Total(history, Inserted)
      && conflicts == Total(history, Conflicts)
      && errors == Total(history, Errors)
      && elapsedTotalMs == Total(history, Elapsed)
      && lastCycles == Window(history, max)
    }

    constructor (maxSnapshots: int := DefaultMaxSnapshots)
      ensures Valid() && max == maxSnapshots && history == []
      ensures cycles == 0 && quotesInserted == 0 && conflicts == 0 && errors == 0
      ensures elapsedTotalMs == 0 && lastCycles == []
    {
      max := maxSnapshots;
      cycles, quotesInserted, conflicts, errors, elapsedTotalMs := 0, 0, 0, 0, 0;
      lastCycles := [];
      history := [];
    }

    /** Adds one cycle to the totals and to the window of recent cycles. */
    method Record(cycleId: string, elapsedMs: int, c: CycleCounters)
      requires Valid()
      modifies this
      ensures Valid()
      ensures history == old(history) + [CycleSnapshot(cycleId, elapsedMs, c)]
      ensures cycles == old(cycles) + 1
      ensures quotesInserted == old(quotesInserted) + c.quotesInserted
      ensures conflicts == old(conflicts) + c.quotesConflictSkipped
      ensures errors == old(errors) + c.errors
      ensures elapsedTotalMs == old(elapsedTotalMs) + elapsedMs
      ensures lastCycles == Window(old(lastCycles) + [CycleSnapshot(cycleId, elapsedMs, c)], max)
      ensures |lastCycles| == Min(cycles, NonNegative(max))
      ensures NonNegative(max) > 0 ==> lastCycles[|lastCycles| - 1] == CycleSnapshot(cycleId, elapsedMs, c)
    {
      var snap := CycleSnapshot(cycleId, elapsedMs, c);
      ghost var h := history;
      var q := lastCycles + [snap];
      while |q| > max && |q| > 0
        invariant Window(q, max) == Window(old(lastCycles) + [snap], max)
        modifies {}
        decreases |q|
      {
        WindowDequeue(q, max);
        q := q[1..];
      }
      WindowWhole(q, max);

      cycles := cycles + 1;
      quotesInserted := quotesInserted + c.quotesInserted;
      conflicts := conflicts + c.quotesConflictSkipped;
      errors := errors + c.errors;
      elapsedTotalMs := elapsedTotalMs + elapsedMs;
      lastCycles := q;

      TotalAppend(h, snap, Inserted);
      TotalAppend(h, snap, Conflicts);
      TotalAppend(h, snap, Errors);
      TotalAppend(h, snap, Elapsed);
      WindowAppend(h, snap, max);
      history := h + [snap];
      WindowShape(h, snap, max);
    }

    /** A copy of the totals and of the window; the average is 0 before the first cycle. */
    function Snapshot(): (s: MetricsSnapshot)
      reads this
      requires Valid()
      ensures s.cycles == |history|
      ensures s.quotesInserted == Total(history, Inserted)
      ensures s.conflicts == Total(history, Conflicts)
      ensures s.errors == Total(history, Errors)
      ensures s.lastCycles == Window(history, max)
      ensures |history| == 0 ==> s.avgElapsedMs == 0.0
      ensures |history| > 0 ==> s.avgElapsedMs * (|history| as real) == Total(history, Elapsed) as real
    {
      var avg := AverageElapsed(elapsedTotalMs, cycles);
      MetricsSnapshot(cycles, quotesInserted, conflicts, errors, avg, lastCycles)
    }
  }
}
