/*
 * The background worker: on every timer tick it fetches the quotes of its symbols, writes them
 * in one transaction with bounded retries and exponential backoff, and records exactly one
 * cycle in the metrics, whatever the outcome.
 */
module Ingestion {
  import opened Models
  import opened Observability
  import opened Persistence
  import opened RetryCycle
  import Symbols

  /** A metrics snapshot is taken after every this-many committed cycles. */
  const SnapshotEvery := 10

  /** What one tick did: how it ended, its counters, how many attempts it made, the backoff
      waited after each failed attempt that was retried, and the snapshot it took, if any. */
  datatype TickReport = TickReport(
    ending: Ending,
    counters: CycleCounters,
    attempts: nat,
    delays: seq<int>,
    snapshot: Option<MetricsSnapshot>)

  /** The inputs of one tick: its id, what each attempt meets, and the elapsed time the
      stopwatch reports when the cycle is recorded. */
  datatype TickInput = TickInput(cycleId: string, outcomes: seq<Attempt>, elapsedMs: int)

  class Worker {
    const symbolsCsv: string
    /** The symbols of `symbolsCsv`. The text is read once at start-up, so its split, done on
        every tick, is the same list each time. */
    const symbols: seq<string>
    const maxRetries: int
    const baseDelayMs: int
    const metrics: InMemoryMetrics
    const table: QuoteTable

    /** The number of committed cycles so far. */
    var cycleSeq: int

    constructor (symbolsCsv: string, maxRetries: int, baseDelayMs: int, metrics: InMemoryMetrics, table: QuoteTable)
      ensures this.symbolsCsv == symbolsCsv && this.maxRetries == maxRetries && this.baseDelayMs == baseDelayMs
      ensures this.metrics == metrics && this.table == table
      ensures symbols == Symbols.SymbolList(symbolsCsv)
      ensures cycleSeq == 0
    {
      this.symbolsCsv := symbolsCsv;
      symbols := Symbols.SymbolList(symbolsCsv);
      this.maxRetries := maxRetries;
      this.baseDelayMs := baseDelayMs;
      this.metrics := metrics;
      this.table := table;
      cycleSeq := 0;
    }

    /** One tick. The table and the counters end as the cycle specification says, the cycle is
        recorded in the metrics exactly once, the backoffs follow the doubling formula, and a
        snapshot is taken exactly when this commit makes the commit count a multiple of ten. */
    method Tick(cycleId: string, outcomes: seq<Attempt>, elapsedMs: int) returns (report: TickReport)
      requires metrics.Valid()
      requires |outcomes| >= maxRetries
      modifies this, metrics, table
      ensures metrics.Valid()
      ensures var spec := Cycle(|symbols|, maxRetries, old(table.rows), outcomes);
        && report.ending == spec.ending
        && report.counters == spec.counters
        && report.attempts == spec.attempts
        && table.rows == spec.rows
      ensures metrics.history == old(metrics.history) + [CycleSnapshot(cycleId, elapsedMs, report.counters)]
      ensures 0 <= report.counters.retries <= |outcomes|
      ensures report.delays == Delays(baseDelayMs, outcomes, report.counters.retries)
      ensures cycleSeq == old(cycleSeq) + (if report.ending == Committed then 1 else 0)
      ensures report.snapshot.Some? <==> report.ending == Committed && cycleSeq % SnapshotEvery == 0
      ensures report.snapshot.Some? ==> report.snapshot.value == metrics.Snapshot()
    {
      ghost var rows0 := table.rows;
      ghost var spec := Cycle(|symbols|, maxRetries, rows0, outcomes);
      var counters := InitialCounters(|symbols|);
      var cycleSucceeded := false;
      var ending := Failed;
      var attemptsRun := 0;
      var delays: seq<int> := [];
      var snapshot: Option<MetricsSnapshot> := None;

      var attempt := 1;
      while attempt <= maxRetries
        invariant 1 <= attempt <= NonNegative(maxRetries) + 1
        invariant attemptsRun == attempt - 1
        invariant table.rows == rows0
        invariant spec == RetryLoop(maxRetries, attempt, rows0, counters, outcomes)
        invariant counters.retries == attempt - 1
        invariant delays == Delays(baseDelayMs, outcomes, attempt - 1)
        invariant metrics.Valid() && metrics.history == old(metrics.history)
        invariant cycleSeq == old(cycleSeq) && snapshot.None?
        invariant !cycleSucceeded && ending == Failed
        decreases NonNegative(maxRetries) + 1 - attempt
      {
        var a := outcomes[attempt - 1];
        attemptsRun := attempt;
        var result := FetchAndStore(a, counters);
        if result.Succeeded? {
          counters := result.counters;
          cycleSucceeded, ending := true, result.ending;
          assert spec == CycleOutcome(ending, counters, table.rows, attemptsRun);
          snapshot := RecordSuccess(cycleId, elapsedMs, counters, ending == Committed);
          break;
        }
        counters := result.counters;
        // the attempt threw
        if attempt < maxRetries {
          counters := counters.(errors := counters.errors + 1);
          var delay := Backoff(baseDelayMs, attempt, a.jitterMs);
          counters := counters.(retries := counters.retries + 1);
          delays := delays + [delay];
        } else {
          counters := counters.(errors := counters.errors + 1);
          assert spec == CycleOutcome(ending, counters, table.rows, attemptsRun);
          break;
        }
        attempt := attempt + 1;
      }

      assert spec == CycleOutcome(ending, counters, table.rows, attemptsRun);
      if !cycleSucceeded {
        metrics.Record(cycleId, elapsedMs, counters);
      }
      report := TickReport(ending, counters, attemptsRun, delays, snapshot);
    }

    /** What a successful attempt does before leaving the retry loop: record the cycle and,
        for a committed batch, count the commit and take a metrics snapshot on every tenth. */
    method RecordSuccess(cycleId: string, elapsedMs: int, counters: CycleCounters, committed: bool)
      returns (snapshot: Option<MetricsSnapshot>)
      requires metrics.Valid()
      modifies this, metrics
      ensures metrics.Valid()
      ensures metrics.history == old(metrics.history) + [CycleSnapshot(cycleId, elapsedMs, counters)]
      ensures cycleSeq == old(cycleSeq) + (if committed then 1 else 0)
      ensures snapshot.Some? <==> committed && cycleSeq % SnapshotEvery == 0
      ensures snapshot.Some? ==> snapshot.value == metrics.Snapshot()
    {
      metrics.Record(cycleId, elapsedMs, counters);
      snapshot := None;
      if committed {
        cycleSeq := cycleSeq + 1;
        if cycleSeq % SnapshotEvery == 0 {
          snapshot := Some(metrics.Snapshot());
        }
      }
    }

    /** The body of one attempt up to the point where the cycle is recorded: fetch the
        envelope, accept an empty one, otherwise check the connection string and write the
        batch in one transaction. The table changes only when the batch commits. */
    method FetchAndStore(a: Attempt, counters: CycleCounters) returns (result: AttemptResult)
      modifies table
      ensures result == RunAttempt(old(table.rows), counters, a)
      ensures table.rows == if result.Succeeded? then result.rows else old(table.rows)
    {
      if a.response.RequestFailed? || a.response.envelope.None? {
        return Raised(counters);
      }
      var envelope := a.response.envelope.value;
      if HasNoQuotes(envelope) {
        return Succeeded(EmptyFetch, counters.(quotesFetched := 0), table.rows);
      }
      var quotes := envelope.quotes.value;
      var fetched := counters.(quotesFetched := |quotes|);
      if IsNullOrWhiteSpace(a.connString) {
        return Raised(fetched);
      }
      var written := table.WriteBatch(quotes, a.db);
      if written.None? {
        return Raised(fetched);
      }
      result := Succeeded(Committed, fetched.(quotesInserted := written.value.inserted,
                                               quotesConflictSkipped := written.value.skipped), table.rows);
    }

    /** The timer loop: one tick per input, in order. Every tick records one cycle, so the
        metrics count one more cycle per tick, with the tick's id, in tick order. */
    method Run(ticks: seq<TickInput>)
      requires metrics.Valid()
      requires forall k :: 0 <= k < |ticks| ==> |ticks[k].outcomes| >= maxRetries
      modifies this, metrics, table
      ensures metrics.Valid()
      ensures |metrics.history| == |old(metrics.history)| + |ticks|
      ensures metrics.history[..|old(metrics.history)|] == old(metrics.history)
      ensures forall k :: 0 <= k < |ticks| ==>
        metrics.history[|old(metrics.history)| + k].cycleId == ticks[k].cycleId
        && metrics.history[|old(metrics.history)| + k].elapsedMs == ticks[k].elapsedMs
    {
      var n := 0;
      while n < |ticks|
        invariant 0 <= n <= |ticks|
        invariant metrics.Valid()
        invariant |metrics.history| == |old(metrics.history)| + n
        invariant metrics.history[..|old(metrics.history)|] == old(metrics.history)
        invariant forall k :: 0 <= k < n ==>
          metrics.history[|old(metrics.history)| + k].cycleId == ticks[k].cycleId
          && metrics.history[|old(metrics.history)| + k].elapsedMs == ticks[k].elapsedMs
      {
        var t := ticks[n];
        var _ := Tick(t.cycleId, t.outcomes, t.elapsedMs);
        n := n + 1;
      }
    }
  }
}
