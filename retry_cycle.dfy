/*
 * What one polling cycle computes, as functions: the outcome of each fetch-and-store attempt,
 * the bounded retry loop with its error and retry accounting, and the backoff waited
 * between attempts. The worker's tick (module Ingestion) is proved to follow this.
 */
module RetryCycle {
  import opened Models
  import opened Observability
  import opened Persistence
  import Symbols

  /** `Random.Shared.Next(0, 200)`: jitter in milliseconds. */
  type Jitter = j: int | 0 <= j < 200

  /** What the HTTP call of one attempt produced. */
  datatype Response =
    | RequestFailed                              // network error, non-2xx, timeout, bad JSON
    | Received(envelope: Option<QuoteEnvelope>)  // None: the body was JSON `null`

  /** Everything outside the worker that decides one attempt: the response, the connection
      string read during the attempt, how the database behaves, and the jitter drawn if
      the attempt fails and is retried. */
  datatype Attempt = Attempt(response: Response, connString: Option<string>, db: DbFault, jitterMs: Jitter)

  /** How a cycle ended: an empty batch, a committed batch, or every attempt used up. */
  datatype Ending = EmptyFetch | Committed | Failed

  datatype AttemptResult =
    | Succeeded(ending: Ending, counters: CycleCounters, rows: Rows)
    | Raised(counters: CycleCounters)

  datatype CycleOutcome = CycleOutcome(ending: Ending, counters: CycleCounters, rows: Rows, attempts: nat)

  /** `string.IsNullOrWhiteSpace`. */
  predicate IsNullOrWhiteSpace(s: Option<string>) {
    s.None? || Symbols.AllSpace(s.value)
  }

  predicate HasNoQuotes(env: QuoteEnvelope) {
    env.quotes.None? || env.quotes.value == []
  }

  /** The quotes an attempt fetched, if it fetched an envelope with some. */
  function QuotesOf(a: Attempt): seq<Quote> {
    if a.response.Received? && a.response.envelope.Some? && a.response.envelope.value.quotes.Some?
    then a.response.envelope.value.quotes.value
    else []
  }

  /** Whether an attempt completes without throwing. It does not depend on the table or on
      the counters: an envelope arrived, and either it holds no quotes or the connection
      string is set and the transaction commits. */
  predicate Succeeds(a: Attempt) {
    && a.response.Received?
    && a.response.envelope.Some?
    && (|| HasNoQuotes(a.response.envelope.value)
        || (!IsNullOrWhiteSpace(a.connString) && !Aborts(a.db, |QuotesOf(a)|)))
  }

  /** One attempt. A null envelope, a missing connection string or a failed transaction
      throws; an envelope without quotes is a successful cycle with nothing fetched. */
  function RunAttempt(rows: Rows, c: CycleCounters, a: Attempt): (r: AttemptResult)
    ensures r.Succeeded? <==> Succeeds(a)
    ensures r.Succeeded? ==> r.ending != Failed
    ensures r.counters.symbolsRequested == c.symbolsRequested
    ensures r.counters.retries == c.retries && r.counters.errors == c.errors
    ensures r.Raised? || r.ending == EmptyFetch ==>
      r.counters.quotesInserted == c.quotesInserted && r.counters.quotesConflictSkipped == c.quotesConflictSkipped
    ensures r.Succeeded? && r.ending == EmptyFetch ==> r.counters.quotesFetched == 0 && r.rows == rows
    ensures r.Succeeded? && r.ending == Committed ==>
      && r.counters.quotesFetched == |QuotesOf(a)|
      && r.counters.quotesInserted + r.counters.quotesConflictSkipped == r.counters.quotesFetched
      && r.rows == Upsert(rows, QuotesOf(a)).rows
      && r.counters.quotesInserted == Upsert(rows, QuotesOf(a)).inserted
  {
    match a.response
    case RequestFailed => Raised(c)
    case Received(envelope) =>
      if envelope.None? then Raised(c)
      else if HasNoQuotes(envelope.value) then Succeeded(EmptyFetch, c.(quotesFetched := 0), rows)
      else
        var quotes := envelope.value.quotes.value;
        var fetched := c.(quotesFetched := |quotes|);
        if IsNullOrWhiteSpace(a.connString) || Aborts(a.db, |quotes|) then Raised(fetched)
        else
          var u := Upsert(rows, quotes);
          Succeeded(Committed, fetched.(quotesInserted := u.inserted, quotesConflictSkipped := u.skipped), u.rows)
  }

  /** The retry loop from attempt `attempt` on. A failure before the last attempt counts one
      error and one retry and goes on; a failure of the last attempt counts one error and
      ends the cycle as failed. The loop `for (attempt = 1; attempt <= maxRetries; attempt++)`
      makes at most `NonNegative(maxRetries)` attempts. */
  function RetryLoop(maxRetries: int, attempt: nat, rows: Rows, c: CycleCounters, outcomes: seq<Attempt>): CycleOutcome
    requires 1 <= attempt <= NonNegative(maxRetries) + 1
    requires |outcomes| >= maxRetries
    decreases NonNegative(maxRetries) + 1 - attempt
  {
    if attempt > maxRetries then CycleOutcome(Failed, c, rows, attempt - 1)
    else
      match RunAttempt(rows, c, outcomes[attempt - 1])
      case Succeeded(ending, c1, rows1) => CycleOutcome(ending, c1, rows1, attempt)
      case Raised(c1) =>
        if attempt < maxRetries then
          RetryLoop(maxRetries, attempt + 1, rows, c1.(errors := c1.errors + 1, retries := c1.retries + 1), outcomes)
        else
          CycleOutcome(Failed, c1.(errors := c1.errors + 1), rows, attempt)
  }

  /** The counters a cycle starts with: the number of symbols asked for, all else zero. */
  function InitialCounters(symbolsRequested: int): CycleCounters {
    ZeroCounters.(symbolsRequested := symbolsRequested)
  }

  /** One whole cycle over a table, for a list of `symbolsRequested` symbols. */
  function Cycle(symbolsRequested: int, maxRetries: int, rows: Rows, outcomes: seq<Attempt>): CycleOutcome
    requires |outcomes| >= maxRetries
  {
    RetryLoop(maxRetries, 1, rows, InitialCounters(symbolsRequested), outcomes)
  }

  /** The loop runs at most the budget of attempts and stops at the first attempt that
      succeeds; a failed cycle is one in which every attempt failed. */
  lemma {:induction false} RetryLoopStopsAtFirstSuccess(
    maxRetries: int, attempt: nat, rows: Rows, c: CycleCounters, outcomes: seq<Attempt>)
    requires 1 <= attempt <= NonNegative(maxRetries) + 1
    requires |outcomes| >= maxRetries
    ensures var r := RetryLoop(maxRetries, attempt, rows, c, outcomes);
      && attempt - 1 <= r.attempts <= NonNegative(maxRetries)
      && (forall i :: attempt - 1 <= i < r.attempts - 1 ==> !Succeeds(outcomes[i]))
      && (r.ending != Failed ==> attempt <= r.attempts && Succeeds(outcomes[r.attempts - 1]))
      && (r.ending == Failed ==>
            r.attempts == NonNegative(maxRetries)
            && forall i :: attempt - 1 <= i < r.attempts ==> !Succeeds(outcomes[i]))
    decreases NonNegative(maxRetries) + 1 - attempt
  {
    if attempt <= maxRetries {
      var res := RunAttempt(rows, c, outcomes[attempt - 1]);
      if res.Raised? && attempt < maxRetries {
        var c1 := res.counters.(errors := res.counters.errors + 1, retries := res.counters.retries + 1);
        assert !Succeeds(outcomes[attempt - 1]);
        assert RetryLoop(maxRetries, attempt, rows, c, outcomes) == RetryLoop(maxRetries, attempt + 1, rows, c1, outcomes);
        RetryLoopStopsAtFirstSuccess(maxRetries, attempt + 1, rows, c1, outcomes);
      }
    }
  }

  /** Error and retry accounting: every failed attempt adds one error; every failed attempt
      but the last of the budget also adds one retry. */
  lemma {:induction false} RetryLoopCounters(
    maxRetries: int, attempt: nat, rows: Rows, c: CycleCounters, outcomes: seq<Attempt>)
    requires 1 <= attempt <= NonNegative(maxRetries) + 1
    requires |outcomes| >= maxRetries
    ensures var r := RetryLoop(maxRetries, attempt, rows, c, outcomes);
      var n := r.attempts - (attempt - 1);
      && r.attempts >= attempt - 1
      && (attempt <= maxRetries ==> r.attempts >= attempt)
      && r.counters.symbolsRequested == c.symbolsRequested
      && r.counters.errors == c.errors + (if r.ending == Failed then n else n - 1)
      && r.counters.retries == c.retries + (if n == 0 then 0 else n - 1)
    decreases NonNegative(maxRetries) + 1 - attempt
  {
    if attempt <= maxRetries {
      var res := RunAttempt(rows, c, outcomes[attempt - 1]);
      if res.Raised? && attempt < maxRetries {
        var c1 := res.counters.(errors := res.counters.errors + 1, retries := res.counters.retries + 1);
        assert RetryLoop(maxRetries, attempt, rows, c, outcomes) == RetryLoop(maxRetries, attempt + 1, rows, c1, outcomes);
        RetryLoopCounters(maxRetries, attempt + 1, rows, c1, outcomes);
      }
    }
  }

  /** The table changes only when a batch commits, and then by the upsert of the quotes of
      the attempt that committed; inserted and skipped rows account for every fetched quote. */
  lemma {:induction false} RetryLoopStore(
    maxRetries: int, attempt: nat, rows: Rows, c: CycleCounters, outcomes: seq<Attempt>)
    requires 1 <= attempt <= NonNegative(maxRetries) + 1
    requires |outcomes| >= maxRetries
    ensures var r := RetryLoop(maxRetries, attempt, rows, c, outcomes);
      && (r.ending != Committed ==>
            && r.rows == rows
            && r.counters.quotesInserted == c.quotesInserted
            && r.counters.quotesConflictSkipped == c.quotesConflictSkipped)
      && (r.ending == EmptyFetch ==> r.counters.quotesFetched == 0)
      && (r.ending == Committed ==>
            && 1 <= r.attempts <= |outcomes|
            && r.counters.quotesFetched == |QuotesOf(outcomes[r.attempts - 1])|
            && r.counters.quotesInserted + r.counters.quotesConflictSkipped == r.counters.quotesFetched
            && r.rows == Upsert(rows, QuotesOf(outcomes[r.attempts - 1])).rows
            && r.counters.quotesInserted == Upsert(rows, QuotesOf(outcomes[r.attempts - 1])).inserted)
    decreases NonNegative(maxRetries) + 1 - attempt
  {
    if attempt <= maxRetries {
      var res := RunAttempt(rows, c, outcomes[attempt - 1]);
      if res.Raised? && attempt < maxRetries {
        var c1 := res.counters.(errors := res.counters.errors + 1, retries := res.counters.retries + 1);
        RetryLoopStore(maxRetries, attempt + 1, rows, c1, outcomes);
      }
    }
  }

  /** If every attempt fails, the cycle is recorded as failed with one error per attempt,
      one retry fewer than that, nothing stored and nothing counted as inserted. */
  lemma CycleAllAttemptsFail(symbolsRequested: int, maxRetries: int, rows: Rows, outcomes: seq<Attempt>)
    requires maxRetries >= 1 && |outcomes| >= maxRetries
    requires forall i :: 0 <= i < maxRetries ==> !Succeeds(outcomes[i])
    ensures var r := Cycle(symbolsRequested, maxRetries, rows, outcomes);
      && r.ending == Failed
      && r.attempts == maxRetries
      && r.counters.errors == maxRetries
      && r.counters.retries == maxRetries - 1
      && r.rows == rows
      && r.counters.quotesInserted == 0 && r.counters.quotesConflictSkipped == 0
  {
    var c := InitialCounters(symbolsRequested);
    RetryLoopStopsAtFirstSuccess(maxRetries, 1, rows, c, outcomes);
    RetryLoopCounters(maxRetries, 1, rows, c, outcomes);
    RetryLoopStore(maxRetries, 1, rows, c, outcomes);
  }

  /** If the first `k` attempts fail and the next one succeeds, within the budget, the cycle
      succeeds after `k + 1` attempts with `k` errors and `k` retries. */
  lemma CycleRecoversAfterFailures(symbolsRequested: int, maxRetries: int, rows: Rows, outcomes: seq<Attempt>, k: nat)
    requires k < maxRetries && |outcomes| >= maxRetries
    requires forall i :: 0 <= i < k ==> !Succeeds(outcomes[i])
    requires Succeeds(outcomes[k])
    ensures var r := Cycle(symbolsRequested, maxRetries, rows, outcomes);
      && r.ending != Failed
      && r.attempts == k + 1
      && r.counters.errors == k
      && r.counters.retries == k
  {
    var c := InitialCounters(symbolsRequested);
    RetryLoopStopsAtFirstSuccess(maxRetries, 1, rows, c, outcomes);
    RetryLoopCounters(maxRetries, 1, rows, c, outcomes);
  }

  /** A cycle that ends on an empty envelope has fetched, inserted and stored nothing. */
  lemma CycleEmptyEnvelope(symbolsRequested: int, maxRetries: int, rows: Rows, outcomes: seq<Attempt>)
    requires |outcomes| >= maxRetries
    requires Cycle(symbolsRequested, maxRetries, rows, outcomes).ending == EmptyFetch
    ensures var r := Cycle(symbolsRequested, maxRetries, rows, outcomes);
      && r.counters.quotesFetched == 0
      && r.counters.quotesInserted == 0
      && r.counters.quotesConflictSkipped == 0
      && r.rows == rows
      && r.counters.errors == r.attempts - 1
  {
    var c := InitialCounters(symbolsRequested);
    RetryLoopStore(maxRetries, 1, rows, c, outcomes);
    RetryLoopCounters(maxRetries, 1, rows, c, outcomes);
  }

  /** A committed cycle counts every fetched quote once, as inserted or as skipped, and the
      inserted ones are exactly the keys the table did not have. */
  lemma CycleCommitAccounting(symbolsRequested: int, maxRetries: int, rows: Rows, outcomes: seq<Attempt>)
    requires |outcomes| >= maxRetries
    requires Cycle(symbolsRequested, maxRetries, rows, outcomes).ending == Committed
    ensures var r := Cycle(symbolsRequested, maxRetries, rows, outcomes);
      && 1 <= r.attempts <= |outcomes|
      && var quotes := QuotesOf(outcomes[r.attempts - 1]);
      && r.counters.quotesInserted + r.counters.quotesConflictSkipped == r.counters.quotesFetched == |quotes|
      && r.counters.quotesInserted == |KeysOf(quotes) - rows.Keys|
      && r.rows.Keys == rows.Keys + KeysOf(quotes)
      && (forall k :: k in rows ==> r.rows[k] == rows[k])
  {
    var r := Cycle(symbolsRequested, maxRetries, rows, outcomes);
    CycleStore(symbolsRequested, maxRetries, rows, outcomes);
    CommittedBatch(rows, r, QuotesOf(outcomes[r.attempts - 1]));
  }

  /** A committed cycle wrote the batch of its last attempt by upsert into the table it
      started from, and counted every quote of that batch once. */
  lemma CycleStore(symbolsRequested: int, maxRetries: int, rows: Rows, outcomes: seq<Attempt>)
    requires |outcomes| >= maxRetries
    requires Cycle(symbolsRequested, maxRetries, rows, outcomes).ending == Committed
    ensures var r := Cycle(symbolsRequested, maxRetries, rows, outcomes);
      && 1 <= r.attempts <= |outcomes|
      && r.counters.quotesFetched == |QuotesOf(outcomes[r.attempts - 1])|
      && r.counters.quotesInserted + r.counters.quotesConflictSkipped == r.counters.quotesFetched
      && r.rows == Upsert(rows, QuotesOf(outcomes[r.attempts - 1])).rows
      && r.counters.quotesInserted == Upsert(rows, QuotesOf(outcomes[r.attempts - 1])).inserted
  {
    RetryLoopStore(maxRetries, 1, rows, InitialCounters(symbolsRequested), outcomes);
  }

  /** A cycle outcome that stored `quotes` by upsert stored exactly its new keys. */
  lemma CommittedBatch(rows: Rows, r: CycleOutcome, quotes: seq<Quote>)
    requires r.counters.quotesFetched == |quotes|
    requires r.rows == Upsert(rows, quotes).rows
    requires r.counters.quotesInserted == Upsert(rows, quotes).inserted
    ensures r.counters.quotesInserted == |KeysOf(quotes) - rows.Keys|
    ensures r.rows.Keys == rows.Keys + KeysOf(quotes)
    ensures forall k :: k in rows ==> r.rows[k] == rows[k]
  {
    UpsertSummary(rows, quotes);
  }

  /** With no attempt allowed, the cycle fails at once with no error counted. */
  lemma CycleWithoutBudget(symbolsRequested: int, maxRetries: int, rows: Rows, outcomes: seq<Attempt>)
    requires maxRetries <= 0
    ensures Cycle(symbolsRequested, maxRetries, rows, outcomes)
      == CycleOutcome(Failed, InitialCounters(symbolsRequested), rows, 0)
  {
  }

  function Pow2(n: nat): (p: nat)
    ensures p >= 1
  {
    if n == 0 then 1 else 2 * Pow2(n - 1)
  }

  /** The wait after failed attempt `attempt`: `baseDelayMs * 2^(attempt-1)` plus jitter. */
  function Backoff(baseDelayMs: int, attempt: nat, jitterMs: Jitter): int
    requires attempt >= 1
  {
    baseDelayMs * Pow2(attempt - 1) + jitterMs
  }

  /** The waits after the first `n` failed attempts, in order. */
  function Delays(baseDelayMs: int, outcomes: seq<Attempt>, n: nat): (d: seq<int>)
    requires n <= |outcomes|
    ensures |d| == n
    ensures forall i :: 0 <= i < n ==> d[i] == Backoff(baseDelayMs, i + 1, outcomes[i].jitterMs)
  {
    if n == 0 then []
    else Delays(baseDelayMs, outcomes, n - 1) + [Backoff(baseDelayMs, n, outcomes[n - 1].jitterMs)]
  }

  /** Each wait lies in `[baseDelayMs * 2^i, baseDelayMs * 2^i + 200)`, and without its
      jitter each wait is twice the one before. */
  lemma DelaysGrow(baseDelayMs: int, outcomes: seq<Attempt>, n: nat)
    requires n <= |outcomes|
    ensures var d := Delays(baseDelayMs, outcomes, n);
      && (forall i :: 0 <= i < n ==> baseDelayMs * Pow2(i) <= d[i] < baseDelayMs * Pow2(i) + 200)
      && (forall i :: 0 <= i < n - 1 ==>
            d[i + 1] - outcomes[i + 1].jitterMs == 2 * (d[i] - outcomes[i].jitterMs))
  {
    var d := Delays(baseDelayMs, outcomes, n);
    forall i | 0 <= i < n - 1
      ensures d[i + 1] - outcomes[i + 1].jitterMs == 2 * (d[i] - outcomes[i].jitterMs)
    {
      var p := Pow2(i);
      assert Pow2(i + 1) == 2 * p;
      assert baseDelayMs * (2 * p) == 2 * (baseDelayMs * p);
    }
  }
}
