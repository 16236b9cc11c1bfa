# Quote ingestion worker: a Dafny model

The system polls a quote producer for a comma-separated list of asset symbols. On every timer tick a .NET background worker does four things:

- it fetches an envelope of quotes;
- it writes the quotes into the `asset_quotes` table in one transaction, with `insert … on conflict (symbol, quoted_at) do nothing`, counting each row as inserted or conflict-skipped;
- it retries a failed attempt with exponential backoff plus jitter, up to `maxRetries` attempts;
- it records exactly one cycle in an in-memory metrics aggregator, which keeps running totals and a bounded window of the most recent cycles. The exceptions are a backoff wait that `Task.Delay` rejects or that cancellation interrupts, and a logger that throws; see "Left out".

The Python producer answers `/quotes?symbols=…` with one generated quote per symbol of the list.

The project models these modules:

| module | file | what it is |
|---|---|---|
| `Symbols` | `symbols.dfy` | The comma split, strip and drop-blank parsing of a symbol list. The producer's comprehension and the worker's `Split(',', RemoveEmptyEntries \| TrimEntries)` are both this one function. |
| `Models` | `models.dfy` | `Quote`, its natural key `(symbol, quoted_at)` and the envelope. |
| `Observability` | `metrics.dfy` | `CycleCounters`, `CycleSnapshot`, `MetricsSnapshot` and the class `InMemoryMetrics`. Its ghost `history` of every recorded cycle specifies the totals and the window. |
| `Persistence` | `persistence.dfy` | The batch upsert, as a pure function `Upsert` over a map from key to row, with its lemmas. The class `QuoteTable` holds the mutable table; its `WriteBatch` loops over the rows and rolls back on a failure. |
| `RetryCycle` | `retry_cycle.dfy` | What one cycle computes: `RunAttempt` for one attempt, `RetryLoop` and `Cycle` for the bounded loop, and `Backoff` and `Delays` for the waits. Lemmas cover the attempt bound, the counters and the store. |
| `Ingestion` | `worker.dfy` | The class `Worker`. Its `Tick` method follows the attempt loop of `ExecuteAsync` and is proved against `Cycle`. `FetchAndStore` is one attempt, and `RecordSuccess` is the recording and the every-10th snapshot gate of a successful one. `Run` is the timer loop. |
| `Producer` | `producer.dfy` | `get_quotes`: one quote per parsed symbol, in order. |

Each attempt is decided by an `Attempt` value. It holds:

- the HTTP response: a failure, a `null` body, or an envelope;
- the connection string read during the attempt;
- where the database fails, if it does: on connect, at row `k`, or on commit;
- the jitter drawn if the attempt is retried, in `[0, 200)`.

A tick receives one `Attempt` per attempt it may run. It also receives its cycle id and the elapsed time it records.

The worker has no price-threshold filter: every fetched quote goes to the upsert loop (`processor-dotnet/src/Worker/Worker.cs:154`), and so does every quote in the model.

## Model

| member | source | states |
|---|---|---|
| Symbols.LeadingSpace | producer-python/app/routers/quotes.py:18 | The whitespace `strip()` cuts at the front is the longest whitespace prefix: every character in it is whitespace, and the next one is not. |
| Symbols.TrailingSpace | producer-python/app/routers/quotes.py:18 | The whitespace `strip()` cuts at the back is the longest whitespace suffix: every character in it is whitespace, and the one before it is not. |
| Symbols.StripIsInfix | producer-python/app/routers/quotes.py:18 | `strip()` gives the infix left after cutting whitespace at both ends, and its ends are not whitespace. |
| Symbols.StripEmptyIff | producer-python/app/routers/quotes.py:18 | A segment strips to nothing exactly when it is whitespace only. |
| Symbols.Split | producer-python/app/routers/quotes.py:18 | `split(",")` gives at least one segment, and no segment contains a comma. |
| Symbols.JoinSplit | producer-python/app/routers/quotes.py:18 | Splitting loses nothing: joining the segments with commas gives back the input. |
| Symbols.SplitJoin | producer-python/app/routers/quotes.py:18 | Segments without commas are recovered by splitting their join. |
| Symbols.SplitNoSep | producer-python/app/routers/quotes.py:18 | A string without a comma is a single segment. |
| Symbols.SplitAtSep | producer-python/app/routers/quotes.py:18 | The segments of `a,b` are those of `a` followed by those of `b`. |
| Symbols.Kept | producer-python/app/routers/quotes.py:18 | One segment contributes at most one entry, and that entry is a non-empty word with no whitespace at either end. |
| Symbols.Clean | producer-python/app/routers/quotes.py:18 | Keeping the non-blank stripped segments gives no more entries than segments, each a trimmed non-empty word. |
| Symbols.CleanAppend | producer-python/app/routers/quotes.py:18 | The filter-and-strip distributes over concatenation, so it keeps segment order. |
| Symbols.SymbolListEntries | producer-python/app/routers/quotes.py:18 | No entry of `symbol_list` is empty or whitespace only, and none has leading or trailing whitespace. |
| Symbols.SymbolListOneSegment | producer-python/app/routers/quotes.py:18 | A list without commas names its stripped self, or nothing if it is blank. |
| Symbols.SymbolListAtComma | producer-python/app/routers/quotes.py:18 | The entries of `a,b` are the entries of `a` followed by those of `b`: left-to-right order is kept. |
| Symbols.SymbolListEmptyIff | producer-python/app/routers/quotes.py:18 | `symbol_list` is empty exactly when the input holds only commas and whitespace. |
| Observability.WindowDequeue | processor-dotnet/src/Worker/Observability/InMemoryMetrics.cs:27 | One dequeue of the trimming loop, made while the queue is longer than `_max`, does not change the window of newest entries the loop is heading for. |
| Observability.WindowWhole | processor-dotnet/src/Worker/Observability/InMemoryMetrics.cs:27 | When the trimming loop stops, the queue is exactly its own window. |
| Observability.WindowAppend | processor-dotnet/src/Worker/Observability/InMemoryMetrics.cs:26-27 | Enqueue-then-trim applied to the current window gives the newest `_max` cycles of the whole history. |
| Observability.WindowShape | processor-dotnet/src/Worker/Observability/InMemoryMetrics.cs:26-27 | After `n` records the queue holds `min(n, _max)` snapshots, and the newest one is last. |
| Observability.TotalAppend | processor-dotnet/src/Worker/Observability/InMemoryMetrics.cs:21-24 | A running total over the history grows by exactly the new cycle's value. |
| Observability.AverageElapsed | processor-dotnet/src/Worker/Observability/InMemoryMetrics.cs:40 | The average is 0 when no cycle was recorded; otherwise it times the cycle count equals the elapsed total. |
| Observability.InMemoryMetrics.constructor | processor-dotnet/src/Worker/Observability/InMemoryMetrics.cs:7-16 | All totals start at zero, the queue starts empty, and the capacity is the argument, 20 when none is given. |
| Observability.InMemoryMetrics.Record | processor-dotnet/src/Worker/Observability/InMemoryMetrics.cs:18-28 | `_cycles` goes up by one. The inserted, conflict and error totals and the elapsed total go up by the cycle's values, and nothing else changes. The queue becomes enqueue-then-trim of the old queue, holds `min(cycles, _max)` snapshots with the newest last, and equals the newest window of the history. |
| Observability.InMemoryMetrics.Snapshot | processor-dotnet/src/Worker/Observability/InMemoryMetrics.cs:30-43 | Reads without changing state. It returns the cycle count and the totals as sums over the history, the average elapsed (0 with no cycles), and the queue contents as the newest window. |
| Persistence.KeysOfMember | processor-dotnet/src/Worker/Worker.cs:136-138 | A key is named by a batch exactly when some quote of the batch carries it. |
| Persistence.Upsert | processor-dotnet/src/Worker/Worker.cs:150-164 | One statement per quote, in order: a key already present, including one inserted earlier in the batch, is skipped, and an absent key is inserted. Every quote of the batch is counted once, as inserted or skipped, and no existing key is lost. |
| Persistence.UpsertKeys | processor-dotnet/src/Worker/Worker.cs:136-164 | After the batch the table's keys are the old keys plus the batch's keys, and no others. |
| Persistence.UpsertKeepsExisting | processor-dotnet/src/Worker/Worker.cs:138 | `on conflict do nothing`: no existing row is overwritten. |
| Persistence.UpsertInsertedCount | processor-dotnet/src/Worker/Worker.cs:150-164 | The number of inserted rows is the number of distinct batch keys the table did not have. |
| Persistence.UpsertSummary | processor-dotnet/src/Worker/Worker.cs:136-164 | One batch inserts exactly its distinct new keys and counts them, and it keeps every old row as it was. |
| Persistence.UpsertAllPresent | processor-dotnet/src/Worker/Worker.cs:136-163 | A batch whose keys are all present changes nothing and skips every row. |
| Persistence.UpsertIdempotent | processor-dotnet/src/Worker/Worker.cs:136-138 | Writing the same batch twice: the second write stores nothing and counts every row as a conflict. |
| Persistence.UpsertFirstWins | processor-dotnet/src/Worker/Worker.cs:154-164 | A new row holds the first quote of the batch with that key; later duplicates in the same batch are skipped. |
| Persistence.UpsertDuplicatePair | processor-dotnet/src/Worker/Worker.cs:154-164 | Two quotes with one new key give one insert and one conflict. |
| Persistence.QuoteTable.WriteBatch | processor-dotnet/src/Worker/Worker.cs:126-201 | The batch commits exactly when no connect, row or commit failure hits it. On commit the result is the upsert of the batch into the old table: the table becomes its rows, and it carries the inserted and skipped counts, which add up to the batch size. On any failure the table is as before (rollback). |
| RetryCycle.RunAttempt | processor-dotnet/src/Worker/Worker.cs:86-203 | An attempt succeeds exactly when an envelope arrived and either it holds no quotes or the connection string is set and the transaction commits. An empty envelope sets `QuotesFetched` to 0 and leaves the table and the insert counts alone. A commit sets fetched to the batch size, makes inserted plus skipped equal to it, and leaves the table as the batch's upsert. Errors and retries are untouched. |
| RetryCycle.RetryLoopStopsAtFirstSuccess | processor-dotnet/src/Worker/Worker.cs:73-236 | At most `maxRetries` attempts run. Every attempt before the last one run failed. A successful cycle ends on a succeeding attempt, and a failed cycle used the whole budget with every attempt failing. |
| RetryCycle.RetryLoopCounters | processor-dotnet/src/Worker/Worker.cs:205-236 | Over `n` attempts, a failed cycle has `n` errors and a successful one `n - 1`. Retries are `n - 1` either way. `SymbolsRequested` is kept. |
| RetryCycle.RetryLoopStore | processor-dotnet/src/Worker/Worker.cs:102-201 | The table changes only when a batch commits, and then by the upsert of that attempt's quotes, with inserted plus skipped equal to fetched. An empty envelope fetches 0. |
| RetryCycle.CycleAllAttemptsFail | processor-dotnet/src/Worker/Worker.cs:205-247 | If every attempt fails, with `maxRetries >= 1`, the cycle fails after `maxRetries` attempts with `Errors == maxRetries` and `Retries == maxRetries - 1`. Nothing is stored and nothing is counted as inserted or skipped. |
| RetryCycle.CycleRecoversAfterFailures | processor-dotnet/src/Worker/Worker.cs:73-214 | If `k` attempts fail and the next succeeds within the budget, the cycle succeeds after `k + 1` attempts with `k` errors and `k` retries. |
| RetryCycle.CycleEmptyEnvelope | processor-dotnet/src/Worker/Worker.cs:102-116 | A cycle ending on an empty or null `quotes` list has fetched, inserted and skipped 0 and stored nothing; its errors are the attempts before it. |
| RetryCycle.CycleStore | processor-dotnet/src/Worker/Worker.cs:118-169 | A committed cycle stored the upsert of its last attempt's batch into the table it started from. It fetched that batch's size, and inserted plus skipped equals it. |
| RetryCycle.CycleCommitAccounting | processor-dotnet/src/Worker/Worker.cs:118-169 | On commit, `QuotesInserted + QuotesConflictSkipped == QuotesFetched`, the inserted count is the number of new keys, the keys become old plus batch keys, and old rows are kept. |
| RetryCycle.CycleWithoutBudget | processor-dotnet/src/Worker/Worker.cs:73 | With `maxRetries <= 0` no attempt runs and the cycle fails with zero errors. |
| RetryCycle.Delays | processor-dotnet/src/Worker/Worker.cs:210-212 | The wait after failed attempt `a` is `baseDelayMs * 2^(a-1) + jitter`, one per retried attempt, in order. |
| RetryCycle.DelaysGrow | processor-dotnet/src/Worker/Worker.cs:210-212 | Each wait lies in `[baseDelayMs * 2^(a-1), baseDelayMs * 2^(a-1) + 200)`, and without its jitter each wait doubles the one before. |
| Ingestion.Worker.constructor | processor-dotnet/src/Worker/Worker.cs:21-63 | The worker holds its settings, metrics and table, and starts with no committed cycles. Its symbols are `SymbolList` of the configured text, the list every tick's split gives. |
| Ingestion.Worker.Tick | processor-dotnet/src/Worker/Worker.cs:52-249 | One tick ends with the ending, counters, attempt count and table that `Cycle` specifies, with `SymbolsRequested` the length of the parsed symbol list. It appends exactly one snapshot of the final counters to the metrics history, so `Record` runs once. The backoffs are `Delays` of the retried attempts. The commit count goes up only on a committed cycle, and a metrics snapshot is taken exactly when that makes it a multiple of 10. |
| Ingestion.Worker.RecordSuccess | processor-dotnet/src/Worker/Worker.cs:113-194 | A successful attempt appends exactly one snapshot of its counters to the metrics history (`Record` on the empty-quotes path and after a commit). The commit count goes up by one only after a commit, and a metrics snapshot equal to `Snapshot()` is returned exactly when the new count is a multiple of 10. |
| Ingestion.Worker.FetchAndStore | processor-dotnet/src/Worker/Worker.cs:86-201 | One attempt's fetch, validation and transactional write produce exactly `RunAttempt`'s result, and the table changes only when that result is a success. |
| Ingestion.Worker.Run | processor-dotnet/src/Worker/Worker.cs:52-249 | The timer loop records one cycle per tick, in tick order, with each tick's id and elapsed time, and keeps the earlier history. |
| Producer.Upper | producer-python/app/domain/generators.py:28 | `upper()` keeps the length and upper-cases each character. |
| Producer.QuotesFor | producer-python/app/routers/quotes.py:19 | One quote per symbol, in order. |
| Producer.GetQuotes | producer-python/app/routers/quotes.py:11-22 | The envelope always carries a list with exactly one quote per entry of `symbol_list`, in the same order. Each quote is `generate_quote` of its entry with the values that call draws, so it carries the upper-cased entry. |
| Producer.GetQuotesBlank | producer-python/app/routers/quotes.py:18-19 | A query of only commas and whitespace gets an empty quote list. |

## Left out

- HTTP and database plumbing are left out: the HTTP client factory, JSON deserialisation, and Npgsql connections, commands and statement preparation. Each attempt's response, connection string and database failure point are inputs (`RetryCycle.Attempt`). The table is a map from `(symbol, quoted_at)` to the stored row.
- The timer, `Task.Delay` and cancellation are left out. A cancelled tick or shutdown is not modelled: a cancellation during a backoff wait (`processor-dotnet/src/Worker/Worker.cs:222`) throws out of `ExecuteAsync` before that tick's `Record`, and the backoff waits are returned rather than awaited. The stopwatch reading is a parameter `elapsedMs`, and the same value is recorded on every path.
- The random sources are parameters: `Random.Shared.Next(0, 200)` is the jitter carried by each `Attempt`, the `Guid` cycle id is an opaque string, and the producer's random variation and clock are a `Draw`.
- Environment variables and their `int.TryParse` defaults become the worker's constructor arguments and each attempt's connection string.
- Logging and log scopes are left out. A logger that throws is not modelled; a throw from the snapshot log (`processor-dotnet/src/Worker/Worker.cs:190`) comes after that attempt's `Record` (line 182). It reaches the catch at line 196 and then the retry handler, so a later attempt of the same tick can `Record` the cycle again. That handler's `Errors++` and `Retries++` also change the counters object already queued.
- Concurrency is left out. `Interlocked` and `ConcurrentQueue` are modelled sequentially, and `_cycleSeq` is one worker's field rather than a static shared by all instances.
- Floating point is left out: prices and variations are opaque integers, and the quoted instant is an integer UTC count. The average elapsed time is an exact `real`, not a `double`.
- RetryCycle.Backoff: `Math.Pow(2, attempt - 1)` is exact integer `2^(attempt-1)`. Not modelled: the double's rounding, the `TimeSpan` overflow for very large attempts, and the `(int)` cast of the logged value.
- Ingestion.Worker.Tick: every backoff is taken to be a wait `Task.Delay` accepts. `Task.Delay` rejects a total above its upper bound, which is 2^32 - 2 ms on current .NET and `int.MaxValue` ms on older runtimes. With the default 500 ms base, attempt 25 is the first whose wait exceeds 2^32 - 2 ms; it is retried only when `MAX_RETRIES >= 26`. `Task.Delay` also rejects any negative total other than -1 ms, which a negative `RETRY_BASE_DELAY_MS` can produce. A total of exactly -1 ms (for instance base -1, attempt 1, jitter 0) means an infinite wait, so the tick never ends. The wait runs inside `catch … when (attempt < maxRetries)` (`processor-dotnet/src/Worker/Worker.cs:205-222`), with no handler around the loop. A rejected wait therefore escapes `ExecuteAsync`: that tick never reaches `_metrics.Record`, and the worker stops. For such settings the one-`Record`-per-tick promise of `Tick` and `Run` does not hold in the source.
- Observability.CycleCounters: integer widths are unbounded. The `int` counters and `long` totals cannot wrap around in the model.
- Observability.CycleCounters: the source's counters object is mutable and is stored by reference in each `CycleSnapshot`; the model uses a value. No path changes the counters after `Record`, so the two agree.
- Symbols.IsSpace: only the ASCII whitespace both runtimes strip (space, tab, line feed, vertical tab, form feed, carriage return) is modelled. Unicode whitespace and Python's treatment of `\x1c`–`\x1f`, which .NET does not trim, are left out.
- Producer.Upper: only ASCII letters are upper-cased, not Unicode case mapping.
- The base-price lookup and rounding in `generate_quote`, and the `/preco` and `/precos` endpoints, are not part of this model. They are random prices with no stated property beyond the upper-cased symbol.
- The symbol list, `maxRetries` and `baseDelayMs` are read once at the start of `ExecuteAsync`. The model reads them in the `Worker` constructor. The source splits the unchanged text again on every tick, which gives the same list each time, so the model splits it once.
- Ingestion.Worker.Run: it states what the timer loop does to the metrics history. What each tick does to the table and the counters is stated by `Tick`.
- Ingestion.Worker.Tick: the snapshot the worker takes is only logged in the source. The model returns it, so the every-10th gate can be stated.
