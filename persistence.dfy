/*
 * The transactional batch write into `asset_quotes`: one
 * `insert ... on conflict (symbol, quoted_at) do nothing` per quote inside one transaction,
 * counting each row as inserted or conflict-skipped, then commit, or roll back on any failure.
 */
module Persistence {
  import opened Models

  /** The table's rows by natural key. */
  type Rows = map<QuoteKey, Quote>

  datatype UpsertResult = UpsertResult(rows: Rows, inserted: nat, skipped: nat)

  /** The keys a batch names. */
  function KeysOf(qs: seq<Quote>): set<QuoteKey> {
    if qs == [] then {} else KeysOf(qs[..|qs| - 1]) + {KeyOf(qs[|qs| - 1])}
  }

  /** A key is named by a batch exactly when some quote of the batch carries it. */
  lemma {:induction false} KeysOfMember(qs: seq<Quote>, k: QuoteKey)
    ensures k in KeysOf(qs) <==> exists i :: 0 <= i < |qs| && KeyOf(qs[i]) == k
  {
    if qs != [] {
      var prefix := qs[..|qs| - 1];
      KeysOfMember(prefix, k);
      if k in KeysOf(prefix) {
        var i :| 0 <= i < |prefix| && KeyOf(prefix[i]) == k;
        assert qs[i] == prefix[i];
      }
      if exists i :: 0 <= i < |qs| && KeyOf(qs[i]) == k {
        var i :| 0 <= i < |qs| && KeyOf(qs[i]) == k;
        if i < |prefix| {
          assert prefix[i] == qs[i];
        }
      }
    }
  }

  /** One statement: a key already present is left alone and counted as skipped, otherwise
      the row is added and counted as inserted. */
  function UpsertRow(acc: UpsertResult, q: Quote): UpsertResult {
    if KeyOf(q) in acc.rows then acc.(skipped := acc.skipped + 1)
    else acc.(rows := acc.rows[KeyOf(q) := q], inserted := acc.inserted + 1)
  }

  /** The whole batch, statement by statement in order, as the transaction sees it. */
  function Upsert(rows: Rows, qs: seq<Quote>): (r: UpsertResult)
    ensures r.inserted + r.skipped == |qs|
    ensures rows.Keys <= r.rows.Keys
  {
    if qs == [] then UpsertResult(rows, 0, 0)
    else
      var prefix := qs[..|qs| - 1];
      UpsertRow(Upsert(rows, prefix), qs[|qs| - 1])
  }

  /** After the batch the table holds its old keys and the batch's keys, and no others. */
  lemma {:induction false} UpsertKeys(rows: Rows, qs: seq<Quote>)
    ensures Upsert(rows, qs).rows.Keys == rows.Keys + KeysOf(qs)
  {
    if qs != [] {
      UpsertKeys(rows, qs[..|qs| - 1]);
    }
  }

  /** Existing rows are never overwritten. */
  lemma {:induction false} UpsertKeepsExisting(rows: Rows, qs: seq<Quote>)
    ensures forall k :: k in rows ==> Upsert(rows, qs).rows[k] == rows[k]
  {
    if qs != [] {
      UpsertKeepsExisting(rows, qs[..|qs| - 1]);
    }
  }

  /** The number of inserted rows is the number of distinct keys the table did not have. */
  lemma {:induction false} UpsertInsertedCount(rows: Rows, qs: seq<Quote>)
    ensures Upsert(rows, qs).inserted == |KeysOf(qs) - rows.Keys|
  {
    if qs != [] {
      var prefix, q := qs[..|qs| - 1], qs[|qs| - 1];
      UpsertInsertedCount(rows, prefix);
      UpsertKeys(rows, prefix);
      NewKeysSnoc(rows.Keys, KeysOf(prefix), KeyOf(q));
    }
  }

  /** What a batch does to the table, in one statement: the new keys are inserted and
      counted, the old rows stay as they were. */
  lemma UpsertSummary(rows: Rows, qs: seq<Quote>)
    ensures var u := Upsert(rows, qs);
      && u.inserted == |KeysOf(qs) - rows.Keys|
      && u.rows.Keys == rows.Keys + KeysOf(qs)
      && (forall k :: k in rows ==> u.rows[k] == rows[k])
  {
    UpsertInsertedCount(rows, qs);
    UpsertKeys(rows, qs);
    UpsertKeepsExisting(rows, qs);
  }

  lemma NewKeysSnoc(present: set<QuoteKey>, batch: set<QuoteKey>, k: QuoteKey)
    ensures k in present + batch ==> (batch + {k}) - present == batch - present
    ensures k !in present + batch ==> |(batch + {k}) - present| == |batch - present| + 1
  {
    if k !in present + batch {
      assert (batch + {k}) - present == (batch - present) + {k};
    }
  }

  /** A batch whose keys are all present changes nothing and skips every row. */
  lemma {:induction false} UpsertAllPresent(rows: Rows, qs: seq<Quote>)
    requires KeysOf(qs) <= rows.Keys
    ensures Upsert(rows, qs) == UpsertResult(rows, 0, |qs|)
  {
    if qs != [] {
      var prefix := qs[..|qs| - 1];
      assert qs == prefix + [qs[|qs| - 1]];
      assert KeysOf(prefix) <= KeysOf(qs);
      UpsertAllPresent(rows, prefix);
    }
  }

  /** Idempotence: writing the same batch again stores nothing new and counts every row as a
      conflict, not as an error. */
  lemma UpsertIdempotent(rows: Rows, qs: seq<Quote>)
    ensures var once := Upsert(rows, qs);
      Upsert(once.rows, qs) == UpsertResult(once.rows, 0, |qs|)
  {
    UpsertKeys(rows, qs);
    UpsertAllPresent(Upsert(rows, qs).rows, qs);
  }

  /** A new row holds the first quote of the batch with that key: later duplicates within the
      same batch are skipped like any other conflict. */
  lemma {:induction false} UpsertFirstWins(rows: Rows, qs: seq<Quote>, k: QuoteKey)
    requires k !in rows && k in Upsert(rows, qs).rows
    ensures exists i :: 0 <= i < |qs| && KeyOf(qs[i]) == k && Upsert(rows, qs).rows[k] == qs[i]
              && forall j :: 0 <= j < i ==> KeyOf(qs[j]) != k
  {
    var prefix, q := qs[..|qs| - 1], qs[|qs| - 1];
    var before := Upsert(rows, prefix);
    if k in before.rows {
      UpsertFirstWins(rows, prefix, k);
      var i :| 0 <= i < |prefix| && KeyOf(prefix[i]) == k && before.rows[k] == prefix[i]
               && forall j :: 0 <= j < i ==> KeyOf(prefix[j]) != k;
      assert qs[i] == prefix[i];
      assert forall j :: 0 <= j < i ==> qs[j] == prefix[j];
    } else {
      assert KeyOf(q) == k;
      UpsertKeys(rows, prefix);
      KeysOfMember(prefix, k);
      assert forall j :: 0 <= j < |prefix| ==> qs[j] == prefix[j];
    }
  }

  /** Two quotes of one batch with the same key: one insert, one conflict, and the batch
      still goes through. */
  lemma UpsertDuplicatePair(rows: Rows, q1: Quote, q2: Quote)
    requires KeyOf(q1) == KeyOf(q2) && KeyOf(q1) !in rows
    ensures Upsert(rows, [q1, q2]) == UpsertResult(rows[KeyOf(q1) := q1], 1, 1)
  {
    assert [q1, q2][..1] == [q1];
    assert [q1][..0] == [];
    var one := Upsert(rows, [q1]);
    assert one == UpsertRow(Upsert(rows, []), q1);
    assert one == UpsertResult(rows[KeyOf(q1) := q1], 1, 0);
  }

  /** Where the database can fail during one attempt's write. */
  datatype DbFault =
    | NoFault
    | ConnectFails         // opening the connection, the transaction or preparing the command
    | RowFails(row: nat)   // the statement for the row at this position throws
    | CommitFails

  /** Whether the fault stops a batch of `n` rows before it commits. */
  predicate Aborts(fault: DbFault, n: nat) {
    match fault
    case NoFault => false
    case ConnectFails => true
    case RowFails(row) => row < n
    case CommitFails => true
  }

  /** The table. */
  class QuoteTable {
    var rows: Rows

    constructor (initial: Rows)
      ensures rows == initial
    {
      rows := initial;
    }

    /** Runs the batch in one transaction. On success the table is the upsert of the batch
        into the old table and each row is counted once; on any failure the transaction is
        rolled back and the table is as before. */
    method WriteBatch(qs: seq<Quote>, fault: DbFault) returns (r: Option<UpsertResult>)
      modifies this
      ensures r.Some? <==> !Aborts(fault, |qs|)
      ensures r.Some? ==> r.value == Upsert(old(rows), qs) && rows == r.value.rows
      ensures r.Some? ==> r.value.inserted + r.value.skipped == |qs|
      ensures r.None? ==> rows == old(rows)
    {
      if fault.ConnectFails? {
        return None;
      }
      var before := rows;
      var inserted, skipped := 0, 0;
      var i := 0;
      while i < |qs|
        invariant 0 <= i <= |qs|
        invariant Upsert(before, qs[..i]) == UpsertResult(rows, inserted, skipped)
        invariant !(fault.RowFails? && fault.row < i)
      {
        if fault == RowFails(i) {
          rows := before;  // rollback
          return None;
        }
        var q := qs[i];
        assert qs[..i + 1] == qs[..i] + [q];
        assert Upsert(before, qs[..i + 1]) == UpsertRow(Upsert(before, qs[..i]), q);
        if KeyOf(q) in rows {
          skipped := skipped + 1;
        } else {
          rows := rows[KeyOf(q) := q];
          inserted := inserted + 1;
        }
        i := i + 1;
      }
      assert qs[..i] == qs;
      if fault.CommitFails? {
        rows := before;  // rollback
        return None;
      }
      r := Some(UpsertResult(rows, inserted, skipped));
    }
  }
}
