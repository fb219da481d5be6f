// The database side of `write_pages_to_db` and `write_links_to_db` in
// src/bin/process_data.rs, against an abstract store. A table is a map from primary
// key to row. A multi-row `INSERT` statement either inserts all of its rows or, at its
// first failing row, fails as a whole and leaves the table as it was (an aborted SQLite
// statement is undone). Failures other than a primary-key conflict come from the
// database engine and are given as a parameter: `fault(r)` is the error that inserting
// `r` would raise, if any.

module BatchInsert {

  import opened Text

  /** The `rusqlite::ErrorCode`s, reduced to the one the program tests for. */
  datatype ErrorCode = ConstraintViolation | DiskFull | DatabaseBusy | OtherCode

  /** `rusqlite::Error`: a failure reported by SQLite carries a code; the other variants
      (parameter and conversion errors) do not. */
  datatype DbError = SqliteFailure(code: ErrorCode) | NotSqlite

  /** `DB::is_unique_error`: the error is a SQLite failure whose code is a constraint
      violation. */
  predicate IsUniqueError(e: DbError) {
    e.SqliteFailure? && e.code == ConstraintViolation
  }

  /** A table's primary key and the engine-side failures of a row. */
  datatype Engine<K, -R> = Engine(key: R -> K, fault: R -> Option<DbError>)

  /** The result of one statement: the new table, or the error that aborted it. */
  datatype Insert<K, R> = Inserted(table: map<K, R>) | Failed(error: DbError)

  /** A line printed by a flush. */
  datatype LogEntry<R> = BatchFailed(error: DbError) | RowFailed(row: R, error: DbError)

  /** Whether a failure is printed: every failure is, except unique-key errors when the
      flush is `quiet` (the link table). */
  predicate Logged(quiet: bool, e: DbError) {
    !(quiet && IsUniqueError(e))
  }

  /** A single-row `INSERT`: a taken key is a constraint violation; otherwise the engine
      may fail; otherwise the row is stored under its key. */
  function InsertRow<K(==), R>(e: Engine<K, R>, t: map<K, R>, r: R): Insert<K, R>
  {
    if e.key(r) in t then Failed(SqliteFailure(ConstraintViolation))
    else match e.fault(r)
      case Some(err) => Failed(err)
      case None => Inserted(t[e.key(r) := r])
  }

  /** The reference semantics: the rows inserted one at a time in order, each failure
      skipped. */
  function InsertEach<K(==), R>(e: Engine<K, R>, t: map<K, R>, rows: seq<R>): map<K, R>
    decreases |rows|
  {
    if rows == [] then t
    else
      var t1 := InsertEach(e, t, rows[..|rows| - 1]);
      match InsertRow(e, t1, rows[|rows| - 1])
      case Inserted(t2) => t2
      case Failed(_) => t1
  }

  /** One multi-row `INSERT` statement: all rows in order, aborted by the first failure. */
  function ExecuteBatch<K(==), R>(e: Engine<K, R>, t: map<K, R>, rows: seq<R>): Insert<K, R>
    decreases |rows|
  {
    if rows == [] then Inserted(t)
    else match ExecuteBatch(e, t, rows[..|rows| - 1])
      case Failed(err) => Failed(err)
      case Inserted(t1) => InsertRow(e, t1, rows[|rows| - 1])
  }

  /** The `individual_cached_statement` loop: each row on its own, each failure printed
      unless it is quiet. */
  function RetryRows<K(==), R>(e: Engine<K, R>, t: map<K, R>, rows: seq<R>, quiet: bool)
    : (map<K, R>, seq<LogEntry<R>>)
    decreases |rows|
  {
    if rows == [] then (t, [])
    else
      var (t1, log1) := RetryRows(e, t, rows[..|rows| - 1], quiet);
      var r := rows[|rows| - 1];
      match InsertRow(e, t1, r)
      case Inserted(t2) => (t2, log1)
      case Failed(err) => (t1, if Logged(quiet, err) then log1 + [RowFailed(r, err)] else log1)
  }

  /** One full batch: the multi-row statement, and on its failure a printed notice (unless
      quiet) followed by the rows one at a time. */
  function RunBatch<K(==), R>(e: Engine<K, R>, t: map<K, R>, batch: seq<R>, quiet: bool)
    : (map<K, R>, seq<LogEntry<R>>)
  {
    match ExecuteBatch(e, t, batch)
    case Inserted(t1) => (t1, [])
    case Failed(err) =>
      var (t1, log1) := RetryRows(e, t, batch, quiet);
      (t1, (if Logged(quiet, err) then [BatchFailed(err)] else []) + log1)
  }

  /** `m` is a whole number of batches of `bs` rows. */
  predicate MultipleOf(m: nat, bs: nat)
    requires bs >= 1
    decreases m
  {
    m == 0 || (m >= bs && MultipleOf(m - bs, bs))
  }

  /** The length of the `batchable` half of a buffer of `len` rows: the longest prefix
      made of full batches. */
  function WholeBatches(len: nat, bs: nat): (n: nat)
    requires bs >= 1
    decreases len
    ensures n <= len && MultipleOf(n, bs) && len - n < bs
  {
    if len < bs then 0 else WholeBatches(len - bs, bs) + bs
  }

  /** `split_at(len - len % batch_size)` cuts the buffer where `WholeBatches` says. */
  lemma SplitPoint(len: nat, bs: nat)
    requires bs >= 1
    ensures len - len % bs == WholeBatches(len, bs)
  {
    var q := len / bs;
    assert len == q * bs + len % bs;
    WholeOfProduct(q, len % bs, bs);
  }

  lemma {:induction false} WholeOfProduct(q: nat, r: nat, bs: nat)
    requires bs >= 1 && r < bs
    ensures WholeBatches(q * bs + r, bs) == q * bs
    decreases q
  {
    if q > 0 {
      assert q * bs + r - bs == (q - 1) * bs + r;
      WholeOfProduct(q - 1, r, bs);
    }
  }

  /** The batches of `rows[..m]`, taken `bs` at a time from the front, run in order (any
      rows short of a whole batch at the front are not touched). */
  function RunBatches<K(==), R>(e: Engine<K, R>, t: map<K, R>, rows: seq<R>, m: nat, bs: nat, quiet: bool)
    : (map<K, R>, seq<LogEntry<R>>)
    requires bs >= 1 && m <= |rows|
    decreases m
  {
    if m < bs then (t, [])
    else
      var (t1, log1) := RunBatches(e, t, rows, m - bs, bs, quiet);
      var (t2, log2) := RunBatch(e, t1, rows[m - bs..m], quiet);
      (t2, log1 + log2)
  }

  /** A whole flush of a buffer: its full batches, then the `non_batchable` rest (fewer
      than `bs` rows) row by row. An empty buffer does nothing. */
  function Flush<K(==), R>(e: Engine<K, R>, t: map<K, R>, rows: seq<R>, bs: nat, quiet: bool)
    : (map<K, R>, seq<LogEntry<R>>)
    requires bs >= 1
  {
    var n := WholeBatches(|rows|, bs);
    var (t1, log1) := RunBatches(e, t, rows, n, bs, quiet);
    var (t2, log2) := RetryRows(e, t1, rows[n..], quiet);
    (t2, log1 + log2)
  }

  // ---------------------------------------------------------------------------
  // Batching is transparent

  lemma {:induction false} InsertEachAppend<K, R>(e: Engine<K, R>, t: map<K, R>, a: seq<R>, b: seq<R>)
    ensures InsertEach(e, t, a + b) == InsertEach(e, InsertEach(e, t, a), b)
    decreases |b|
  {
    if b == [] {
      assert a + b == a;
    } else {
      var b1 := b[..|b| - 1];
      assert (a + b)[..|a + b| - 1] == a + b1;
      assert (a + b)[|a + b| - 1] == b[|b| - 1];
      InsertEachAppend(e, t, a, b1);
    }
  }

  /** Retrying row by row inserts exactly what the reference inserts. */
  lemma {:induction false} RetryIsEach<K, R>(e: Engine<K, R>, t: map<K, R>, rows: seq<R>, quiet: bool)
    ensures RetryRows(e, t, rows, quiet).0 == InsertEach(e, t, rows)
    decreases |rows|
  {
    if rows != [] {
      RetryIsEach(e, t, rows[..|rows| - 1], quiet);
    }
  }

  /** A statement that succeeds inserts every row, and so agrees with the reference. */
  lemma {:induction false} BatchSuccessIsEach<K, R>(e: Engine<K, R>, t: map<K, R>, rows: seq<R>)
    requires ExecuteBatch(e, t, rows).Inserted?
    ensures ExecuteBatch(e, t, rows).table == InsertEach(e, t, rows)
    ensures forall r :: r in rows ==> e.key(r) in ExecuteBatch(e, t, rows).table
    decreases |rows|
  {
    if rows != [] {
      var pre := rows[..|rows| - 1];
      BatchSuccessIsEach(e, t, pre);
      forall r | r in rows ensures e.key(r) in ExecuteBatch(e, t, rows).table {
        if r != rows[|rows| - 1] {
          assert r in pre;
        }
      }
    }
  }

  /** One batch inserts what the reference inserts, whether its statement fails or not. */
  lemma RunBatchIsEach<K, R>(e: Engine<K, R>, t: map<K, R>, batch: seq<R>, quiet: bool)
    ensures RunBatch(e, t, batch, quiet).0 == InsertEach(e, t, batch)
  {
    if ExecuteBatch(e, t, batch).Inserted? {
      BatchSuccessIsEach(e, t, batch);
    } else {
      RetryIsEach(e, t, batch, quiet);
    }
  }

  /** A prefix followed by the next slice is the longer prefix. */
  lemma Rejoin<R>(s: seq<R>, i: nat, j: nat)
    requires i <= j <= |s|
    ensures s[..i] + s[i..j] == s[..j]
  {
  }

  /** Whole batches insert what the reference inserts for the rows they cover. */
  lemma {:induction false} RunBatchesIsEach<K, R>(e: Engine<K, R>, t: map<K, R>, rows: seq<R>, m: nat, bs: nat, quiet: bool)
    requires bs >= 1 && m <= |rows| && MultipleOf(m, bs)
    ensures RunBatches(e, t, rows, m, bs, quiet).0 == InsertEach(e, t, rows[..m])
    decreases m
  {
    if m >= bs {
      var t1 := RunBatches(e, t, rows, m - bs, bs, quiet).0;
      RunBatchesIsEach(e, t, rows, m - bs, bs, quiet);
      RunBatchIsEach(e, t1, rows[m - bs..m], quiet);
      Rejoin(rows, m - bs, m);
      InsertEachAppend(e, t, rows[..m - bs], rows[m - bs..m]);
    }
  }

  /** A flush leaves the table exactly as inserting its rows one at a time would: splitting
      into batches, failing batches and retries change nothing about the stored rows. */
  lemma FlushIsEach<K, R>(e: Engine<K, R>, t: map<K, R>, rows: seq<R>, bs: nat, quiet: bool)
    requires bs >= 1
    ensures Flush(e, t, rows, bs, quiet).0 == InsertEach(e, t, rows)
  {
    var n := WholeBatches(|rows|, bs);
    RunBatchesIsEach(e, t, rows, n, bs, quiet);
    var t1 := RunBatches(e, t, rows, n, bs, quiet).0;
    RetryIsEach(e, t1, rows[n..], quiet);
    Rejoin(rows, n, |rows|);
    assert rows[..|rows|] == rows;
    InsertEachAppend(e, t, rows[..n], rows[n..]);
  }

  // ---------------------------------------------------------------------------
  // What the reference keeps

  /** Rows already stored are never replaced, and every key the result gains belongs to a
      submitted row. */
  lemma {:induction false} InsertEachKeeps<K, R>(e: Engine<K, R>, t: map<K, R>, rows: seq<R>)
    ensures forall k :: k in t ==> k in InsertEach(e, t, rows) && InsertEach(e, t, rows)[k] == t[k]
    ensures forall k :: k in InsertEach(e, t, rows) ==>
      k in t || exists r :: r in rows && e.key(r) == k && InsertEach(e, t, rows)[k] == r
    decreases |rows|
  {
    if rows != [] {
      var pre := rows[..|rows| - 1];
      InsertEachKeeps(e, t, pre);
      var res := InsertEach(e, t, rows);
      forall k | k in res && k !in t
        ensures exists r :: r in rows && e.key(r) == k && res[k] == r
      {
        if k in InsertEach(e, t, pre) {
          var r :| r in pre && e.key(r) == k && InsertEach(e, t, pre)[k] == r;
          assert r in rows;
        } else {
          assert rows[|rows| - 1] in rows;
        }
      }
    }
  }

  /** Every row's key ends up stored, unless the engine refused that row. */
  lemma {:induction false} InsertEachStores<K, R>(e: Engine<K, R>, t: map<K, R>, rows: seq<R>)
    ensures forall r :: r in rows ==> e.key(r) in InsertEach(e, t, rows) || e.fault(r).Some?
    decreases |rows|
  {
    if rows != [] {
      var pre := rows[..|rows| - 1];
      InsertEachStores(e, t, pre);
      InsertEachKeeps(e, InsertEach(e, t, pre), [rows[|rows| - 1]]);
      forall r | r in rows ensures e.key(r) in InsertEach(e, t, rows) || e.fault(r).Some? {
        if r in pre {
          InsertEachKeeps(e, t, rows);
          InsertEachKeeps(e, t, pre);
        }
      }
    }
  }

  /** The first insertable row with a given key wins: later rows with that key are
      rejected and do not replace it. */
  lemma {:induction false} FirstWins<K, R>(e: Engine<K, R>, t: map<K, R>, rows: seq<R>, i: nat)
    requires i < |rows| && e.key(rows[i]) !in t && e.fault(rows[i]).None?
    requires forall j :: 0 <= j < i ==> e.key(rows[j]) != e.key(rows[i]) || e.fault(rows[j]).Some?
    ensures e.key(rows[i]) in InsertEach(e, t, rows) && InsertEach(e, t, rows)[e.key(rows[i])] == rows[i]
    decreases |rows|
  {
    var k := e.key(rows[i]);
    if i == |rows| - 1 {
      var pre := rows[..i];
      InsertEachKeeps(e, t, pre);
      if k in InsertEach(e, t, pre) {
        var r :| r in pre && e.key(r) == k && InsertEach(e, t, pre)[k] == r;
        var j :| 0 <= j < i && pre[j] == r;
        assert rows[j] == r;
        InsertEachStoresOnlyClean(e, t, pre, k);
      }
    } else {
      var pre := rows[..|rows| - 1];
      assert pre[i] == rows[i];
      FirstWins(e, t, pre, i);
    }
  }

  /** A stored key that was not there before belongs to a row the engine accepted. */
  lemma {:induction false} InsertEachStoresOnlyClean<K, R>(e: Engine<K, R>, t: map<K, R>, rows: seq<R>, k: K)
    requires k in InsertEach(e, t, rows) && k !in t
    ensures e.fault(InsertEach(e, t, rows)[k]).None?
    decreases |rows|
  {
    if rows != [] {
      var pre := rows[..|rows| - 1];
      if k in InsertEach(e, t, pre) {
        InsertEachStoresOnlyClean(e, t, pre, k);
      }
    }
  }

  // ---------------------------------------------------------------------------
  // What a flush prints

  /** `t2` still holds every row of `t`, under the same key. */
  predicate Extends<K, R(==)>(t: map<K, R>, t2: map<K, R>) {
    forall k :: k in t ==> k in t2 && t2[k] == t[k]
  }

  /** A refusal of `r` with error `err` left a trace: it was printed with the row, or it
      is a quiet one. */
  predicate Traced<R(==)>(quiet: bool, r: R, err: DbError, log: seq<LogEntry<R>>) {
    RowFailed(r, err) in log || !Logged(quiet, err)
  }

  /** A row is accounted for by a table and a printed log: that very row is stored under
      its key; or its key holds another row and the primary-key conflict left a trace; or
      the engine refused the row and that refusal left a trace. */
  predicate Accounted<K, R(==)>(e: Engine<K, R>, quiet: bool, r: R, t: map<K, R>, log: seq<LogEntry<R>>) {
    (e.key(r) in t && t[e.key(r)] == r)
    || (e.key(r) in t && Traced(quiet, r, SqliteFailure(ConstraintViolation), log))
    || (e.fault(r).Some? && Traced(quiet, r, e.fault(r).value, log))
  }

  /** Accounting survives a table that keeps every stored row and a longer log. */
  lemma AccountedLater<K, R>(e: Engine<K, R>, quiet: bool, r: R, t: map<K, R>, log: seq<LogEntry<R>>,
                             t2: map<K, R>, log2: seq<LogEntry<R>>)
    requires Accounted(e, quiet, r, t, log) && Extends(t, t2)
    ensures Accounted(e, quiet, r, t2, log + log2) && Accounted(e, quiet, r, t2, log2 + log)
  {
  }

  /** Two runs one after the other account for the rows of both. */
  lemma AccountedJoin<K, R>(e: Engine<K, R>, quiet: bool, a: seq<R>, b: seq<R>,
                            t1: map<K, R>, log1: seq<LogEntry<R>>, t2: map<K, R>, log2: seq<LogEntry<R>>)
    requires forall r :: r in a ==> Accounted(e, quiet, r, t1, log1)
    requires forall r :: r in b ==> Accounted(e, quiet, r, t2, log2)
    requires Extends(t1, t2)
    ensures forall r :: r in a + b ==> Accounted(e, quiet, r, t2, log1 + log2)
  {
    forall r | r in a + b ensures Accounted(e, quiet, r, t2, log1 + log2) {
      if r in b {
        AccountedLater(e, quiet, r, t2, log2, t2, log1);
      } else {
        AccountedLater(e, quiet, r, t1, log1, t2, log2);
      }
    }
  }

  /** The row-by-row loop keeps every stored row. */
  lemma RetryExtends<K, R>(e: Engine<K, R>, t: map<K, R>, rows: seq<R>, quiet: bool)
    ensures Extends(t, RetryRows(e, t, rows, quiet).0)
  {
    RetryIsEach(e, t, rows, quiet);
    InsertEachKeeps(e, t, rows);
  }

  /** The row-by-row loop drops a row silently only when its failure is quiet, and it
      keeps every row already stored. */
  lemma {:induction false} RetryNoSilentLoss<K, R>(e: Engine<K, R>, t: map<K, R>, rows: seq<R>, quiet: bool)
    ensures forall r :: r in rows ==> Accounted(e, quiet, r, RetryRows(e, t, rows, quiet).0, RetryRows(e, t, rows, quiet).1)
    ensures Extends(t, RetryRows(e, t, rows, quiet).0)
    decreases |rows|
  {
    RetryExtends(e, t, rows, quiet);
    if rows != [] {
      var pre := rows[..|rows| - 1];
      var last := rows[|rows| - 1];
      RetryNoSilentLoss(e, t, pre, quiet);
      var (t1, log1) := RetryRows(e, t, pre, quiet);
      var (t2, log2) := RetryRows(e, t, rows, quiet);
      var tail: seq<LogEntry<R>> := log2[|log1|..];
      assert log2 == log1 + tail && Extends(t1, t2) by {
        match InsertRow(e, t1, last)
        case Inserted(_) =>
        case Failed(_) =>
      }
      forall r | r in pre ensures Accounted(e, quiet, r, t2, log2) {
        AccountedLater(e, quiet, r, t1, log1, t2, tail);
      }
    }
  }

  /** One batch keeps every stored row. */
  lemma RunBatchExtends<K, R>(e: Engine<K, R>, t: map<K, R>, batch: seq<R>, quiet: bool)
    ensures Extends(t, RunBatch(e, t, batch, quiet).0)
  {
    RunBatchIsEach(e, t, batch, quiet);
    InsertEachKeeps(e, t, batch);
  }

  /** One batch accounts for each of its rows, and keeps every row already stored. */
  lemma RunBatchNoSilentLoss<K, R>(e: Engine<K, R>, t: map<K, R>, batch: seq<R>, quiet: bool)
    ensures forall r :: r in batch ==> Accounted(e, quiet, r, RunBatch(e, t, batch, quiet).0, RunBatch(e, t, batch, quiet).1)
    ensures Extends(t, RunBatch(e, t, batch, quiet).0)
  {
    RunBatchExtends(e, t, batch, quiet);
    if ExecuteBatch(e, t, batch).Inserted? {
      BatchSuccessStores(e, t, batch);
    } else {
      RetryNoSilentLoss(e, t, batch, quiet);
    }
  }

  /** A statement that succeeds stores each of its rows as it is. */
  lemma {:induction false} BatchSuccessStores<K, R>(e: Engine<K, R>, t: map<K, R>, rows: seq<R>)
    requires ExecuteBatch(e, t, rows).Inserted?
    ensures forall r :: r in rows ==> e.key(r) in ExecuteBatch(e, t, rows).table && ExecuteBatch(e, t, rows).table[e.key(r)] == r
    decreases |rows|
  {
    if rows != [] {
      var pre := rows[..|rows| - 1];
      BatchSuccessStores(e, t, pre);
      forall r | r in rows ensures e.key(r) in ExecuteBatch(e, t, rows).table && ExecuteBatch(e, t, rows).table[e.key(r)] == r {
        if r != rows[|rows| - 1] {
          assert r in pre;
        }
      }
    }
  }

  /** Whole batches keep every stored row. */
  lemma RunBatchesExtends<K, R>(e: Engine<K, R>, t: map<K, R>, rows: seq<R>, m: nat, bs: nat, quiet: bool)
    requires bs >= 1 && m <= |rows| && MultipleOf(m, bs)
    ensures Extends(t, RunBatches(e, t, rows, m, bs, quiet).0)
  {
    RunBatchesIsEach(e, t, rows, m, bs, quiet);
    InsertEachKeeps(e, t, rows[..m]);
  }

  /** Whole batches account for every row they cover, and keep every row already stored. */
  lemma {:induction false} RunBatchesNoSilentLoss<K, R>(e: Engine<K, R>, t: map<K, R>, rows: seq<R>, m: nat, bs: nat, quiet: bool)
    requires bs >= 1 && m <= |rows| && MultipleOf(m, bs)
    ensures forall r :: r in rows[..m] ==>
      Accounted(e, quiet, r, RunBatches(e, t, rows, m, bs, quiet).0, RunBatches(e, t, rows, m, bs, quiet).1)
    ensures Extends(t, RunBatches(e, t, rows, m, bs, quiet).0)
    decreases m
  {
    RunBatchesExtends(e, t, rows, m, bs, quiet);
    if m >= bs {
      RunBatchesNoSilentLoss(e, t, rows, m - bs, bs, quiet);
      var (t1, log1) := RunBatches(e, t, rows, m - bs, bs, quiet);
      var batch := rows[m - bs..m];
      RunBatchNoSilentLoss(e, t1, batch, quiet);
      var (t2, log2) := RunBatch(e, t1, batch, quiet);
      Rejoin(rows, m - bs, m);
      AccountedJoin(e, quiet, rows[..m - bs], batch, t1, log1, t2, log2);
    }
  }

  /** No row of a flush is lost without a trace: each one is stored as it is; or its key
      already holds another row and the conflict is printed with the row (or is quiet);
      or the engine refused it and the refusal is printed with the row (or is quiet).
      Every row stored before the flush stays as it was. */
  lemma FlushNoSilentLoss<K, R>(e: Engine<K, R>, t: map<K, R>, rows: seq<R>, bs: nat, quiet: bool)
    requires bs >= 1
    ensures forall r :: r in rows ==> Accounted(e, quiet, r, Flush(e, t, rows, bs, quiet).0, Flush(e, t, rows, bs, quiet).1)
    ensures Extends(t, Flush(e, t, rows, bs, quiet).0)
  {
    var n := WholeBatches(|rows|, bs);
    RunBatchesNoSilentLoss(e, t, rows, n, bs, quiet);
    var (t1, log1) := RunBatches(e, t, rows, n, bs, quiet);
    RetryNoSilentLoss(e, t1, rows[n..], quiet);
    var (t2, log2) := RetryRows(e, t1, rows[n..], quiet);
    Rejoin(rows, n, |rows|);
    assert rows[..|rows|] == rows;
    AccountedJoin(e, quiet, rows[..n], rows[n..], t1, log1, t2, log2);
  }

  /** When a flush is quiet, the row-by-row loop never prints a unique-key error. */
  lemma {:induction false} RetryQuiet<K, R>(e: Engine<K, R>, t: map<K, R>, rows: seq<R>)
    ensures forall x :: x in RetryRows(e, t, rows, true).1 ==> !IsUniqueError(x.error)
    decreases |rows|
  {
    if rows != [] {
      RetryQuiet(e, t, rows[..|rows| - 1]);
    }
  }

  lemma RunBatchQuiet<K, R>(e: Engine<K, R>, t: map<K, R>, batch: seq<R>)
    ensures forall x :: x in RunBatch(e, t, batch, true).1 ==> !IsUniqueError(x.error)
  {
    RetryQuiet(e, t, batch);
  }

  lemma {:induction false} RunBatchesQuiet<K, R>(e: Engine<K, R>, t: map<K, R>, rows: seq<R>, m: nat, bs: nat)
    requires bs >= 1 && m <= |rows|
    ensures forall x :: x in RunBatches(e, t, rows, m, bs, true).1 ==> !IsUniqueError(x.error)
    decreases m
  {
    if m >= bs {
      RunBatchesQuiet(e, t, rows, m - bs, bs);
      RunBatchQuiet(e, RunBatches(e, t, rows, m - bs, bs, true).0, rows[m - bs..m]);
    }
  }

  /** The link flush prints no unique-key error: an edge that is already stored, or twice
      in the buffer, goes by without a message. */
  lemma FlushQuiet<K, R>(e: Engine<K, R>, t: map<K, R>, rows: seq<R>, bs: nat)
    requires bs >= 1
    ensures forall x :: x in Flush(e, t, rows, bs, true).1 ==> !IsUniqueError(x.error)
  {
    var n := WholeBatches(|rows|, bs);
    RunBatchesQuiet(e, t, rows, n, bs);
    RetryQuiet(e, RunBatches(e, t, rows, n, bs, true).0, rows[n..]);
  }

  /** Flushing an empty buffer changes nothing and prints nothing. */
  lemma FlushEmpty<K, R>(e: Engine<K, R>, t: map<K, R>, bs: nat, quiet: bool)
    requires bs >= 1
    ensures Flush(e, t, [], bs, quiet) == (t, [])
  {
    var none: seq<LogEntry<R>> := [];
    assert none + none == none;
    FlushOf(e, t, [], bs, quiet, 0, t, none, t, none);
  }

  /** An edge already stored is a no-op for the quiet flush: nothing changes and nothing
      is printed, whatever the batch size. */
  lemma DuplicateIsNoop<K, R>(e: Engine<K, R>, t: map<K, R>, r: R, bs: nat)
    requires bs >= 1 && e.key(r) in t
    ensures Flush(e, t, [r], bs, true) == (t, [])
  {
    var none: seq<LogEntry<R>> := [];
    assert [r][..0] == [] && none + none == none;
    assert RetryRows(e, t, [r], true) == (t, none);
    if bs == 1 {
      assert [r][0..1] == [r] && [r][1..] == [];
      assert ExecuteBatch(e, t, [r]) == Failed(SqliteFailure(ConstraintViolation));
      assert RunBatch(e, t, [r], true) == (t, none);
      assert RunBatches(e, t, [r], 1, 1, true) == (t, none);
      FlushOf(e, t, [r], bs, true, 1, t, none, t, none);
    } else {
      assert [r][0..] == [r];
      FlushOf(e, t, [r], bs, true, 0, t, none, t, none);
    }
  }

  // ---------------------------------------------------------------------------
  // The write loops

  /** The `individual_cached_statement` loop: each row inserted on its own statement, and
      each failure printed unless it is quiet. */
  method InsertOneByOne<K(==), R>(e: Engine<K, R>, t: map<K, R>, rows: seq<R>, quiet: bool)
    returns (table: map<K, R>, log: seq<LogEntry<R>>)
    ensures (table, log) == RetryRows(e, t, rows, quiet)
  {
    table, log := t, [];
    var j := 0;
    while j < |rows|
      invariant 0 <= j <= |rows|
      invariant (table, log) == RetryRows(e, t, rows[..j], quiet)
    {
      assert rows[..j + 1][..j] == rows[..j];
      match InsertRow(e, table, rows[j]) {
        case Inserted(t1) =>
          table := t1;
        case Failed(err) =>
          if Logged(quiet, err) {
            log := log + [RowFailed(rows[j], err)];
          }
      }
      j := j + 1;
    }
    assert rows[..j] == rows;
  }

  /** One full batch: the batch statement, and when it fails a notice (unless quiet) and
      the rows of the batch one by one. */
  method ExecuteOrRetry<K(==), R>(e: Engine<K, R>, t: map<K, R>, batch: seq<R>, quiet: bool)
    returns (table: map<K, R>, log: seq<LogEntry<R>>)
    ensures (table, log) == RunBatch(e, t, batch, quiet)
  {
    match ExecuteBatch(e, t, batch) {
      case Inserted(t1) =>
        table, log := t1, [];
      case Failed(err) =>
        log := [];
        if Logged(quiet, err) {
          log := [BatchFailed(err)];
        }
        var t1, log1 := InsertOneByOne(e, t, batch, quiet);
        table, log := t1, log + log1;
    }
  }

  /** The batch that completes `params` once `count` reaches `batch_size`: given the state
      after the batches before `rows[start..start + bs]`, the state after it. */
  method RunFullBatch<K(==), R>(e: Engine<K, R>, ghost t: map<K, R>, ghost rows: seq<R>, ghost start: nat, ghost next: nat, bs: nat,
                                quiet: bool, table0: map<K, R>, log0: seq<LogEntry<R>>, params: seq<R>)
    returns (table: map<K, R>, log: seq<LogEntry<R>>)
    requires bs >= 1 && next == start + bs <= |rows| && MultipleOf(start, bs)
    requires params == rows[start..next]
    requires (table0, log0) == RunBatches(e, t, rows, start, bs, quiet)
    ensures MultipleOf(next, bs)
    ensures (table, log) == RunBatches(e, t, rows, next, bs, quiet)
  {
    RunBatchesStep(e, t, rows, start, bs, quiet);
    var t1, log1 := ExecuteOrRetry(e, table0, params, quiet);
    table, log := t1, log0 + log1;
  }

  lemma RunBatchesStep<K, R>(e: Engine<K, R>, t: map<K, R>, rows: seq<R>, m: nat, bs: nat, quiet: bool)
    requires bs >= 1 && m + bs <= |rows| && MultipleOf(m, bs)
    ensures MultipleOf(m + bs, bs)
    ensures var (t1, log1) := RunBatches(e, t, rows, m, bs, quiet);
      var (t2, log2) := RunBatch(e, t1, rows[m..m + bs], quiet);
      RunBatches(e, t, rows, m + bs, bs, quiet) == (t2, log1 + log2)
  {
  }

  /** The `for data in batchable` loop: rows are collected into `params`, counted by
      `count`, and each time `count` reaches `batch_size` the batch runs and the
      collection starts again. */
  method WriteBatches<K(==), R>(e: Engine<K, R>, t: map<K, R>, batchable: seq<R>, bs: nat, quiet: bool)
    returns (table: map<K, R>, log: seq<LogEntry<R>>)
    requires bs >= 1 && MultipleOf(|batchable|, bs)
    ensures (table, log) == RunBatches(e, t, batchable, |batchable|, bs, quiet)
  {
    table, log := t, [];
    var params: seq<R> := [];
    var count := 0;
    var i := 0;
    ghost var start := 0;
    while i < |batchable|
      invariant 0 <= count <= i <= |batchable| && count < bs && start == i - count
      invariant MultipleOf(start, bs)
      invariant params == batchable[start..i]
      invariant (table, log) == RunBatches(e, t, batchable, start, bs, quiet)
    {
      table, log, params, count, i, start := TakeRow(e, t, batchable, bs, quiet, table, log, params, count, i, start);
    }
    MultipleOfDiff(|batchable|, start, bs);
  }

  /** One iteration of the `for data in batchable` loop: the row joins `params`, `count`
      goes up, and a batch that is now full is run and the collection restarted. */
  method TakeRow<K(==), R>(e: Engine<K, R>, ghost t: map<K, R>, batchable: seq<R>, bs: nat, quiet: bool,
                           table0: map<K, R>, log0: seq<LogEntry<R>>, params0: seq<R>, count0: nat, i0: nat, ghost start0: nat)
    returns (table: map<K, R>, log: seq<LogEntry<R>>, params: seq<R>, count: nat, i: nat, ghost start: nat)
    requires bs >= 1 && count0 <= i0 < |batchable| && count0 < bs && start0 == i0 - count0
    requires MultipleOf(start0, bs) && MultipleOf(|batchable|, bs)
    requires params0 == batchable[start0..i0]
    requires (table0, log0) == RunBatches(e, t, batchable, start0, bs, quiet)
    ensures i == i0 + 1
    ensures count <= i <= |batchable| && count < bs && start == i - count
    ensures MultipleOf(start, bs)
    ensures params == batchable[start..i]
    ensures (table, log) == RunBatches(e, t, batchable, start, bs, quiet)
  {
    params := params0 + [batchable[i0]];
    count := count0 + 1;
    i := i0 + 1;
    start := start0;
    table, log := table0, log0;
    if count == bs {
      table, log := RunFullBatch(e, t, batchable, start, i, bs, quiet, table, log, params);
      params := [];
      count := 0;
      start := i;
    }
  }

  lemma {:induction false} MultipleOfDiff(a: nat, b: nat, bs: nat)
    requires bs >= 1 && b <= a && MultipleOf(a, bs) && MultipleOf(b, bs)
    ensures MultipleOf(a - b, bs)
    decreases b
  {
    if b > 0 {
      MultipleOfDiff(a - bs, b - bs, bs);
    }
  }

  /** The writing part of `write_pages_to_db`/`write_links_to_db`: the buffer split at
      `len - len % batch_size` into its full batches and the `non_batchable` rest,
      written one by one. */
  method WriteRows<K(==), R>(e: Engine<K, R>, t: map<K, R>, rows: seq<R>, bs: nat, quiet: bool)
    returns (table: map<K, R>, log: seq<LogEntry<R>>)
    requires bs >= 1
    ensures (table, log) == Flush(e, t, rows, bs, quiet)
  {
    var n := |rows| - |rows| % bs;
    SplitPoint(|rows|, bs);
    var batchable, nonBatchable := rows[..n], rows[n..];
    var t1, log1 := WriteBatches(e, t, batchable, bs, quiet);
    BatchesOfPrefix(e, t, rows, n, n, bs, quiet);
    var t2, log2 := InsertOneByOne(e, t1, nonBatchable, quiet);
    table, log := t2, log1 + log2;
    FlushOf(e, t, rows, bs, quiet, n, t1, log1, t2, log2);
  }

  /** A flush, given the state after its batches and after its row-by-row rest. */
  lemma FlushOf<K, R>(e: Engine<K, R>, t: map<K, R>, rows: seq<R>, bs: nat, quiet: bool,
                      n: nat, t1: map<K, R>, log1: seq<LogEntry<R>>, t2: map<K, R>, log2: seq<LogEntry<R>>)
    requires bs >= 1 && n == WholeBatches(|rows|, bs)
    requires (t1, log1) == RunBatches(e, t, rows, n, bs, quiet)
    requires (t2, log2) == RetryRows(e, t1, rows[n..], quiet)
    ensures Flush(e, t, rows, bs, quiet) == (t2, log1 + log2)
  {
  }

  /** Batches only look at the rows they cover: cutting off rows after them changes
      nothing. */
  lemma {:induction false} BatchesOfPrefix<K, R>(e: Engine<K, R>, t: map<K, R>, rows: seq<R>, p: nat, m: nat, bs: nat, quiet: bool)
    requires bs >= 1 && m <= p <= |rows|
    ensures RunBatches(e, t, rows[..p], m, bs, quiet) == RunBatches(e, t, rows, m, bs, quiet)
    decreases m
  {
    if m >= bs {
      BatchesOfPrefix(e, t, rows, p, m - bs, bs, quiet);
      assert rows[..p][m - bs..m] == rows[m - bs..m];
    }
  }
}
