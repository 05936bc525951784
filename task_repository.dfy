/**
 * The execution table behind `JdbcTaskRepository`: rows keyed by
 * `(task_name, task_instance)`, every write conditioned on that key and, for
 * delete and update, on the row's `version`.
 *
 * The table is a sequence rather than a map so that the states the
 * repository defends against (two rows for one key) can be represented; that
 * keys are unique is the predicate `KeysUnique`, which every operation keeps.
 */
module TaskRepository {
  import opened Wrappers
  import opened Task

  function Last(rows: seq<Execution>): Execution
    requires rows != []
  {
    rows[|rows| - 1]
  }

  function Init(rows: seq<Execution>): seq<Execution>
    requires rows != []
  {
    rows[..|rows| - 1]
  }

  /** Rows selected by `where task_name = ? and task_instance = ?`, in table order. */
  function Matching(rows: seq<Execution>, taskName: string, id: string): (m: seq<Execution>)
    ensures |m| <= |rows|
    ensures forall e :: e in m <==> e in rows && e.HasKey(taskName, id)
  {
    if rows == [] then []
    else Matching(Init(rows), taskName, id) + (if Last(rows).HasKey(taskName, id) then [Last(rows)] else [])
  }

  /** What `getExecution` answers for a table. */
  function Lookup(rows: seq<Execution>, taskName: string, id: string): Result<Option<Execution>, ExecutionException> {
    var m := Matching(rows, taskName, id);
    if |m| > 1 then Err(MoreThanOneExecution(taskName, id))
    else if |m| == 1 then Ok(Some(m[0]))
    else Ok(None)
  }

  /** No two rows of the table share a key. */
  predicate KeysUnique(rows: seq<Execution>) {
    forall j, k :: 0 <= j < k < |rows| ==> rows[j].taskInstance.taskName != rows[k].taskInstance.taskName || rows[j].taskInstance.id != rows[k].taskInstance.id
  }

  /** No two rows of the table carry the key `(taskName, id)`. */
  predicate AtMostOneWithKey(rows: seq<Execution>, taskName: string, id: string) {
    forall j, k :: 0 <= j < k < |rows| && rows[j].HasKey(taskName, id) ==> !rows[k].HasKey(taskName, id)
  }

  /** The row `insert into ... (task_name, task_instance, task_data, execution_time, picked, version)` writes. */
  function NewRow(instance: TaskInstance, executionTime: int): Execution {
    Execution(instance, executionTime, false, None, None, None, None, 0, 1)
  }

  /** Number of rows the key-and-version condition selects: the affected-row count of a delete or update. */
  function CountWhere(rows: seq<Execution>, taskName: string, id: string, version: int): nat {
    if rows == [] then 0
    else CountWhere(Init(rows), taskName, id, version) + (if Last(rows).HasKeyAndVersion(taskName, id, version) then 1 else 0)
  }

  /** Rows that survive `delete ... where task_name = ? and task_instance = ? and version = ?`. */
  function Deleted(rows: seq<Execution>, taskName: string, id: string, version: int): (kept: seq<Execution>)
    ensures forall e :: e in kept <==> e in rows && !e.HasKeyAndVersion(taskName, id, version)
    ensures |kept| + CountWhere(rows, taskName, id, version) == |rows|
  {
    if rows == [] then []
    else
      Deleted(Init(rows), taskName, id, version)
      + (if Last(rows).HasKeyAndVersion(taskName, id, version) then [] else [Last(rows)])
  }

  /** The values a reschedule writes; `newData` is `Some` for the overload that replaces `task_data`. */
  datatype RescheduleValues = RescheduleValues(
    executionTime: int,
    newData: Option<TaskData>,
    lastSuccess: Option<int>,
    lastFailure: Option<int>,
    consecutiveFailures: int)

  /**
   * One row after `update ... set picked = false, picked_by = null,
   * last_heartbeat = null, last_success, last_failure, consecutive_failures,
   * execution_time [, task_data], version = version + 1`.
   */
  function Rescheduled(e: Execution, u: RescheduleValues): Execution {
    e.(taskInstance := if u.newData.Some? then e.taskInstance.(data := u.newData.value) else e.taskInstance,
       executionTime := u.executionTime,
       picked := false,
       pickedBy := None,
       lastHeartbeat := None,
       lastSuccess := u.lastSuccess,
       lastFailure := u.lastFailure,
       consecutiveFailures := u.consecutiveFailures,
       version := e.version + 1)
  }

  /** The table after the reschedule update, applied to every row the key-and-version condition selects. */
  function Updated(rows: seq<Execution>, taskName: string, id: string, version: int, u: RescheduleValues): (r: seq<Execution>)
    ensures |r| == |rows|
  {
    if rows == [] then []
    else
      Updated(Init(rows), taskName, id, version, u)
      + [if Last(rows).HasKeyAndVersion(taskName, id, version) then Rescheduled(Last(rows), u) else Last(rows)]
  }

  /** Result and new table of `createIfNotExists`; `insertFault` is the exception the insert statement throws, if any. */
  function CreateResult(rows: seq<Execution>, instance: TaskInstance, executionTime: int, insertFault: Option<SqlError>)
    : (Result<bool, ExecutionException>, seq<Execution>)
  {
    match Lookup(rows, instance.taskName, instance.id)
    case Err(e) => (Err(e), rows)
    case Ok(Some(_)) => (Ok(false), rows)
    case Ok(None) =>
      if insertFault.Some? then (Err(FailedToAddNewExecution(insertFault.value)), rows)
      else (Ok(true), rows + [NewRow(instance, executionTime)])
  }

  /** Result and new table of `remove`: the delete runs, then anything but one deleted row is a bug. */
  function RemoveResult(rows: seq<Execution>, execution: Execution): (Outcome<ExecutionException>, seq<Execution>) {
    var k := execution.taskInstance;
    var n := CountWhere(rows, k.taskName, k.id, execution.version);
    (if n == 1 then Pass else Fail(UnexpectedRemoveCount(n)), Deleted(rows, k.taskName, k.id, execution.version))
  }

  /** Result and new table of `reschedule`: the update runs, then anything but one updated row is a bug. */
  function RescheduleResult(rows: seq<Execution>, execution: Execution, u: RescheduleValues): (Outcome<ExecutionException>, seq<Execution>) {
    var k := execution.taskInstance;
    var n := CountWhere(rows, k.taskName, k.id, execution.version);
    (if n == 1 then Pass else Fail(UnexpectedUpdateCount(n)), Updated(rows, k.taskName, k.id, execution.version, u))
  }

  // ---------------------------------------------------------------------
  // The repository, changed in place.

  class JdbcTaskRepository {
    var rows: seq<Execution>

    constructor ()
      ensures rows == []
    {
      rows := [];
    }

    /** Reads every row with the key; more than one is a consistency violation, never an arbitrary pick. */
    method GetExecution(taskName: string, id: string) returns (r: Result<Option<Execution>, ExecutionException>)
      ensures r == Lookup(rows, taskName, id)
    {
      var found: seq<Execution> := [];
      var j := 0;
      while j < |rows|
        invariant 0 <= j <= |rows|
        invariant found == Matching(rows[..j], taskName, id)
      {
        assert rows[..j + 1][..j] == rows[..j];
        if rows[j].HasKey(taskName, id) {
          found := found + [rows[j]];
        }
        j := j + 1;
      }
      assert rows[..j] == rows;
      if |found| > 1 {
        r := Err(MoreThanOneExecution(taskName, id));
      } else if |found| == 1 {
        r := Ok(Some(found[0]));
      } else {
        r := Ok(None);
      }
    }

    /** Inserts the instance unless a row for its key exists; a failed insert is wrapped with its cause. */
    method CreateIfNotExists(instance: TaskInstance, executionTime: int, insertFault: Option<SqlError>)
      returns (r: Result<bool, ExecutionException>)
      modifies this
      ensures (r, rows) == CreateResult(old(rows), instance, executionTime, insertFault)
      ensures old(KeysUnique(rows)) ==> KeysUnique(rows)
    {
      ghost var before := rows;
      var existing := GetExecution(instance.taskName, instance.id);
      if existing.Err? {
        r := Err(existing.error);
      } else if existing.value.Some? {
        r := Ok(false);
      } else if insertFault.Some? {
        r := Err(FailedToAddNewExecution(insertFault.value));
      } else {
        rows := rows + [NewRow(instance, executionTime)];
        r := Ok(true);
        if KeysUnique(before) {
          InsertKeepsKeysUnique(before, NewRow(instance, executionTime));
        }
      }
    }

    /** Deletes the rows with the execution's key and version; exactly one must go. */
    method Remove(execution: Execution) returns (r: Outcome<ExecutionException>)
      modifies this
      ensures (r, rows) == RemoveResult(old(rows), execution)
      ensures old(KeysUnique(rows)) ==> KeysUnique(rows)
    {
      var name, id, version := execution.taskInstance.taskName, execution.taskInstance.id, execution.version;
      if KeysUnique(rows) {
        DeletedKeepsKeysUnique(rows, name, id, version);
      }
      var kept, removed := DeleteWhere(rows, name, id, version);
      rows := kept;
      if removed != 1 {
        r := Fail(UnexpectedRemoveCount(removed));
      } else {
        r := Pass;
      }
    }

    /** `reschedule` without new data: `task_data` is left as it is. */
    method Reschedule(execution: Execution, nextExecutionTime: int, lastSuccess: Option<int>, lastFailure: Option<int>, consecutiveFailures: int)
      returns (r: Outcome<ExecutionException>)
      modifies this
      ensures (r, rows) == RescheduleResult(old(rows), execution, RescheduleValues(nextExecutionTime, None, lastSuccess, lastFailure, consecutiveFailures))
      ensures old(KeysUnique(rows)) ==> KeysUnique(rows)
    {
      r := RescheduleInternal(execution, RescheduleValues(nextExecutionTime, None, lastSuccess, lastFailure, consecutiveFailures));
    }

    /** `reschedule` with new data: `task_data` is replaced as well. */
    method RescheduleWithData(execution: Execution, nextExecutionTime: int, newData: TaskData, lastSuccess: Option<int>, lastFailure: Option<int>, consecutiveFailures: int)
      returns (r: Outcome<ExecutionException>)
      modifies this
      ensures (r, rows) == RescheduleResult(old(rows), execution, RescheduleValues(nextExecutionTime, Some(newData), lastSuccess, lastFailure, consecutiveFailures))
      ensures old(KeysUnique(rows)) ==> KeysUnique(rows)
    {
      r := RescheduleInternal(execution, RescheduleValues(nextExecutionTime, Some(newData), lastSuccess, lastFailure, consecutiveFailures));
    }

    /** Updates the rows with the execution's key and version; exactly one must change. */
    method RescheduleInternal(execution: Execution, u: RescheduleValues) returns (r: Outcome<ExecutionException>)
      modifies this
      ensures (r, rows) == RescheduleResult(old(rows), execution, u)
      ensures old(KeysUnique(rows)) ==> KeysUnique(rows)
    {
      var name, id, version := execution.taskInstance.taskName, execution.taskInstance.id, execution.version;
      if KeysUnique(rows) {
        UpdatedKeepsKeysUnique(rows, name, id, version, u);
      }
      var table, updated := UpdateWhere(rows, name, id, version, u);
      rows := table;
      if updated != 1 {
        r := Fail(UnexpectedUpdateCount(updated));
      } else {
        r := Pass;
      }
    }
  }

  /** The delete statement: one pass over the table, keeping the rows the condition does not select and counting the others. */
  method DeleteWhere(table: seq<Execution>, name: string, id: string, version: int) returns (kept: seq<Execution>, removed: nat)
    ensures kept == Deleted(table, name, id, version)
    ensures removed == CountWhere(table, name, id, version)
  {
    kept, removed := [], 0;
    var j := 0;
    while j < |table|
      invariant 0 <= j <= |table|
      invariant kept == Deleted(table[..j], name, id, version)
      invariant removed == CountWhere(table[..j], name, id, version)
    {
      var seen := table[..j + 1];
      assert Init(seen) == table[..j] && Last(seen) == table[j];
      if table[j].HasKeyAndVersion(name, id, version) {
        removed := removed + 1;
      } else {
        kept := kept + [table[j]];
      }
      j := j + 1;
    }
    assert table[..j] == table;
  }

  /** The update statement: one pass over the table, rewriting in place the rows the condition selects and counting them. */
  method UpdateWhere(before: seq<Execution>, name: string, id: string, version: int, u: RescheduleValues)
    returns (table: seq<Execution>, updated: nat)
    ensures table == Updated(before, name, id, version, u)
    ensures updated == CountWhere(before, name, id, version)
  {
    table, updated := before, 0;
    var j := 0;
    while j < |table|
      invariant 0 <= j <= |table| == |before|
      invariant table[..j] == Updated(before[..j], name, id, version, u)
      invariant forall k :: j <= k < |table| ==> table[k] == before[k]
      invariant updated == CountWhere(before[..j], name, id, version)
    {
      var seen := before[..j + 1];
      assert Init(seen) == before[..j] && Last(seen) == before[j];
      ghost var done := table[..j];
      var row := table[j];
      if row.HasKeyAndVersion(name, id, version) {
        table := table[j := Rescheduled(row, u)];
        updated := updated + 1;
      }
      assert table[..j + 1] == done + [table[j]];
      j := j + 1;
    }
    assert table == table[..j];
    assert before == before[..j];
  }

  // ---------------------------------------------------------------------
  // Properties of the table operations.

  lemma InsertKeepsKeysUnique(rows: seq<Execution>, row: Execution)
    requires KeysUnique(rows)
    requires Lookup(rows, row.taskInstance.taskName, row.taskInstance.id) == Ok(None)
    ensures KeysUnique(rows + [row])
  {
    var name, id := row.taskInstance.taskName, row.taskInstance.id;
    forall j | 0 <= j < |rows|
      ensures !rows[j].HasKey(name, id)
    {
      assert rows[j] in rows;
    }
  }

  lemma {:induction false} DeletedKeepsKeysUnique(rows: seq<Execution>, taskName: string, id: string, version: int)
    requires KeysUnique(rows)
    ensures KeysUnique(Deleted(rows, taskName, id, version))
  {
    if rows != [] {
      var init, last := Init(rows), Last(rows);
      assert KeysUnique(init);
      DeletedKeepsKeysUnique(init, taskName, id, version);
      var kept := Deleted(init, taskName, id, version);
      forall e | e in kept
        ensures !last.HasKey(e.taskInstance.taskName, e.taskInstance.id)
      {
        var j :| 0 <= j < |init| && init[j] == e;
        assert rows[j] == e && rows[|rows| - 1] == last;
      }
    }
  }

  /** Row `j` of the updated table is row `j` rescheduled when it matches, and unchanged otherwise. */
  lemma {:induction false} UpdatedAt(rows: seq<Execution>, taskName: string, id: string, version: int, u: RescheduleValues, j: int)
    requires 0 <= j < |rows|
    ensures Updated(rows, taskName, id, version, u)[j]
         == if rows[j].HasKeyAndVersion(taskName, id, version) then Rescheduled(rows[j], u) else rows[j]
  {
    if j < |rows| - 1 {
      UpdatedAt(Init(rows), taskName, id, version, u, j);
    }
  }

  lemma UpdatedKeepsKeysUnique(rows: seq<Execution>, taskName: string, id: string, version: int, u: RescheduleValues)
    requires KeysUnique(rows)
    ensures KeysUnique(Updated(rows, taskName, id, version, u))
  {
    var r := Updated(rows, taskName, id, version, u);
    forall j | 0 <= j < |rows|
      ensures r[j].taskInstance.taskName == rows[j].taskInstance.taskName && r[j].taskInstance.id == rows[j].taskInstance.id
    {
      UpdatedAt(rows, taskName, id, version, u, j);
    }
  }

  // ---------------------------------------------------------------------
  // What getExecution answers.

  /** With at most one row per key, at most one row matches. */
  lemma {:induction false} AtMostOneMatches(rows: seq<Execution>, taskName: string, id: string)
    requires AtMostOneWithKey(rows, taskName, id)
    ensures |Matching(rows, taskName, id)| <= 1
  {
    if rows != [] {
      var init := Init(rows);
      assert AtMostOneWithKey(init, taskName, id) by {
        forall j, k | 0 <= j < k < |init| && init[j].HasKey(taskName, id)
          ensures !init[k].HasKey(taskName, id)
        {
          assert init[j] == rows[j] && init[k] == rows[k];
        }
      }
      AtMostOneMatches(init, taskName, id);
      if Last(rows).HasKey(taskName, id) {
        forall e | e in init
          ensures !e.HasKey(taskName, id)
        {
          var j :| 0 <= j < |init| && init[j] == e;
          assert rows[j] == e && rows[|rows| - 1] == Last(rows);
        }
        NoRowNoMatch(init, taskName, id);
      }
    }
  }

  lemma {:induction false} NoRowNoMatch(rows: seq<Execution>, taskName: string, id: string)
    requires forall e :: e in rows ==> !e.HasKey(taskName, id)
    ensures Matching(rows, taskName, id) == []
  {
    if rows != [] {
      assert Last(rows) in rows;
      NoRowNoMatch(Init(rows), taskName, id);
    }
  }

  /** Two rows with the key make at least two matches. */
  lemma {:induction false} TwoRowsTwoMatches(rows: seq<Execution>, taskName: string, id: string, j: int, k: int)
    requires 0 <= j < k < |rows|
    requires rows[j].HasKey(taskName, id) && rows[k].HasKey(taskName, id)
    ensures |Matching(rows, taskName, id)| >= 2
  {
    var init := Init(rows);
    if k < |rows| - 1 {
      assert init[j] == rows[j] && init[k] == rows[k];
      TwoRowsTwoMatches(init, taskName, id, j, k);
    } else {
      assert init[j] == rows[j];
      assert init[j] in Matching(init, taskName, id);
    }
  }

  /**
   * `getExecution` fails exactly when two rows carry the key: it never
   * returns one of several matching rows.
   */
  lemma LookupFailsIffDuplicateKey(rows: seq<Execution>, taskName: string, id: string)
    ensures Lookup(rows, taskName, id).Err? <==> !AtMostOneWithKey(rows, taskName, id)
    ensures Lookup(rows, taskName, id).Err? ==> Lookup(rows, taskName, id).error == MoreThanOneExecution(taskName, id)
  {
    if AtMostOneWithKey(rows, taskName, id) {
      AtMostOneMatches(rows, taskName, id);
    } else {
      var j, k :| 0 <= j < k < |rows| && rows[j].HasKey(taskName, id) && rows[k].HasKey(taskName, id);
      TwoRowsTwoMatches(rows, taskName, id, j, k);
    }
  }

  /**
   * Two stored rows with one key: `getExecution` fails, naming the task name
   * and the instance id in its message.
   */
  lemma DuplicateKeyReported(rows: seq<Execution>, taskName: string, id: string, j: int, k: int)
    requires 0 <= j < k < |rows|
    requires rows[j].HasKey(taskName, id) && rows[k].HasKey(taskName, id)
    ensures Lookup(rows, taskName, id).Err?
    ensures Lookup(rows, taskName, id).error.Message()
         == "Found more than one matching execution for task name/id combination: '" + taskName + "'/'" + id + "'"
  {
    TwoRowsTwoMatches(rows, taskName, id, j, k);
  }

  /** With unique keys `getExecution` always answers, with the stored row or with none. */
  lemma UniqueKeysLookupAnswers(rows: seq<Execution>, taskName: string, id: string)
    requires KeysUnique(rows)
    ensures Lookup(rows, taskName, id).Ok?
    ensures |Matching(rows, taskName, id)| <= 1
  {
    AtMostOneMatches(rows, taskName, id);
  }

  /** A found row is a stored row with the key; none is found exactly when no stored row has the key. */
  lemma LookupAnswersFromTable(rows: seq<Execution>, taskName: string, id: string)
    ensures Lookup(rows, taskName, id) == Ok(None) <==> forall e :: e in rows ==> !e.HasKey(taskName, id)
    ensures Lookup(rows, taskName, id).Ok? && Lookup(rows, taskName, id).value.Some? ==>
      var e := Lookup(rows, taskName, id).value.value; e in rows && e.HasKey(taskName, id)
  {
    var m := Matching(rows, taskName, id);
    if m != [] {
      assert m[0] in m;
    }
  }

  // ---------------------------------------------------------------------
  // The version check of remove and reschedule.

  /** `getExecution` returns a row for the key, and that row has the version. */
  predicate StoredVersionIs(rows: seq<Execution>, taskName: string, id: string, version: int) {
    var l := Lookup(rows, taskName, id);
    l.Ok? && l.value.Some? && l.value.value.version == version
  }

  lemma {:induction false} CountWhereAtMostMatching(rows: seq<Execution>, taskName: string, id: string, version: int)
    ensures CountWhere(rows, taskName, id, version) <= |Matching(rows, taskName, id)|
  {
    if rows != [] {
      CountWhereAtMostMatching(Init(rows), taskName, id, version);
    }
  }

  lemma {:induction false} CountWherePositive(rows: seq<Execution>, taskName: string, id: string, version: int)
    ensures CountWhere(rows, taskName, id, version) > 0 <==> exists e :: e in rows && e.HasKeyAndVersion(taskName, id, version)
  {
    if rows != [] {
      var init := Init(rows);
      CountWherePositive(init, taskName, id, version);
      assert rows == init + [Last(rows)];
    }
  }

  /**
   * With unique keys a key-and-version write selects at most one row, and
   * exactly one when the stored row for the key still has that version.
   */
  lemma VersionCheckSelectsStoredRow(rows: seq<Execution>, taskName: string, id: string, version: int)
    requires KeysUnique(rows)
    ensures CountWhere(rows, taskName, id, version) <= 1
    ensures CountWhere(rows, taskName, id, version) == 1 <==> StoredVersionIs(rows, taskName, id, version)
  {
    UniqueKeysLookupAnswers(rows, taskName, id);
    CountWhereAtMostMatching(rows, taskName, id, version);
    CountWherePositive(rows, taskName, id, version);
    LookupAnswersFromTable(rows, taskName, id);
    var m := Matching(rows, taskName, id);
    if CountWhere(rows, taskName, id, version) == 1 {
      var e :| e in rows && e.HasKeyAndVersion(taskName, id, version);
      assert e in m;
    }
  }

  /** A write whose condition selects no row changes nothing. */
  lemma {:induction false} NothingSelectedNothingChanges(rows: seq<Execution>, taskName: string, id: string, version: int, u: RescheduleValues)
    requires CountWhere(rows, taskName, id, version) == 0
    ensures Deleted(rows, taskName, id, version) == rows
    ensures Updated(rows, taskName, id, version, u) == rows
  {
    if rows != [] {
      NothingSelectedNothingChanges(Init(rows), taskName, id, version, u);
      assert rows == Init(rows) + [Last(rows)];
    }
  }

  /**
   * A stale write (the stored row for the key has another version, or there
   * is none) deletes or updates nothing and reports the bug with count 0.
   */
  lemma StaleWriteChangesNothing(rows: seq<Execution>, execution: Execution, u: RescheduleValues)
    requires KeysUnique(rows)
    requires !StoredVersionIs(rows, execution.taskInstance.taskName, execution.taskInstance.id, execution.version)
    ensures RemoveResult(rows, execution) == (Fail(UnexpectedRemoveCount(0)), rows)
    ensures RescheduleResult(rows, execution, u) == (Fail(UnexpectedUpdateCount(0)), rows)
  {
    var k := execution.taskInstance;
    VersionCheckSelectsStoredRow(rows, k.taskName, k.id, execution.version);
    NothingSelectedNothingChanges(rows, k.taskName, k.id, execution.version, u);
  }

  /** The delete selects by key, so the rows of any other key are kept, in order. */
  lemma {:induction false} DeletedKeepsOtherMatches(rows: seq<Execution>, taskName: string, id: string, version: int, otherName: string, otherId: string)
    requires otherName != taskName || otherId != id
    ensures Matching(Deleted(rows, taskName, id, version), otherName, otherId) == Matching(rows, otherName, otherId)
  {
    if rows != [] {
      var init, last := Init(rows), Last(rows);
      DeletedKeepsOtherMatches(init, taskName, id, version, otherName, otherId);
      var kept := Deleted(init, taskName, id, version);
      if !last.HasKeyAndVersion(taskName, id, version) {
        MatchingAppend(kept, last, otherName, otherId);
      } else {
        assert kept + [] == kept;
      }
    }
  }

  /** A remove never changes what `getExecution` answers for another key. */
  lemma RemoveKeepsOtherLookups(rows: seq<Execution>, execution: Execution, taskName: string, id: string)
    requires taskName != execution.taskInstance.taskName || id != execution.taskInstance.id
    ensures Lookup(RemoveResult(rows, execution).1, taskName, id) == Lookup(rows, taskName, id)
  {
    var k := execution.taskInstance;
    DeletedKeepsOtherMatches(rows, k.taskName, k.id, execution.version, taskName, id);
  }

  /** Removing the row one holds (the one `getExecution` returned) succeeds, and the key is gone. */
  lemma RemoveOwnedRow(rows: seq<Execution>, execution: Execution)
    requires KeysUnique(rows)
    requires Lookup(rows, execution.taskInstance.taskName, execution.taskInstance.id) == Ok(Some(execution))
    ensures RemoveResult(rows, execution).0 == Pass
    ensures Lookup(RemoveResult(rows, execution).1, execution.taskInstance.taskName, execution.taskInstance.id) == Ok(None)
    ensures KeysUnique(RemoveResult(rows, execution).1)
  {
    var k := execution.taskInstance;
    VersionCheckSelectsStoredRow(rows, k.taskName, k.id, execution.version);
    DeletedKeepsKeysUnique(rows, k.taskName, k.id, execution.version);
    var kept := Deleted(rows, k.taskName, k.id, execution.version);
    LookupAnswersFromTable(rows, k.taskName, k.id);
    LookupAnswersFromTable(kept, k.taskName, k.id);
    UniqueKeysLookupAnswers(rows, k.taskName, k.id);
    var m := Matching(rows, k.taskName, k.id);
    assert |m| == 1 && m[0] == execution;
    forall e | e in kept
      ensures !e.HasKey(k.taskName, k.id)
    {
      assert e.HasKey(k.taskName, k.id) ==> e in m;
    }
  }

  /**
   * Rescheduling the row one holds succeeds; `getExecution` then returns that
   * row with the new values and the version advanced by exactly one, its
   * `task_data` replaced only by the overload with new data.
   */
  lemma RescheduleOwnedRow(rows: seq<Execution>, execution: Execution, u: RescheduleValues)
    requires KeysUnique(rows)
    requires Lookup(rows, execution.taskInstance.taskName, execution.taskInstance.id) == Ok(Some(execution))
    ensures RescheduleResult(rows, execution, u).0 == Pass
    ensures var after := RescheduleResult(rows, execution, u).1;
      && KeysUnique(after)
      && Lookup(after, execution.taskInstance.taskName, execution.taskInstance.id) == Ok(Some(Rescheduled(execution, u)))
    ensures Rescheduled(execution, u).version == execution.version + 1
    ensures !Rescheduled(execution, u).picked && Rescheduled(execution, u).pickedBy == None
    ensures Rescheduled(execution, u).executionTime == u.executionTime
    ensures Rescheduled(execution, u).taskInstance.data == if u.newData.Some? then u.newData.value else execution.taskInstance.data
  {
    var k := execution.taskInstance;
    VersionCheckSelectsStoredRow(rows, k.taskName, k.id, execution.version);
    LookupAnswersFromTable(rows, k.taskName, k.id);
    var after := Updated(rows, k.taskName, k.id, execution.version, u);
    UpdatedKeepsKeysUnique(rows, k.taskName, k.id, execution.version, u);
    var j :| 0 <= j < |rows| && rows[j] == execution;
    UpdatedAt(rows, k.taskName, k.id, execution.version, u, j);
    assert after[j] in Matching(after, k.taskName, k.id);
    UniqueKeysLookupAnswers(after, k.taskName, k.id);
  }

  // ---------------------------------------------------------------------
  // createIfNotExists.

  lemma MatchingAppend(rows: seq<Execution>, row: Execution, taskName: string, id: string)
    ensures Matching(rows + [row], taskName, id) == Matching(rows, taskName, id) + (if row.HasKey(taskName, id) then [row] else [])
  {
    assert Init(rows + [row]) == rows;
  }

  /** With no row for the key, `createIfNotExists` without an insert fault appends the new row, which `getExecution` then finds. */
  lemma CreateInsertsWhenAbsent(rows: seq<Execution>, instance: TaskInstance, executionTime: int)
    requires Lookup(rows, instance.taskName, instance.id) == Ok(None)
    ensures CreateResult(rows, instance, executionTime, None) == (Ok(true), rows + [NewRow(instance, executionTime)])
    ensures Lookup(rows + [NewRow(instance, executionTime)], instance.taskName, instance.id) == Ok(Some(NewRow(instance, executionTime)))
    ensures KeysUnique(rows) ==> KeysUnique(rows + [NewRow(instance, executionTime)])
  {
    var name, id := instance.taskName, instance.id;
    var row := NewRow(instance, executionTime);
    MatchingAppend(rows, row, name, id);
    assert Matching(rows, name, id) == [];
    assert Matching(rows + [row], name, id) == [row];
    if KeysUnique(rows) {
      InsertKeepsKeysUnique(rows, row);
    }
  }

  /** With a row for the key on a table with unique keys, `createIfNotExists` answers false and writes nothing. */
  lemma CreateKeepsWhenPresent(rows: seq<Execution>, instance: TaskInstance, executionTime: int, insertFault: Option<SqlError>)
    requires KeysUnique(rows)
    requires Lookup(rows, instance.taskName, instance.id) != Ok(None)
    ensures Lookup(rows, instance.taskName, instance.id).Ok?
    ensures Lookup(rows, instance.taskName, instance.id).value.Some?
    ensures CreateResult(rows, instance, executionTime, insertFault) == (Ok(false), rows)
  {
    UniqueKeysLookupAnswers(rows, instance.taskName, instance.id);
  }

  /**
   * On a table with unique keys, `createIfNotExists` without an insert fault
   * inserts the new row exactly when no row has its key, and afterwards
   * `getExecution` finds a row for the key either way.
   */
  lemma CreateThenLookup(rows: seq<Execution>, instance: TaskInstance, executionTime: int)
    requires KeysUnique(rows)
    ensures var c := CreateResult(rows, instance, executionTime, None);
      && c.0.Ok?
      && (c.0.value <==> Lookup(rows, instance.taskName, instance.id) == Ok(None))
      && (c.0.value ==> Lookup(c.1, instance.taskName, instance.id) == Ok(Some(NewRow(instance, executionTime))))
      && (!c.0.value ==> c.1 == rows && Lookup(c.1, instance.taskName, instance.id).value.Some?)
      && KeysUnique(c.1)
  {
    if Lookup(rows, instance.taskName, instance.id) == Ok(None) {
      CreateInsertsWhenAbsent(rows, instance, executionTime);
    } else {
      CreateKeepsWhenPresent(rows, instance, executionTime, None);
    }
  }

  /**
   * When the lookup finds no row and the insert throws, the repository throws
   * "Failed to add new execution." with the insert's exception as its cause,
   * and the table is unchanged.
   */
  lemma FailedInsertKeepsCause(rows: seq<Execution>, instance: TaskInstance, executionTime: int, cause: SqlError)
    requires Lookup(rows, instance.taskName, instance.id) == Ok(None)
    ensures var (r, after) := CreateResult(rows, instance, executionTime, Some(cause));
      && r.Err?
      && r.error.Message() == "Failed to add new execution."
      && r.error.Cause() == Some(cause)
      && after == rows
  {
  }

  /** Scheduling the same instance twice on an empty table stores one row; the second call reports it exists. */
  lemma DoubleCreateScenario(executionTime: int)
    ensures var instance := TaskInstance("greet", "job-507", NoData);
      var c1 := CreateResult([], instance, executionTime, None);
      var c2 := CreateResult(c1.1, instance, executionTime, None);
      c1.0 == Ok(true) && c2.0 == Ok(false) && |c2.1| == 1
  {
    var instance := TaskInstance("greet", "job-507", NoData);
    var row := NewRow(instance, executionTime);
    assert Matching([], instance.taskName, instance.id) == [];
    CreateInsertsWhenAbsent([], instance, executionTime);
    assert [] + [row] == [row];
    CreateKeepsWhenPresent([row], instance, executionTime, None);
  }
}
