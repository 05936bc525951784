/**
 * The values the scheduler stores: task instances, execution rows and the
 * exceptions the repository raises.
 */
module Task {
  import opened Wrappers
  import Decimal

  /**
   * The serialized payload of a task instance. The store never looks inside
   * it; `JobId` is the payload of the job-chaining example and `Serialized`
   * stands for any other object.
   */
  datatype TaskData = NoData | JobId(id: int) | Serialized(bytes: seq<bv8>)

  /** Identity of a schedulable unit; `(taskName, id)` is its key. */
  datatype TaskInstance = TaskInstance(taskName: string, id: string, data: TaskData)

  /**
   * One row of the execution table. Instants are milliseconds since the
   * epoch; a nullable column is an `Option`.
   */
  datatype Execution = Execution(
    taskInstance: TaskInstance,
    executionTime: int,
    picked: bool,
    pickedBy: Option<string>,
    lastHeartbeat: Option<int>,
    lastSuccess: Option<int>,
    lastFailure: Option<int>,
    consecutiveFailures: int,
    version: int)
  {
    /** The `where task_name = ? and task_instance = ?` condition. */
    predicate HasKey(taskName: string, id: string) {
      taskInstance.taskName == taskName && taskInstance.id == id
    }

    /** The key-and-version condition of the delete and update statements. */
    predicate HasKeyAndVersion(taskName: string, id: string, v: int) {
      HasKey(taskName, id) && version == v
    }
  }

  /** An exception thrown by the JDBC layer (`SQLRuntimeException`). */
  datatype SqlError = SqlError(message: string)

  /** The repository's `ExecutionException`s. */
  datatype ExecutionException =
    | FailedToAddNewExecution(sqlCause: SqlError)
    | MoreThanOneExecution(taskName: string, id: string)
    | UnexpectedRemoveCount(removed: nat)
    | UnexpectedUpdateCount(updated: nat)
  {
    function Message(): string {
      match this
      case FailedToAddNewExecution(_) => "Failed to add new execution."
      case MoreThanOneExecution(n, i) =>
        "Found more than one matching execution for task name/id combination: '" + n + "'/'" + i + "'"
      case UnexpectedRemoveCount(k) =>
        "Expected one execution to be removed, but removed " + Decimal.NatToString(k) + ". Indicates a bug."
      case UnexpectedUpdateCount(k) =>
        "Expected one execution to be updated, but updated " + Decimal.NatToString(k) + ". Indicates a bug."
    }

    /** `getCause()`: only a failed insert wraps another exception. */
    function Cause(): Option<SqlError> {
      if FailedToAddNewExecution? then Some(sqlCause) else None
    }
  }

  /** Cutting a known prefix and suffix off a string recovers its middle. */
  lemma MiddleOf(prefix: string, x: string, y: string, suffix: string)
    requires prefix + x + suffix == prefix + y + suffix
    ensures x == y
  {
    var s := prefix + x + suffix;
    assert x == s[|prefix|..|s| - |suffix|];
    assert y == (prefix + y + suffix)[|prefix|..|s| - |suffix|];
  }

  /**
   * The consistency-violation messages name the affected-row count: two
   * different counts never produce the same message, and a remove message is
   * never an update message.
   */
  lemma CountMessagesDetermineCount(e1: ExecutionException, e2: ExecutionException)
    requires e1.UnexpectedRemoveCount? || e1.UnexpectedUpdateCount?
    requires e2.UnexpectedRemoveCount? || e2.UnexpectedUpdateCount?
    ensures e1.Message() == e2.Message() ==> e1 == e2
  {
    var rm := "Expected one execution to be removed, but removed ";
    var up := "Expected one execution to be updated, but updated ";
    var tail := ". Indicates a bug.";
    if e1.UnexpectedRemoveCount? != e2.UnexpectedRemoveCount? {
      assert e1.Message()[29] != e2.Message()[29];
    } else if e1.Message() == e2.Message() {
      if e1.UnexpectedRemoveCount? {
        MiddleOf(rm, Decimal.NatToString(e1.removed), Decimal.NatToString(e2.removed), tail);
        Decimal.NatToStringInjective(e1.removed, e2.removed);
      } else {
        MiddleOf(up, Decimal.NatToString(e1.updated), Decimal.NatToString(e2.updated), tail);
        Decimal.NatToStringInjective(e1.updated, e2.updated);
      }
    }
  }

  /**
   * The remove messages the repository's tests expect for the affected-row
   * counts 0 and 2, built as the tests build them: fixed text around the count.
   */
  lemma RemoveCountMessages()
    ensures UnexpectedRemoveCount(0).Message() == "Expected one execution to be removed, but removed " + "0" + ". Indicates a bug."
    ensures UnexpectedRemoveCount(2).Message() == "Expected one execution to be removed, but removed " + "2" + ". Indicates a bug."
  {
    Decimal.SmallNumbers();
  }

  /** The update messages the repository's tests expect for the affected-row counts 0 and 2. */
  lemma UpdateCountMessages()
    ensures UnexpectedUpdateCount(0).Message() == "Expected one execution to be updated, but updated " + "0" + ". Indicates a bug."
    ensures UnexpectedUpdateCount(2).Message() == "Expected one execution to be updated, but updated " + "2" + ". Indicates a bug."
  {
    Decimal.SmallNumbers();
  }
}
