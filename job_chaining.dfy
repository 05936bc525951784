/**
 * Job chaining with separate tasks: step 1 completes by replacing its
 * execution with an instance of step 2 (same id, same data), and step 2
 * completes by removing its execution.
 */
module JobChaining {
  import opened Wrappers
  import opened Task
  import opened TaskRepository

  const Step1TaskName: string := "job-step-1"
  const Step2TaskName: string := "job-step-2"

  /** The job the example schedules. */
  const ExampleJob: TaskInstance := TaskInstance(Step1TaskName, "job-507", JobId(507))

  /**
   * What a task's execute body hands back to the scheduler. The chaining
   * handler's target task name is a field of an immutable value: it is fixed
   * when the handler is constructed.
   */
  datatype CompletionHandler =
    | OnCompleteRemove
    | OnCompleteRemoveAndCreateNextStep(newTaskName: string)

  /** Step 1's execute body. */
  function Step1Execute(instance: TaskInstance): CompletionHandler {
    OnCompleteRemoveAndCreateNextStep(Step2TaskName)
  }

  /** Step 2's execute body. */
  function Step2Execute(instance: TaskInstance): CompletionHandler {
    OnCompleteRemove
  }

  /** The execute body registered under the instance's task name, run on it; `None` for an unknown task. */
  function Execute(instance: TaskInstance): Option<CompletionHandler> {
    if instance.taskName == Step1TaskName then Some(Step1Execute(instance))
    else if instance.taskName == Step2TaskName then Some(Step2Execute(instance))
    else None
  }

  /** The instance the chaining handler schedules: its own task name, the completed instance's id and data. */
  function NextInstance(newTaskName: string, completed: TaskInstance): (r: TaskInstance)
    ensures r.taskName == newTaskName
    ensures r.(taskName := completed.taskName) == completed
  {
    TaskInstance(newTaskName, completed.id, completed.data)
  }

  /**
   * Result and new table of `removeAndScheduleNew`: create the new instance if
   * absent, then remove the completed execution. Inserting first means a
   * failed insert leaves the completed execution in place.
   */
  function RemoveAndScheduleNewResult(rows: seq<Execution>, execution: Execution, next: TaskInstance, executionTime: int, insertFault: Option<SqlError>)
    : (Outcome<ExecutionException>, seq<Execution>)
  {
    var (created, afterCreate) := CreateResult(rows, next, executionTime, insertFault);
    if created.Err? then (Fail(created.error), afterCreate)
    else RemoveResult(afterCreate, execution)
  }

  /** Result and new table of a handler's `complete` for the completed execution. */
  function CompleteResult(handler: CompletionHandler, rows: seq<Execution>, completed: Execution, now: int, insertFault: Option<SqlError>)
    : (Outcome<ExecutionException>, seq<Execution>)
  {
    match handler
    case OnCompleteRemove => RemoveResult(rows, completed)
    case OnCompleteRemoveAndCreateNextStep(newTaskName) =>
      RemoveAndScheduleNewResult(rows, completed, NextInstance(newTaskName, completed.taskInstance), now, insertFault)
  }

  /** The store operations a completion handler may apply to the execution that just ran. */
  class ExecutionOperations {
    const repository: JdbcTaskRepository
    const execution: Execution

    constructor (repository: JdbcTaskRepository, execution: Execution)
      ensures this.repository == repository && this.execution == execution
    {
      this.repository := repository;
      this.execution := execution;
    }

    method Remove() returns (r: Outcome<ExecutionException>)
      modifies repository
      ensures (r, repository.rows) == RemoveResult(old(repository.rows), execution)
      ensures old(KeysUnique(repository.rows)) ==> KeysUnique(repository.rows)
    {
      r := repository.Remove(execution);
    }

    method RemoveAndScheduleNew(next: TaskInstance, executionTime: int, insertFault: Option<SqlError>)
      returns (r: Outcome<ExecutionException>)
      modifies repository
      ensures (r, repository.rows) == RemoveAndScheduleNewResult(old(repository.rows), execution, next, executionTime, insertFault)
      ensures old(KeysUnique(repository.rows)) ==> KeysUnique(repository.rows)
    {
      var created := repository.CreateIfNotExists(next, executionTime, insertFault);
      if created.Err? {
        r := Fail(created.error);
      } else {
        r := repository.Remove(execution);
      }
    }
  }

  /**
   * `complete` for the execution the operations act on (the completed one):
   * a plain remove, or remove-and-schedule of the next instance for the
   * chaining handler. `now` is the instant the next instance is scheduled to.
   */
  method Complete(handler: CompletionHandler, operations: ExecutionOperations, now: int, insertFault: Option<SqlError>)
    returns (r: Outcome<ExecutionException>)
    modifies operations.repository
    ensures (r, operations.repository.rows) == CompleteResult(handler, old(operations.repository.rows), operations.execution, now, insertFault)
    ensures old(KeysUnique(operations.repository.rows)) ==> KeysUnique(operations.repository.rows)
  {
    match handler
    case OnCompleteRemove =>
      r := operations.Remove();
    case OnCompleteRemoveAndCreateNextStep(newTaskName) =>
      var nextInstance := NextInstance(newTaskName, operations.execution.taskInstance);
      r := operations.RemoveAndScheduleNew(nextInstance, now, insertFault);
  }

  // ---------------------------------------------------------------------
  // Properties.

  /**
   * Completing the held execution with the chaining handler succeeds and
   * removes the completed key. With a different task name the next instance
   * is then scheduled under it with the completed instance's id and data (a
   * fresh row unless one was already there). With the same task name the
   * next key is the completed key, so the create finds the held row and
   * writes nothing, and the remove then deletes it.
   */
  lemma ChainingReplacesExecution(rows: seq<Execution>, completed: Execution, newTaskName: string, now: int)
    requires KeysUnique(rows)
    requires Lookup(rows, completed.taskInstance.taskName, completed.taskInstance.id) == Ok(Some(completed))
    ensures var c := CompleteResult(OnCompleteRemoveAndCreateNextStep(newTaskName), rows, completed, now, None);
      var k := completed.taskInstance;
      && c.0 == Pass
      && KeysUnique(c.1)
      && Lookup(c.1, k.taskName, k.id) == Ok(None)
      && (newTaskName != k.taskName ==>
            && Lookup(c.1, newTaskName, k.id).Ok? && Lookup(c.1, newTaskName, k.id).value.Some?
            && (Lookup(rows, newTaskName, k.id) == Ok(None) ==>
                  Lookup(c.1, newTaskName, k.id) == Ok(Some(NewRow(TaskInstance(newTaskName, k.id, k.data), now)))))
  {
    var k := completed.taskInstance;
    var next := NextInstance(newTaskName, k);
    CreateThenLookup(rows, next, now);
    var afterCreate := CreateResult(rows, next, now, None).1;
    if newTaskName != k.taskName {
      assert afterCreate == rows || afterCreate == rows + [NewRow(next, now)];
      MatchingAppend(rows, NewRow(next, now), k.taskName, k.id);
      assert Lookup(afterCreate, k.taskName, k.id) == Ok(Some(completed));
      RemoveOwnedRow(afterCreate, completed);
      RemoveKeepsOtherLookups(afterCreate, completed, newTaskName, k.id);
    } else {
      CreateKeepsWhenPresent(rows, next, now, None);
      RemoveOwnedRow(rows, completed);
    }
  }

  /**
   * Because the next instance is inserted before the completed execution is
   * removed, an insert that throws is reported with its cause and leaves the
   * table, the completed execution included, as it was.
   */
  lemma FailedInsertKeepsExecution(rows: seq<Execution>, completed: Execution, newTaskName: string, now: int, cause: SqlError)
    requires Lookup(rows, completed.taskInstance.taskName, completed.taskInstance.id) == Ok(Some(completed))
    requires Lookup(rows, newTaskName, completed.taskInstance.id) == Ok(None)
    ensures var c := CompleteResult(OnCompleteRemoveAndCreateNextStep(newTaskName), rows, completed, now, Some(cause));
      && c.0 == Fail(FailedToAddNewExecution(cause))
      && c.1 == rows
      && Lookup(c.1, completed.taskInstance.taskName, completed.taskInstance.id) == Ok(Some(completed))
  {
  }

  /** Step 1 hands over to step 2; step 2 removes; no other task is registered. */
  lemma StepsCompleteAsDeclared(instance: TaskInstance)
    ensures instance.taskName == "job-step-1" ==> Execute(instance) == Some(OnCompleteRemoveAndCreateNextStep("job-step-2"))
    ensures instance.taskName == "job-step-2" ==> Execute(instance) == Some(OnCompleteRemove)
    ensures instance.taskName != "job-step-1" && instance.taskName != "job-step-2" ==> Execute(instance) == None
  {
  }

  /**
   * The example end to end: scheduling job 507 stores one step-1 execution;
   * running it leaves exactly a step-2 execution with the same id and data;
   * running that leaves no execution of the job.
   */
  lemma ExampleJobRunsBothSteps(scheduledAt: int, step1Done: int, step2Done: int)
    ensures var (created, t0) := CreateResult([], ExampleJob, scheduledAt, None);
      created == Ok(true) && t0 == [NewRow(ExampleJob, scheduledAt)]
    ensures var t0 := [NewRow(ExampleJob, scheduledAt)];
      var step2Job := TaskInstance("job-step-2", "job-507", JobId(507));
      var (r1, t1) := CompleteResult(Execute(ExampleJob).value, t0, t0[0], step1Done, None);
      r1 == Pass && t1 == [NewRow(step2Job, step1Done)]
    ensures var step2Row := NewRow(TaskInstance("job-step-2", "job-507", JobId(507)), step1Done);
      var (r2, t2) := CompleteResult(Execute(step2Row.taskInstance).value, [step2Row], step2Row, step2Done, None);
      r2 == Pass && t2 == []
  {
    var row1 := NewRow(ExampleJob, scheduledAt);
    assert Matching([], Step1TaskName, "job-507") == [];
    assert Init([row1]) == [];
    assert Matching([row1], Step1TaskName, "job-507") == [row1];
    assert CountWhere([row1], Step1TaskName, "job-507", 1) == 1;
    assert Deleted([row1], Step1TaskName, "job-507", 1) == [];
    var step2Job := TaskInstance(Step2TaskName, "job-507", JobId(507));
    assert Matching([], Step2TaskName, "job-507") == [];
    var row2 := NewRow(step2Job, step1Done);
    assert Init([row2]) == [];
    assert CountWhere([row2], Step2TaskName, "job-507", 1) == 1;
    assert Deleted([row2], Step2TaskName, "job-507", 1) == [];
  }
}
