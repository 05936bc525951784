# db-scheduler: execution store, query builder and job chaining

A Dafny model of three parts of db-scheduler, a persistent task scheduler
that keeps its task executions in a database table.

- **The execution store** (`JdbcTaskRepository`). It is a table of execution
  rows keyed by task name and instance id, and every row carries a `version`.
  - `createIfNotExists` looks the key up and inserts a fresh row only when
    there is none. An insert that throws is wrapped as "Failed to add new
    execution." with the original exception as its cause.
  - `getExecution` reads every row with the key. Two rows for one key are
    reported as an error; it never returns one of them arbitrarily.
  - `remove` deletes, and `reschedule` updates (with or without new task
    data), under the condition "same key and same version".
  - The update clears the pick, writes the new values and advances `version`
    by one.
  - Any affected-row count other than one is reported as "Expected one
    execution to be removed/updated, but removed/updated N. Indicates a bug."
- **The SELECT builder** (`QueryBuilder`). It is a value: the table, the
  conditions in the order they were added, and an optional order-by, limit
  and offset. It renders once as `select * from T [where c1 and c2 ...]
  [order by X] [limit n] [offset m]`.
  - A string-field condition renders as `<field>=?` and binds one parameter.
  - The renderings are compared after collapsing every run of whitespace to
    a single space.
- **Job chaining with separate tasks.**
  - Step 1 (`job-step-1`) completes with a handler. The handler schedules
    the same id and data under `job-step-2` and then removes the finished
    execution.
  - Step 2 completes by removing its execution.

Modules:
- `Wrappers`: `Option`, `Result` and `Outcome`.
- `Decimal`: Java's rendering of an integer in a string.
- `Task`: task instances, execution rows and the repository's exceptions with
  their messages.
- `TaskRepository`:
  - the table operations as specification functions over `seq<Execution>`;
  - the class `JdbcTaskRepository`, whose methods change its `rows` in place
    and are proved equal to those functions;
  - the lemmas about them.
- `QueryBuilder`: the query value, its rendering and the whitespace
  normaliser.
- `JobChaining`: the step bodies, the completion handlers, `ExecutionOperations`
  and the end-to-end run of the example job.

The table is a sequence, not a map, because the states that `getExecution`
and the affected-row checks defend against (two rows for one key) must be
representable. `KeysUnique` (no two rows share a key) is not assumed as an
invariant of the class. Every operation is proved to preserve it.

## Model

Paths are relative to the repository root. R is
`db-scheduler/src/test/java/com/github/kagkarlsson/scheduler/JdbcTaskRepositoryExceptionsTest.java`,
Q is `db-scheduler/src/test/java/com/github/kagkarlsson/scheduler/jdbc/QueryBuilderTest.java`,
and J is `examples/features/src/main/java/com/github/kagkarlsson/examples/JobChainingUsingSeparateTasksMain.java`.
The table cells spell each path out.

| member | source | states |
|---|---|---|
| TaskRepository.Matching | db-scheduler/src/test/java/com/github/kagkarlsson/scheduler/JdbcTaskRepositoryExceptionsTest.java:54 | The rows `where task_name = ? and task_instance = ?` selects are exactly the stored rows with that task name and id, and there are no more of them than rows. |
| TaskRepository.JdbcTaskRepository.GetExecution | db-scheduler/src/test/java/com/github/kagkarlsson/scheduler/JdbcTaskRepositoryExceptionsTest.java:67-78 | A scan of the rows answers what `Lookup` specifies: `MoreThanOneExecution(name, id)` when more than one row has the key, that row when exactly one has it, and none otherwise. The table is not changed. |
| TaskRepository.LookupFailsIffDuplicateKey | db-scheduler/src/test/java/com/github/kagkarlsson/scheduler/JdbcTaskRepositoryExceptionsTest.java:67-78 | `getExecution` fails if and only if two stored rows carry the key. Its failure is always `MoreThanOneExecution` for that key. |
| TaskRepository.DuplicateKeyReported | db-scheduler/src/test/java/com/github/kagkarlsson/scheduler/JdbcTaskRepositoryExceptionsTest.java:71-77 | When two rows have the key, the lookup fails with "Found more than one matching execution for task name/id combination: '<name>'/'<id>'". |
| TaskRepository.UniqueKeysLookupAnswers | db-scheduler/src/test/java/com/github/kagkarlsson/scheduler/JdbcTaskRepositoryExceptionsTest.java:67-78 | On a table with unique keys, `getExecution` never fails and at most one row matches. |
| TaskRepository.LookupAnswersFromTable | db-scheduler/src/test/java/com/github/kagkarlsson/scheduler/JdbcTaskRepositoryExceptionsTest.java:54-55 | The lookup finds nothing exactly when no stored row has the key. A row it returns is a stored row with the key. |
| TaskRepository.JdbcTaskRepository.CreateIfNotExists | db-scheduler/src/test/java/com/github/kagkarlsson/scheduler/JdbcTaskRepositoryExceptionsTest.java:52-65 | The result and the new rows are `CreateResult`, and unique keys stay unique. A failing lookup is passed on. An existing row gives `false` and no write. An insert fault gives `FailedToAddNewExecution(cause)` and no write. Otherwise `NewRow` is appended and the result is `true`. |
| TaskRepository.InsertKeepsKeysUnique | db-scheduler/src/test/java/com/github/kagkarlsson/scheduler/JdbcTaskRepositoryExceptionsTest.java:54-57 | Inserting after a lookup that found nothing keeps keys unique. |
| TaskRepository.CreateInsertsWhenAbsent | db-scheduler/src/test/java/com/github/kagkarlsson/scheduler/JdbcTaskRepositoryExceptionsTest.java:54-57 | With no row for the key and no fault, the new row is appended and the result is `true`. The row holds the instance and data and the execution time. For its other columns the model assumes `picked = false`, `version = 1`, no picker, heartbeat, success or failure, and no consecutive failures; the test does not check these values. A lookup then returns this row, and unique keys stay unique. |
| TaskRepository.CreateKeepsWhenPresent | db-scheduler/src/test/java/com/github/kagkarlsson/scheduler/JdbcTaskRepositoryExceptionsTest.java:54-55 | With a row for the key on a table with unique keys, the result is `false` and the table is unchanged, whatever the insert would have done. |
| TaskRepository.CreateThenLookup | db-scheduler/src/test/java/com/github/kagkarlsson/scheduler/JdbcTaskRepositoryExceptionsTest.java:52-65 | With no insert fault, create succeeds and inserts exactly when the lookup found nothing. Afterwards `getExecution` finds a row for the key, and it is the new row when one was inserted. Keys stay unique. |
| TaskRepository.FailedInsertKeepsCause | db-scheduler/src/test/java/com/github/kagkarlsson/scheduler/JdbcTaskRepositoryExceptionsTest.java:52-65 | When the lookup finds nothing and the insert throws, the error's message is "Failed to add new execution.", its cause is the insert's exception, and the table is unchanged. |
| TaskRepository.DoubleCreateScenario | db-scheduler/src/test/java/com/github/kagkarlsson/scheduler/JdbcTaskRepositoryExceptionsTest.java:52-57 | Creating the same instance twice on an empty table returns `true`, then `false`, and leaves one row. |
| TaskRepository.Deleted | db-scheduler/src/test/java/com/github/kagkarlsson/scheduler/JdbcTaskRepositoryExceptionsTest.java:83 | The delete keeps exactly the rows the key-and-version condition does not select. Kept rows plus selected rows add up to the table. |
| TaskRepository.DeleteWhere | db-scheduler/src/test/java/com/github/kagkarlsson/scheduler/JdbcTaskRepositoryExceptionsTest.java:83-84 | One pass over the table returns the surviving rows (`Deleted`) and the affected-row count (`CountWhere`). |
| TaskRepository.JdbcTaskRepository.Remove | db-scheduler/src/test/java/com/github/kagkarlsson/scheduler/JdbcTaskRepositoryExceptionsTest.java:80-90 | The new rows are the survivors of the key-and-version delete. The result is `Pass` exactly when one row was deleted, and otherwise `UnexpectedRemoveCount(n)` with the count. Keys stay unique. |
| TaskRepository.DeletedKeepsKeysUnique | db-scheduler/src/test/java/com/github/kagkarlsson/scheduler/JdbcTaskRepositoryExceptionsTest.java:83 | The delete keeps keys unique. |
| TaskRepository.CountWhereAtMostMatching | db-scheduler/src/test/java/com/github/kagkarlsson/scheduler/JdbcTaskRepositoryExceptionsTest.java:83 | The version condition never selects more rows than the key alone does. |
| TaskRepository.CountWherePositive | db-scheduler/src/test/java/com/github/kagkarlsson/scheduler/JdbcTaskRepositoryExceptionsTest.java:104-106 | The affected-row count is positive exactly when some row has both the key and the version. |
| TaskRepository.VersionCheckSelectsStoredRow | db-scheduler/src/test/java/com/github/kagkarlsson/scheduler/JdbcTaskRepositoryExceptionsTest.java:83-84 | With unique keys, a key-and-version write affects at most one row. It affects exactly one when the row `getExecution` returns for the key still has that version. |
| TaskRepository.NothingSelectedNothingChanges | db-scheduler/src/test/java/com/github/kagkarlsson/scheduler/JdbcTaskRepositoryExceptionsTest.java:83-106 | A delete or update that selects no row leaves the table as it was. |
| TaskRepository.StaleWriteChangesNothing | db-scheduler/src/test/java/com/github/kagkarlsson/scheduler/JdbcTaskRepositoryExceptionsTest.java:80-119 | Remove or reschedule with a stale version, or for a missing key, changes nothing. It reports `UnexpectedRemoveCount(0)` or `UnexpectedUpdateCount(0)`. |
| TaskRepository.RemoveOwnedRow | db-scheduler/src/test/java/com/github/kagkarlsson/scheduler/JdbcTaskRepositoryExceptionsTest.java:80-90 | Removing the row `getExecution` returned succeeds. The key is then gone and keys stay unique. |
| TaskRepository.DeletedKeepsOtherMatches | db-scheduler/src/test/java/com/github/kagkarlsson/scheduler/JdbcTaskRepositoryExceptionsTest.java:83 | The key-and-version delete keeps exactly the rows of every other key. |
| TaskRepository.RemoveKeepsOtherLookups | db-scheduler/src/test/java/com/github/kagkarlsson/scheduler/JdbcTaskRepositoryExceptionsTest.java:80-90 | Removing one execution does not change what `getExecution` answers for any other key. |
| TaskRepository.Updated | db-scheduler/src/test/java/com/github/kagkarlsson/scheduler/JdbcTaskRepositoryExceptionsTest.java:95-106 | The update rewrites rows in place, so the table keeps its length. |
| TaskRepository.UpdatedAt | db-scheduler/src/test/java/com/github/kagkarlsson/scheduler/JdbcTaskRepositoryExceptionsTest.java:95-106 | After the update, each row is rescheduled if it matched key and version, and unchanged otherwise. |
| TaskRepository.UpdatedKeepsKeysUnique | db-scheduler/src/test/java/com/github/kagkarlsson/scheduler/JdbcTaskRepositoryExceptionsTest.java:103-106 | The update never changes a key, so it keeps keys unique. |
| TaskRepository.UpdateWhere | db-scheduler/src/test/java/com/github/kagkarlsson/scheduler/JdbcTaskRepositoryExceptionsTest.java:95-108 | One in-place pass over the table gives the updated table (`Updated`) and the affected-row count (`CountWhere`). |
| TaskRepository.JdbcTaskRepository.RescheduleInternal | db-scheduler/src/test/java/com/github/kagkarlsson/scheduler/JdbcTaskRepositoryExceptionsTest.java:95-108 | The new rows are the table after the key-and-version update. The result is `Pass` exactly when one row was updated, and otherwise `UnexpectedUpdateCount(n)`. Keys stay unique. |
| TaskRepository.JdbcTaskRepository.Reschedule | db-scheduler/src/test/java/com/github/kagkarlsson/scheduler/JdbcTaskRepositoryExceptionsTest.java:92-120 | `reschedule` without new data is that update, with `task_data` left as stored. |
| TaskRepository.JdbcTaskRepository.RescheduleWithData | db-scheduler/src/test/java/com/github/kagkarlsson/scheduler/JdbcTaskRepositoryExceptionsTest.java:122-152 | `reschedule` with new data is the same update, and it also replaces `task_data`. |
| TaskRepository.RescheduleOwnedRow | db-scheduler/src/test/java/com/github/kagkarlsson/scheduler/JdbcTaskRepositoryExceptionsTest.java:95-137 | Rescheduling the row `getExecution` returned succeeds, and the lookup then returns it rescheduled. The new row has `version + 1`, is not picked and has no picker, and carries the new execution time. Its `task_data` is replaced only by the overload with data. Keys stay unique. |
| Task.CountMessagesDetermineCount | db-scheduler/src/test/java/com/github/kagkarlsson/scheduler/JdbcTaskRepositoryExceptionsTest.java:80-119 | Two count messages that are equal come from the same exception. A remove message is never an update message, and the count is recoverable from the text. |
| Task.RemoveCountMessages | db-scheduler/src/test/java/com/github/kagkarlsson/scheduler/JdbcTaskRepositoryExceptionsTest.java:80-90 | For the counts 0 and 2, the remove message is the tests' fixed text with the count between. |
| Task.UpdateCountMessages | db-scheduler/src/test/java/com/github/kagkarlsson/scheduler/JdbcTaskRepositoryExceptionsTest.java:110-151 | For the counts 0 and 2, the update message is the tests' fixed text with the count between. |
| Task.ExecutionException.Message | db-scheduler/src/test/java/com/github/kagkarlsson/scheduler/JdbcTaskRepositoryExceptionsTest.java:63-151 | The four exception messages. It has no contract of its own; `FailedInsertKeepsCause`, `DuplicateKeyReported`, `CountMessagesDetermineCount` and the count-message lemmas state them. |
| Decimal.NatToString | db-scheduler/src/test/java/com/github/kagkarlsson/scheduler/JdbcTaskRepositoryExceptionsTest.java:89 | A count renders as a non-empty string of digits. It has no leading zero unless the count is 0, and it is a single digit exactly below 10. |
| Decimal.ParseNatToString | db-scheduler/src/test/java/com/github/kagkarlsson/scheduler/JdbcTaskRepositoryExceptionsTest.java:89 | Reading the rendered digits back gives the count. |
| Decimal.NatToStringInjective | db-scheduler/src/test/java/com/github/kagkarlsson/scheduler/JdbcTaskRepositoryExceptionsTest.java:89 | Different counts render differently. |
| Decimal.IntToString | db-scheduler/src/test/java/com/github/kagkarlsson/scheduler/jdbc/QueryBuilderTest.java:31-44 | An `int` renders as a `-` exactly when it is negative, then digits only. Reading the digits back gives the number for a non-negative `int` and its negation for a negative one. |
| Decimal.IntToStringInjective | db-scheduler/src/test/java/com/github/kagkarlsson/scheduler/jdbc/QueryBuilderTest.java:31-44 | Different `int`s render differently. |
| QueryBuilder.Condition.SetParameters | db-scheduler/src/test/java/com/github/kagkarlsson/scheduler/jdbc/QueryBuilderTest.java:66-68 | The values are bound in order from `index`, and the next free index `index + |values|` is returned. Other parameters are untouched and no others are set. |
| QueryBuilder.StringFieldBindsOne | db-scheduler/src/test/java/com/github/kagkarlsson/scheduler/jdbc/QueryBuilderTest.java:58-71 | A string-field condition renders as `<field>=?`, binds exactly its value at `index` and returns `index + 1`. |
| QueryBuilder.JoinPartsAppend | db-scheduler/src/test/java/com/github/kagkarlsson/scheduler/jdbc/QueryBuilderTest.java:24-29 | A further condition is joined at the end with " and ". |
| QueryBuilder.SelectFromTable | db-scheduler/src/test/java/com/github/kagkarlsson/scheduler/jdbc/QueryBuilderTest.java:14 | A new builder is for the given table and renders exactly `select * from <table>`. |
| QueryBuilder.Query.AndCondition | db-scheduler/src/test/java/com/github/kagkarlsson/scheduler/jdbc/QueryBuilderTest.java:20-29 | The condition is added after the earlier ones, and no other part of the builder changes. |
| QueryBuilder.Query.OrderBy | db-scheduler/src/test/java/com/github/kagkarlsson/scheduler/jdbc/QueryBuilderTest.java:16-18 | The order-by expression is set, and no other part of the builder changes. |
| QueryBuilder.Query.Limit | db-scheduler/src/test/java/com/github/kagkarlsson/scheduler/jdbc/QueryBuilderTest.java:31-34 | The limit is set, and no other part of the builder changes. |
| QueryBuilder.Query.Offset | db-scheduler/src/test/java/com/github/kagkarlsson/scheduler/jdbc/QueryBuilderTest.java:36-39 | The offset is set, and no other part of the builder changes. |
| QueryBuilder.Query.GetQuery | db-scheduler/src/test/java/com/github/kagkarlsson/scheduler/jdbc/QueryBuilderTest.java:14-55 | The rendering: the select and where clause, then the trailing clauses. It has no contract of its own; `StartsWithSelect`, `AndConditionAppends`, `ClausesInFixedOrder` and the `Renders` lemmas state its properties. |
| QueryBuilder.StartsWithSelect | db-scheduler/src/test/java/com/github/kagkarlsson/scheduler/jdbc/QueryBuilderTest.java:14-55 | Every rendering starts with `select * from <table>`. It is exactly that text if and only if no condition, order by, limit or offset was set. |
| QueryBuilder.StringField | db-scheduler/src/test/java/com/github/kagkarlsson/scheduler/jdbc/QueryBuilderTest.java:58-71 | The test's string-field condition. It has no contract of its own; `StringFieldBindsOne` states its rendering and binding. |
| QueryBuilder.AndConditionAppends | db-scheduler/src/test/java/com/github/kagkarlsson/scheduler/jdbc/QueryBuilderTest.java:20-29 | Whatever the order of the builder calls, a condition extends the where clause with " where <part>" if it is the first and " and <part>" otherwise. It leaves the order by, limit and offset clauses as they were, so conditions appear in the order they were added, before those clauses. |
| QueryBuilder.ClausesInFixedOrder | db-scheduler/src/test/java/com/github/kagkarlsson/scheduler/jdbc/QueryBuilderTest.java:46-55 | Whatever options were set before, setting order by, limit and offset renders the select and where clause followed by " order by X", " limit n", " offset m" in that order. Calling the three setters in the reverse order renders the same text. |
| QueryBuilder.RendersBareAndOrdered | db-scheduler/src/test/java/com/github/kagkarlsson/scheduler/jdbc/QueryBuilderTest.java:14-18 | The test's first two expected renderings, character for character. |
| QueryBuilder.RendersOneCondition | db-scheduler/src/test/java/com/github/kagkarlsson/scheduler/jdbc/QueryBuilderTest.java:20-22 | `select * from table1 where field1=?`. |
| QueryBuilder.RendersTwoConditions | db-scheduler/src/test/java/com/github/kagkarlsson/scheduler/jdbc/QueryBuilderTest.java:24-29 | `select * from table1 where field1=? and field2=?`. |
| QueryBuilder.RendersLimitOrOffset | db-scheduler/src/test/java/com/github/kagkarlsson/scheduler/jdbc/QueryBuilderTest.java:31-39 | `... limit 1` and `... offset 2`. |
| QueryBuilder.RendersLimitAndOffset | db-scheduler/src/test/java/com/github/kagkarlsson/scheduler/jdbc/QueryBuilderTest.java:41-44 | `select * from table1 limit 1 offset 2`. |
| QueryBuilder.RendersEveryOption | db-scheduler/src/test/java/com/github/kagkarlsson/scheduler/jdbc/QueryBuilderTest.java:46-55 | `select * from table1 where field1=? and field2=? order by c1 asc limit 1 offset 2`. |
| QueryBuilder.RendersTwoConditionsInOrder | db-scheduler/src/test/java/com/github/kagkarlsson/scheduler/jdbc/QueryBuilderTest.java:46-55 | For any table, any two conditions and any order by, limit and offset, the rendering is the select, " where " and the two parts joined by " and " in the order they were added, then " order by", " limit" and " offset". |
| QueryBuilder.TestAssertionsHold | db-scheduler/src/test/java/com/github/kagkarlsson/scheduler/jdbc/QueryBuilderTest.java:14-55 | Each of the test's eight `assertNonWhitespaceEquals` comparisons holds between the expected text and the builder's rendering. |
| QueryBuilder.NonWhitespaceEquals | db-scheduler/src/test/java/com/github/kagkarlsson/scheduler/jdbc/QueryBuilderTest.java:73-75 | The test's comparison: two texts are equal once each is normalised. It has no contract of its own; `NormalTextsCompareExactly` and `WhitespaceRunsCompareEqual` state what it accepts. |
| QueryBuilder.NormalTextsCompareExactly | db-scheduler/src/test/java/com/github/kagkarlsson/scheduler/jdbc/QueryBuilderTest.java:73-79 | On texts that are already normal, the comparison holds if and only if the texts are equal. |
| QueryBuilder.WhitespaceRunsCompareEqual | db-scheduler/src/test/java/com/github/kagkarlsson/scheduler/jdbc/QueryBuilderTest.java:73-79 | Two texts that differ only in one whitespace run (its characters or its length) compare equal. |
| QueryBuilder.DropWhitespace | db-scheduler/src/test/java/com/github/kagkarlsson/scheduler/jdbc/QueryBuilderTest.java:78 | Dropping a leading whitespace run leaves a string that is no longer and does not start with whitespace. |
| QueryBuilder.Normalize | db-scheduler/src/test/java/com/github/kagkarlsson/scheduler/jdbc/QueryBuilderTest.java:77-79 | Normalising never lengthens a string. A leading whitespace character becomes a space, and any other first character is kept. |
| QueryBuilder.NormalizeIsNormal | db-scheduler/src/test/java/com/github/kagkarlsson/scheduler/jdbc/QueryBuilderTest.java:77-79 | Normalised text contains no whitespace other than single spaces. |
| QueryBuilder.NormalizeFixesExactlyNormal | db-scheduler/src/test/java/com/github/kagkarlsson/scheduler/jdbc/QueryBuilderTest.java:77-79 | Normalisation leaves a string unchanged if and only if it is already normal. |
| QueryBuilder.NormalizeIdempotent | db-scheduler/src/test/java/com/github/kagkarlsson/scheduler/jdbc/QueryBuilderTest.java:73-79 | Normalising twice is the same as normalising once. |
| QueryBuilder.NormalizeConcat | db-scheduler/src/test/java/com/github/kagkarlsson/scheduler/jdbc/QueryBuilderTest.java:78 | Text that ends in a non-whitespace character is normalised independently of what follows. |
| QueryBuilder.LeadingRun | db-scheduler/src/test/java/com/github/kagkarlsson/scheduler/jdbc/QueryBuilderTest.java:78 | A leading whitespace run of any length and any whitespace characters becomes one space. |
| QueryBuilder.CollapsesRun | db-scheduler/src/test/java/com/github/kagkarlsson/scheduler/jdbc/QueryBuilderTest.java:78 | Every maximal whitespace run between two pieces of text becomes exactly one space. |
| JobChaining.StepsCompleteAsDeclared | examples/features/src/main/java/com/github/kagkarlsson/examples/JobChainingUsingSeparateTasksMain.java:40-55 | Step 1 always completes with the chaining handler targeting "job-step-2". Step 2 always completes with a plain remove. No other task name has a body. |
| JobChaining.Step1Execute | examples/features/src/main/java/com/github/kagkarlsson/examples/JobChainingUsingSeparateTasksMain.java:40-46 | Step 1's body returns the chaining handler for "job-step-2". It has no contract of its own; `StepsCompleteAsDeclared` states what it returns. |
| JobChaining.Step2Execute | examples/features/src/main/java/com/github/kagkarlsson/examples/JobChainingUsingSeparateTasksMain.java:48-55 | Step 2's body returns a plain remove. It has no contract of its own; `StepsCompleteAsDeclared` states what it returns. |
| JobChaining.NextInstance | examples/features/src/main/java/com/github/kagkarlsson/examples/JobChainingUsingSeparateTasksMain.java:98-100 | The next instance has the handler's task name, and otherwise the completed instance's id and data. |
| JobChaining.ExecutionOperations.Remove | examples/features/src/main/java/com/github/kagkarlsson/examples/JobChainingUsingSeparateTasksMain.java:54 | A plain remove is the repository's remove of the completed execution. |
| JobChaining.ExecutionOperations.RemoveAndScheduleNew | examples/features/src/main/java/com/github/kagkarlsson/examples/JobChainingUsingSeparateTasksMain.java:101 | The next instance is created if it does not exist yet. Only when that succeeds is the completed execution removed, and the remove's outcome is the result. A create error becomes the outcome and the completed execution stays. Keys stay unique. |
| JobChaining.Complete | examples/features/src/main/java/com/github/kagkarlsson/examples/JobChainingUsingSeparateTasksMain.java:96-102 | `complete` applies the handler to the held execution: a plain remove, or remove-and-schedule of the next instance at `now`. Keys stay unique. |
| JobChaining.ChainingReplacesExecution | examples/features/src/main/java/com/github/kagkarlsson/examples/JobChainingUsingSeparateTasksMain.java:96-102 | Completing the held execution with the chaining handler succeeds, the completed key is gone, and keys stay unique. With a different task name, a row for that name and the same id then exists, and it is a fresh row with the same id and data when none was there before. With the same task name, the create finds the held row and writes nothing, and the remove deletes it. |
| JobChaining.FailedInsertKeepsExecution | examples/features/src/main/java/com/github/kagkarlsson/examples/JobChainingUsingSeparateTasksMain.java:101 | If the insert of the next instance throws, the outcome is `FailedToAddNewExecution` with that cause. The table is unchanged, so the completed execution is still found. |
| JobChaining.ExampleJobRunsBothSteps | examples/features/src/main/java/com/github/kagkarlsson/examples/JobChainingUsingSeparateTasksMain.java:67-70 | Scheduling job-507 stores one step-1 row. Completing it leaves exactly a step-2 row with id "job-507" and data `JobId(507)`. Completing that leaves an empty table. |

## Left out

- The implementation of `JdbcTaskRepository` and `ExecutionOperations` is not modelled line by line. Their behaviour comes from the tests' assertions and the SQL strings the tests expect: which columns each statement writes, which rows it selects, which count it must affect, and which exception and message each failure gives.
- TaskRepository.NewRow: the values bound to the insert are assumed, because the test matches its statement setter with `any(...)`. They are `picked = false`, `version = 1`, `consecutive_failures = 0` and no picker, heartbeat, success or failure.
- TaskRepository.Rescheduled: the values bound to the update are assumed for the same reason. They are `picked = false` with no picker and no heartbeat; the remaining values are the arguments of `reschedule`.
- TaskRepository.JdbcTaskRepository.Remove: the select, delete and update statements cannot fail in the model. Only the insert of `createIfNotExists` has a fault parameter, because it is the only statement the tests make throw.
- JDBC plumbing (the runner, statement setters, result-set mappers) and the tests' mock stubbing and reflective field injection. These are test wiring; the store is an in-memory table.
- Picking, heartbeats, polling, worker pools and dead-execution detection. None of them is exercised here, and their point is concurrency.
- TaskRepository.JdbcTaskRepository.CreateIfNotExists: the second lookup the repository makes after a failed insert, to detect a concurrent writer, is not modelled. The model is sequential, so no other writer exists.
- `Instant.now()`: instants are integer milliseconds passed in as parameters (`executionTime`, `now`).
- Java `int` overflow: counts, ids, limits and offsets are unbounded integers. The values involved never approach 2^31.
- Serialisation of `JobId`: task data is an opaque value (`NoData`, `JobId(n)` or serialised bytes).
- JobChaining.ExecutionOperations.RemoveAndScheduleNew: it is modelled as create-if-absent, then remove, so the next instance is inserted before the completed one is deleted, as the scheduler's design for chained completion prescribes. The example itself does not show the order, because the implementation is outside it. The two writes are not one transaction in the model.
- TaskRepository.JdbcTaskRepository.Reschedule: Java's `boolean` success result is the `Outcome` `Pass`; the failure is the exception as `Fail`.
- The scheduler bootstrap of the example (create, immediate execution, polling interval, start, sleep) and its console output.
- The handler's target task name cannot change after construction because the handler is an immutable datatype value. No separate lemma states this.
- `PreparedStatement` parameters are modelled as a map from index to string. Only `setString` is used.
