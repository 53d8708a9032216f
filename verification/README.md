# Todo cache-and-seed policy, in Dafny

A model of the logic core of a small Android todo application. The app keeps todo
records in a local Room table, and one repository call, `getTodos`, decides what the
list screen sees. It reads the cached rows and emits them as `Loading`. If the cache
is empty it writes a fixed list of ten seed records and emits them as `Success`.
Otherwise it emits the cached rows as `Success` and writes nothing. If the write fails,
it emits an `Error` whose text depends on whether an `IOException` was thrown. Two
view models fold these emissions into screen state: the list state
(`todos`, `isLoading`, `error`) and the detail state (an optional record).

This core is small: one sequential policy, a four-operation table and two reducers.

Modules, one per source file:

- `Options` (options.dfy): Kotlin's nullable `T?` as `Option<T>`, with `?:` as `GetOr`.
- `TodoModel` (todo.dfy): the `Todo` record (`id`, `title`, `completed`, `userId`).
- `TodoDao` (todo_dao.dfy): the `todos` table as a finite map from the primary key
  `id` to the row's other three columns. One row per id therefore holds by
  construction, and a row read back is rebuilt from its key and its columns. The
  module gives select-all, select-by-id, bulk insert-or-replace and delete-all.
- `TodoRepository` (todo_repository.dfy): the `Result` tagged union, the seed list,
  `getTodos` as a pure function, and `getTodoById`. `getTodos` maps a table and a
  failure oracle to the emission sequence and the table left behind.
- `TodoListViewModel` / `TodoDetailViewModel`: the two states, and the reducers as folds
  over emission sequences.

Modelling decisions:

- A `Flow` that emits a few values and completes is the finite sequence of its
  emissions. `first()` on a query is a snapshot read of the table.
- The failure points are inputs (`Faults`): whether the first read throws, what the
  insert throws (an `IOException`, or another exception with a possibly-null message),
  and whether the re-read in the error handler throws. A null message prints as
  "null", as Kotlin's string template does.
- A failed list insert writes nothing, because Room runs `@Insert` of a list in one
  transaction.
- Scan order is a modelling assumption: `SELECT * FROM todos` is taken to return rows
  in ascending id order. SQL promises no order without `ORDER BY`, but SQLite scans a
  rowid table in rowid order, and Room's primary key on the `Int` column `id` makes `id`
  the rowid. The claim that the second call after seeding emits exactly the seed list,
  in seed order, rests on this assumption.
- The Kotlin `Result` base class has nullable `data` and `message` fields. They are the
  member functions `Data()` and `Message()`. `Error`'s constructor takes a non-null
  message, so the list reducer's fallback text "An unexpected error occurred" is never
  shown (`TodoListViewModel.ReduceCases`).
- The repository is constructed with a remote API client, but `getTodos` never calls it
  (TodoApp/app/src/main/java/com/ethiopianairlines/todoapp/data/repository/TodoRepository.kt:16-19 against 26-64). The model follows the
  code as written: the only source that fills the store is the seed list, and no
  network fetch is modelled. This looks like an unfinished remote-fetch path, or a
  deliberate offline seed. The code does not say which, so it is flagged here rather
  than changed.
- A failed first read looks the same as an empty table. On a store that holds rows,
  that failure still triggers seeding: ids 1..10 are overwritten, other rows survive,
  and the list screen shows only the seed (`ReadFailureSeedsOverExistingRows`,
  `ReadFailureHidesSurvivingRows`).

## Model

| member | source | states |
|---|---|---|
| TodoDao.SelectAll | TodoApp/app/src/main/java/com/ethiopianairlines/todoapp/data/local/TodoDao.kt:12-13 | the full scan returns every stored row exactly once (one per id, as many rows as the table holds), each equal to the row stored under its id, in strictly ascending id order |
| TodoDao.AscendingIds | TodoApp/app/src/main/java/com/ethiopianairlines/todoapp/data/local/TodoDao.kt:12-13 | the order of a full scan: every key of the table exactly once, no other value, strictly ascending |
| TodoDao.SelectById | TodoApp/app/src/main/java/com/ethiopianairlines/todoapp/data/local/TodoDao.kt:15-16 | the by-id query finds a row iff the id is stored, and the row it finds carries that id |
| TodoDao.SelectByIdAgreesWithSelectAll | TodoApp/app/src/main/java/com/ethiopianairlines/todoapp/data/local/TodoDao.kt:12-16 | the by-id query returns record x iff x is among the full scan's rows and has that id; the two queries agree in both directions |
| TodoDao.InsertAll | TodoApp/app/src/main/java/com/ethiopianairlines/todoapp/data/local/TodoDao.kt:18-19 | after a REPLACE insert the table holds the old ids plus the inserted ones, rows under ids not in the list are unchanged, and the last record written sits under its id |
| TodoDao.InsertAllLastWins | TodoApp/app/src/main/java/com/ethiopianairlines/todoapp/data/local/TodoDao.kt:18-19 | a record that is the last one of its id in the inserted list is what the table holds under that id afterwards, whatever came earlier in the list or in the table |
| TodoDao.InsertAllReplaces | TodoApp/app/src/main/java/com/ethiopianairlines/todoapp/data/local/TodoDao.kt:18-19 | every id in the list maps to the last record of the list with that id; for every other id the by-id query returns what it returned before |
| TodoDao.InsertThenSelectAll | TodoApp/app/src/main/java/com/ethiopianairlines/todoapp/data/local/TodoDao.kt:12-19 | inserting a list with ascending ids into an empty table and scanning it returns the same list |
| TodoDao.DeleteAll | TodoApp/app/src/main/java/com/ethiopianairlines/todoapp/data/local/TodoDao.kt:21-22 | after delete-all the full scan is empty and the by-id query finds nothing for any id |
| TodoRepository.CreateEnglishTodos | TodoApp/app/src/main/java/com/ethiopianairlines/todoapp/data/repository/TodoRepository.kt:77-90 | the seed has 10 records; record i has id i + 1, so ids are 1..10, distinct and ascending; every record has userId 1 and the title listed for its id; only ids 4 and 8 are completed |
| TodoRepository.ResultFields | TodoApp/app/src/main/java/com/ethiopianairlines/todoapp/data/repository/TodoRepository.kt:97-104 | the base class's nullable fields per subclass: a message is present iff the result is an Error, and it is the Error's own text; a Success always carries its data; Error and Loading carry data only if given some |
| TodoRepository.ReadOrEmpty | TodoApp/app/src/main/java/com/ethiopianairlines/todoapp/data/repository/TodoRepository.kt:29-33 | the guarded read, also used at lines 49-53 and 57-61: the result is empty iff the read failed or the table is empty, so a failure looks like an empty table; every row returned is stored under its id; a successful read is the full scan |
| TodoRepository.CatchMessage | TodoApp/app/src/main/java/com/ethiopianairlines/todoapp/data/repository/TodoRepository.kt:47-62 | an IOException gives the fixed network message; any other exception gives the "An unexpected error occurred: " prefix followed by its message, or "null" when it has none |
| TodoRepository.CatchMessageDistinguishesCategories | TodoApp/app/src/main/java/com/ethiopianairlines/todoapp/data/repository/TodoRepository.kt:47-62 | the error text is the network message iff the exception is an IOException: the IOException clause is matched first and the two texts never coincide |
| TodoRepository.GetTodos | TodoApp/app/src/main/java/com/ethiopianairlines/todoapp/data/repository/TodoRepository.kt:26-64 | every call emits exactly two values; the first is Loading carrying the cached rows, or the empty list if the read failed; the second is Success or Error, never Loading; an Error leaves the table unchanged; the table afterwards is either unchanged or the old table with the seed written over it |
| TodoRepository.EmptyStoreTakesSeedBranch | TodoApp/app/src/main/java/com/ethiopianairlines/todoapp/data/repository/TodoRepository.kt:29-42 | on an empty store whose insert succeeds, whether or not the first read fails, the emissions are Loading([]) then Success(seed), and the table left behind is the seed written into the empty table |
| TodoRepository.EmptyStoreIsSeeded | TodoApp/app/src/main/java/com/ethiopianairlines/todoapp/data/repository/TodoRepository.kt:38-42 | after seeding an empty store it holds exactly ids 1..10 |
| TodoRepository.EmptyStoreScansAsSeed | TodoApp/app/src/main/java/com/ethiopianairlines/todoapp/data/repository/TodoRepository.kt:38-42 | after seeding an empty store a full scan returns the seed list itself, in seed order |
| TodoRepository.NonEmptyStoreIsTrusted | TodoApp/app/src/main/java/com/ethiopianairlines/todoapp/data/repository/TodoRepository.kt:43-46 | on a non-empty store whose read succeeds the emissions are Loading(rows) then Success(rows), and the store is unchanged |
| TodoRepository.SeedingIsIdempotent | TodoApp/app/src/main/java/com/ethiopianairlines/todoapp/data/repository/TodoRepository.kt:38-46 | a second call after a successful seeding, whose read succeeds, emits Loading(seed) then Success(seed) and leaves the store identical |
| TodoRepository.ReinsertNoop | TodoApp/app/src/main/java/com/ethiopianairlines/todoapp/data/local/TodoDao.kt:18-19 | writing a list numbered 1..n a second time over the table the first write produced leaves that table identical |
| TodoRepository.SeededStoreNeverMutated | TodoApp/app/src/main/java/com/ethiopianairlines/todoapp/data/repository/TodoRepository.kt:29-62 | once a call has seeded an empty store, any later call leaves the store identical whatever fails: a failed read rewrites identical rows and a failed insert writes nothing |
| TodoRepository.InsertFailureReportsError | TodoApp/app/src/main/java/com/ethiopianairlines/todoapp/data/repository/TodoRepository.kt:47-62 | when the insert throws, the store is unchanged and the second emission is Error with the text of the exception's category, carrying the re-read rows, or the empty list if the re-read fails |
| TodoRepository.EmptyStoreInsertFailure | TodoApp/app/src/main/java/com/ethiopianairlines/todoapp/data/repository/TodoRepository.kt:38-62 | on an empty store a failed insert gives Loading([]) then Error(message, []), and the store stays empty |
| TodoRepository.ReadFailureSeedsOverExistingRows | TodoApp/app/src/main/java/com/ethiopianairlines/todoapp/data/repository/TodoRepository.kt:29-41 | if the first read fails on a store that holds rows, the seed is still written: ids 1..10 hold the seed records, other ids keep their rows, and the emissions are Loading([]) then Success(seed) |
| TodoRepository.GetTodoById | TodoApp/app/src/main/java/com/ethiopianairlines/todoapp/data/repository/TodoRepository.kt:72 | the by-id stream emits at most one record: exactly the table's by-id lookup when a row exists, nothing otherwise |
| TodoListViewModel.Reduce | TodoApp/app/src/main/java/com/ethiopianairlines/todoapp/ui/todolist/TodoListViewModel.kt:28-50 | each emission yields a fresh state: todos are the result's data or [], loading iff the result is Loading, the error text only for Error, and "" otherwise |
| TodoListViewModel.ReduceCases | TodoApp/app/src/main/java/com/ethiopianairlines/todoapp/ui/todolist/TodoListViewModel.kt:30-47 | Success(d) gives (d, false, ""), which clears any earlier error; Error(m, d) gives (d or [], false, m), so the fallback text is never used; Loading(d) gives (d or [], true, "") |
| TodoListViewModel.Collect | TodoApp/app/src/main/java/com/ethiopianairlines/todoapp/ui/todolist/TodoListViewModel.kt:28-50 | the onEach fold: with no emissions the state is the starting state; otherwise it is the state built from the last emission alone, whatever came earlier and whatever the starting state |
| TodoListViewModel.NothingCollectedYet | TodoApp/app/src/main/java/com/ethiopianairlines/todoapp/ui/todolist/TodoListViewModel.kt:54-58 | before any emission the state holds the defaults it is created with at line 20: no todos, not loading, empty error text |
| TodoListViewModel.SuccessClearsError | TodoApp/app/src/main/java/com/ethiopianairlines/todoapp/ui/todolist/TodoListViewModel.kt:30-34 | a Success after any history, including an Error, leaves (data, false, "") |
| TodoListViewModel.Trace | TodoApp/app/src/main/java/com/ethiopianairlines/todoapp/ui/todolist/TodoListViewModel.kt:28-50 | the values assigned to the state, one per emission, in order, each built from that emission alone |
| TodoListViewModel.Init | TodoApp/app/src/main/java/com/ethiopianairlines/todoapp/ui/todolist/TodoListViewModel.kt:20-24 | collecting one getTodos call from the initial state ends in the state built from the second emission alone, so never in a loading state; the table is the one the repository leaves behind |
| TodoListViewModel.LoadingThenSuccess | TodoApp/app/src/main/java/com/ethiopianairlines/todoapp/ui/todolist/TodoListViewModel.kt:30-47 | Loading(d0) followed by Success(d1) assigns (d0, loading) and then (d1, not loading, no error) |
| TodoListViewModel.EmptyStoreScreen | TodoApp/app/src/main/java/com/ethiopianairlines/todoapp/ui/todolist/TodoListViewModel.kt:23-50 | on an empty store with a working insert the states assigned are ([], true, "") and then (seed, false, ""), where the state ends |
| TodoListViewModel.NonEmptyStoreScreen | TodoApp/app/src/main/java/com/ethiopianairlines/todoapp/ui/todolist/TodoListViewModel.kt:28-34 | on a non-empty store read without failure the screen ends showing exactly the stored rows, not loading and without error |
| TodoListViewModel.InsertFailureScreen | TodoApp/app/src/main/java/com/ethiopianairlines/todoapp/ui/todolist/TodoListViewModel.kt:36-41 | a failed insert ends in (re-read rows or [], false, category message), and the network message for an IOException |
| TodoListViewModel.ScreenMatchesStoreWithoutFaults | TodoApp/app/src/main/java/com/ethiopianairlines/todoapp/ui/todolist/TodoListViewModel.kt:23-50 | when no store call fails, the final list equals what a scan of the resulting store returns |
| TodoListViewModel.ReadFailureHidesSurvivingRows | TodoApp/app/src/main/java/com/ethiopianairlines/todoapp/data/repository/TodoRepository.kt:29-42 | after a failed first read the screen shows only the seed, while a stored row outside ids 1..10 survives in the store and is not shown |
| TodoDetailViewModel.Collect | TodoApp/app/src/main/java/com/ethiopianairlines/todoapp/ui/tododetail/TodoDetailViewModel.kt:31-33 | the onEach fold: each emitted record replaces the state whole, so the state is the last record received, or the starting state if none arrives |
| TodoDetailViewModel.NothingReceivedYet | TodoApp/app/src/main/java/com/ethiopianairlines/todoapp/ui/tododetail/TodoDetailViewModel.kt:37-39 | before any record is received the state, created at line 21, holds no record |
| TodoDetailViewModel.Init | TodoApp/app/src/main/java/com/ethiopianairlines/todoapp/ui/tododetail/TodoDetailViewModel.kt:24-28 | with no todoId argument the state stays initial (no record); otherwise it equals the by-id lookup, so it holds a record iff the id is stored and stays absent otherwise |
| TodoDetailViewModel.DetailShowsStoredRow | TodoApp/app/src/main/java/com/ethiopianairlines/todoapp/ui/tododetail/TodoDetailViewModel.kt:30-33 | for a stored id the detail state holds a row that the full scan also returns, and it carries the requested id |

## Left out

- Remote fetch: the API client (`TodoApi.kt`) is never called by `getTodos`, so no HTTP request, JSON decoding or merge of remote data is modelled.
- Reactive re-emission: a Room `Flow` emits again whenever the table changes. The model takes one snapshot per query, so later emissions caused by other writers are not modelled.
- State conflation: the view models hold their state in a `MutableStateFlow`, which the screens read with `collectAsState()`. A `StateFlow` is conflated, so a collector may see only the latest of the values assigned. On the non-empty path the `Loading` value is overwritten with no suspension in between. The model states the sequence of values assigned (`TodoListViewModel.Trace`), not what a screen observes.
- Coroutines: scheduling, `viewModelScope` lifetime and cancellation are not modelled. This includes a `CancellationException` being swallowed by the `catch (Exception)` clauses.
- Failures other than the store's: an exception thrown by the collector during `emit` would also reach the catch clauses. Only the insert is modelled as throwing there.
- TodoRepository.GetTodoById: when no row matches, the model's stream emits nothing. Depending on the Room version and its code generator, a non-null `Flow<Todo>` may instead emit `null`, which leaves the detail state absent as in the model. It may also throw an `IllegalStateException` for the empty result, which inside `viewModelScope` would crash the app rather than leave the state absent. The exception path is not modelled.
- Integer width: Kotlin `Int` ids are 32-bit. The model uses unbounded `int`, which is harmless because no arithmetic is done on ids.
- Persistence, the schema, JSON and entity annotations beyond the four record fields and the id-as-key fact.
- Compose screens, including the "Todo not found" placeholder, navigation routes and dependency-injection wiring: all are rendering or framework plumbing.
