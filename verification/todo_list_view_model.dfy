/** The list screen's state holder: every `Result` the repository emits is turned into a
    fresh `TodoListState`; collecting `getTodos()` is a left fold over its emissions. */
module TodoListViewModel {
  import opened Options
  import opened TodoModel
  import opened TodoDao
  import opened TodoRepository

  datatype TodoListState = TodoListState(todos: seq<Todo>, isLoading: bool, error: string)

  /** The state before anything has been collected: every field at its default. */
  const InitialState := TodoListState([], false, "")

  /** Before any emission has been collected the screen shows no todos, is not loading
      and shows no error. */
  lemma NothingCollectedYet()
    ensures Collect(InitialState, []).todos == []
    ensures !Collect(InitialState, []).isLoading
    ensures Collect(InitialState, []).error == ""
  {
  }

  /** Shown if an `Error` carried no message. */
  const FallbackErrorMessage := "An unexpected error occurred"

  /** The state built for one emission. It does not look at the previous state: each
      branch constructs a new `TodoListState`, leaving unnamed fields at their defaults. */
  function Reduce(r: Result<seq<Todo>>): (s: TodoListState)
    ensures s.todos == r.Data().GetOr([])
    ensures s.isLoading <==> r.Loading?
    ensures r.Error? ==> s.error == r.Message().GetOr(FallbackErrorMessage)
    ensures !r.Error? ==> s.error == ""
  {
    match r
    case Success(_) => TodoListState(r.Data().GetOr([]), false, "")
    case Error(_, _) => TodoListState(r.Data().GetOr([]), false, r.Message().GetOr(FallbackErrorMessage))
    case Loading(_) => TodoListState(r.Data().GetOr([]), true, "")
  }

  /** The three branches, stated per constructor. An `Error` always carries its own
      message, so the fallback text is never shown; `Success` clears any earlier error. */
  lemma ReduceCases(d: seq<Todo>, m: string, od: Option<seq<Todo>>)
    ensures Reduce(Success(d)) == TodoListState(d, false, "")
    ensures Reduce(Error(m, od)) == TodoListState(od.GetOr([]), false, m)
    ensures Reduce(Loading(od)) == TodoListState(od.GetOr([]), true, "")
  {
  }

  /** The `onEach` fold: the state after collecting `rs`, starting from `s`. Each
      emission replaces the state whole, so the state depends only on the last emission:
      whatever came before, and whatever the starting state, collecting a non-empty
      stream ends where its last element alone would put it. */
  function Collect(s: TodoListState, rs: seq<Result<seq<Todo>>>): (r: TodoListState)
    ensures rs == [] ==> r == s
    ensures rs != [] ==> r == Reduce(rs[|rs| - 1])
    decreases |rs|
  {
    if rs == [] then s else Collect(Reduce(rs[0]), rs[1..])
  }

  /** A `Success` after any history, including an error, leaves a clean non-loading
      state showing exactly its data. */
  lemma SuccessClearsError(s: TodoListState, rs: seq<Result<seq<Todo>>>, d: seq<Todo>)
    ensures Collect(s, rs + [Success(d)]) == TodoListState(d, false, "")
  {
  }

  /** The view model's `init`: one `getTodos()` collected from the initial state.
      Returns the final state and the table the repository left behind. */
  function Init(t: Table, f: Faults): (r: (TodoListState, Table))
    ensures r.0 == Reduce(GetTodos(t, f).emissions[1]) && !r.0.isLoading
    ensures r.1 == GetTodos(t, f).table
  {
    var sync := GetTodos(t, f);
    (Collect(InitialState, sync.emissions), sync.table)
  }

  /** The values assigned to the state, one per emission, in order. The screen reads
      the state through a conflated `StateFlow`, so it may see only the latest of them. */
  function Trace(rs: seq<Result<seq<Todo>>>): (r: seq<TodoListState>)
    ensures |r| == |rs|
    ensures forall i :: 0 <= i < |rs| ==> r[i] == Reduce(rs[i])
    decreases |rs|
  {
    if rs == [] then [] else [Reduce(rs[0])] + Trace(rs[1..])
  }

  /** A `Loading` followed by a `Success` assigns a loading state with the first
      snapshot, then the second snapshot settled. */
  lemma LoadingThenSuccess(s: TodoListState, rs: seq<Result<seq<Todo>>>, d0: seq<Todo>, d1: seq<Todo>)
    requires rs == [Loading(Some(d0)), Success(d1)]
    ensures Trace(rs) == [TodoListState(d0, true, ""), TodoListState(d1, false, "")]
    ensures Collect(s, rs) == TodoListState(d1, false, "")
  {
    assert Trace(rs)[0] == Reduce(rs[0]) && Trace(rs)[1] == Reduce(rs[1]);
  }

  /** On an empty store with a working insert the state is first an empty list
      loading, then the ten seed records with no error, which is where it stays. */
  lemma EmptyStoreScreen(t: Table, f: Faults)
    requires |t| == 0 && f.insertThrows.None?
    ensures Trace(GetTodos(t, f).emissions)
         == [TodoListState([], true, ""), TodoListState(CreateEnglishTodos(), false, "")]
    ensures Init(t, f).0 == TodoListState(CreateEnglishTodos(), false, "")
  {
    EmptyStoreTakesSeedBranch(t, f);
    LoadingThenSuccess(InitialState, GetTodos(t, f).emissions, [], CreateEnglishTodos());
  }

  /** On a non-empty store read without failure the screen ends showing exactly the
      stored rows, in scan order, not loading and without error. */
  lemma NonEmptyStoreScreen(t: Table, f: Faults)
    requires |t| > 0 && !f.initialReadFails
    ensures Init(t, f).0 == TodoListState(SelectAll(t), false, "")
  {
    NonEmptyStoreIsTrusted(t, f);
    assert GetTodos(t, f).emissions[1] == Success(SelectAll(t));
  }

  /** A failed insert ends in a non-loading state showing the error text of the
      exception's category and whatever the re-read returned. */
  lemma InsertFailureScreen(t: Table, f: Faults)
    requires f.insertThrows.Some? && (f.initialReadFails || |t| == 0)
    ensures Init(t, f).0
         == TodoListState(ReadOrEmpty(t, f.rereadFails), false, CatchMessage(f.insertThrows.value))
    ensures f.insertThrows.value.IoException? ==> Init(t, f).0.error == NetworkErrorMessage
  {
    InsertFailureReportsError(t, f);
  }

  /** When every store call succeeds, the list the screen ends on is exactly what a scan
      of the store would return afterwards. */
  lemma ScreenMatchesStoreWithoutFaults(t: Table)
    ensures Init(t, NoFaults).0.todos == SelectAll(Init(t, NoFaults).1)
  {
    var screen := Init(t, NoFaults);
    if |t| == 0 {
      EmptyStoreScreen(t, NoFaults);
      EmptyStoreScansAsSeed(t, NoFaults);
      assert screen.0.todos == CreateEnglishTodos() == SelectAll(screen.1);
    } else {
      NonEmptyStoreScreen(t, NoFaults);
      NonEmptyStoreIsTrusted(t, NoFaults);
      assert screen.0.todos == SelectAll(t) && screen.1 == t;
    }
  }

  /** A failed first read hides rows the store still holds: on a store with a row outside
      ids 1..10 the screen shows only the seed, while the row survives in the store. */
  lemma ReadFailureHidesSurvivingRows(t: Table, f: Faults, k: int)
    requires f.initialReadFails && f.insertThrows.None?
    requires k in t && !(1 <= k <= 10)
    ensures Init(t, f).0.todos == CreateEnglishTodos()
    ensures k in Init(t, f).1 && SelectById(t, k).value !in Init(t, f).0.todos
  {
    ReadFailureSeedsOverExistingRows(t, f);
  }
}
