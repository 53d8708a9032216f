/** The detail screen's state holder: it subscribes to the repository's by-id stream
    for the `todoId` navigation argument and keeps the last record it received. */
module TodoDetailViewModel {
  import opened Options
  import opened TodoModel
  import opened TodoDao
  import opened TodoRepository

  datatype TodoDetailState = TodoDetailState(todo: Option<Todo>)

  /** The state before anything has been received: no record. */
  const InitialState := TodoDetailState(None)

  /** Before any record has been received the screen has no record to show. */
  lemma NothingReceivedYet()
    ensures Collect(InitialState, []).todo.None?
  {
  }

  /** The `onEach` fold: the state after receiving `xs`. Each record replaces the state
      whole, so the state holds the last record received, or is untouched if none came. */
  function Collect(s: TodoDetailState, xs: seq<Todo>): (r: TodoDetailState)
    ensures xs == [] ==> r == s
    ensures xs != [] ==> r == TodoDetailState(Some(xs[|xs| - 1]))
    decreases |xs|
  {
    if xs == [] then s else Collect(TodoDetailState(Some(xs[0])), xs[1..])
  }

  /** The view model's `init`: with no `todoId` argument nothing is subscribed and the
      state stays initial; otherwise it is the by-id lookup of that id, absent when the
      store has no such row. */
  function Init(todoId: Option<int>, t: Table): (s: TodoDetailState)
    ensures todoId.None? ==> s == InitialState
    ensures todoId.Some? ==> s.todo == SelectById(t, todoId.value)
    ensures s.todo.Some? <==> todoId.Some? && todoId.value in t
  {
    match todoId
    case None => InitialState
    case Some(id) =>
      Collect(InitialState, GetTodoById(t, id))
  }

  /** The record the detail screen ends on is one a full scan of the store returns, and
      it carries the requested id. */
  lemma DetailShowsStoredRow(id: int, t: Table)
    requires id in t
    ensures Init(Some(id), t).todo.Some?
    ensures Init(Some(id), t).todo.value in SelectAll(t)
    ensures Init(Some(id), t).todo.value.id == id
  {
    SelectByIdAgreesWithSelectAll(t, id, RowOf(id, t[id]));
  }
}
