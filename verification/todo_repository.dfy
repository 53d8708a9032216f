/** The repository: the cache-and-seed policy of `getTodos`, the by-id passthrough,
    the fixed seed list and the `Result` type its stream carries.

    A Kotlin `Flow` that emits a few values and completes is modelled as the finite
    sequence of its emissions; `first()` on a store query is a snapshot read. Whether a
    store call throws, and what it throws, is not something the repository decides: it
    is an explicit input (`Faults`). */
module TodoRepository {
  import opened Options
  import opened TodoModel
  import opened TodoDao

  /** The status-tagged value the repository emits. The Kotlin base class carries a
      nullable `data` and a nullable `message`; each subclass fixes which are present. */
  datatype Result<T> =
    | Success(value: T)
    | Error(text: string, errorData: Option<T>)
    | Loading(loadingData: Option<T>)
  {
    /** The base class's `data` field. */
    function Data(): Option<T> {
      match this
      case Success(v) => Some(v)
      case Error(_, d) => d
      case Loading(d) => d
    }

    /** The base class's `message` field: set only by `Error`, whose constructor
        takes a non-null message. */
    function Message(): Option<string> {
      match this
      case Error(m, _) => Some(m)
      case _ => None
    }
  }

  /** The base class's two nullable fields, per subclass: only an `Error` carries a
      message, and it always does; a `Success` always carries data; `Error` and
      `Loading` carry data only if given some. */
  lemma ResultFields<T>(r: Result<T>)
    ensures r.Message().Some? <==> r.Error?
    ensures r.Error? ==> r.Message() == Some(r.text) && r.Data() == r.errorData
    ensures r.Success? ==> r.Data() == Some(r.value)
    ensures r.Loading? ==> r.Data() == r.loadingData
  {
  }

  /** What a failing store call throws, as far as the catch clauses can tell:
      an `IOException` (of any subclass), or any other exception with its
      possibly-null `message`. */
  datatype Thrown = IoException | OtherException(message: Option<string>)

  /** The failure oracle for one `getTodos` collection:
      whether the first `getAllTodos().first()` throws, what `insertTodos` throws
      (if it does), and whether the re-read in the error handler throws. */
  datatype Faults = Faults(initialReadFails: bool, insertThrows: Option<Thrown>, rereadFails: bool)

  /** A call in which no store operation fails. */
  const NoFaults := Faults(false, None, false)

  /** The emissions of one `getTodos` collection and the table left behind. */
  datatype Sync = Sync(emissions: seq<Result<seq<Todo>>>, table: Table)

  const NetworkErrorMessage := "Network error. Please check your connection."
  const UnexpectedErrorPrefix := "An unexpected error occurred: "

  /** The title of seed record `id`. */
  function SeedTitle(id: int): string
    requires 1 <= id <= 10
  {
    match id
    case 1 => "Complete weekly report"
    case 2 => "Buy groceries for dinner"
    case 3 => "Schedule dentist appointment"
    case 4 => "Clean the kitchen"
    case 5 => "Finish reading book chapter"
    case 6 => "Respond to important emails"
    case 7 => "Pay monthly bills"
    case 8 => "Go for a morning run"
    case 9 => "Call mom for her birthday"
    case _ => "Plan weekend activities"
  }

  /** The fixed ten-record list written into an empty store: record `i` (from 0) has
      id `i + 1`, the title above, user 1, and is completed only for ids 4 and 8. */
  function CreateEnglishTodos(): (r: seq<Todo>)
    ensures |r| == 10
    ensures forall i :: 0 <= i < |r| ==> r[i].id == i + 1 && r[i].userId == 1
    ensures forall i :: 0 <= i < |r| ==> r[i].title == SeedTitle(r[i].id)
    ensures forall i :: 0 <= i < |r| ==> (r[i].completed <==> r[i].id == 4 || r[i].id == 8)
    ensures IdsAscending(r)
  {
    seq(10, i requires 0 <= i < 10 => Todo(i + 1, SeedTitle(i + 1), i + 1 == 4 || i + 1 == 8, 1))
  }

  /** `getAllTodos().first()` wrapped in `try { … } catch (Exception) { emptyList() }`:
      a failed read is indistinguishable from an empty table. */
  function ReadOrEmpty(t: Table, fails: bool): (r: seq<Todo>)
    ensures |r| == 0 <==> fails || |t| == 0
    ensures forall i :: 0 <= i < |r| ==> SelectById(t, r[i].id) == Some(r[i])
    ensures !fails ==> r == SelectAll(t)
  {
    if fails then [] else SelectAll(t)
  }

  /** The message of the `Error` emitted by the two catch clauses, tried in order:
      `IOException` first, then any `Exception`. Kotlin's string template renders a
      null message as "null". */
  function CatchMessage(e: Thrown): (m: string)
    ensures e.IoException? ==> m == NetworkErrorMessage
    ensures e.OtherException? ==>
      UnexpectedErrorPrefix <= m && m[|UnexpectedErrorPrefix|..] == e.message.GetOr("null")
  {
    match e
    case IoException => NetworkErrorMessage
    case OtherException(msg) => UnexpectedErrorPrefix + msg.GetOr("null")
  }

  /** The two error messages never coincide: the message tells the two categories apart. */
  lemma CatchMessageDistinguishesCategories(e: Thrown)
    ensures CatchMessage(e) == NetworkErrorMessage <==> e.IoException?
  {
    if e.OtherException? {
      var m := CatchMessage(e);
      assert m[0] == 'A';
      assert NetworkErrorMessage[0] == 'N';
    }
  }

  /** `getTodos()`, collected to completion. The remote API the repository is given is
      never called here: the only source that populates the store is the seed list. */
  function GetTodos(t: Table, f: Faults): (r: Sync)
    ensures |r.emissions| == 2
    ensures r.emissions[0] == Loading(Some(ReadOrEmpty(t, f.initialReadFails)))
    ensures r.emissions[1].Success? || r.emissions[1].Error?
    ensures r.emissions[1].Error? ==> r.table == t
    ensures r.table == t || r.table == InsertAll(t, CreateEnglishTodos())
  {
    var cached := ReadOrEmpty(t, f.initialReadFails);
    var loading := Loading(Some(cached));
    if |cached| > 0 then
      Sync([loading, Success(cached)], t)
    else
      var seed := CreateEnglishTodos();
      match f.insertThrows
      case None => Sync([loading, Success(seed)], InsertAll(t, seed))
      case Some(e) =>
        // Room runs a list insert in one transaction: a failed insert writes nothing.
        var reread := ReadOrEmpty(t, f.rereadFails);
        Sync([loading, Error(CatchMessage(e), Some(reread))], t)
  }

  /** The ids of a list numbered 1..n are exactly 1..n. */
  lemma NumberedIds(xs: seq<Todo>, k: int)
    requires forall i :: 0 <= i < |xs| ==> xs[i].id == i + 1
    ensures k in IdsOf(xs) <==> 1 <= k <= |xs|
  {
    if 1 <= k <= |xs| {
      assert xs[k - 1].id == k;
    }
  }

  /** Writing a list whose i-th record has id i + 1 puts that record under id i + 1. */
  lemma InsertNumberedValue(t: Table, xs: seq<Todo>, k: int)
    requires forall i :: 0 <= i < |xs| ==> xs[i].id == i + 1
    requires 1 <= k <= |xs|
    ensures SelectById(InsertAll(t, xs), k) == Some(xs[k - 1])
  {
    var i := k - 1;
    assert xs[i].id == k;
    assert LastWithId(xs, i) by {
      forall j | i < j < |xs|
        ensures xs[j].id != xs[i].id
      {
        assert xs[j].id == j + 1;
      }
    }
    InsertAllLastWins(t, xs, i);
  }

  /** Writing a list whose i-th record has id i + 1 adds exactly ids 1..|xs| to the table. */
  lemma InsertNumberedKeys(t: Table, xs: seq<Todo>)
    requires forall i :: 0 <= i < |xs| ==> xs[i].id == i + 1
    ensures forall k :: k in InsertAll(t, xs) <==> k in t || 1 <= k <= |xs|
  {
    forall k
      ensures k in InsertAll(t, xs) <==> k in t || 1 <= k <= |xs|
    {
      NumberedIds(xs, k);
    }
  }

  /** Writing a list whose i-th record has id i + 1 leaves rows outside ids 1..|xs| alone. */
  lemma InsertNumberedKeepsOthers(t: Table, xs: seq<Todo>)
    requires forall i :: 0 <= i < |xs| ==> xs[i].id == i + 1
    ensures forall k :: k in t && !(1 <= k <= |xs|) ==> InsertAll(t, xs)[k] == t[k]
  {
    forall k | k in t && !(1 <= k <= |xs|)
      ensures InsertAll(t, xs)[k] == t[k]
    {
      NumberedIds(xs, k);
    }
  }

  /** Writing a list whose i-th record has id i + 1 replaces ids 1..|xs| with the
      list's records. */
  lemma InsertNumberedValues(t: Table, xs: seq<Todo>)
    requires forall i :: 0 <= i < |xs| ==> xs[i].id == i + 1
    ensures forall k :: 1 <= k <= |xs| ==> SelectById(InsertAll(t, xs), k) == Some(xs[k - 1])
  {
    forall k | 1 <= k <= |xs|
      ensures SelectById(InsertAll(t, xs), k) == Some(xs[k - 1])
    {
      InsertNumberedValue(t, xs, k);
    }
  }

  /** Writing a list numbered 1..n into an empty table yields a table holding exactly
      ids 1..n ... */
  lemma SeedKeysIntoEmpty(t: Table, xs: seq<Todo>, n: int, table: Table)
    requires |t| == 0 && |xs| == n && table == InsertAll(t, xs)
    requires forall i :: 0 <= i < |xs| ==> xs[i].id == i + 1
    ensures forall k :: k in table <==> 1 <= k <= n
  {
    InsertNumberedKeys(t, xs);
    assert t.Keys == {};
  }

  /** ... which a full scan returns as the list itself. */
  lemma SeedIntoEmpty(t: Table, xs: seq<Todo>, table: Table)
    requires |t| == 0 && table == InsertAll(t, xs)
    requires forall i :: 0 <= i < |xs| ==> xs[i].id == i + 1
    ensures SelectAll(table) == xs
  {
    assert IdsAscending(xs);
    InsertThenSelectAll(t, xs);
  }

  /** On an empty store whose insert succeeds, `getTodos` emits `Loading([])` then
      `Success(seed)` and writes the seed. Whether the initial read fails does not
      matter: both ways the cache reads as empty. */
  lemma EmptyStoreTakesSeedBranch(t: Table, f: Faults)
    requires |t| == 0 && f.insertThrows.None?
    ensures GetTodos(t, f).emissions == [Loading(Some([])), Success(CreateEnglishTodos())]
    ensures GetTodos(t, f).table == InsertAll(t, CreateEnglishTodos())
  {
    assert |SelectAll(t)| == 0;
  }

  /** On an empty store whose insert succeeds, `getTodos` leaves exactly the ten seed
      ids in the store. */
  lemma EmptyStoreIsSeeded(t: Table, f: Faults)
    requires |t| == 0 && f.insertThrows.None?
    ensures forall k :: k in GetTodos(t, f).table <==> 1 <= k <= 10
  {
    EmptyStoreTakesSeedBranch(t, f);
    SeedKeysIntoEmpty(t, CreateEnglishTodos(), 10, GetTodos(t, f).table);
  }

  /** ... and a full scan of that store returns the seed list itself, in order. */
  lemma EmptyStoreScansAsSeed(t: Table, f: Faults)
    requires |t| == 0 && f.insertThrows.None?
    ensures SelectAll(GetTodos(t, f).table) == CreateEnglishTodos()
  {
    var seed := CreateEnglishTodos();
    var table := GetTodos(t, f).table;
    EmptyStoreTakesSeedBranch(t, f);
    SeedIntoEmpty(t, seed, table);
    assert SelectAll(table) == seed;
  }

  /** On a non-empty store whose read succeeds, `getTodos` emits the cached rows twice,
      first as `Loading` then as `Success`, and writes nothing. */
  lemma NonEmptyStoreIsTrusted(t: Table, f: Faults)
    requires |t| > 0 && !f.initialReadFails
    ensures GetTodos(t, f).emissions == [Loading(Some(SelectAll(t))), Success(SelectAll(t))]
    ensures GetTodos(t, f).table == t
  {
  }

  /** Idempotence: a second `getTodos` after a successful seeding reads the seed back,
      emits `Loading(seed)` then `Success(seed)`, and leaves the store identical. */
  lemma SeedingIsIdempotent(t: Table, f1: Faults, f2: Faults)
    requires |t| == 0 && f1.insertThrows.None? && !f2.initialReadFails
    ensures var first := GetTodos(t, f1);
            var second := GetTodos(first.table, f2);
            && second.emissions == [Loading(Some(CreateEnglishTodos())), Success(CreateEnglishTodos())]
            && second.table == first.table
  {
    var s := GetTodos(t, f1).table;
    EmptyStoreIsSeeded(t, f1);
    EmptyStoreScansAsSeed(t, f1);
    assert 1 in s;
    NonEmptyStoreIsTrusted(s, f2);
  }

  /** Writing a list numbered 1..n a second time changes nothing: every id it writes
      already holds exactly the record it writes. */
  lemma ReinsertNoop(t: Table, xs: seq<Todo>, s: Table)
    requires forall i :: 0 <= i < |xs| ==> xs[i].id == i + 1
    requires s == InsertAll(t, xs)
    ensures InsertAll(s, xs) == s
  {
    var s2 := InsertAll(s, xs);
    InsertNumberedKeys(t, xs);
    InsertNumberedKeys(s, xs);
    assert s2.Keys == s.Keys by {
      forall k
        ensures k in s2 <==> k in s
      {
        assert k in s2 <==> k in s || 1 <= k <= |xs|;
        assert 1 <= k <= |xs| ==> k in s;
      }
    }
    InsertNumberedKeepsOthers(s, xs);
    forall k | k in s
      ensures s2[k] == s[k]
    {
      if 1 <= k <= |xs| {
        InsertNumberedValue(t, xs, k);
        InsertNumberedValue(s, xs, k);
        assert s2[k] == ColumnsOf(xs[k - 1]) == s[k];
      }
    }
  }

  /** Idempotence of the store: once a call has seeded an empty store, no later call
      changes it, whatever fails. A failed read rewrites the seed over identical rows;
      a failed insert writes nothing. */
  lemma SeededStoreNeverMutated(t: Table, f1: Faults, f2: Faults, s: Table)
    requires |t| == 0 && f1.insertThrows.None? && s == GetTodos(t, f1).table
    ensures GetTodos(s, f2).table == s
  {
    var seed := CreateEnglishTodos();
    EmptyStoreTakesSeedBranch(t, f1);
    assert s == InsertAll(t, seed);
    ReinsertNoop(t, seed, s);
    assert GetTodos(s, f2).table == s || GetTodos(s, f2).table == InsertAll(s, seed);
  }

  /** A failed insert on an empty-looking cache: the second emission is an `Error` whose
      message depends only on whether the exception is an `IOException`, and whose data
      is the re-read table, or the empty list if the re-read also fails. */
  lemma InsertFailureReportsError(t: Table, f: Faults)
    requires f.insertThrows.Some?
    requires f.initialReadFails || |t| == 0
    ensures GetTodos(t, f).table == t
    ensures GetTodos(t, f).emissions[1]
         == Error(CatchMessage(f.insertThrows.value), Some(ReadOrEmpty(t, f.rereadFails)))
    ensures f.insertThrows.value.IoException? ==>
              GetTodos(t, f).emissions[1].text == NetworkErrorMessage
    ensures f.insertThrows.value.OtherException? ==>
              UnexpectedErrorPrefix <= GetTodos(t, f).emissions[1].text
  {
  }

  /** On an empty store, an insert failure yields `Error(message, [])` and no crash. */
  lemma EmptyStoreInsertFailure(t: Table, f: Faults)
    requires |t| == 0 && f.insertThrows.Some?
    ensures GetTodos(t, f).emissions
         == [Loading(Some([])), Error(CatchMessage(f.insertThrows.value), Some([]))]
    ensures GetTodos(t, f).table == t
  {
  }

  /** A failed initial read on a store that does hold rows still seeds it: ids 1..10 are
      overwritten with the seed records and rows under every other id survive. The
      emissions report only the seed, not the surviving rows. */
  lemma ReadFailureSeedsOverExistingRows(t: Table, f: Faults)
    requires f.initialReadFails && f.insertThrows.None?
    ensures var r := GetTodos(t, f);
            && r.emissions == [Loading(Some([])), Success(CreateEnglishTodos())]
            && (forall k :: k in r.table <==> k in t || 1 <= k <= 10)
            && (forall k :: 1 <= k <= 10 ==> SelectById(r.table, k) == Some(CreateEnglishTodos()[k - 1]))
            && (forall k :: k in t && !(1 <= k <= 10) ==> r.table[k] == t[k])
  {
    var seed := CreateEnglishTodos();
    InsertNumberedKeys(t, seed);
    InsertNumberedValues(t, seed);
    InsertNumberedKeepsOthers(t, seed);
  }

  /** `getTodoById(id)`: the store's by-id query, passed through unchanged. The query's
      flow emits the row when there is one and nothing otherwise. */
  function GetTodoById(t: Table, id: int): (r: seq<Todo>)
    ensures |r| <= 1
    ensures r != [] <==> SelectById(t, id).Some?
    ensures forall i :: 0 <= i < |r| ==> Some(r[i]) == SelectById(t, id)
  {
    match SelectById(t, id)
    case Some(x) => [x]
    case None => []
  }
}
