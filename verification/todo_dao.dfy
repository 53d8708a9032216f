/** The local store: the one `todos` table, keyed by the primary key `id`.
    A table is a finite map from id to row in which every row sits under its own id. */
module TodoDao {
  import opened Options
  import opened TodoModel

  /** The columns of a row other than its primary key. */
  datatype Columns = Columns(title: string, completed: bool, userId: int)

  /** A table of todo rows, from primary key to the row's other columns. The row under
      key `k` has id `k`, so there is at most one row per id by construction. */
  type Table = map<int, Columns>

  /** The non-key columns of a record. */
  function ColumnsOf(x: Todo): Columns {
    Columns(x.title, x.completed, x.userId)
  }

  /** The record stored under key `k`. */
  function RowOf(k: int, c: Columns): (x: Todo)
    ensures x.id == k && ColumnsOf(x) == c
  {
    Todo(k, c.title, c.completed, c.userId)
  }

  /** A non-empty set of ids has a smallest element. */
  lemma {:induction false} LeastExists(ks: set<int>)
    requires ks != {}
    ensures exists m :: m in ks && forall y :: y in ks ==> m <= y
    decreases |ks|
  {
    if forall y :: y !in ks {
      assert false;
    }
    var x :| x in ks;
    var rest := ks - {x};
    assert forall y :: y in ks ==> y == x || y in rest;
    if rest != {} {
      LeastExists(rest);
      var m :| m in rest && forall y :: y in rest ==> m <= y;
      if x < m {
        assert forall y :: y in ks ==> x <= y;
      } else {
        assert forall y :: y in ks ==> m <= y;
      }
    } else {
      assert forall y :: y in ks ==> x <= y;
    }
  }

  /** The smallest element of a non-empty set of ids. */
  function Least(ks: set<int>): (m: int)
    requires ks != {}
    ensures m in ks && forall y :: y in ks ==> m <= y
  {
    LeastExists(ks);
    var m :| m in ks && forall y :: y in ks ==> m <= y;
    m
  }

  /** `ks` listed by `r`: same elements, each once, ascending. */
  predicate Enumerates(r: seq<int>, ks: set<int>) {
    && |r| == |ks|
    && (forall i :: 0 <= i < |r| ==> r[i] in ks)
    && (forall k :: k in ks ==> k in r)
    && StrictlyIncreasing(r)
  }

  /** Putting the least element in front of an enumeration of the others enumerates all. */
  lemma PrependLeast(ks: set<int>, m: int, rest: seq<int>)
    requires m in ks && forall y :: y in ks ==> m <= y
    requires Enumerates(rest, ks - {m})
    ensures Enumerates([m] + rest, ks)
  {
    assert |ks - {m}| == |ks| - 1;
    PrependLeastElements(ks, m, rest);
    PrependLeastOrder(ks, m, rest);
  }

  /** The elements half of `PrependLeast`: `[m] + rest` lists exactly the members of `ks`. */
  lemma PrependLeastElements(ks: set<int>, m: int, rest: seq<int>)
    requires m in ks
    requires Enumerates(rest, ks - {m})
    ensures forall i :: 0 <= i < |[m] + rest| ==> ([m] + rest)[i] in ks
    ensures forall k :: k in ks ==> k in [m] + rest
  {
    var r := [m] + rest;
    forall i | 0 <= i < |r|
      ensures r[i] in ks
    {
      if i > 0 {
        assert r[i] == rest[i - 1];
        assert rest[i - 1] in ks - {m};
      }
    }
    forall k | k in ks
      ensures k in r
    {
      if k != m {
        assert k in ks - {m};
        assert k in rest;
        var j :| 0 <= j < |rest| && rest[j] == k;
        assert r[j + 1] == k;
      }
    }
  }

  /** The order half of `PrependLeast`: `[m] + rest` is strictly increasing. */
  lemma PrependLeastOrder(ks: set<int>, m: int, rest: seq<int>)
    requires forall y :: y in ks ==> m <= y
    requires Enumerates(rest, ks - {m})
    ensures StrictlyIncreasing([m] + rest)
  {
    var r := [m] + rest;
    forall i, j | 0 <= i < j < |r|
      ensures r[i] < r[j]
    {
      assert r[j] == rest[j - 1];
      if i > 0 {
        assert r[i] == rest[i - 1];
        assert rest[i - 1] < rest[j - 1];
      } else {
        assert rest[j - 1] in ks - {m};
        assert m <= rest[j - 1] && m != rest[j - 1];
      }
    }
  }

  /** The ids of a table in the order the model assumes a full scan visits them:
      ascending, each exactly once. */
  function AscendingIds(ks: set<int>): (r: seq<int>)
    ensures Enumerates(r, ks)
    decreases |ks|
  {
    if ks == {} then []
    else
      var m := Least(ks);
      var rest := AscendingIds(ks - {m});
      PrependLeast(ks, m, rest);
      [m] + rest
  }

  /** Two strictly increasing sequences with the same elements are equal:
      the ascending enumeration of a set is unique. */
  lemma {:induction false} AscendingUnique(a: seq<int>, b: seq<int>)
    requires StrictlyIncreasing(a) && StrictlyIncreasing(b)
    requires forall x :: x in a <==> x in b
    ensures a == b
    decreases |a|
  {
    if a == [] {
      assert forall i :: 0 <= i < |b| ==> b[i] in a;
      assert |b| == 0;
    } else {
      assert a[0] in a;
      assert a[0] in b;
      assert b[0] in b;
      assert a[0] == b[0];
      forall x
        ensures x in a[1..] <==> x in b[1..]
      {
        assert x in a[1..] <==> x in a && x != a[0];
        assert x in b[1..] <==> x in b && x != b[0];
      }
      AscendingUnique(a[1..], b[1..]);
      assert a == [a[0]] + a[1..];
      assert b == [b[0]] + b[1..];
    }
  }

  /** The rows stored under `ids`, in that order. */
  function RowsAt(t: Table, ids: seq<int>): (r: seq<Todo>)
    requires forall i :: 0 <= i < |ids| ==> ids[i] in t
    ensures |r| == |ids|
    ensures forall i :: 0 <= i < |r| ==> r[i] == RowOf(ids[i], t[ids[i]])
  {
    seq(|ids|, i requires 0 <= i < |ids| => RowOf(ids[i], t[ids[i]]))
  }

  /** Reading the rows under an ascending enumeration of the keys reads every row once,
      in ascending id order. */
  lemma RowsAtEnumeration(t: Table, ids: seq<int>, r: seq<Todo>)
    requires Enumerates(ids, t.Keys) && r == RowsAt(t, ids)
    ensures |r| == |t|
    ensures forall i :: 0 <= i < |r| ==> r[i].id in t && t[r[i].id] == ColumnsOf(r[i])
    ensures forall k :: k in t ==> RowOf(k, t[k]) in r
    ensures IdsAscending(r)
  {
    assert |t.Keys| == |t|;
    forall i | 0 <= i < |r|
      ensures r[i].id in t && t[r[i].id] == ColumnsOf(r[i])
    {
      assert r[i] == RowOf(ids[i], t[ids[i]]);
    }
    forall k | k in t
      ensures RowOf(k, t[k]) in r
    {
      var i :| 0 <= i < |ids| && ids[i] == k;
      assert r[i] == RowOf(k, t[k]);
    }
    forall i, j | 0 <= i < j < |r|
      ensures r[i].id < r[j].id
    {
      assert r[i].id == ids[i] && r[j].id == ids[j];
    }
  }

  /** `SELECT * FROM todos`: every stored row, once each, in ascending id order.
      The order is a modelling assumption: the query has no `ORDER BY`, but SQLite
      scans a rowid table in rowid order, and the `Int` primary key `id` is the rowid. */
  function SelectAll(t: Table): (r: seq<Todo>)
    ensures |r| == |t|
    ensures forall i :: 0 <= i < |r| ==> r[i].id in t && t[r[i].id] == ColumnsOf(r[i])
    ensures forall k :: k in t ==> RowOf(k, t[k]) in r
    ensures IdsAscending(r)
  {
    var ids := AscendingIds(t.Keys);
    var r := RowsAt(t, ids);
    RowsAtEnumeration(t, ids, r);
    r
  }

  /** `SELECT * FROM todos WHERE id = :id`: the row with that id, if any. */
  function SelectById(t: Table, id: int): (r: Option<Todo>)
    ensures r.Some? <==> id in t
    ensures r.Some? ==> r.value.id == id && ColumnsOf(r.value) == t[id]
  {
    if id in t then Some(RowOf(id, t[id])) else None
  }

  /** The by-id query agrees with the full scan: it finds exactly the scanned row
      carrying that id, and finds nothing when no scanned row carries it. */
  lemma SelectByIdAgreesWithSelectAll(t: Table, id: int, x: Todo)
    ensures SelectById(t, id) == Some(x) <==> x in SelectAll(t) && x.id == id
  {
    var all := SelectAll(t);
    if x in all && x.id == id {
      var i :| 0 <= i < |all| && all[i] == x;
      assert t[all[i].id] == ColumnsOf(all[i]);
    }
  }

  /** `i` is the last position in `xs` holding a record with id `xs[i].id`. */
  predicate LastWithId(xs: seq<Todo>, i: int) {
    0 <= i < |xs| && forall j :: i < j < |xs| ==> xs[j].id != xs[i].id
  }

  /** `@Insert(onConflict = REPLACE)` of a list: the rows are written in list order
      and a row whose id is already present replaces the existing row. The table ends
      up holding the old ids plus those of `xs`, the last row written sits under its
      own id, and rows under ids that `xs` does not mention are untouched. */
  function InsertAll(t: Table, xs: seq<Todo>): (r: Table)
    ensures r.Keys == t.Keys + IdsOf(xs)
    ensures forall k :: k in t && k !in IdsOf(xs) ==> r[k] == t[k]
    ensures xs != [] ==> r[xs[|xs| - 1].id] == ColumnsOf(xs[|xs| - 1])
    decreases |xs|
  {
    if xs == [] then t
    else
      var x := xs[|xs| - 1];
      InsertAll(t, xs[..|xs| - 1])[x.id := ColumnsOf(x)]
  }

  /** Replace-on-conflict lets the last write win: the record at a position that is the
      last one of its id in `xs` is the one stored under that id afterwards. */
  lemma {:induction false} InsertAllLastWins(t: Table, xs: seq<Todo>, i: int)
    requires LastWithId(xs, i)
    ensures SelectById(InsertAll(t, xs), xs[i].id) == Some(xs[i])
    decreases |xs|
  {
    if i < |xs| - 1 {
      var init := xs[..|xs| - 1];
      assert LastWithId(init, i);
      InsertAllLastWins(t, init, i);
    }
  }

  /** Every id that `xs` mentions has a last occurrence in `xs`. */
  lemma {:induction false} LastOccurrenceExists(xs: seq<Todo>, id: int)
    requires id in IdsOf(xs)
    ensures exists i :: LastWithId(xs, i) && xs[i].id == id
    decreases |xs|
  {
    var x := xs[|xs| - 1];
    var init := xs[..|xs| - 1];
    assert IdsOf(xs) == IdsOf(init) + {x.id};
    if x.id == id {
      assert LastWithId(xs, |xs| - 1);
    } else {
      LastOccurrenceExists(init, id);
      var i :| LastWithId(init, i) && init[i].id == id;
      assert LastWithId(xs, i) by {
        forall j | i < j < |xs|
          ensures xs[j].id != xs[i].id
        {
          if j < |xs| - 1 {
            assert xs[j] == init[j];
          }
        }
      }
    }
  }

  /** After a REPLACE insert, each id of `xs` holds the LAST record of `xs` with that id,
      and the rows under every other id are exactly those that were there before. */
  lemma InsertAllReplaces(t: Table, xs: seq<Todo>, id: int)
    ensures id in IdsOf(xs) ==>
      exists i :: LastWithId(xs, i) && xs[i].id == id && SelectById(InsertAll(t, xs), id) == Some(xs[i])
    ensures id !in IdsOf(xs) ==> SelectById(InsertAll(t, xs), id) == SelectById(t, id)
  {
    if id in IdsOf(xs) {
      LastOccurrenceExists(xs, id);
      var i :| LastWithId(xs, i) && xs[i].id == id;
      InsertAllLastWins(t, xs, i);
    }
  }

  /** For a list with ascending ids, the ascending enumeration of its id set is its
      own id sequence. */
  lemma AscendingIdsOfAscendingList(xs: seq<Todo>)
    requires IdsAscending(xs)
    ensures AscendingIds(IdsOf(xs)) == IdSeq(xs)
  {
    var ks := IdsOf(xs);
    var ids := AscendingIds(ks);
    var xids := IdSeq(xs);
    assert Enumerates(ids, ks);
    forall k
      ensures k in ids <==> k in xids
    {
      if k in ks {
        var i :| 0 <= i < |xs| && xs[i].id == k;
        assert xids[i] == k;
      }
      if k in xids {
        var i :| 0 <= i < |xids| && xids[i] == k;
        assert xs[i].id in ks;
      }
    }
    assert StrictlyIncreasing(xids) by {
      forall i, j | 0 <= i < j < |xids|
        ensures xids[i] < xids[j]
      {
        assert xs[i].id < xs[j].id;
      }
    }
    AscendingUnique(ids, xids);
  }

  /** In a list with ascending ids every record is the last one with its id, so
      inserting the list leaves each record readable under its id. */
  lemma InsertAscendingReadsBack(t: Table, xs: seq<Todo>, i: int)
    requires IdsAscending(xs) && 0 <= i < |xs|
    ensures SelectById(InsertAll(t, xs), xs[i].id) == Some(xs[i])
  {
    assert LastWithId(xs, i) by {
      forall j | i < j < |xs|
        ensures xs[j].id != xs[i].id
      {
        assert xs[i].id < xs[j].id;
      }
    }
    InsertAllLastWins(t, xs, i);
  }

  /** Reading a table at the ids of `xs` gives `xs` back when each record of `xs` is
      stored under its id. */
  lemma RowsAtReadsBack(t: Table, xs: seq<Todo>)
    requires forall i :: 0 <= i < |xs| ==> xs[i].id in t
    requires forall i :: 0 <= i < |xs| ==> SelectById(t, xs[i].id) == Some(xs[i])
    ensures RowsAt(t, IdSeq(xs)) == xs
  {
    var all := RowsAt(t, IdSeq(xs));
    forall i | 0 <= i < |xs|
      ensures all[i] == xs[i]
    {
      assert SelectById(t, xs[i].id) == Some(xs[i]);
    }
  }

  /** Inserting a list with strictly ascending ids into an empty table and scanning it
      gives the same list back. */
  lemma InsertThenSelectAll(e: Table, xs: seq<Todo>)
    requires |e| == 0
    requires IdsAscending(xs)
    ensures SelectAll(InsertAll(e, xs)) == xs
  {
    var t := InsertAll(e, xs);
    assert e.Keys == {};
    assert t.Keys == IdsOf(xs);
    AscendingIdsOfAscendingList(xs);
    forall i | 0 <= i < |xs|
      ensures SelectById(t, xs[i].id) == Some(xs[i])
    {
      InsertAscendingReadsBack(e, xs, i);
    }
    RowsAtReadsBack(t, xs);
  }



  /** `DELETE FROM todos`: the table is empty afterwards. */
  function DeleteAll(t: Table): (r: Table)
    ensures |r| == 0
    ensures SelectAll(r) == []
    ensures forall id :: SelectById(r, id) == None
  {
    map[]
  }
}
