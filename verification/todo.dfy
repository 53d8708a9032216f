/** The single entity of the application: one todo record, as stored and as displayed. */
module TodoModel {

  /** A todo record. `id` is the table's primary key; records are immutable values
      that the store only ever replaces whole, never updates field by field. */
  datatype Todo = Todo(id: int, title: string, completed: bool, userId: int)

  /** The ids that occur in a list of records. */
  function IdsOf(xs: seq<Todo>): (r: set<int>)
    ensures forall i :: 0 <= i < |xs| ==> xs[i].id in r
    ensures forall k :: k in r ==> exists i :: 0 <= i < |xs| && xs[i].id == k
    decreases |xs|
  {
    if xs == [] then {} else IdsOf(xs[..|xs| - 1]) + {xs[|xs| - 1].id}
  }

  /** The ids of `xs`, position by position. */
  function IdSeq(xs: seq<Todo>): (r: seq<int>)
    ensures |r| == |xs|
    ensures forall i :: 0 <= i < |xs| ==> r[i] == xs[i].id
  {
    seq(|xs|, i requires 0 <= i < |xs| => xs[i].id)
  }

  /** `xs` lists integers in strictly increasing order. */
  predicate StrictlyIncreasing(xs: seq<int>) {
    forall i, j :: 0 <= i < j < |xs| ==> xs[i] < xs[j]
  }

  /** The record ids of `xs` increase strictly from left to right (so they are distinct). */
  predicate IdsAscending(xs: seq<Todo>) {
    StrictlyIncreasing(IdSeq(xs))
  }
}
