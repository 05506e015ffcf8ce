/**
 The records the to-do page keeps, and the shape predicates over a list of
 them that the store's invariant is built from.
 */
module Todos {

  /** A value that may be missing, such as an absent storage key. */
  datatype Option<T> = None | Some(value: T)

  /** One to-do record `{id, content, regDate, completed}`. The id is a plain
      integer: records restored from storage may carry any number. */
  datatype Todo = Todo(id: int, content: string, regDate: string, completed: bool)

  /** Some record of `xs` carries `id`. */
  predicate HasId(xs: seq<Todo>, id: int) {
    exists t :: t in xs && t.id == id
  }

  /** No two records of `xs` share an id. */
  predicate UniqueIds(xs: seq<Todo>) {
    forall i, j :: 0 <= i < j < |xs| ==> xs[i].id != xs[j].id
  }

  /** Newest first: ids strictly decrease along the list. */
  predicate Descending(xs: seq<Todo>) {
    forall i, j :: 0 <= i < j < |xs| ==> xs[i].id > xs[j].id
  }

  /** Every id in `xs` is at most `n`. */
  predicate IdsAtMost(xs: seq<Todo>, n: int) {
    forall t :: t in xs ==> t.id <= n
  }

  lemma DescendingIsUnique(xs: seq<Todo>)
    requires Descending(xs)
    ensures UniqueIds(xs)
  {
  }

  /** The head of a descending list carries its largest id. */
  lemma DescendingHeadIsLargest(xs: seq<Todo>)
    requires Descending(xs) && xs != []
    ensures IdsAtMost(xs, xs[0].id)
  {
    forall t | t in xs
      ensures t.id <= xs[0].id
    {
      var k :| 0 <= k < |xs| && xs[k] == t;
      if k > 0 {
        assert xs[0].id > xs[k].id;
      }
    }
  }
}
