/**
 The to-do store of the page: an ordered list of records (newest first) and
 the last id handed out. Add, toggle, remove and the reconciliation that runs
 when stored records are loaded are pure functions from one store state to
 the next.
 */
module TodoStore {
  import opened Todos

  /** The two pieces of state: the record list and the last-id counter. */
  datatype Store = Store(todos: seq<Todo>, lastId: int)

  /** The store's invariant: ids are unique, the list is newest first, and
      the counter has reached every id in it. */
  predicate Valid(s: Store) {
    && UniqueIds(s.todos)
    && Descending(s.todos)
    && IdsAtMost(s.todos, s.lastId)
  }

  /** What `add` leaves behind and the id it reports to its caller. */
  datatype Added = Added(store: Store, id: int)

  /** Takes the next id, advances the counter to it and puts a new,
      uncompleted record at the front. The date is supplied by the caller. */
  function Add(s: Store, content: string, regDate: string): (r: Added)
    ensures r.id == s.lastId + 1 && r.store.lastId == r.id
    ensures |r.store.todos| == |s.todos| + 1
    ensures r.store.todos[0] == Todo(r.id, content, regDate, false)
    ensures r.store.todos[1..] == s.todos
    ensures IdsAtMost(s.todos, s.lastId) ==> !HasId(s.todos, r.id)
  {
    var id := s.lastId + 1;
    Added(Store([Todo(id, content, regDate, false)] + s.todos, id), id)
  }

  /** The new id exceeds every id in a valid store, so add keeps the
      invariant. */
  lemma AddKeepsValid(s: Store, content: string, regDate: string)
    requires Valid(s)
    ensures Valid(Add(s, content, regDate).store)
  {
    var xs := Add(s, content, regDate).store.todos;
    forall i, j | 0 <= i < j < |xs|
      ensures xs[i].id > xs[j].id
    {
      if i == 0 {
        assert xs[j] == s.todos[j - 1];
        assert xs[j] in s.todos;
      } else {
        assert xs[i] == s.todos[i - 1] && xs[j] == s.todos[j - 1];
      }
    }
    DescendingIsUnique(xs);
  }

  /** One record with `completed` flipped when its id is `id`. */
  function Flip(t: Todo, id: int): Todo {
    if t.id != id then t else t.(completed := !t.completed)
  }

  /** Flips `completed` on every record whose id is `id`; every other field,
      every other record, the length and the order stay as they were. */
  function Toggle(xs: seq<Todo>, id: int): (r: seq<Todo>)
    ensures |r| == |xs|
    ensures forall i :: 0 <= i < |xs| ==>
      && r[i].id == xs[i].id
      && r[i].content == xs[i].content
      && r[i].regDate == xs[i].regDate
    ensures forall i :: 0 <= i < |xs| ==>
      (r[i].completed != xs[i].completed <==> xs[i].id == id)
    ensures forall i :: 0 <= i < |xs| && xs[i].id != id ==> r[i] == xs[i]
  {
    if xs == [] then [] else [Flip(xs[0], id)] + Toggle(xs[1..], id)
  }

  /** Toggling the same id twice restores the list. */
  lemma ToggleTwice(xs: seq<Todo>, id: int)
    ensures Toggle(Toggle(xs, id), id) == xs
  {
    var r := Toggle(Toggle(xs, id), id);
    forall i | 0 <= i < |xs|
      ensures r[i] == xs[i]
    {
    }
  }

  /** Toggle changes no id, so it keeps the invariant and the counter. */
  lemma ToggleKeepsValid(s: Store, id: int)
    requires Valid(s)
    ensures Valid(s.(todos := Toggle(s.todos, id)))
  {
    var xs := Toggle(s.todos, id);
    forall t | t in xs
      ensures t.id <= s.lastId
    {
      var k :| 0 <= k < |xs| && xs[k] == t;
      assert s.todos[k] in s.todos;
    }
  }

  /** Keeps, in order, exactly the records whose id is not `id`. */
  function Remove(xs: seq<Todo>, id: int): (r: seq<Todo>)
    ensures |r| <= |xs|
    ensures forall t :: t in r <==> t in xs && t.id != id
  {
    if xs == [] then []
    else if xs[0].id != id then [xs[0]] + Remove(xs[1..], id)
    else Remove(xs[1..], id)
  }

  /** Removal distributes over concatenation: the kept records stay in
      their original relative order. */
  lemma {:induction false} RemoveAppend(a: seq<Todo>, b: seq<Todo>, id: int)
    ensures Remove(a + b, id) == Remove(a, id) + Remove(b, id)
  {
    if a == [] {
      assert a + b == b;
    } else {
      assert (a + b)[1..] == a[1..] + b;
      RemoveAppend(a[1..], b, id);
    }
  }

  /** Removing an id that is not there changes nothing. */
  lemma {:induction false} RemoveAbsent(xs: seq<Todo>, id: int)
    requires !HasId(xs, id)
    ensures Remove(xs, id) == xs
  {
    if xs != [] {
      assert xs[0] in xs;
      assert !HasId(xs[1..], id) by {
        forall t | t in xs[1..] ensures t.id != id {
          assert t in xs;
        }
      }
      RemoveAbsent(xs[1..], id);
      assert [xs[0]] + xs[1..] == xs;
    }
  }

  /** Under unique ids, removing the id of the record at `k` removes that
      record and nothing else. */
  lemma RemovePresent(xs: seq<Todo>, k: int, id: int)
    requires UniqueIds(xs)
    requires 0 <= k < |xs| && xs[k].id == id
    ensures Remove(xs, id) == xs[..k] + xs[k + 1..]
    ensures |Remove(xs, id)| == |xs| - 1
  {
    var pre, post := xs[..k], xs[k + 1..];
    assert xs == (pre + [xs[k]]) + post;
    OthersLackId(xs, k);
    calc {
      Remove(xs, id);
      Remove((pre + [xs[k]]) + post, id);
      { RemoveAppend(pre + [xs[k]], post, id); }
      Remove(pre + [xs[k]], id) + Remove(post, id);
      { RemoveAppend(pre, [xs[k]], id); }
      Remove(pre, id) + Remove([xs[k]], id) + Remove(post, id);
      { RemoveAbsent(pre, id); RemoveAbsent(post, id); }
      pre + Remove([xs[k]], id) + post;
      { assert [xs[k]][1..] == []; }
      pre + post;
    }
  }

  /** Under unique ids, no record but the one at `k` carries its id. */
  lemma OthersLackId(xs: seq<Todo>, k: int)
    requires UniqueIds(xs)
    requires 0 <= k < |xs|
    ensures !HasId(xs[..k], xs[k].id) && !HasId(xs[k + 1..], xs[k].id)
  {
    forall t | t in xs[..k] ensures t.id != xs[k].id {
      var i :| 0 <= i < k && xs[..k][i] == t;
      assert xs[i] == t;
    }
    forall t | t in xs[k + 1..] ensures t.id != xs[k].id {
      var i :| 0 <= i < |xs| - k - 1 && xs[k + 1..][i] == t;
      assert xs[k + 1 + i] == t;
    }
  }

  /** Removal keeps a newest-first list newest first. */
  lemma {:induction false} RemoveKeepsDescending(xs: seq<Todo>, id: int)
    requires Descending(xs)
    ensures Descending(Remove(xs, id))
  {
    if xs != [] {
      var rest := Remove(xs[1..], id);
      RemoveKeepsDescending(xs[1..], id);
      if xs[0].id != id {
        TailBelowHead(xs);
        ConsDescending(xs[0], rest);
      }
    }
  }

  /** In a newest-first list every later record is older than the head. */
  lemma TailBelowHead(xs: seq<Todo>)
    requires Descending(xs) && xs != []
    ensures forall t :: t in xs[1..] ==> t.id < xs[0].id
  {
    forall t | t in xs[1..] ensures t.id < xs[0].id {
      var m :| 0 <= m < |xs[1..]| && xs[1..][m] == t;
      assert xs[m + 1] == t;
    }
  }

  /** A record newer than everything in a newest-first list can go in front. */
  lemma ConsDescending(x: Todo, xs: seq<Todo>)
    requires Descending(xs)
    requires forall t :: t in xs ==> t.id < x.id
    ensures Descending([x] + xs)
  {
    var r := [x] + xs;
    forall i, j | 0 <= i < j < |r|
      ensures r[i].id > r[j].id
    {
      assert r[j] == xs[j - 1];
      if i == 0 {
        assert xs[j - 1] in xs;
      } else {
        assert r[i] == xs[i - 1];
      }
    }
  }

  /** Removal keeps the invariant and the counter. */
  lemma RemoveKeepsValid(s: Store, id: int)
    requires Valid(s)
    ensures Valid(s.(todos := Remove(s.todos, id)))
  {
    RemoveKeepsDescending(s.todos, id);
    DescendingIsUnique(Remove(s.todos, id));
  }

  function Max(a: int, b: int): int {
    if a < b then b else a
  }

  /** The left fold `xs.reduce((max, t) => Math.max(max, t.id), acc)`: the
      least number that is at least `acc` and every id of `xs`. */
  function MaxIdFrom(acc: int, xs: seq<Todo>): (r: int)
    ensures r >= acc && IdsAtMost(xs, r)
    ensures r == acc || HasId(xs, r)
    decreases |xs|
  {
    if xs == [] then acc else MaxIdFrom(Max(acc, xs[0].id), xs[1..])
  }

  /** The counter reconciliation derives from a list: its largest id, and 0
      when there is no positive one. */
  function MaxId(xs: seq<Todo>): (r: int)
    ensures r >= 0 && IdsAtMost(xs, r)
    ensures r == 0 || HasId(xs, r)
  {
    MaxIdFrom(0, xs)
  }

  /** On a newest-first list the reconciled counter is read off the head. */
  lemma MaxIdOfDescending(xs: seq<Todo>)
    requires Descending(xs) && xs != []
    ensures MaxId(xs) == Max(0, xs[0].id)
  {
    DescendingHeadIsLargest(xs);
    assert xs[0] in xs;
  }

  /** Loading: a stored list (when the key holds something) replaces the
      in-memory list and the counter becomes its largest id or 0, whatever
      the counter was before. Without a stored list nothing changes. */
  function Reconcile(s: Store, saved: Option<seq<Todo>>): (r: Store)
    ensures saved.None? ==> r == s
    ensures saved.Some? ==> r.todos == saved.value
    ensures saved.Some? ==> r.lastId >= 0 && IdsAtMost(r.todos, r.lastId)
    ensures saved.Some? ==> r.lastId == 0 || HasId(r.todos, r.lastId)
  {
    match saved
    case None => s
    case Some(xs) => Store(xs, MaxId(xs))
  }

  /** After loading, the next add hands out an id no loaded record has. */
  lemma ReconcileThenAddIsFresh(s: Store, xs: seq<Todo>, content: string, regDate: string)
    ensures !HasId(xs, Add(Reconcile(s, Some(xs)), content, regDate).id)
  {
  }

  /** Loading a newest-first list yields a valid store. */
  lemma ReconcileValid(s: Store, xs: seq<Todo>)
    requires Descending(xs)
    ensures Valid(Reconcile(s, Some(xs)))
  {
    DescendingIsUnique(xs);
  }

  /** The state before loading has no influence on the reconciled state. */
  lemma ReconcileForgetsCounter(s1: Store, s2: Store, xs: seq<Todo>)
    ensures Reconcile(s1, Some(xs)) == Reconcile(s2, Some(xs))
  {
  }

  /** The state the page starts from before loading: the stored list or an
      empty one, and the stored counter or 0 when the counter key is missing
      or does not parse to a non-zero integer. Without a stored list the
      start is valid whatever the counter; with one, the reconciliation that
      follows reads the same list and so keeps it, changing only the counter. */
  function Initial(savedTodos: Option<seq<Todo>>, savedCounter: Option<int>): (r: Store)
    ensures savedTodos.None? ==> r.todos == [] && Valid(r)
    ensures Reconcile(r, savedTodos).todos == r.todos
    ensures savedTodos.Some? ==> Reconcile(r, savedTodos).lastId == MaxId(r.todos)
    ensures savedCounter.Some? ==> r.lastId == savedCounter.value
    ensures savedCounter.None? ==> r.lastId == 0
  {
    Store(
      match savedTodos case Some(xs) => xs case None => [],
      match savedCounter case Some(n) => n case None => 0)
  }

  /** Start-up: the initial state followed by reconciliation against the same
      stored list. The result is valid whenever the stored list is newest
      first, and its counter is derived from the list alone. */
  lemma StartupValid(savedTodos: Option<seq<Todo>>, savedCounter: Option<int>)
    requires savedTodos.Some? ==> Descending(savedTodos.value)
    ensures Valid(Reconcile(Initial(savedTodos, savedCounter), savedTodos))
    ensures savedTodos.Some? ==>
      Reconcile(Initial(savedTodos, savedCounter), savedTodos).lastId == MaxId(savedTodos.value)
  {
    if savedTodos.Some? {
      ReconcileValid(Initial(savedTodos, savedCounter), savedTodos.value);
    }
  }
}
