/**
 The two guards the page's event handlers put in front of the store (the
 submit form trims its text and refuses an empty result; the delete button
 asks for confirmation first), and whole sessions of user events run through
 them.
 */
module Handlers {
  import opened Todos
  import opened Text
  import opened TodoStore

  /** The store after a handler ran, and the id it added, if it added one. */
  datatype Handled = Handled(store: Store, newId: Option<int>)

  /** Every stored content is non-empty and has no whitespace at either end. */
  predicate CleanContents(xs: seq<Todo>) {
    forall t :: t in xs ==> Trimmed(t.content)
  }

  /** The add form's submit handler: the text is trimmed; when nothing is
      left the store is untouched, otherwise the trimmed text is added. */
  function Submit(s: Store, text: string, regDate: string): (r: Handled)
    ensures r.newId.None? <==> Blank(text)
    ensures r.newId.None? ==> r.store == s
    ensures r.newId.Some? ==>
      && r.newId.value == s.lastId + 1
      && r.store.lastId == r.newId.value
      && r.store.todos == [Todo(r.newId.value, Trim(text), regDate, false)] + s.todos
    ensures r.newId.Some? ==> Trimmed(r.store.todos[0].content)
  {
    TrimEmptyIffBlank(text);
    var content := Trim(text);
    if |content| == 0 then Handled(s, None)
    else
      var a := Add(s, content, regDate);
      assert a.store.todos == [a.store.todos[0]] + a.store.todos[1..];
      Handled(a.store, Some(a.id))
  }

  /** The list's delete handler: a declined confirmation changes nothing;
      a confirmed one removes the id, which under unique ids drops exactly
      one record when the id is present and nothing when it is absent. */
  function ConfirmRemove(s: Store, id: int, confirmed: bool): (r: Store)
    ensures r.lastId == s.lastId
    ensures !confirmed ==> r == s
    ensures confirmed ==> r.todos == Remove(s.todos, id)
    ensures confirmed ==> forall t :: t in r.todos <==> t in s.todos && t.id != id
    ensures Valid(s) ==> Valid(r)
    ensures !HasId(s.todos, id) ==> r == s
    ensures confirmed && UniqueIds(s.todos) && HasId(s.todos, id) ==>
      |r.todos| == |s.todos| - 1
  {
    if !confirmed then s
    else
      var r := s.(todos := Remove(s.todos, id));
      assert Valid(s) ==> Valid(r) by {
        if Valid(s) {
          RemoveKeepsValid(s, id);
        }
      }
      if !HasId(s.todos, id) then
        RemoveAbsent(s.todos, id);
        r
      else if UniqueIds(s.todos) then
        var t :| t in s.todos && t.id == id;
        var k :| 0 <= k < |s.todos| && s.todos[k] == t;
        RemovePresent(s.todos, k, id);
        r
      else
        r
  }

  /** A user action on the page. The submission date and the answer to the
      confirmation prompt are inputs of the event. */
  datatype Event =
    | SubmitForm(text: string, regDate: string)
    | ToggleClick(id: int)
    | DeleteClick(id: int, confirmed: bool)

  /** One event through its handler. Every handler keeps the invariant and
      clean contents; only an accepted submission moves the counter, by one,
      to the id it reports. */
  function Step(s: Store, e: Event): (r: Handled)
    ensures Valid(s) ==> Valid(r.store)
    ensures CleanContents(s.todos) ==> CleanContents(r.store.todos)
    ensures r.newId.None? ==> r.store.lastId == s.lastId
    ensures r.newId.Some? ==> r.newId.value == s.lastId + 1 == r.store.lastId
  {
    match e
    case SubmitForm(text, regDate) =>
      var r := Submit(s, text, regDate);
      assert Valid(s) ==> Valid(r.store) by {
        if Valid(s) && r.newId.Some? {
          AddKeepsValid(s, Trim(text), regDate);
        }
      }
      r
    case ToggleClick(id) =>
      var r := Handled(s.(todos := Toggle(s.todos, id)), None);
      assert CleanContents(s.todos) ==> CleanContents(r.store.todos) by {
        if CleanContents(s.todos) {
          forall t | t in r.store.todos ensures Trimmed(t.content) {
            var k :| 0 <= k < |r.store.todos| && r.store.todos[k] == t;
            assert s.todos[k] in s.todos;
          }
        }
      }
      assert Valid(s) ==> Valid(r.store) by {
        if Valid(s) {
          ToggleKeepsValid(s, id);
        }
      }
      r
    case DeleteClick(id, confirmed) =>
      Handled(ConfirmRemove(s, id, confirmed), None)
  }

  /** A session: the final store and the ids reported by accepted
      submissions, in the order they were issued. */
  datatype Session = Session(store: Store, issued: seq<int>)

  /** Runs events in order. The ids handed out are consecutive from the
      starting counter on, so they strictly increase and none is reused
      after a deletion; the invariant and clean contents hold throughout. */
  function Run(s: Store, es: seq<Event>): (r: Session)
    ensures Valid(s) ==> Valid(r.store)
    ensures CleanContents(s.todos) ==> CleanContents(r.store.todos)
    ensures r.store.lastId == s.lastId + |r.issued|
    ensures forall i :: 0 <= i < |r.issued| ==> r.issued[i] == s.lastId + 1 + i
    decreases |es|
  {
    if es == [] then Session(s, [])
    else
      var o := Step(s, es[0]);
      var rest := Run(o.store, es[1..]);
      match o.newId
      case None => rest
      case Some(id) =>
        var issued := [id] + rest.issued;
        assert forall i :: 0 < i < |issued| ==> issued[i] == rest.issued[i - 1];
        Session(rest.store, issued)
  }

  /** Ids issued in one session strictly increase and all exceed every id
      present when it started. */
  lemma IssuedIdsIncrease(s: Store, es: seq<Event>)
    requires Valid(s)
    ensures var ids := Run(s, es).issued;
      forall i, j :: 0 <= i < j < |ids| ==> ids[i] < ids[j]
    ensures forall i :: 0 <= i < |Run(s, es).issued| ==> !HasId(s.todos, Run(s, es).issued[i])
  {
  }

  /** A sample session: start empty, add "buy milk" (id 1),
      complete it, add "walk dog" (id 2), delete id 1 with confirmation. */
  lemma ExampleSession(d1: string, d2: string)
    ensures Run(Store([], 0), [
      SubmitForm("buy milk", d1), ToggleClick(1),
      SubmitForm("walk dog", d2), DeleteClick(1, true)])
      == Session(Store([Todo(2, "walk dog", d2, false)], 2), [1, 2])
  {
    var e1, e2, e3, e4 := SubmitForm("buy milk", d1), ToggleClick(1),
      SubmitForm("walk dog", d2), DeleteClick(1, true);
    ExampleFirstSubmit(d1);
    ExampleLaterEvents(d1, d2);
    assert [e1, e2, e3, e4][1..] == [e2, e3, e4];
  }

  lemma ExampleLaterEvents(d1: string, d2: string)
    ensures Run(Store([Todo(1, "buy milk", d1, false)], 1), [
      ToggleClick(1), SubmitForm("walk dog", d2), DeleteClick(1, true)])
      == Session(Store([Todo(2, "walk dog", d2, false)], 2), [2])
  {
    var done := Todo(1, "buy milk", d1, true);
    var dog := Todo(2, "walk dog", d2, false);
    var e2, e3, e4 := ToggleClick(1), SubmitForm("walk dog", d2), DeleteClick(1, true);
    ExampleSecondSubmit(d1, d2);
    ExampleToggleAndDelete(d1, d2);
    assert [e2, e3, e4][1..] == [e3, e4];
    assert [e3, e4][1..] == [e4];
    assert Run(Store([dog, done], 2), [e4]) == Session(Store([dog], 2), []);
    assert Run(Store([done], 1), [e3, e4]) == Session(Store([dog], 2), [2]);
  }

  lemma ExampleFirstSubmit(d1: string)
    ensures Step(Store([], 0), SubmitForm("buy milk", d1))
      == Handled(Store([Todo(1, "buy milk", d1, false)], 1), Some(1))
  {
    TrimOfTrimmed("buy milk");
  }

  lemma ExampleSecondSubmit(d1: string, d2: string)
    ensures Step(Store([Todo(1, "buy milk", d1, true)], 1), SubmitForm("walk dog", d2))
      == Handled(Store([Todo(2, "walk dog", d2, false), Todo(1, "buy milk", d1, true)], 2), Some(2))
  {
    TrimOfTrimmed("walk dog");
  }

  lemma ExampleToggleAndDelete(d1: string, d2: string)
    ensures Step(Store([Todo(1, "buy milk", d1, false)], 1), ToggleClick(1))
      == Handled(Store([Todo(1, "buy milk", d1, true)], 1), None)
    ensures Step(Store([Todo(2, "walk dog", d2, false), Todo(1, "buy milk", d1, true)], 2), DeleteClick(1, true))
      == Handled(Store([Todo(2, "walk dog", d2, false)], 2), None)
  {
    var dog := Todo(2, "walk dog", d2, false);
    assert [dog, Todo(1, "buy milk", d1, true)][1..] == [Todo(1, "buy milk", d1, true)];
  }
}
