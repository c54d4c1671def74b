/** A session of the App component: the default document, then one handler per user action,
    each running to completion before the next action is taken. */
module Session {
  import opened JsText
  import opened ListStore
  import StoreInvariants

  datatype Option<T> = None | Some(value: T)

  /** The user actions the page offers, with the argument each handler receives. */
  datatype Action =
    | AddTodoAction(input: string)
    | ToggleTodoAction(todoIdx: int)
    | DeleteTodoAction(todoIdx: int)
    | AddListAction(newListName: string)
    | SelectListAction(listIdx: int)
    | DeleteListAction(listIdx: int, confirmed: bool)

  /** The sidebar only offers list buttons for the lists it renders, so both list handlers
      receive an index of an existing list; the other actions carry any argument. */
  predicate Offered(d: Document, a: Action) {
    match a
    case SelectListAction(i) => 0 <= i < |d.lists|
    case DeleteListAction(i, _) => 0 <= i < |d.lists|
    case _ => true
  }

  /** The handler that the action triggers. */
  function Apply(d: Document, a: Action): (r: Document)
    requires Valid(d) && Offered(d, a)
    ensures Valid(r)
  {
    match a
    case AddTodoAction(input) => AddTodo(d, input)
    case ToggleTodoAction(i) => ToggleTodo(d, i)
    case DeleteTodoAction(i) =>
      var r := DeleteTodo(d, i);
      assert 0 <= i < |d.lists[d.selected].todos| ==> |r.lists| == |d.lists|;
      r
    case AddListAction(name) => AddList(d, name)
    case SelectListAction(i) => SelectList(d, i)
    case DeleteListAction(i, c) => DeleteList(d, i, c)
  }

  /** Every handler keeps the full invariant: lists present, selection in range, distinct
      trimmed names and non-blank task texts. */
  lemma ApplyPreservesWellFormed(d: Document, a: Action)
    requires WellFormed(d) && Offered(d, a)
    ensures WellFormed(Apply(d, a))
  {
    match a
    case AddTodoAction(input) => StoreInvariants.AddTodoPreservesWellFormed(d, input);
    case ToggleTodoAction(i) => StoreInvariants.ToggleTodoPreservesWellFormed(d, i);
    case DeleteTodoAction(i) => StoreInvariants.DeleteTodoPreservesWellFormed(d, i);
    case AddListAction(name) => StoreInvariants.AddListPreservesWellFormed(d, name);
    case SelectListAction(i) => StoreInvariants.SelectListPreservesWellFormed(d, i);
    case DeleteListAction(i, c) => StoreInvariants.DeleteListPreservesWellFormed(d, i, c);
  }

  /** The document after the actions, one after the other; `None` when an action is one
      the page could not have offered in the document it met. */
  function Replay(d: Document, actions: seq<Action>): (r: Option<Document>)
    requires WellFormed(d)
    ensures r.Some? ==> WellFormed(r.value)
    ensures actions == [] ==> r == Some(d)
    decreases |actions|
  {
    if actions == [] then Some(d)
    else if !Offered(d, actions[0]) then None
    else
      ApplyPreservesWellFormed(d, actions[0]);
      Replay(Apply(d, actions[0]), actions[1..])
  }

  /** Every document a session reaches from the default one is well formed; in particular
      it has a list and its selection is in range. */
  lemma ReachableWellFormed(actions: seq<Action>)
    ensures var r := Replay(DefaultDocument(), actions);
      r.Some? ==> WellFormed(r.value) && |r.value.lists| >= 1
                  && 0 <= r.value.selected < |r.value.lists|
  {
  }

  /** Task actions, list additions, and selecting or deleting the first list are offered in
      every well-formed document (list 0 always exists), so a session of these never fails. */
  lemma {:induction false} ReplayFirstListActionsSucceed(d: Document, actions: seq<Action>)
    requires WellFormed(d)
    requires forall k :: 0 <= k < |actions| ==>
      (actions[k].SelectListAction? ==> actions[k].listIdx == 0)
      && (actions[k].DeleteListAction? ==> actions[k].listIdx == 0)
    ensures Replay(d, actions).Some?
    decreases |actions|
  {
    if actions != [] {
      ApplyPreservesWellFormed(d, actions[0]);
      ReplayFirstListActionsSucceed(Apply(d, actions[0]), actions[1..]);
    }
  }

  /** A first task in the default list. */
  lemma ScenarioFirstTask()
    ensures AddTodo(DefaultDocument(), "Buy milk")
            == Document([TodoList("My List", [Todo("Buy milk", false)])], 0)
  {
    var d := DefaultDocument();
    assert d.lists == [TodoList("My List", [])];
    assert !IsBlank("Buy milk") by { assert !IsWhitespace("Buy milk"[0]); }
    var r := AddTodo(d, "Buy milk");
    assert r.lists[0] == TodoList("My List", [Todo("Buy milk", false)]);
  }

  /** A second list becomes the selected one. */
  lemma ScenarioSecondList(l: TodoList)
    requires l.name == "My List"
    ensures AddList(Document([l], 0), "Work") == Document([l, TodoList("Work", [])], 1)
  {
    assert !IsBlank("Work") by { assert !IsWhitespace("Work"[0]); }
    TrimOfTrimmed("Work");
    assert l.name != "Work" by { assert l.name[0] != "Work"[0]; }
  }

  /** A list name already taken is refused. */
  lemma ScenarioDuplicateName(l: TodoList)
    requires l.name == "My List"
    ensures AddList(Document([l], 0), "My List") == Document([l], 0)
  {
    TrimOfTrimmed("My List");
  }

  /** Deleting the first of two lists while the second is selected leaves the second one,
      selected at index 0. */
  lemma ScenarioDeleteFirstOfTwo(l0: TodoList, l1: TodoList)
    ensures DeleteList(Document([l0, l1], 1), 0, true) == Document([l1], 0)
  {
  }

  /** The only list cannot be deleted. */
  lemma ScenarioDeleteOnlyList(l: TodoList, confirmed: bool)
    ensures DeleteList(Document([l], 0), 0, confirmed) == Document([l], 0)
  {
  }
}
