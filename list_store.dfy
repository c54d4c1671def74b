/** The to-do document of the App component and the six handlers that replace it: adding,
    toggling and deleting a task in the selected list, and adding, selecting and deleting a
    list. Each handler is a function from the current document (and the handler's argument)
    to the next one. */
module ListStore {
  import opened JsText
  import ArrayOps

  datatype Todo = Todo(text: string, done: bool)

  datatype TodoList = TodoList(name: string, todos: seq<Todo>)

  /** `data`: the lists in display order and the index of the one shown. */
  datatype Document = Document(lists: seq<TodoList>, selected: int)

  /** The document invariant: there is always a list, and `selected` points at one. */
  predicate Valid(d: Document) {
    |d.lists| > 0 && 0 <= d.selected < |d.lists|
  }

  /** No two lists share a name (names are also the lists' render keys). */
  predicate NamesDistinct(lists: seq<TodoList>) {
    forall i, j :: 0 <= i < j < |lists| ==> lists[i].name != lists[j].name
  }

  /** A list name is trimmed and non-empty; every task text has some non-whitespace. */
  predicate ListWellFormed(l: TodoList) {
    l.name != [] && IsTrimmed(l.name)
    && forall k :: 0 <= k < |l.todos| ==> !IsBlank(l.todos[k].text)
  }

  /** Everything the handlers keep true of a document they start from. */
  predicate WellFormed(d: Document) {
    Valid(d) && NamesDistinct(d.lists)
    && forall i :: 0 <= i < |d.lists| ==> ListWellFormed(d.lists[i])
  }

  /** The selected list is left alone, except for its tasks, which become `todos`. */
  predicate OnlySelectedTodosChanged(d: Document, r: Document, todos: seq<Todo>)
    requires Valid(d)
  {
    |r.lists| == |d.lists| && r.selected == d.selected
    && r.lists[d.selected] == TodoList(d.lists[d.selected].name, todos)
    && forall i :: 0 <= i < |d.lists| && i != d.selected ==> r.lists[i] == d.lists[i]
  }

  /** The document `getInitialData` builds when nothing was saved. */
  function DefaultDocument(): (d: Document)
    ensures WellFormed(d)
    ensures |d.lists| == 1 && d.lists[0].name == "My List" && d.lists[0].todos == []
    ensures d.selected == 0
  {
    var d := Document([TodoList("My List", [])], 0);
    d
  }

  /** `addTodo`: blank input changes nothing; otherwise the input, as typed, becomes a
      new unfinished last task of the selected list. The selected list is only looked
      up once the input is known not to be blank. */
  function AddTodo(d: Document, input: string): (r: Document)
    requires IsBlank(input) || Valid(d)
    ensures IsBlank(input) ==> r == d
    ensures !IsBlank(input) ==>
      OnlySelectedTodosChanged(d, r, d.lists[d.selected].todos + [Todo(input, false)])
  {
    if Trim(input) == [] then d
    else
      var current := d.lists[d.selected];
      d.(lists := d.lists[d.selected := current.(todos := current.todos + [Todo(input, false)])])
  }

  /** The task with its `done` flag flipped. */
  function Flip(t: Todo): (r: Todo)
    ensures r.text == t.text && r.done != t.done
  {
    t.(done := !t.done)
  }

  /** `toggleTodo`: flips the task at `idx` in the selected list and only that one. */
  function ToggleTodo(d: Document, idx: int): (r: Document)
    requires Valid(d)
    ensures |r.lists| == |d.lists| && OnlySelectedTodosChanged(d, r, r.lists[d.selected].todos)
    ensures var before, after := d.lists[d.selected].todos, r.lists[d.selected].todos;
      |after| == |before|
      && forall k :: 0 <= k < |before| ==>
           after[k].text == before[k].text
           && (after[k].done == before[k].done <==> k != idx)
    ensures !(0 <= idx < |d.lists[d.selected].todos|) ==> r == d
  {
    var current := d.lists[d.selected];
    var todos := ArrayOps.MapIndexed(current.todos, (t: Todo, i: int) => if i == idx then Flip(t) else t);
    assert !(0 <= idx < |current.todos|) ==> todos == current.todos;
    d.(lists := d.lists[d.selected := current.(todos := todos)])
  }

  /** `deleteTodo`: removes the task at `idx` from the selected list, keeping the order of
      the others; an index with no task there removes nothing. */
  function DeleteTodo(d: Document, idx: int): (r: Document)
    requires Valid(d)
    ensures var before := d.lists[d.selected].todos;
      0 <= idx < |before| ==>
        OnlySelectedTodosChanged(d, r, before[..idx] + before[idx + 1..])
    ensures !(0 <= idx < |d.lists[d.selected].todos|) ==> r == d
  {
    var current := d.lists[d.selected];
    var todos := ArrayOps.FilterOutIndex(current.todos, idx);
    assert 0 <= idx < |current.todos| ==> todos == current.todos[..idx] + current.todos[idx + 1..] by {
      if 0 <= idx < |current.todos| { ArrayOps.FilterOutIndexIsCut(current.todos, idx); }
    }
    d.(lists := d.lists[d.selected := current.(todos := todos)])
  }

  /** True when some list is called exactly `name`. */
  function HasListNamed(lists: seq<TodoList>, name: string): (b: bool)
    ensures b <==> exists i :: 0 <= i < |lists| && lists[i].name == name
  {
    ArrayOps.Some(lists, (l: TodoList) => l.name == name)
  }

  /** `addList`: a blank name, or a trimmed name some list already has, changes nothing;
      otherwise a new empty list with the trimmed name goes last and becomes selected. */
  function AddList(d: Document, newListName: string): (r: Document)
    ensures IsBlank(newListName) ==> r == d
    ensures (exists i :: 0 <= i < |d.lists| && d.lists[i].name == Trim(newListName)) ==> r == d
    ensures !IsBlank(newListName)
            && (forall i :: 0 <= i < |d.lists| ==> d.lists[i].name != Trim(newListName)) ==>
      |r.lists| == |d.lists| + 1 && r.lists[..|d.lists|] == d.lists
      && r.lists[|d.lists|] == TodoList(Trim(newListName), [])
      && r.selected == |d.lists|
  {
    var name := Trim(newListName);
    if name == [] then d
    else if HasListNamed(d.lists, name) then d
    else Document(d.lists + [TodoList(name, [])], |d.lists|)
  }

  /** `selectList`: the list at `idx`, which the sidebar only offers for existing lists,
      becomes the shown one; the lists themselves do not change. */
  function SelectList(d: Document, idx: int): (r: Document)
    requires 0 <= idx < |d.lists|
    ensures r.lists == d.lists && r.selected == idx
    ensures Valid(r)
  {
    d.(selected := idx)
  }

  /** `deleteList`: with a single list, or when the user does not confirm, nothing changes.
      Otherwise the list at `idx` goes, the rest keep their order, and `selected` keeps
      its number unless that is now past the end, when it moves to the last list. */
  function DeleteList(d: Document, idx: int, confirmed: bool): (r: Document)
    requires |d.lists| == 1 || 0 <= idx < |d.lists|
    ensures |d.lists| == 1 || !confirmed ==> r == d
    ensures |d.lists| != 1 && confirmed ==>
      |r.lists| == |d.lists| - 1
      && (forall i :: 0 <= i < idx ==> r.lists[i] == d.lists[i])
      && (forall i :: idx <= i < |r.lists| ==> r.lists[i] == d.lists[i + 1])
      && r.selected == (if d.selected >= |d.lists| - 1 then |d.lists| - 2 else d.selected)
  {
    if |d.lists| == 1 then d
    else if !confirmed then d
    else
      var lists := ArrayOps.FilterOutIndex(d.lists, idx);
      var selected := if d.selected >= |lists| then |lists| - 1 else d.selected;
      Document(lists, selected)
  }
}
