/** What the handlers of the App component keep true of the document, and how they relate
    to each other. */
module StoreInvariants {
  import opened JsText
  import opened ListStore

  /** A change of the selected list's tasks alone keeps the document well formed when the
      new tasks all have non-blank texts. */
  lemma SelectedTodosChangePreservesWellFormed(d: Document, r: Document, todos: seq<Todo>)
    requires WellFormed(d) && OnlySelectedTodosChanged(d, r, todos)
    requires forall k :: 0 <= k < |todos| ==> !IsBlank(todos[k].text)
    ensures WellFormed(r)
  {
    assert ListWellFormed(d.lists[d.selected]);
    assert r.lists[d.selected].name == d.lists[d.selected].name;
    assert ListWellFormed(r.lists[d.selected]);
    assert forall i :: 0 <= i < |r.lists| ==> r.lists[i].name == d.lists[i].name;
    forall i | 0 <= i < |r.lists| ensures ListWellFormed(r.lists[i]) {
      if i != d.selected { assert r.lists[i] == d.lists[i]; }
    }
  }

  /** A blank task text is refused, so every stored task text keeps some non-whitespace,
      and the list names are not touched. */
  lemma AddTodoPreservesWellFormed(d: Document, input: string)
    requires WellFormed(d)
    ensures WellFormed(AddTodo(d, input))
  {
    if !IsBlank(input) {
      var before := d.lists[d.selected].todos;
      var todos := before + [Todo(input, false)];
      var r := AddTodo(d, input);
      assert OnlySelectedTodosChanged(d, r, todos);
      assert ListWellFormed(d.lists[d.selected]);
      forall k | 0 <= k < |todos| ensures !IsBlank(todos[k].text) {
        if k < |before| { assert todos[k] == before[k]; }
      }
      SelectedTodosChangePreservesWellFormed(d, r, todos);
    }
  }

  /** Toggling changes only a `done` flag, which no invariant mentions. */
  lemma ToggleTodoPreservesWellFormed(d: Document, idx: int)
    requires WellFormed(d)
    ensures WellFormed(ToggleTodo(d, idx))
  {
    var r := ToggleTodo(d, idx);
    var before, after := d.lists[d.selected].todos, r.lists[d.selected].todos;
    assert ListWellFormed(d.lists[d.selected]);
    assert forall k :: 0 <= k < |after| ==> after[k].text == before[k].text;
    SelectedTodosChangePreservesWellFormed(d, r, after);
  }

  /** Removing a task keeps the others, so their texts stay non-blank. */
  lemma DeleteTodoPreservesWellFormed(d: Document, idx: int)
    requires WellFormed(d)
    ensures WellFormed(DeleteTodo(d, idx))
  {
    var r := DeleteTodo(d, idx);
    var before := d.lists[d.selected].todos;
    if 0 <= idx < |before| {
      assert ListWellFormed(d.lists[d.selected]);
      var after := before[..idx] + before[idx + 1..];
      forall k | 0 <= k < |after| ensures !IsBlank(after[k].text) {
        if k < idx { assert after[k] == before[k]; } else { assert after[k] == before[k + 1]; }
      }
      SelectedTodosChangePreservesWellFormed(d, r, after);
    }
  }

  /** Adding a list never produces two lists with one name. */
  lemma AddListKeepsNamesDistinct(d: Document, newListName: string)
    requires NamesDistinct(d.lists)
    ensures NamesDistinct(AddList(d, newListName).lists)
  {
    var r := AddList(d, newListName);
    if r != d {
      assert r.lists == d.lists + [TodoList(Trim(newListName), [])];
    }
  }

  /** The new list's name is trimmed, non-empty and fresh, and the new list is selected. */
  lemma AddListPreservesWellFormed(d: Document, newListName: string)
    requires WellFormed(d)
    ensures WellFormed(AddList(d, newListName))
  {
    var r := AddList(d, newListName);
    AddListKeepsNamesDistinct(d, newListName);
    if r != d {
      assert ListWellFormed(r.lists[|d.lists|]);
      assert forall i :: 0 <= i < |d.lists| ==> r.lists[i] == d.lists[i];
    }
  }

  /** Selecting a list in range changes nothing the invariant depends on besides `selected`. */
  lemma SelectListPreservesWellFormed(d: Document, idx: int)
    requires WellFormed(d) && 0 <= idx < |d.lists|
    ensures WellFormed(SelectList(d, idx))
  {
  }

  /** Deleting a list leaves at least one list, keeps `selected` in range by the clamp, and
      keeps the names of the remaining lists distinct. */
  lemma DeleteListPreservesWellFormed(d: Document, idx: int, confirmed: bool)
    requires WellFormed(d) && 0 <= idx < |d.lists|
    ensures WellFormed(DeleteList(d, idx, confirmed))
  {
    var r := DeleteList(d, idx, confirmed);
    if r != d {
      // position of each remaining list in the old document
      assert forall i :: 0 <= i < |r.lists| ==>
        r.lists[i] == d.lists[if i < idx then i else i + 1];
      forall i, j | 0 <= i < j < |r.lists| ensures r.lists[i].name != r.lists[j].name {
        var i', j' := (if i < idx then i else i + 1), (if j < idx then j else j + 1);
        assert r.lists[i] == d.lists[i'] && r.lists[j] == d.lists[j'];
      }
      forall i | 0 <= i < |r.lists| ensures ListWellFormed(r.lists[i]) {
        assert r.lists[i] == d.lists[if i < idx then i else i + 1];
      }
    }
  }

  /** Toggling the same task twice gives back the original document. */
  lemma ToggleTodoTwice(d: Document, idx: int)
    requires Valid(d)
    ensures Valid(ToggleTodo(d, idx)) && ToggleTodo(ToggleTodo(d, idx), idx) == d
  {
    var once := ToggleTodo(d, idx);
    var twice := ToggleTodo(once, idx);
    var before, after := d.lists[d.selected].todos, twice.lists[d.selected].todos;
    assert |after| == |before|;
    forall k | 0 <= k < |before| ensures after[k] == before[k] {
      assert after[k].text == before[k].text && after[k].done == before[k].done;
    }
    assert after == before;
    assert twice.lists[d.selected] == d.lists[d.selected];
    assert twice.lists == d.lists;
  }

  /** Deleting a task inside the selected list removes exactly one task. */
  lemma DeleteTodoCount(d: Document, idx: int)
    requires Valid(d) && 0 <= idx < |d.lists[d.selected].todos|
    ensures |DeleteTodo(d, idx).lists[d.selected].todos| == |d.lists[d.selected].todos| - 1
  {
  }

  /** `deleteList` keeps the selection by number, not by list: when the deleted list is at
      or before the selected one and the selected one is not the last, the list shown
      afterwards is the one that came right after the previously selected list. */
  lemma DeleteListShiftsSelection(d: Document, idx: int)
    requires Valid(d) && |d.lists| > 1
    requires 0 <= idx <= d.selected < |d.lists| - 1
    ensures var r := DeleteList(d, idx, true);
      Valid(r) && r.lists[r.selected] == d.lists[d.selected + 1]
  {
  }

  /** When the selected list is the last one and an earlier list is deleted, the clamp
      keeps the same list selected. */
  lemma DeleteListBeforeLastKeepsLastSelected(d: Document, idx: int)
    requires Valid(d) && |d.lists| > 1
    requires 0 <= idx < d.selected == |d.lists| - 1
    ensures var r := DeleteList(d, idx, true);
      Valid(r) && r.lists[r.selected] == d.lists[d.selected]
  {
  }
}
