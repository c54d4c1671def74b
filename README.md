# Multi-list to-do document, verified

A model of the state logic in `src/App.jsx`, from a browser to-do manager. The page holds one
document, `data`: an ordered sequence of named lists, each an ordered sequence of tasks
(`text`, `done`), plus the index `selected` of the list on show. Six handlers replace the
document with a new one:

- `addTodo` appends the typed text to the selected list.
- `toggleTodo` flips one task's `done` flag.
- `deleteTodo` removes one task.
- `addList` appends a new empty list and selects it.
- `selectList` changes the selection.
- `deleteList` removes a list, always keeping at least one.

When nothing is saved, the page starts from a default document: one empty list called
"My List".

Each handler is a Dafny function from the current `Document` and the handler's argument to
the next `Document`. The artefacts of the page that the handlers only read become
parameters: the task input text, the new-list name field, the clicked index, and the answer
to the delete confirmation.

Files:

- `js_text.dfy` (`JsText`): JavaScript's `String.prototype.trim`. It strips the
  ECMAScript WhiteSpace and LineTerminator code points (ECMA-262, sections 12.2 and 12.3)
  from both ends. Its contract says the result is the input with only whitespace removed
  around it, and that it is empty exactly when the input is blank.
- `array_ops.dfy` (`ArrayOps`): the array methods the handlers use, on sequences. They are
  `map` with an index, `filter` dropping one index, and `some`.
- `list_store.dfy` (`ListStore`): the document datatypes, the invariants and the six
  transitions.
- `store_invariants.dfy` (`StoreInvariants`): each transition preserves the invariant.
  Also: toggling twice is the identity, and `deleteList` keeps the selection by index.
- `session.dfy` (`Session`): user actions dispatched to handlers, and replay of a sequence
  of actions from the default document. Every reachable document satisfies the invariant.
  It also holds a few concrete scenarios.

There are two invariants. `Valid` is the one the page relies on: `lists` is non-empty and
`0 <= selected < |lists|`. `WellFormed` adds what the handlers also maintain: list names are
non-empty, trimmed and pairwise distinct, and every task text has a non-whitespace
character.

The model follows the code, including where a cleaner reading would differ:

- `addTodo` stores the input exactly as typed. The blank check trims it
  (src/App.jsx:26), but the stored text is the untrimmed `input` (src/App.jsx:30).
- `selectList` has no bounds check (src/App.jsx:62-64). The sidebar only calls it with the
  index of a rendered list (src/App.jsx:81-83), so an in-range index is a precondition,
  not a no-op.
- `deleteList` reads `data.lists[idx].name` before anything else except the single-list
  guard (src/App.jsx:67-68). It therefore requires `|lists| == 1` or an in-range index.
- The delete confirmation is asked inside `deleteList`, after the single-list guard
  (src/App.jsx:69). It is a boolean parameter here; `false` leaves the document unchanged.
- `addTodo` reads the selected list only once the input is known not to be blank. Its
  precondition is therefore "blank input, or `selected` in range". `toggleTodo` and
  `deleteTodo` read the selected list unconditionally, so they require `Valid`.

## Model

| member | source | states |
|---|---|---|
| JsText.ContentStart | src/App.jsx:26 | from position `k`, the result is the first position holding no whitespace, or the end; everything skipped is whitespace (the leading half of `trim`) |
| JsText.ContentEnd | src/App.jsx:26 | going back from position `k`, the result is the first position after a non-whitespace character, or 0; everything skipped is whitespace (the trailing half of `trim`) |
| JsText.Trim | src/App.jsx:52 | `trim()` returns the slice of the input that starts at the first non-whitespace character, with every character outside the slice whitespace; the result has no whitespace at either end, and it is empty exactly when the input is empty or whitespace-only (the falsy test at lines 26 and 53) |
| JsText.TrimOfTrimmed | src/App.jsx:52 | a string without whitespace at its ends is a fixpoint of `trim` |
| JsText.TrimIdempotent | src/App.jsx:52 | trimming an already trimmed name changes nothing |
| ArrayOps.MapIndexed | src/App.jsx:38-40 | `map((x, i) => f(x, i))` keeps the length and puts `f(s[i], i)` at every index `i` |
| ArrayOps.FilterOutIndex | src/App.jsx:46 | `filter((_, i) => i !== idx)` drops exactly the element at an in-range `idx` and shifts later ones down by one; an out-of-range `idx` returns the sequence unchanged |
| ArrayOps.FilterOutIndexIsCut | src/App.jsx:70 | for an in-range index, that filter equals the sequence with the element at `idx` cut out |
| ArrayOps.Some | src/App.jsx:54 | `some(p)` is true exactly when some element satisfies `p` |
| ListStore.DefaultDocument | src/App.jsx:7-10 | with nothing saved, the document has one list named "My List", no tasks and `selected == 0`, and it satisfies the full invariant |
| ListStore.AddTodo | src/App.jsx:24-32 | blank input leaves the document unchanged. Otherwise `{text: input, done: false}`, untrimmed, becomes the last task of the selected list; its name, every other list and `selected` are unchanged |
| ListStore.Flip | src/App.jsx:39 | `{...todo, done: !todo.done}` keeps the text and negates `done` |
| ListStore.ToggleTodo | src/App.jsx:36-42 | only the selected list's tasks change. Count and texts are kept, and a task's `done` changes exactly when its index is `idx`. An out-of-range `idx` returns the document unchanged |
| ListStore.DeleteTodo | src/App.jsx:44-48 | an in-range `idx` makes the selected list's tasks the old ones with that task cut out, other lists and `selected` unchanged; otherwise the document is unchanged |
| ListStore.HasListNamed | src/App.jsx:54 | true exactly when some list has exactly the given name |
| ListStore.AddList | src/App.jsx:50-60 | a blank name, or a trimmed name equal to an existing list's, leaves the document unchanged. Otherwise the old lists are kept and `{name: trimmed, todos: []}` is appended and selected at index `|lists|` |
| ListStore.SelectList | src/App.jsx:62-64 | the lists are unchanged, `selected` becomes `idx`, and the document is `Valid` |
| ListStore.DeleteList | src/App.jsx:66-74 | a single list or a refused confirmation leaves the document unchanged. Otherwise the list at `idx` is removed and the rest keep their order. `selected` keeps its number, or becomes `|lists| - 2` if it was at or past the new end |
| StoreInvariants.SelectedTodosChangePreservesWellFormed | src/App.jsx:27-31 | replacing only the selected list's tasks with tasks whose texts are non-blank keeps the full invariant |
| StoreInvariants.AddTodoPreservesWellFormed | src/App.jsx:24-32 | `addTodo` preserves the full invariant |
| StoreInvariants.ToggleTodoPreservesWellFormed | src/App.jsx:36-42 | `toggleTodo` preserves the full invariant |
| StoreInvariants.DeleteTodoPreservesWellFormed | src/App.jsx:44-48 | `deleteTodo` preserves the full invariant |
| StoreInvariants.AddListKeepsNamesDistinct | src/App.jsx:54-57 | after `addList`, list names are still pairwise distinct |
| StoreInvariants.AddListPreservesWellFormed | src/App.jsx:50-60 | `addList` preserves the full invariant, with the new list selected |
| StoreInvariants.SelectListPreservesWellFormed | src/App.jsx:62-64 | `selectList` with an in-range index preserves the full invariant |
| StoreInvariants.DeleteListPreservesWellFormed | src/App.jsx:66-74 | `deleteList` with an in-range index preserves the full invariant. At least one list survives, the clamp keeps `selected` in range, and the remaining names stay distinct |
| StoreInvariants.ToggleTodoTwice | src/App.jsx:36-42 | toggling the same index twice returns the original document |
| StoreInvariants.DeleteTodoCount | src/App.jsx:44-48 | deleting an in-range task lowers the selected list's task count by one |
| StoreInvariants.DeleteListShiftsSelection | src/App.jsx:70-73 | deleting a list at or before the selection, when the selected list is not the last, shows the list that followed the previously selected one |
| StoreInvariants.DeleteListBeforeLastKeepsLastSelected | src/App.jsx:70-73 | deleting an earlier list while the last list is selected keeps that list selected |
| Session.Apply | src/App.jsx:81-119 | each action the page offers runs its handler and yields a `Valid` document |
| Session.ApplyPreservesWellFormed | src/App.jsx:24-74 | every handler preserves the full invariant |
| Session.Replay | src/App.jsx:14-20 | running offered actions one at a time from a well-formed document yields a well-formed document |
| Session.ReachableWellFormed | src/App.jsx:7-10 | every document reachable from the default one has a list and a `selected` in range |
| Session.ReplayFirstListActionsSucceed | src/App.jsx:81-119 | sessions of task actions, `addList` submissions, and selecting or deleting list 0 (which always exists) are always accepted |
| Session.ScenarioFirstTask | src/App.jsx:24-32 | "Buy milk" added to the default document becomes its only task, not done |
| Session.ScenarioSecondList | src/App.jsx:50-60 | adding "Work" next to "My List" gives two lists with "Work" selected |
| Session.ScenarioDuplicateName | src/App.jsx:54 | adding "My List" when that name exists changes nothing |
| Session.ScenarioDeleteFirstOfTwo | src/App.jsx:66-74 | deleting list 0 of two while list 1 is selected leaves only the second list, selected at 0 |
| Session.ScenarioDeleteOnlyList | src/App.jsx:67 | the only list is never deleted, whatever the confirmation |

## Left out

- Rendering: the JSX, the hooks `useState` and `useEffect`, and `e.preventDefault()`
  (src/App.jsx:13-20, 76-126). They hold no state logic. The UI facts the model uses are
  stated as preconditions, in `Session.Offered`: list buttons exist only for rendered
  lists.
- Persistence: `localStorage.getItem`/`setItem` with `JSON.parse`/`JSON.stringify`
  (src/App.jsx:5-6, 19) are foreign library calls, so the saved-state branch of
  `getInitialData` is not modelled. No serialisation round trip is stated. A saved
  document is not checked on load, so the invariant is proved only for sessions that
  start from the default document or from a document already known to be well formed.
- The confirmation dialog (src/App.jsx:69) and its message text: only the boolean answer
  is modelled.
- Clearing the input fields with `setInput('')` and `setNewListName('')` (src/App.jsx:33,
  59): this is form state, not document state.
- Aliasing: `toggleTodo` and `deleteTodo` assign `.todos` on a list object shared with
  the previous state (src/App.jsx:38, 46). Once the new state replaces the old one this
  cannot be observed, so the model uses value semantics.
- UTF-16 code units: JavaScript strings are sequences of UTF-16 code units, while Dafny
  characters are Unicode scalar values. Every whitespace code point `trim` removes is a
  single UTF-16 unit, so this does not change which characters are stripped. A lone
  surrogate cannot be represented.
