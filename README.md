# Todo list editing model

A Dafny model of the editing logic of the `App` component of a small React
todo list. The component keeps an ordered list of items, each with a text
`content` and an `isCompleted` flag, seeded with four items. Four handlers
replace that list: insert a blank item after a row (Enter), remove a row
(Backspace on an empty row, never removing the last item), change a row's
text (typing), and flip a row's completed flag (clicking its checkbox).
Insert and remove also ask the page to move keyboard focus to a computed row.

- `todo_list.dfy`, module `TodoList`: the item record, the focus request
  (`NoMove` or `MoveTo(row)`), and one function per handler from the current
  list to the next list and its focus request; lemmas relating them
  (undo of insert by remove, toggle involution, edit round trip, key routing).
- `todo_app.dfy`, module `App`: class `TodoApp`, whose field `todos` is the
  state hook's current list. Each handler is a method that replaces the
  field, returns its focus request, and is specified by the `TodoList`
  function of the old list. `Valid()` (the list is never empty) holds after
  every method.
- `session.dfy`, module `Session`: the event wiring of the rendered rows
  (checkbox click, text change, key press) and a run over a sequence of
  events, with the proof that no run empties the list.

Removing row 0 of a longer list requests focus on row `-1`, as the code does
(`elements[i - 1]` with `i == 0`); `TodoList.RemoveFocusTarget` states that the
request names an existing row exactly when the removed row was not the first.

## Model

| member | source | states |
|---|---|---|
| `TodoList.InsertAfter` | src/App.js:60-70 | length grows by one; the item at `i+1` is blank and not completed; items `0..i` are unchanged; each old item at `j > i` sits at `j+1`; focus is requested on row `i+1`, which exists and holds the new item |
| `TodoList.RemoveAt` | src/App.js:78-84 | on a one-item list nothing changes and no focus is requested; otherwise length drops by one, items before `i` stay, items after `i` shift down by one, focus is requested on `i-1`; the result is never empty |
| `TodoList.UpdateContentAt` | src/App.js:72-76 | row `i` gets the new text and keeps its flag; every other row and the length are unchanged; no focus request |
| `TodoList.ToggleCompleteAt` | src/App.js:86-90 | row `i`'s flag is negated and its text kept; every other row and the length are unchanged; no focus request |
| `TodoList.KeyDown` | src/App.js:41-50 | the list grows exactly when the key is Enter; it shrinks exactly on Backspace over an empty row when more than one row exists; whenever the length is unchanged, list and focus are untouched |
| `TodoList.KeysDistinct` | src/App.js:5-6 | the Enter and Backspace key names differ, so the two branches of the key handler are mutually exclusive |
| `TodoList.KeyRouting` | src/App.js:41-50 | Enter acts as insert after the row, Backspace on an empty row as remove of the row, any other key (or Backspace on a non-empty row) changes nothing |
| `TodoList.RemoveFocusTarget` | src/App.js:81-83 | a non-guarded removal's focus row exists in the new list iff `i > 0`, and then it holds the item that preceded the removed one |
| `TodoList.RemoveUndoesInsert` | src/App.js:60-84 | removing row `i+1` right after inserting after row `i` gives back the original list and requests focus on row `i` |
| `TodoList.InsertUndoesRemoveOfBlank` | src/App.js:60-84 | removing a blank row `i > 0` and inserting after row `i-1` gives back the original list with focus on row `i` |
| `TodoList.EnterThenBackspace` | src/App.js:41-50 | Enter on row `i` followed by Backspace on the new row `i+1` restores the list and focuses row `i` |
| `TodoList.ToggleInvolution` | src/App.js:86-90 | toggling the same row twice restores the list |
| `TodoList.UpdateRoundTrip` | src/App.js:72-76 | writing back a row's old text undoes an edit; of two successive edits of a row only the last one matters |
| `TodoList.RemoveKeepsOthers` | src/App.js:80 | a non-guarded removal loses exactly the item at `i` from the multiset of items |
| `App.TodoApp.constructor` | src/App.js:15-32 | the state starts as the four seed items, and the list is non-empty |
| `App.TodoApp.CreateTodoAtIndex` | src/App.js:60-70 | the new list and the returned focus are those of `InsertAfter` of the old list; the list stays non-empty |
| `App.TodoApp.UpdateTodoAtIndex` | src/App.js:72-76 | the new list is that of `UpdateContentAt` of the old list; the list stays non-empty |
| `App.TodoApp.RemoveTodoAtIndex` | src/App.js:78-84 | the new list and the returned focus are those of `RemoveAt` of the old list, including the one-item guard; the list stays non-empty |
| `App.TodoApp.ToggleTodoCompleteAtIndex` | src/App.js:86-90 | the new list is that of `ToggleCompleteAt` of the old list; the list stays non-empty |
| `App.TodoApp.HandleKeyDown` | src/App.js:41-50 | the new list and the returned focus are those of `KeyDown` of the old list, with the empty-row test made on the list as it was when the key went down |
| `App.EnterThenBackspaceOnSeed` | src/App.js:15-50 | from the seed, Enter on row 0 then Backspace on row 1 leaves the seed list, using only the methods' contracts |
| `Session.Dispatch` | src/App.js:101-113 | a checkbox click, text change or key press on a row reaches toggle, update or the key handler; the list stays non-empty and its length moves by at most one |
| `Session.RunNeverEmpty` | src/App.js:79 | from a non-empty list, any sequence of events on existing rows leaves a non-empty list |
| `Session.EditsKeepLength` | src/App.js:72-90 | a sequence of clicks and text changes, with no key press, keeps the number of rows |

## Left out

- Rendering, the stylesheet and image imports, the header and quote markup: presentation only.
- The DOM focus call and its zero-delay timer: browser I/O and timing. Only the requested row index is modelled, including the out-of-range `-1`; what the page does with it (`elements[-1]` is undefined) is not.
- React state semantics: batching, re-rendering, and the difference between the functional updater used by remove and the direct store used elsewhere. Each handler replaces the list atomically.
- Object aliasing: update and toggle copy the array but mutate the shared item object, so in the source the previous snapshot's item changes too. Items here are values.
- DOM event objects and `preventDefault`: the key is a string, the input's new text a string parameter; suppressing the browser's own Backspace editing does not touch the list.
- Indices outside the list: the handlers are only called with rows of the rendered list, so every operation requires `0 <= i < |todos|`.
