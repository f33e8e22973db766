/**
 The todo list of the App component as values: the item record, the focus
 request an edit may make, and one function per editing operation mapping the
 current list (and a row index) to the next list and the focus it requests.
 These functions are the specification of the methods of App.TodoApp.
 */
module TodoList {

  /** One row of the list: its text and whether it is ticked off. */
  datatype Todo = Todo(content: string, isCompleted: bool)

  /** The deferred focus move an operation asks the view to perform. */
  datatype Focus = NoMove | MoveTo(row: int)

  /** What an operation produces: the next list and the focus it requests. */
  datatype Effect = Effect(todos: seq<Todo>, focus: Focus)

  /** The key names that handleKeyDown compares `e.key` against. */
  const EnterKey: string := "Enter"
  const BackspaceKey: string := "Backspace"

  /** The item that Enter inserts. */
  const Blank: Todo := Todo("", false)

  /** The list the component starts with. */
  const InitialTodos: seq<Todo> := [
    Todo("Build a todo app in React", true),
    Todo("Practice Guitar", false),
    Todo("Get haircut", false),
    Todo("Cycle", false)
  ]

  /** Whether a focus request names a row that exists in `s`. */
  predicate FocusInRange(f: Focus, s: seq<Todo>)
  {
    f.MoveTo? && 0 <= f.row < |s|
  }

  /** createTodoAtIndex: a blank item goes in right after row i, and focus moves to it. */
  function InsertAfter(s: seq<Todo>, i: int): (r: Effect)
    requires 0 <= i < |s|
    ensures |r.todos| == |s| + 1
    ensures r.todos[i + 1] == Blank
    ensures forall j :: 0 <= j <= i ==> r.todos[j] == s[j]
    ensures forall j :: i < j < |s| ==> r.todos[j + 1] == s[j]
    ensures FocusInRange(r.focus, r.todos) && r.todos[r.focus.row] == Blank && r.focus.row == i + 1
  {
    Effect(s[..i + 1] + [Blank] + s[i + 1..], MoveTo(i + 1))
  }

  /**
   removeTodoAtIndex: removing the only item changes nothing and requests no
   focus; otherwise row i is cut out and focus is requested on row i - 1.
   */
  function RemoveAt(s: seq<Todo>, i: int): (r: Effect)
    requires 0 <= i < |s|
    ensures |r.todos| >= 1
    ensures |s| == 1 ==> r == Effect(s, NoMove)
    ensures |s| > 1 ==> |r.todos| == |s| - 1 && r.focus == MoveTo(i - 1)
    ensures |s| > 1 ==> forall j :: 0 <= j < i ==> r.todos[j] == s[j]
    ensures |s| > 1 ==> forall j :: i <= j < |s| - 1 ==> r.todos[j] == s[j + 1]
  {
    if i == 0 && |s| == 1 then Effect(s, NoMove)
    else Effect(s[..i] + s[i + 1..], MoveTo(i - 1))
  }

  /** updateTodoAtIndex: row i gets the new text; nothing else changes. */
  function UpdateContentAt(s: seq<Todo>, i: int, value: string): (r: Effect)
    requires 0 <= i < |s|
    ensures |r.todos| == |s| && r.focus == NoMove
    ensures r.todos[i].content == value && r.todos[i].isCompleted == s[i].isCompleted
    ensures forall j :: 0 <= j < |s| && j != i ==> r.todos[j] == s[j]
  {
    Effect(s[i := s[i].(content := value)], NoMove)
  }

  /** toggleTodoCompleteAtIndex: row i's completed flag flips; nothing else changes. */
  function ToggleCompleteAt(s: seq<Todo>, i: int): (r: Effect)
    requires 0 <= i < |s|
    ensures |r.todos| == |s| && r.focus == NoMove
    ensures r.todos[i].isCompleted == !s[i].isCompleted && r.todos[i].content == s[i].content
    ensures forall j :: 0 <= j < |s| && j != i ==> r.todos[j] == s[j]
  {
    Effect(s[i := s[i].(isCompleted := !s[i].isCompleted)], NoMove)
  }

  /**
   handleKeyDown on row i: Enter inserts after the row, Backspace on an empty
   row removes it, every other key press leaves the list and the focus alone.
   The list grows exactly on Enter and shrinks exactly on a Backspace that the
   one-item guard lets through.
   */
  function KeyDown(s: seq<Todo>, key: string, i: int): (r: Effect)
    requires 0 <= i < |s|
    ensures key == EnterKey <==> |r.todos| == |s| + 1
    ensures (key == BackspaceKey && s[i].content == "" && |s| > 1) <==> |r.todos| == |s| - 1
    ensures |r.todos| == |s| ==> r == Effect(s, NoMove)
  {
    if key == EnterKey then InsertAfter(s, i)
    else if key == BackspaceKey && s[i].content == "" then RemoveAt(s, i)
    else Effect(s, NoMove)
  }

  /** The Enter and Backspace branches of handleKeyDown can never both fire. */
  lemma KeysDistinct()
    ensures EnterKey != BackspaceKey
  {
  }

  /** Key routing: each key does exactly what the operation it stands for does. */
  lemma KeyRouting(s: seq<Todo>, key: string, i: int)
    requires 0 <= i < |s|
    ensures key == EnterKey ==> KeyDown(s, key, i) == InsertAfter(s, i)
    ensures key == BackspaceKey && s[i].content == "" ==> KeyDown(s, key, i) == RemoveAt(s, i)
    ensures key != EnterKey && (key != BackspaceKey || s[i].content != "") ==>
              KeyDown(s, key, i) == Effect(s, NoMove)
  {
  }

  /**
   The focus a removal requests names an existing row exactly when the removed
   row was not the first one; then it is the row just before the removed one.
   */
  lemma RemoveFocusTarget(s: seq<Todo>, i: int)
    requires 0 <= i < |s| && |s| > 1
    ensures FocusInRange(RemoveAt(s, i).focus, RemoveAt(s, i).todos) <==> i > 0
    ensures i > 0 ==> RemoveAt(s, i).todos[RemoveAt(s, i).focus.row] == s[i - 1]
  {
  }

  /** Removing the row that Enter just inserted restores the list, and focus returns to row i. */
  lemma RemoveUndoesInsert(s: seq<Todo>, i: int)
    requires 0 <= i < |s|
    ensures RemoveAt(InsertAfter(s, i).todos, i + 1) == Effect(s, MoveTo(i))
  {
  }

  /**
   Conversely, removing an untouched blank row (not the first) and pressing
   Enter on the row before it rebuilds the list and focuses the same row.
   */
  lemma InsertUndoesRemoveOfBlank(s: seq<Todo>, i: int)
    requires 0 < i < |s| && s[i] == Blank
    ensures InsertAfter(RemoveAt(s, i).todos, i - 1) == Effect(s, MoveTo(i))
  {
  }

  /** Backspace on the blank row that Enter created undoes the Enter. */
  lemma EnterThenBackspace(s: seq<Todo>, i: int)
    requires 0 <= i < |s|
    ensures KeyDown(KeyDown(s, EnterKey, i).todos, BackspaceKey, i + 1) == Effect(s, MoveTo(i))
  {
  }

  /** Toggling the same row twice gives back the original list. */
  lemma ToggleInvolution(s: seq<Todo>, i: int)
    requires 0 <= i < |s|
    ensures ToggleCompleteAt(ToggleCompleteAt(s, i).todos, i).todos == s
  {
  }

  /** Writing a row's old text back undoes an edit; of two edits only the last one counts. */
  lemma UpdateRoundTrip(s: seq<Todo>, i: int, v: string, w: string)
    requires 0 <= i < |s|
    ensures UpdateContentAt(UpdateContentAt(s, i, v).todos, i, s[i].content).todos == s
    ensures UpdateContentAt(UpdateContentAt(s, i, v).todos, i, w) == UpdateContentAt(s, i, w)
  {
  }

  /** Removal keeps every other item: the multiset of items loses exactly row i. */
  lemma RemoveKeepsOthers(s: seq<Todo>, i: int)
    requires 0 <= i < |s| && |s| > 1
    ensures multiset(RemoveAt(s, i).todos) + multiset{s[i]} == multiset(s)
  {
    assert s == s[..i] + [s[i]] + s[i + 1..];
  }
}
