/**
 The App component's state cell and its event handlers. The component holds
 one list of todos that every handler replaces wholesale; each handler here
 changes that field and returns the focus move it requests.
 */
module App {
  import opened TodoList

  class TodoApp {
    /** The current snapshot held by the state hook. */
    var todos: seq<Todo>

    /** The list is never empty, so row 0 always exists. */
    ghost predicate Valid()
      reads this
    {
      |todos| >= 1
    }

    /** The state hook seeded with the four initial items. */
    constructor ()
      ensures Valid() && todos == InitialTodos
    {
      todos := InitialTodos;
    }

    /** Copy the list, splice a blank item in after row i, store the copy, ask for focus on it. */
    method CreateTodoAtIndex(i: int) returns (focus: Focus)
      requires 0 <= i < |todos|
      modifies this
      ensures Valid()
      ensures Effect(todos, focus) == InsertAfter(old(todos), i)
    {
      var newTodos := todos;
      newTodos := newTodos[..i + 1] + [Blank] + newTodos[i + 1..];
      todos := newTodos;
      focus := MoveTo(i + 1);
    }

    /** Store the copy whose row i carries the new text. */
    method UpdateTodoAtIndex(i: int, value: string)
      requires 0 <= i < |todos|
      modifies this
      ensures Valid()
      ensures todos == UpdateContentAt(old(todos), i, value).todos
    {
      var newTodos := todos;
      newTodos := newTodos[i := newTodos[i].(content := value)];
      todos := newTodos;
    }

    /** Unless row i is the only row, drop it and ask for focus on the row before it. */
    method RemoveTodoAtIndex(i: int) returns (focus: Focus)
      requires 0 <= i < |todos|
      modifies this
      ensures Valid()
      ensures Effect(todos, focus) == RemoveAt(old(todos), i)
    {
      if i == 0 && |todos| == 1 {
        return NoMove;
      }
      todos := todos[..i] + todos[i + 1..];
      focus := MoveTo(i - 1);
    }

    /** Store the copy whose row `index` has its completed flag flipped. */
    method ToggleTodoCompleteAtIndex(index: int)
      requires 0 <= index < |todos|
      modifies this
      ensures Valid()
      ensures todos == ToggleCompleteAt(old(todos), index).todos
    {
      var temporaryTodos := todos;
      temporaryTodos := temporaryTodos[index := temporaryTodos[index].(isCompleted := !temporaryTodos[index].isCompleted)];
      todos := temporaryTodos;
    }

    /**
     A key press on row i. The emptiness test reads the list as it was when the
     key went down (`current`), as the handler's closure does.
     */
    method HandleKeyDown(key: string, i: int) returns (focus: Focus)
      requires 0 <= i < |todos|
      modifies this
      ensures Valid()
      ensures Effect(todos, focus) == KeyDown(old(todos), key, i)
    {
      var current := todos;
      focus := NoMove;
      if key == EnterKey {
        focus := CreateTodoAtIndex(i);
      }
      if key == BackspaceKey && current[i].content == "" {
        focus := RemoveTodoAtIndex(i);
      }
    }
  }

  /** A client that sees only the contracts: Enter then Backspace on the new row restores the seed. */
  method EnterThenBackspaceOnSeed() returns (app: TodoApp)
    ensures app.todos == InitialTodos
  {
    app := new TodoApp();
    var f := app.HandleKeyDown(EnterKey, 0);
    assert f == MoveTo(1) && |app.todos| == 5 && app.todos[1] == Blank;
    f := app.HandleKeyDown(BackspaceKey, 1);
    RemoveUndoesInsert(InitialTodos, 0);
    assert f == MoveTo(0);
  }
}
