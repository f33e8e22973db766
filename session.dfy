/**
 A session of the component: the view forwards each user event on a row to one
 handler (a click on the checkbox, a change of the input's text, a key press in
 the input), and the list goes through one snapshot per event.
 */
module Session {
  import opened TodoList

  /** A user event on a given row, as the rendered list wires it up. */
  datatype Event =
    | CheckboxClick(row: int)
    | Edit(row: int, value: string)
    | KeyPress(row: int, key: string)

  /** The handler an event reaches, applied to the current list. */
  function Dispatch(s: seq<Todo>, e: Event): (r: Effect)
    requires 0 <= e.row < |s|
    ensures |r.todos| >= 1
    ensures |s| - 1 <= |r.todos| <= |s| + 1
  {
    match e
    case CheckboxClick(i) => ToggleCompleteAt(s, i)
    case Edit(i, v) => UpdateContentAt(s, i, v)
    case KeyPress(i, k) => KeyDown(s, k, i)
  }

  /** Every event names a row of the list it is applied to, as rows come from rendering that list. */
  predicate Admissible(s: seq<Todo>, evs: seq<Event>)
    decreases |evs|
  {
    evs == [] ||
    (0 <= evs[0].row < |s| && Admissible(Dispatch(s, evs[0]).todos, evs[1..]))
  }

  /** The list after the events have been handled one after another. */
  function Run(s: seq<Todo>, evs: seq<Event>): seq<Todo>
    requires Admissible(s, evs)
    decreases |evs|
  {
    if evs == [] then s else Run(Dispatch(s, evs[0]).todos, evs[1..])
  }

  /** Starting from a non-empty list (the seed is one), no sequence of events empties it. */
  lemma {:induction false} RunNeverEmpty(s: seq<Todo>, evs: seq<Event>)
    requires |s| >= 1 && Admissible(s, evs)
    ensures |Run(s, evs)| >= 1
    decreases |evs|
  {
    if evs != [] {
      RunNeverEmpty(Dispatch(s, evs[0]).todos, evs[1..]);
    }
  }

  /** Without key presses the number of rows stays what it was. */
  lemma {:induction false} EditsKeepLength(s: seq<Todo>, evs: seq<Event>)
    requires Admissible(s, evs)
    requires forall k :: 0 <= k < |evs| ==> !evs[k].KeyPress?
    ensures |Run(s, evs)| == |s|
    decreases |evs|
  {
    if evs != [] {
      EditsKeepLength(Dispatch(s, evs[0]).todos, evs[1..]);
    }
  }
}
