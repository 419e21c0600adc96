/** `HistoryModel<T>` of `EnhancedZenObservable.ts`: the undo stack `past`
    (most recent state last) and the redo queue `future` (next state first).
    The class mutates its two lists in place; the `Stacks` value and the
    functions beside it say what each operation does to them, and the lemmas
    say how the operations fit together. */
module History {
  import opened Wrappers

  /** The two lists of a history, as a value. */
  datatype Stacks<T> = Stacks(past: seq<T>, future: seq<T>)

  /** `push(s)`: `s` goes on top of `past`; the redo list is dropped. */
  function Pushed<T>(h: Stacks<T>, s: T): Stacks<T>
  {
    Stacks(h.past + [s], [])
  }

  /** `undo(current)`: nothing when `past` is empty; otherwise the top of
      `past` is popped and returned, and `current` goes to the front of
      `future`. */
  function Undone<T>(h: Stacks<T>, current: T): (Stacks<T>, Option<T>)
  {
    if h.past == [] then (h, None)
    else (Stacks(h.past[..|h.past| - 1], [current] + h.future), Some(h.past[|h.past| - 1]))
  }

  /** `redo(current)`: nothing when `future` is empty; otherwise the front of
      `future` is shifted off and returned, and `current` is pushed on
      `past`. */
  function Redone<T>(h: Stacks<T>, current: T): (Stacks<T>, Option<T>)
  {
    if h.future == [] then (h, None)
    else (Stacks(h.past + [current], h.future[1..]), Some(h.future[0]))
  }

  /** The whole timeline a history describes while `current` is on screen:
      older states, the current one, then the states that can be redone. */
  function Timeline<T>(h: Stacks<T>, current: T): seq<T>
  {
    h.past + [current] + h.future
  }

  /** An undo with an empty `past` returns nothing and changes nothing; a
      redo with an empty `future` likewise. */
  lemma NothingToReplay<T>(h: Stacks<T>, current: T)
    ensures h.past == [] ==> Undone(h, current) == (h, None)
    ensures h.future == [] ==> Redone(h, current) == (h, None)
  {
  }

  /** After a push there is something to undo and nothing to redo, and the
      pushed state is what the next undo returns. */
  lemma PushThenUndo<T>(h: Stacks<T>, s: T, current: T)
    ensures Undone(Pushed(h, s), current).1 == Some(s)
    ensures Undone(Pushed(h, s), current).0 == Stacks(h.past, [current])
  {
    assert (h.past + [s])[..|h.past|] == h.past;
  }

  /** Undo then redo of the state undo returned gives back the current state
      and restores both lists exactly. */
  lemma {:induction false} UndoThenRedo<T>(h: Stacks<T>, current: T)
    requires h.past != []
    ensures Undone(h, current).1.Some?
    ensures Redone(Undone(h, current).0, Undone(h, current).1.value) == (h, Some(current))
  {
    var p := h.past[|h.past| - 1];
    assert h.past[..|h.past| - 1] + [p] == h.past;
    assert ([current] + h.future)[1..] == h.future;
  }

  /** Redo then undo of the state redo returned gives back the current state
      and restores both lists exactly. */
  lemma {:induction false} RedoThenUndo<T>(h: Stacks<T>, current: T)
    requires h.future != []
    ensures Redone(h, current).1.Some?
    ensures Undone(Redone(h, current).0, Redone(h, current).1.value) == (h, Some(current))
  {
    assert (h.past + [current])[..|h.past|] == h.past;
    assert [h.future[0]] + h.future[1..] == h.future;
  }

  /** Undo and redo never change the total number of remembered states, and
      they move through one timeline: the state returned takes the current
      state's place and the timeline itself stays the same. */
  lemma {:induction false} ReplayKeepsTimeline<T>(h: Stacks<T>, current: T)
    ensures var (u, p) := Undone(h, current);
      |u.past| + |u.future| == |h.past| + |h.future| &&
      (p.Some? ==> Timeline(u, p.value) == Timeline(h, current) && |u.past| == |h.past| - 1)
    ensures var (r, q) := Redone(h, current);
      |r.past| + |r.future| == |h.past| + |h.future| &&
      (q.Some? ==> Timeline(r, q.value) == Timeline(h, current) && |r.past| == |h.past| + 1)
  {
    if h.past != [] {
      var p := h.past[|h.past| - 1];
      assert h.past[..|h.past| - 1] + [p] == h.past;
      assert h.past[..|h.past| - 1] + [p] + ([current] + h.future) == h.past + [current] + h.future;
    }
    if h.future != [] {
      assert [h.future[0]] + h.future[1..] == h.future;
      assert h.past + [current] + [h.future[0]] + h.future[1..] == h.past + [current] + h.future;
    }
  }

  /** The history of the store: two lists updated in place. */
  class HistoryModel<T> {
    var past: seq<T>
    var future: seq<T>

    /** The two lists as a value. */
    function Snapshot(): Stacks<T>
      reads this
    {
      Stacks(past, future)
    }

    constructor()
      ensures Snapshot() == Stacks([], [])
    {
      past := [];
      future := [];
    }

    method Push(state: T)
      modifies this
      ensures Snapshot() == Pushed(old(Snapshot()), state)
    {
      past := past + [state];
      future := [];
    }

    method Undo(current: T) returns (r: Option<T>)
      modifies this
      ensures (Snapshot(), r) == Undone(old(Snapshot()), current)
    {
      var can := CanUndo();
      if can {
        r := Some(past[|past| - 1]);
        past := past[..|past| - 1];
        future := [current] + future;
      } else {
        r := None;
      }
    }

    method Redo(current: T) returns (r: Option<T>)
      modifies this
      ensures (Snapshot(), r) == Redone(old(Snapshot()), current)
    {
      var can := CanRedo();
      if can {
        r := Some(future[0]);
        future := future[1..];
        past := past + [current];
      } else {
        r := None;
      }
    }

    /** `canUndo()`: whether `past` holds a state. */
    method CanUndo() returns (b: bool)
      ensures b <==> past != []
    {
      b := |past| > 0;
    }

    /** `canRedo()`: whether `future` holds a state. */
    method CanRedo() returns (b: bool)
      ensures b <==> future != []
    {
      b := |future| > 0;
    }

    method Clear()
      modifies this
      ensures Snapshot() == Stacks([], [])
    {
      past := [];
      future := [];
    }
  }
}
