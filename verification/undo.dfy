/**
 Undo and redo histories: two bounded LIFO stacks of actions
 (`UndoTracker` in undo.py, two `ArrayStack(100)`). The top of a stack is
 the last element of its sequence.
 */
module Undo {
  import opened Wrappers
  import opened Grids
  import opened Actions

  const CAPACITY: nat := 100

  datatype UndoTracker<A> = UndoTracker(undoStack: seq<A>, redoStack: seq<A>)

  /** Two empty stacks, each of capacity CAPACITY. */
  function NewTracker<A>(): (r: UndoTracker<A>)
    ensures r.undoStack == [] && r.redoStack == [] && Valid(r)
  {
    UndoTracker([], [])
  }

  predicate Valid<A>(t: UndoTracker<A>)
  {
    |t.undoStack| <= CAPACITY && |t.redoStack| <= CAPACITY
  }

  /** The tracker, grid and returned action after an undo or a redo. */
  datatype Step<A> = Step(tracker: UndoTracker<A>, grid: Grid, action: Option<A>)

  /**
   Push an action onto the undo stack; when it is full, exit early and keep
   the stack as it was, as the docstring allows. The redo stack is left alone:
   the source does not clear it.
   */
  function AddAction<A>(t: UndoTracker<A>, a: A): (r: UndoTracker<A>)
    ensures |t.undoStack| >= CAPACITY ==> r == t
    ensures |t.undoStack| < CAPACITY ==> r.undoStack == t.undoStack + [a] && r.redoStack == t.redoStack
    ensures Valid(t) ==> Valid(r)
  {
    if |t.undoStack| >= CAPACITY then t
    else t.(undoStack := t.undoStack + [a])
  }

  /**
   Pop the most recent action, undo it on the grid, push it onto the redo
   stack and return it. An empty undo stack returns nothing and changes
   nothing. The source never pushes onto the redo stack; this model does, as
   the class docstring describes. A full redo stack refuses the whole undo
   (the stack's push would raise), so no action is ever lost.
   */
  function Undo<A>(sem: Semantics<A>, t: UndoTracker<A>, g: Grid): (r: Step<A>)
    ensures |t.undoStack| == 0 || |t.redoStack| >= CAPACITY ==> r == Step(t, g, None)
    ensures |t.undoStack| > 0 && |t.redoStack| < CAPACITY ==>
      var a := t.undoStack[|t.undoStack| - 1];
      && r.action == Some(a)
      && r.grid == sem.undoApply(a, g)
      && t.undoStack == r.tracker.undoStack + [a]
      && r.tracker.redoStack == t.redoStack + [a]
    ensures Valid(t) ==> Valid(r.tracker)
  {
    if |t.undoStack| == 0 || |t.redoStack| >= CAPACITY then Step(t, g, None)
    else
      var n := |t.undoStack|;
      var a := t.undoStack[n - 1];
      assert t.undoStack == t.undoStack[..n - 1] + [a];
      Step(UndoTracker(t.undoStack[..n - 1], t.redoStack + [a]), sem.undoApply(a, g), Some(a))
  }

  /**
   Pop the most recently undone action, redo it on the grid, push it back onto
   the undo stack and return it. An empty redo stack returns nothing and
   changes nothing; a full undo stack refuses the redo.
   */
  function Redo<A>(sem: Semantics<A>, t: UndoTracker<A>, g: Grid): (r: Step<A>)
    ensures |t.redoStack| == 0 || |t.undoStack| >= CAPACITY ==> r == Step(t, g, None)
    ensures |t.redoStack| > 0 && |t.undoStack| < CAPACITY ==>
      var a := t.redoStack[|t.redoStack| - 1];
      && r.action == Some(a)
      && r.grid == sem.redoApply(a, g)
      && t.redoStack == r.tracker.redoStack + [a]
      && r.tracker.undoStack == t.undoStack + [a]
    ensures Valid(t) ==> Valid(r.tracker)
  {
    if |t.redoStack| == 0 || |t.undoStack| >= CAPACITY then Step(t, g, None)
    else
      var n := |t.redoStack|;
      var a := t.redoStack[n - 1];
      assert t.redoStack == t.redoStack[..n - 1] + [a];
      Step(UndoTracker(t.undoStack + [a], t.redoStack[..n - 1]), sem.redoApply(a, g), Some(a))
  }

  /** An undo followed by a redo puts both stacks back and returns the same action. */
  lemma UndoThenRedo<A>(sem: Semantics<A>, t: UndoTracker<A>, g: Grid)
    requires Valid(t) && |t.undoStack| > 0 && |t.redoStack| < CAPACITY
    ensures var u := Undo(sem, t, g);
            var d := Redo(sem, u.tracker, u.grid);
            && d.tracker == t
            && d.action == u.action
            && d.grid == sem.redoApply(u.action.value, sem.undoApply(u.action.value, g))
  {
  }

  /** A redo followed by an undo puts both stacks back and returns the same action. */
  lemma RedoThenUndo<A>(sem: Semantics<A>, t: UndoTracker<A>, g: Grid)
    requires Valid(t) && |t.redoStack| > 0 && |t.undoStack| < CAPACITY
    ensures var d := Redo(sem, t, g);
            var u := Undo(sem, d.tracker, d.grid);
            && u.tracker == t
            && u.action == d.action
            && u.grid == sem.undoApply(d.action.value, sem.redoApply(d.action.value, g))
  {
  }

  /**
   Recording an action already applied to the grid and then undoing it gives
   back the grid from before the action, for an action whose undo reverses it.
   */
  lemma AddThenUndoRestores<A>(sem: Semantics<A>, t: UndoTracker<A>, a: A, g: Grid)
    requires |t.undoStack| < CAPACITY && |t.redoStack| < CAPACITY
    requires sem.undoApply(a, sem.apply(a, g)) == g
    ensures var u := Undo(sem, AddAction(t, a), sem.apply(a, g));
            && u.action == Some(a)
            && u.grid == g
            && u.tracker == UndoTracker(t.undoStack, t.redoStack + [a])
  {
  }

  /** Undo up to `n` times, collecting the actions returned. */
  function UndoTimes<A>(sem: Semantics<A>, t: UndoTracker<A>, g: Grid, n: nat): (r: (UndoTracker<A>, Grid, seq<A>))
    ensures |r.2| <= n
    decreases n
  {
    if n == 0 then (t, g, [])
    else
      var s := Undo(sem, t, g);
      match s.action
      case None => (t, g, [])
      case Some(a) =>
        var (t', g', rest) := UndoTimes(sem, s.tracker, s.grid, n - 1);
        (t', g', [a] + rest)
  }

  /** The top n entries of a stack, in the order they come off it. */
  function Popped<A>(stack: seq<A>, n: nat): (r: seq<A>)
    requires n <= |stack|
    ensures |r| == n
    decreases n
  {
    if n == 0 then [] else [stack[|stack| - 1]] + Popped(stack[..|stack| - 1], n - 1)
  }

  /** Popped lists the top n entries of the stack, newest (last) first. */
  lemma {:induction false} PoppedNewestFirst<A>(stack: seq<A>, n: nat)
    requires n <= |stack|
    ensures forall i :: 0 <= i < n ==> Popped(stack, n)[i] == stack[|stack| - 1 - i]
    decreases n
  {
    if n > 0 {
      var k := |stack|;
      PoppedNewestFirst(stack[..k - 1], n - 1);
      var rest := Popped(stack[..k - 1], n - 1);
      assert Popped(stack, n) == [stack[k - 1]] + rest;
      forall i | 0 < i < n
        ensures Popped(stack, n)[i] == stack[k - 1 - i]
      {
        assert Popped(stack, n)[i] == rest[i - 1];
      }
    }
  }

  /**
   LIFO: undoing n times returns the last n recorded actions newest first, and
   leaves them on the redo stack in the order they were undone.
   */
  lemma {:induction false} UndoTimesIsLifo<A>(sem: Semantics<A>, t: UndoTracker<A>, g: Grid, n: nat)
    requires n <= |t.undoStack| && |t.redoStack| + n <= CAPACITY
    ensures var r := UndoTimes(sem, t, g, n);
            && r.2 == Popped(t.undoStack, n)
            && r.0.undoStack == t.undoStack[..|t.undoStack| - n]
            && r.0.redoStack == t.redoStack + r.2
    decreases n
  {
    if n > 0 {
      var k := |t.undoStack|;
      var a := t.undoStack[k - 1];
      var s := Undo(sem, t, g);
      assert s.tracker == UndoTracker(t.undoStack[..k - 1], t.redoStack + [a]);
      UndoTimesIsLifo(sem, s.tracker, s.grid, n - 1);
      UndoTimesUnfold(sem, t, g, n);
      var rest := UndoTimes(sem, s.tracker, s.grid, n - 1);
      var r := UndoTimes(sem, t, g, n);
      StackStep(t.undoStack, t.redoStack, n, rest.2);
      assert r.2 == [a] + rest.2;
      assert r.0.undoStack == t.undoStack[..k - 1][..k - n];
      assert r.0.redoStack == (t.redoStack + [a]) + rest.2;
    }
  }

  /** The sequence facts behind one step of `UndoTimesIsLifo`. */
  lemma StackStep<A>(u: seq<A>, red: seq<A>, n: nat, rest: seq<A>)
    requires 0 < n <= |u|
    ensures u[..|u| - 1][..|u| - n] == u[..|u| - n]
    ensures (red + [u[|u| - 1]]) + rest == red + ([u[|u| - 1]] + rest)
    ensures Popped(u, n) == [u[|u| - 1]] + Popped(u[..|u| - 1], n - 1)
  {
  }

  /** One step of `UndoTimes` when the undo succeeds. */
  lemma UndoTimesUnfold<A>(sem: Semantics<A>, t: UndoTracker<A>, g: Grid, n: nat)
    requires n > 0 && |t.undoStack| > 0 && |t.redoStack| < CAPACITY
    ensures var s := Undo(sem, t, g);
            var rest := UndoTimes(sem, s.tracker, s.grid, n - 1);
            UndoTimes(sem, t, g, n) == (rest.0, rest.1, [t.undoStack[|t.undoStack| - 1]] + rest.2)
  {
    var s := Undo(sem, t, g);
    assert s.action == Some(t.undoStack[|t.undoStack| - 1]);
  }

  /** A new tracker has nothing to undo or redo: both return None and change nothing. */
  lemma NewTrackerIdle<A>(sem: Semantics<A>, g: Grid)
    ensures Undo(sem, NewTracker<A>(), g) == Step(NewTracker(), g, None)
    ensures Redo(sem, NewTracker<A>(), g) == Step(NewTracker(), g, None)
  {
  }
}
