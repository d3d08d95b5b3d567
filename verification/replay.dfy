/**
 The replay log: a bounded FIFO of (action, is_undo) entries, played back in
 recording order (`ReplayTracker` in replay.py, a `CircularQueue(100)`).
 */
module Replay {
  import opened Grids
  import opened Actions

  const CAPACITY: nat := 100

  datatype Entry<A> = Entry(action: A, isUndo: bool)

  /** The oldest entry is first. */
  datatype ReplayTracker<A> = ReplayTracker(log: seq<Entry<A>>)

  /** The source class has no constructor; its queue is created here, empty. */
  function NewTracker<A>(): (r: ReplayTracker<A>)
    ensures r.log == []
  {
    ReplayTracker([])
  }

  /**
   Append the action and its `is_undo` flag at the tail. The source appends
   the action alone and drops the flag; this model keeps it, since playback
   needs it. The source has no guard: appending to its full 100-entry queue
   fails inside the queue class, which this model renders as a log left
   unchanged.
   */
  function AddAction<A>(t: ReplayTracker<A>, a: A, isUndo: bool): (r: ReplayTracker<A>)
    ensures |t.log| >= CAPACITY ==> r == t
    ensures |t.log| < CAPACITY ==> r.log == t.log + [Entry(a, isUndo)]
  {
    if |t.log| >= CAPACITY then t else ReplayTracker(t.log + [Entry(a, isUndo)])
  }

  /**
   Switch from recording to playback. The recorded entries are kept: the
   source replaces the queue with a new empty one here, which would leave
   nothing to play; this model keeps the log, as the docstring intends.
   */
  function StartReplay<A>(t: ReplayTracker<A>): (r: ReplayTracker<A>)
    ensures r.log == t.log
  {
    t
  }

  /** One entry's effect: its undo when it records an undo, its forward application otherwise. */
  function Perform<A>(sem: Semantics<A>, e: Entry<A>, g: Grid): Grid
  {
    if e.isUndo then sem.undoApply(e.action, g) else sem.apply(e.action, g)
  }

  /** The tracker and grid after a playback step, and whether nothing was left. */
  datatype Played<A> = Played(tracker: ReplayTracker<A>, grid: Grid, finished: bool)

  /**
   Play the oldest entry. With nothing left, report true and leave the grid
   alone; otherwise remove the entry, perform it and report false. The source
   serves the queue with the grid as a stray argument and returns the grid
   (truthy); this model performs the entry and returns False as documented.
   */
  function PlayNextAction<A>(sem: Semantics<A>, t: ReplayTracker<A>, g: Grid): (r: Played<A>)
    ensures |t.log| == 0 ==> r == Played(t, g, true)
    ensures |t.log| > 0 ==>
      && !r.finished
      && t.log == [t.log[0]] + r.tracker.log
      && r.grid == (if t.log[0].isUndo then sem.undoApply(t.log[0].action, g) else sem.apply(t.log[0].action, g))
  {
    if |t.log| == 0 then Played(t, g, true)
    else
      assert t.log == [t.log[0]] + t.log[1..];
      Played(ReplayTracker(t.log[1..]), Perform(sem, t.log[0], g), false)
  }

  /** Reference semantics: perform the entries live, one after another, oldest first. */
  function RunLive<A>(sem: Semantics<A>, entries: seq<Entry<A>>, g: Grid): Grid
    decreases |entries|
  {
    if |entries| == 0 then g else RunLive(sem, entries[1..], Perform(sem, entries[0], g))
  }

  /** Call `PlayNextAction` n times, collecting its results. */
  function PlayTimes<A>(sem: Semantics<A>, t: ReplayTracker<A>, g: Grid, n: nat): (r: (ReplayTracker<A>, Grid, seq<bool>))
    ensures |r.2| == n
    decreases n
  {
    if n == 0 then (t, g, [])
    else
      var p := PlayNextAction(sem, t, g);
      var (t', g', rest) := PlayTimes(sem, p.tracker, p.grid, n - 1);
      (t', g', [p.finished] + rest)
  }

  /**
   Playing back a log of n entries: the first n calls report false, leave the
   grid as performing the entries live in recorded order would, and empty
   the log; the next call reports true.
   */
  lemma {:induction false} ReplayMatchesLive<A>(sem: Semantics<A>, t: ReplayTracker<A>, g: Grid)
    ensures var r := PlayTimes(sem, t, g, |t.log|);
            && (forall i :: 0 <= i < |t.log| ==> !r.2[i])
            && r.1 == RunLive(sem, t.log, g)
            && r.0.log == []
            && PlayNextAction(sem, r.0, r.1).finished
    decreases |t.log|
  {
    if |t.log| > 0 {
      var p := PlayNextAction(sem, t, g);
      assert p.tracker.log == t.log[1..];
      assert p.grid == Perform(sem, t.log[0], g);
      ReplayMatchesLive(sem, p.tracker, p.grid);
      var rest := PlayTimes(sem, p.tracker, p.grid, |t.log| - 1);
      var r := PlayTimes(sem, t, g, |t.log|);
      assert r == (rest.0, rest.1, [false] + rest.2);
      forall i | 0 <= i < |t.log|
        ensures !r.2[i]
      {
        if i > 0 {
          assert r.2[i] == rest.2[i - 1];
        }
      }
    }
  }

  /** Record each entry in turn. */
  function Record<A>(t: ReplayTracker<A>, entries: seq<Entry<A>>): ReplayTracker<A>
    decreases |entries|
  {
    if |entries| == 0 then t
    else Record(AddAction(t, entries[0].action, entries[0].isUndo), entries[1..])
  }

  /** Entries that fit are logged in exactly the order they were recorded. */
  lemma {:induction false} RecordIsFifo<A>(t: ReplayTracker<A>, entries: seq<Entry<A>>)
    requires |t.log| + |entries| <= CAPACITY
    ensures Record(t, entries).log == t.log + entries
    decreases |entries|
  {
    if |entries| > 0 {
      var t1 := AddAction(t, entries[0].action, entries[0].isUndo);
      assert t1.log == t.log + [entries[0]];
      RecordIsFifo(t1, entries[1..]);
      assert t.log + entries == (t.log + [entries[0]]) + entries[1..];
    }
  }

  /**
   Record n entries on a new tracker, start the replay and play: exactly n
   calls report false, the grid ends as the live run leaves it, and the next
   call reports true.
   */
  lemma RecordThenReplay<A>(sem: Semantics<A>, entries: seq<Entry<A>>, g: Grid)
    requires |entries| <= CAPACITY
    ensures var t := StartReplay(Record(NewTracker(), entries));
            var r := PlayTimes(sem, t, g, |entries|);
            && (forall i :: 0 <= i < |entries| ==> !r.2[i])
            && r.1 == RunLive(sem, entries, g)
            && PlayNextAction(sem, r.0, r.1).finished
  {
    RecordIsFifo(NewTracker(), entries);
    assert Record(NewTracker<A>(), entries).log == entries;
    ReplayMatchesLive(sem, StartReplay(Record(NewTracker(), entries)), g);
  }

  /**
   The scenario of replay.py: record a special, a draw and the draw's undo,
   then play four times: three steps report false, the fourth true.
   */
  lemma ThreeActionScenario<A>(sem: Semantics<A>, special: A, draw: A, g: Grid)
    ensures var t := Record(NewTracker(), [Entry(special, false), Entry(draw, false), Entry(draw, true)]);
            var r := PlayTimes(sem, StartReplay(t), g, 4);
            && r.2 == [false, false, false, true]
            && r.1 == sem.undoApply(draw, sem.apply(draw, sem.apply(special, g)))
  {
    var entries := [Entry(special, false), Entry(draw, false), Entry(draw, true)];
    RecordThenReplay(sem, entries, g);
    var t := StartReplay(Record(NewTracker(), entries));
    var r3 := PlayTimes(sem, t, g, 3);
    assert PlayTimes(sem, r3.0, r3.1, 1).2 == [true];
    PlayTimesSplit(sem, t, g, 3, 1);
    var g1 := sem.apply(special, g);
    var g2 := sem.apply(draw, g1);
    assert entries[1..] == [Entry(draw, false), Entry(draw, true)];
    assert entries[1..][1..] == [Entry(draw, true)];
    assert RunLive(sem, entries, g) == RunLive(sem, entries[1..], g1);
    assert RunLive(sem, entries[1..], g1) == RunLive(sem, entries[1..][1..], g2);
    assert RunLive(sem, entries[1..][1..], g2) == sem.undoApply(draw, g2);
  }

  /** Playing m then k times is playing m + k times. */
  lemma {:induction false} PlayTimesSplit<A>(sem: Semantics<A>, t: ReplayTracker<A>, g: Grid, m: nat, k: nat)
    ensures var a := PlayTimes(sem, t, g, m);
            var b := PlayTimes(sem, a.0, a.1, k);
            PlayTimes(sem, t, g, m + k) == (b.0, b.1, a.2 + b.2)
    decreases m
  {
    if m > 0 {
      var p := PlayNextAction(sem, t, g);
      PlayTimesSplit(sem, p.tracker, p.grid, m - 1, k);
      var a := PlayTimes(sem, p.tracker, p.grid, m - 1);
      var b := PlayTimes(sem, a.0, a.1, k);
      var whole := PlayTimes(sem, p.tracker, p.grid, m - 1 + k);
      assert whole == (b.0, b.1, a.2 + b.2);
      assert PlayTimes(sem, t, g, m + k) == (whole.0, whole.1, [p.finished] + whole.2);
      assert PlayTimes(sem, t, g, m) == (a.0, a.1, [p.finished] + a.2);
      assert [p.finished] + (a.2 + b.2) == ([p.finished] + a.2) + b.2;
    } else {
      var b := PlayTimes(sem, t, g, k);
      assert [] + b.2 == b.2;
    }
  }

  /** A new tracker has nothing to play: the first play reports true and leaves the grid alone. */
  lemma NewTrackerFinished<A>(sem: Semantics<A>, g: Grid)
    ensures PlayNextAction(sem, StartReplay(NewTracker<A>()), g) == Played(NewTracker(), g, true)
  {
  }
}
