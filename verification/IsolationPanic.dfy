/**
 A run in which a replay does panic. A snapshot opened before the first window pins nothing. A hundred and one
 commits finish without having logged their status, the first window is freed, and the commit of the old
 snapshot then replays a number whose status is missing.
 */
module IsolationPanic {
  import opened Options
  import opened CommitRecords
  import opened TimelineWindows
  import opened IsolationProtocol

  ghost predicate Reachable(s: State) {
    exists run :: Execution(run) && run[|run| - 1] == s
  }

  lemma StepReaches(s: State, step: Step)
    requires Reachable(s) && Enabled(s, step)
    ensures Reachable(Apply(s, step))
  {
    hide Enabled, Apply, Init;
    var run :| Execution(run) && run[|run| - 1] == s;
    var run' := run + [Apply(s, step)];
    forall k: nat | k + 1 < |run'| ensures NextAt(run', k) {
      if k + 1 < |run| {
        assert NextAt(run, k);
      }
    }
    assert Execution(run');
  }

  /******* The scene *******/

  const OLD: Snapshot := Snapshot(0, false, 0, Held, false)

  function Nothing(open: nat): CommitRecord {
    CommitRecord([], OrderedMap([], map[]), open)
  }

  /* Two windows from number 101 on; the first may have readers. */
  function Deque(n: nat, readers: nat): seq<Window> {
    if n <= 100 then [Window(1, readers)] else [Window(1, readers), Window(101, 0)]
  }

  /* Applied, and about to log its status. */
  predicate Parked(c: Commit) {
    c.marker.Applied? && c.pc.Persisting? && c.persisted.None?
  }

  ghost predicate Scene(s: State, k: nat, ws: seq<Window>, watermark: nat, highest: nat) {
    && s.initial == 1 && s.windows == ws && s.watermark == watermark && s.highest == highest
    && |s.snapshots| > 0 && s.snapshots[0] == OLD
    && k < |s.commits| && (forall i :: 1 <= i <= k ==> Parked(s.commits[i]))
  }

  /* Commits 1 to k are parked and nothing else is going on. */
  ghost predicate Settled(s: State, k: nat) {
    Scene(s, k, Deque(k, 0), k, k) && |s.commits| == k + 1
  }

  /* Commit k + 1 is under way. */
  ghost predicate UnderWay(s: State, k: nat, ws: seq<Window>, watermark: nat, highest: nat, pc: Pc, marker: Marker) {
    && Scene(s, k, ws, watermark, highest) && |s.commits| == k + 2
    && var c := s.commits[k + 1];
       && c.pc == pc && c.marker == marker && c.persisted.None? && c.record == Nothing(k)
       && 0 < c.snapshot < |s.snapshots| && s.snapshots[c.snapshot].open == k
  }

  function Readers(k: nat): nat {
    if k == 0 then 0 else 1
  }

  /******* One whole commit *******/

  /* A snapshot at the watermark, counted as a reader of the first window unless it lies before it. */
  lemma OpenSnapshot(s: State, k: nat) returns (s': State)
    requires Reachable(s) && Settled(s, k) && k <= 100
    ensures Reachable(s') && Scene(s', k, Deque(k, Readers(k)), k, k) && s'.commits == s.commits && |s'.snapshots| > 1
    ensures var snap := s'.snapshots[|s'.snapshots| - 1]; snap.open == k && snap.phase.Held?
  {
    var j := |s.snapshots|;
    StepReaches(s, RequestSnapshot);
    var s1 := Apply(s, RequestSnapshot);
    StepReaches(s1, LocateSnapshot(j));
    var s2 := Apply(s1, LocateSnapshot(j));
    assert s2.snapshots[j].phase == Located(if k == 0 then None else Some(1));
    StepReaches(s2, PinSnapshot(j));
    s' := Apply(s2, PinSnapshot(j));
    assert s'.windows == Deque(k, Readers(k));
  }

  lemma BeginEmptyCommit(s: State, k: nat, ws: seq<Window>) returns (s': State)
    requires Reachable(s) && Scene(s, k, ws, k, k) && |s.commits| == k + 1 && |s.snapshots| > 1 && ws != []
    requires var snap := s.snapshots[|s.snapshots| - 1]; snap.open == k && snap.phase.Held?
    ensures Reachable(s') && UnderWay(s', k, ws, k, k, Logged, Empty)
  {
    var step := BeginCommit(|s.snapshots| - 1, Nothing(k), map[]);
    StepReaches(s, step);
    s' := Apply(s, step);
  }

  lemma WindowIsCreated(k: nat, readers: nat)
    requires k <= 100
    ensures Extended(Deque(k, readers), k + 1) == Deque(k + 1, readers)
  {
  }

  /* A step of commit k + 1 that concerns nothing but its own thread and slot. */
  lemma OwnStep(s: State, k: nat, ws: seq<Window>, h: nat, pc: Pc, marker: Marker, c: Commit)
    requires UnderWay(s, k, ws, k, h, pc, marker)
    requires c.persisted.None? && c.record == Nothing(k) && c.snapshot == s.commits[k + 1].snapshot
    ensures UnderWay(WithCommit(s, k + 1, c), k, ws, k, h, c.pc, c.marker)
  {
  }

  lemma Entered(s: State, k: nat, r: nat)
    requires UnderWay(s, k, Deque(k, r), k, k, Logged, Empty) && k <= 100
    ensures CanAdvance(s, k + 1)
    ensures UnderWay(Advance(s, k + 1), k, Deque(k + 1, r), k, k, Entering, Empty)
  {
    WindowIsCreated(k, r);
  }

  lemma MadePending(s: State, k: nat, r: nat)
    requires UnderWay(s, k, Deque(k + 1, r), k, k, Entering, Empty) && k <= 100
    ensures CanAdvance(s, k + 1)
    ensures UnderWay(Advance(s, k + 1), k, Deque(k + 1, r), k, k, Collecting, Pending)
  {
    OwnStep(s, k, s.windows, k, Entering, Empty, s.commits[k + 1].(marker := Pending, pc := Collecting));
  }

  /* There is nothing between the snapshot and the commit, so validation has nothing to do. */
  lemma Collected(s: State, k: nat, r: nat)
    requires UnderWay(s, k, Deque(k + 1, r), k, k, Collecting, Pending) && k <= 100
    ensures CanAdvance(s, k + 1)
    ensures UnderWay(Advance(s, k + 1), k, Deque(k + 1, r), k, k, Walking(k + 1, 0), Pending)
  {
    OwnStep(s, k, s.windows, k, Collecting, Pending, Collect(s, k + 1));
  }

  lemma Walked(s: State, k: nat, ws: seq<Window>)
    requires UnderWay(s, k, ws, k, k, Walking(k + 1, 0), Pending) && ws != []
    ensures CanAdvance(s, k + 1)
    ensures UnderWay(Advance(s, k + 1), k, ws, k, k, Deciding(None), Pending)
  {
    OwnStep(s, k, ws, k, Walking(k + 1, 0), Pending, s.commits[k + 1].(pc := Deciding(None)));
  }

  lemma Decided(s: State, k: nat, ws: seq<Window>)
    requires UnderWay(s, k, ws, k, k, Deciding(None), Pending) && ws != []
    ensures CanAdvance(s, k + 1)
    ensures UnderWay(Advance(s, k + 1), k, ws, k, k, Publishing, Validated)
  {
    OwnStep(s, k, ws, k, Deciding(None), Pending, Decide(s.commits[k + 1]));
  }

  lemma Published(s: State, k: nat, ws: seq<Window>)
    requires UnderWay(s, k, ws, k, k, Publishing, Validated) && ws != []
    ensures CanAdvance(s, k + 1)
    ensures UnderWay(Advance(s, k + 1), k, ws, k, k + 1, Unpinning, Validated)
  {
    OwnStep(s, k, ws, k, Publishing, Validated, s.commits[k + 1].(pc := Unpinning));
  }

  lemma ReaderIsRemoved(k: nat)
    requires k <= 100
    ensures RemoveReader(Deque(k + 1, Readers(k)), k) == Deque(k + 1, 0)
  {
  }

  lemma Unpinned(s: State, k: nat)
    requires UnderWay(s, k, Deque(k + 1, Readers(k)), k, k + 1, Unpinning, Validated) && k <= 100
    ensures CanAdvance(s, k + 1)
    ensures UnderWay(Advance(s, k + 1), k, Deque(k + 1, 0), k, k + 1, Applying, Validated)
  {
    ReaderIsRemoved(k);
    hide RemoveReader, Deque;
    assert |s.windows| > 0 by {
      DequeIsNotEmpty(k + 1, Readers(k));
    }
  }

  lemma DequeIsNotEmpty(n: nat, r: nat)
    ensures Deque(n, r) != []
  {
  }

  lemma MadeApplied(s: State, k: nat)
    requires UnderWay(s, k, Deque(k + 1, 0), k, k + 1, Applying, Validated) && k <= 100
    ensures CanAdvance(s, k + 1)
    ensures UnderWay(Advance(s, k + 1), k, Deque(k + 1, 0), k, k + 1, LoadingMark, Applied)
  {
    OwnStep(s, k, s.windows, k + 1, Applying, Validated, s.commits[k + 1].(marker := Applied, pc := LoadingMark));
  }

  lemma MarkLoaded(s: State, k: nat, ws: seq<Window>)
    requires UnderWay(s, k, ws, k, k + 1, LoadingMark, Applied) && ws != []
    ensures CanAdvance(s, k + 1)
    ensures UnderWay(Advance(s, k + 1), k, ws, k, k + 1, Locating(k + 1), Applied)
  {
    OwnStep(s, k, ws, k + 1, LoadingMark, Applied, LoadMark(s, k + 1));
  }

  function EndOf(n: nat): nat {
    if n <= 100 then 101 else 201
  }

  lemma WindowLocated(s: State, k: nat)
    requires UnderWay(s, k, Deque(k + 1, 0), k, k + 1, Locating(k + 1), Applied) && k <= 100
    ensures CanAdvance(s, k + 1)
    ensures UnderWay(Advance(s, k + 1), k, Deque(k + 1, 0), k, k + 1, Inspecting(k + 1, EndOf(k + 1)), Applied)
  {
    OwnStep(s, k, s.windows, k + 1, Locating(k + 1), Applied, Locate(s, k + 1));
  }

  lemma Inspected(s: State, k: nat, ws: seq<Window>, end: nat)
    requires UnderWay(s, k, ws, k, k + 1, Inspecting(k + 1, end), Applied) && ws != []
    ensures CanAdvance(s, k + 1)
    ensures UnderWay(Advance(s, k + 1), k, ws, k, k + 1, Swapping(k + 1, end), Applied)
  {
    OwnStep(s, k, ws, k + 1, Inspecting(k + 1, end), Applied, Inspect(s, k + 1));
  }

  /* The watermark is moved; there is no slot after it that is finished. */
  lemma Swapped(s: State, k: nat) returns (s1: State)
    requires UnderWay(s, k, Deque(k + 1, 0), k, k + 1, Swapping(k + 1, EndOf(k + 1)), Applied) && k <= 100
    ensures CanAdvance(s, k + 1) && s1 == Advance(s, k + 1)
    ensures CanAdvance(s1, k + 1) && Settled(Advance(s1, k + 1), k + 1)
  {
    s1 := Advance(s, k + 1);
    assert s1 == Swap(s, k + 1);
    var c := s1.commits[k + 1];
    assert c.pc == if k == 99 then Locating(k + 2) else Inspecting(k + 2, EndOf(k + 1));
    assert c.marker.Applied? && c.persisted.None?;
    assert Advance(s1, k + 1) == WithCommit(s1, k + 1, AfterMark(c));
  }

  lemma AdvanceReaches(s: State, n: nat)
    requires Reachable(s) && CanAdvance(s, n)
    ensures Reachable(Advance(s, n))
  {
    hide Reachable, CanAdvance, Advance;
    assert Enabled(s, AdvanceCommit(n)) by {
      AdvanceIsAStep(s, n);
    }
    StepReaches(s, AdvanceCommit(n));
  }

  lemma AdvanceIsAStep(s: State, n: nat)
    requires CanAdvance(s, n)
    ensures Enabled(s, AdvanceCommit(n))
  {
  }

  /* Validation, up to giving up the snapshot. */
  lemma CommitValidates(s: State, k: nat) returns (s': State)
    requires Reachable(s) && UnderWay(s, k, Deque(k, Readers(k)), k, k, Logged, Empty) && k <= 100
    ensures Reachable(s') && UnderWay(s', k, Deque(k + 1, Readers(k)), k, k + 1, Unpinning, Validated)
  {
    hide Reachable, UnderWay, CanAdvance, Advance, Deque;
    var n, r := k + 1, Readers(k);
    DequeIsNotEmpty(n, r);
    Entered(s, k, r);
    AdvanceReaches(s, n);
    s' := Advance(s, n);
    MadePending(s', k, r);
    AdvanceReaches(s', n);
    s' := Advance(s', n);
    Collected(s', k, r);
    AdvanceReaches(s', n);
    s' := Advance(s', n);
    Walked(s', k, Deque(n, r));
    AdvanceReaches(s', n);
    s' := Advance(s', n);
    Decided(s', k, Deque(n, r));
    AdvanceReaches(s', n);
    s' := Advance(s', n);
    Published(s', k, Deque(n, r));
    AdvanceReaches(s', n);
    s' := Advance(s', n);
  }

  /* Applying, and moving the watermark. */
  lemma CommitFinishes(s: State, k: nat) returns (s': State)
    requires Reachable(s) && UnderWay(s, k, Deque(k + 1, Readers(k)), k, k + 1, Unpinning, Validated) && k <= 100
    ensures Reachable(s') && Settled(s', k + 1)
  {
    hide Reachable, UnderWay, Settled, CanAdvance, Advance, Deque;
    var n := k + 1;
    DequeIsNotEmpty(n, 0);
    Unpinned(s, k);
    AdvanceReaches(s, n);
    s' := Advance(s, n);
    MadeApplied(s', k);
    AdvanceReaches(s', n);
    s' := Advance(s', n);
    MarkLoaded(s', k, Deque(n, 0));
    AdvanceReaches(s', n);
    s' := Advance(s', n);
    WindowLocated(s', k);
    AdvanceReaches(s', n);
    s' := Advance(s', n);
    Inspected(s', k, Deque(n, 0), EndOf(n));
    AdvanceReaches(s', n);
    s' := Advance(s', n);
    var s1 := Swapped(s', k);
    AdvanceReaches(s', n);
    AdvanceReaches(s1, n);
    s' := Advance(s1, n);
  }

  lemma WholeCommit(s: State, k: nat) returns (s': State)
    requires Reachable(s) && Settled(s, k) && k <= 100
    ensures Reachable(s') && Settled(s', k + 1)
  {
    hide Reachable, UnderWay;
    s' := OpenSnapshot(s, k);
    s' := BeginEmptyCommit(s', k, Deque(k, Readers(k)));
    s' := CommitValidates(s', k);
    s' := CommitFinishes(s', k);
  }

  /******* The run *******/

  function Placeholder(): Commit {
    Commit(Nothing(0), map[], 0, Marker.Applied, Some(true), Done, map[], [], [])
  }

  /* The old snapshot is opened before anything else happens. */
  lemma OldSnapshot() returns (s: State)
    ensures Reachable(s) && Settled(s, 0)
  {
    s := State(1, 0, 0, [Window(1, 0)], [], [Placeholder()]);
    assert Execution([s]);
    assert Reachable(s);
    StepReaches(s, RequestSnapshot);
    s := Apply(s, RequestSnapshot);
    StepReaches(s, LocateSnapshot(0));
    s := Apply(s, LocateSnapshot(0));
    StepReaches(s, PinSnapshot(0));
    s := Apply(s, PinSnapshot(0));
  }

  lemma {:induction false} ManyCommits(k: nat) returns (s: State)
    requires k <= 101
    ensures Reachable(s) && Settled(s, k)
  {
    hide Reachable, Settled;
    if k == 0 {
      s := OldSnapshot();
    } else {
      s := ManyCommits(k - 1);
      s := WholeCommit(s, k - 1);
    }
  }

  /* The first window is in nobody's way any more. */
  lemma FirstWindowFreed() returns (s: State)
    ensures Reachable(s) && Scene(s, 101, [Window(101, 0)], 101, 101) && |s.commits| == 102
  {
    s := ManyCommits(101);
    assert Freed(s.windows, 101) == [Window(101, 0)] by {
      assert FreeFrom(Deque(101, 0), 101, 1) == 1;
    }
    StepReaches(s, FreeWindows(101));
    s := Apply(s, FreeWindows(101));
  }

  /* The commit of the old snapshot, number 102, while number 1 still has no status in the log. */
  ghost predicate OldCommit(s: State, pc: Pc) {
    && s.windows == [Window(101, 0)] && |s.commits| == 103 && s.commits[1].persisted.None?
    && s.commits[102].record == Nothing(0) && s.commits[102].pc == pc
  }

  lemma OldCommitBegins() returns (s: State)
    ensures Reachable(s) && OldCommit(s, Logged)
  {
    s := FirstWindowFreed();
    assert Parked(s.commits[1]);
    var step := BeginCommit(0, Nothing(0), map[]);
    StepReaches(s, step);
    s := Apply(s, step);
  }

  lemma OldCommitEnters(s: State)
    requires OldCommit(s, Logged)
    ensures CanAdvance(s, 102) && OldCommit(Advance(s, 102), Entering)
  {
    assert Extended(s.windows, 102) == s.windows;
  }

  lemma OldCommitCollects(s: State)
    requires OldCommit(s, Entering)
    ensures CanAdvance(s, 102) && OldCommit(Advance(s, 102), Collecting)
  {
  }

  lemma OldCommitTurnsToTheLog(s: State)
    requires OldCommit(s, Collecting)
    ensures CanAdvance(s, 102) && OldCommit(Advance(s, 102), ReadingStatuses(101))
  {
    assert Advance(s, 102) == WithCommit(s, 102, Collect(s, 102));
  }

  lemma OldCommitFindsNoStatus(s: State) returns (s1: State)
    requires OldCommit(s, ReadingStatuses(101))
    ensures CanAdvance(s, 102) && s1 == Advance(s, 102)
    ensures CanAdvance(s1, 102) && OldCommit(Advance(s1, 102), Panicked)
  {
    s1 := Advance(s, 102);
    assert s1 == WithCommit(s, 102, ReadStatuses(s, 102));
    assert s1.commits[102].pc.statuses[1].None?;
    assert Advance(s1, 102) == WithCommit(s1, 102, Scan(s1, 102));
  }

  /* Number 1 is replayed from the log although its status was never written there. */
  lemma ReplayCanPanic() returns (run: seq<State>)
    ensures Execution(run) && |run[|run| - 1].commits| == 103 && run[|run| - 1].commits[102].pc.Panicked?
  {
    hide CanAdvance, Advance, Reachable;
    var s := OldCommitBegins();
    OldCommitEnters(s);
    AdvanceReaches(s, 102);
    s := Advance(s, 102);
    OldCommitCollects(s);
    AdvanceReaches(s, 102);
    s := Advance(s, 102);
    OldCommitTurnsToTheLog(s);
    AdvanceReaches(s, 102);
    s := Advance(s, 102);
    var s1 := OldCommitFindsNoStatus(s);
    AdvanceReaches(s, 102);
    AdvanceReaches(s1, 102);
    s := Advance(s1, 102);
    run := RunTo(s);
  }

  lemma RunTo(s: State) returns (run: seq<State>)
    requires Reachable(s)
    ensures Execution(run) && run[|run| - 1] == s
  {
    run :| Execution(run) && run[|run| - 1] == s;
  }
}
