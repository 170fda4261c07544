/**
 Commits whose snapshot has outlived its window replay their predecessors from the log
 (storage/isolation_manager.rs: `validate_concurrent_from_disk`, `iterate_commit_status_from_disk`). When that
 replay panics, exactly, and which commits never come to it.
 */
module IsolationReplay {
  import opened Options
  import opened CommitRecords
  import opened TimelineWindows
  import opened IsolationProtocol
  import opened IsolationInvariants
  import opened IsolationSteps
  import opened Isolation

  /******* When a replay panics *******/

  /* Number q is in the log as committed, and commit n conflicts with it. */
  ghost predicate LoggedConflict(s: State, n: nat, q: nat)
    requires n < |s.commits|
  {
    q < |s.commits| && s.commits[q].persisted == Some(true) && Conflicts(s.commits[n].record, s.commits[q].record)
  }

  /* Number p is to be replayed by commit n, and its status is not in the log. */
  predicate StatusMissing(s: State, n: nat, stop: nat, p: nat)
    requires n < |s.commits|
  {
    s.commits[n].record.open < p < stop && p < |s.commits| && s.commits[p].persisted.None?
  }

  /* Some status is missing, and no conflict comes before it. */
  ghost predicate ReplayFails(s: State, n: nat, stop: nat)
    requires n < |s.commits|
  {
    exists p: nat :: StatusMissing(s, n, stop, p) && NoConflictUpTo(s, n, p)
  }

  ghost predicate NoConflictUpTo(s: State, n: nat, upto: nat)
    requires n < |s.commits|
  {
    forall q: nat :: s.commits[n].record.open < q < upto ==> !LoggedConflict(s, n, q)
  }

  ghost predicate AllLogged(s: State, n: nat, upto: nat)
    requires n < |s.commits|
  {
    forall q: nat :: s.commits[n].record.open < q < upto ==> q < |s.commits| && s.commits[q].persisted.Some?
  }

  /* The replay is over and did not panic. */
  predicate PastReplay(pc: Pc) {
    !(pc.Logged? || pc.Entering? || pc.Collecting? || pc.ReadingStatuses? || pc.Scanning? || pc.Panicked?)
  }

  /* How the replay of commit n stands in state s, in terms of what was in the log in state s0. */
  ghost predicate Replaying(s0: State, s: State, n: nat, stop: nat)
    requires n < |s0.commits| <= |s.commits|
  {
    match s.commits[n].pc
    case Scanning(cursor, stop', statuses) =>
      && stop' == stop <= n && s0.commits[n].record.open < cursor <= stop
      && |statuses| == |s0.commits| && (forall k :: 0 <= k < |statuses| ==> statuses[k] == s0.commits[k].persisted)
      && AllLogged(s0, n, cursor) && NoConflictUpTo(s0, n, cursor)
    case Panicked => ReplayFails(s0, n, stop)
    case _ => PastReplay(s.commits[n].pc) && !ReplayFails(s0, n, stop)
  }

  lemma ReplayBegins(s: State, n: nat)
    requires Inv(s) && CanAdvance(s, n) && s.commits[n].pc.ReadingStatuses?
    ensures |Advance(s, n).commits| == |s.commits| && Replaying(s, Advance(s, n), n, s.commits[n].pc.stop)
  {
    HistoryTakesNoStep(s, n);
    assert CommitOk(s, n);
  }

  /* One number of the replay. */
  lemma ReplayGoesOn(s0: State, s: State, n: nat, stop: nat)
    requires CanAdvance(s, n) && s.commits[n].pc.Scanning? && Evolves(s0, s) && n < |s0.commits|
    requires Replaying(s0, s, n, stop)
    ensures |Advance(s, n).commits| == |s.commits| && Replaying(s0, Advance(s, n), n, stop)
  {
    var Scanning(cursor, _, statuses) := s.commits[n].pc;
    assert CommitEvolves(s0.commits[n], s.commits[n]);
    if cursor < stop {
      assert CommitEvolves(s0.commits[cursor], s.commits[cursor]);
      if statuses[cursor].None? {
        assert StatusMissing(s0, n, stop, cursor);
      } else if LoggedConflict(s0, n, cursor) {
        ConflictEndsReplay(s0, n, stop, cursor);
      }
    }
  }

  lemma ConflictEndsReplay(s: State, n: nat, stop: nat, q: nat)
    requires n < |s.commits| && s.commits[n].record.open < q && AllLogged(s, n, q) && LoggedConflict(s, n, q)
    ensures !ReplayFails(s, n, stop)
  {
    forall p: nat | StatusMissing(s, n, stop, p) ensures !NoConflictUpTo(s, n, p) {
      assert q < p;
    }
  }

  lemma StaysPastReplay(s: State, n: nat)
    requires Inv(s) && CanAdvance(s, n) && PastReplay(s.commits[n].pc)
    ensures PastReplay(Advance(s, n).commits[n].pc)
  {
    hide Inv, Advance, CanAdvance;
    assert s.initial <= n by {
      HistoryTakesNoStep(s, n);
    }
    NoPanicOutsideScanning(s, n);
    NeverGoesBack(s, n);
  }

  /* A thread that has left the beginning of validation behind does not return to it. */
  lemma NeverGoesBack(s: State, n: nat)
    requires CanAdvance(s, n) && !Advance(s, n).commits[n].pc.Panicked?
    ensures PastReplay(s.commits[n].pc) ==> PastReplay(Advance(s, n).commits[n].pc)
    ensures !Replays(s.commits[n].pc) && !s.commits[n].pc.Collecting? ==> !Replays(Advance(s, n).commits[n].pc)
  {
    hide Extended, ReleaseSnapshot, Walk, Await, Scan, Collect, ReadStatuses, Resolve, LoadMark, Locate, Inspect, Swap;
    var pc := s.commits[n].pc;
    if pc.Walking? {
      WalkingGoesOn(s, n);
    } else if pc.Awaiting? {
      AwaitingGoesOn(s, n);
    } else if pc.LoadingMark? || pc.Locating? || pc.Inspecting? || pc.Swapping? {
      MarkingGoesOn(s, n);
    } else if pc.Unpinning? {
      UnpinningGoesOn(s, n);
    }
  }

  lemma MarkingGoesOn(s: State, n: nat)
    requires CanAdvance(s, n) && !Advance(s, n).commits[n].pc.Panicked?
    requires var pc := s.commits[n].pc; pc.LoadingMark? || pc.Locating? || pc.Inspecting? || pc.Swapping?
    ensures PastReplay(Advance(s, n).commits[n].pc)
  {
    hide Resolve;
  }

  lemma UnpinningGoesOn(s: State, n: nat)
    requires CanAdvance(s, n) && s.commits[n].pc.Unpinning?
    ensures PastReplay(Advance(s, n).commits[n].pc)
  {
    hide RemoveReader;
  }

  lemma SettledPc(c: Commit, predecessor: CommitRecord, cursor: nat, next: Pc)
    ensures var pc := Settle(c, predecessor, cursor, next).pc; pc == next || pc.Deciding?
  {
  }

  lemma WalkingGoesOn(s: State, n: nat)
    requires CanAdvance(s, n) && s.commits[n].pc.Walking? && !Advance(s, n).commits[n].pc.Panicked?
    ensures PastReplay(Advance(s, n).commits[n].pc)
  {
    hide Settle, Dependency;
    var c := s.commits[n];
    var Walking(cursor, index) := c.pc;
    if cursor < n && InWindow(c.held, cursor, index) {
      SettledPc(c, s.commits[cursor].record, cursor, NextWalk(c.held, cursor, index));
    }
  }

  lemma AwaitingGoesOn(s: State, n: nat)
    requires CanAdvance(s, n) && s.commits[n].pc.Awaiting? && !Advance(s, n).commits[n].pc.Panicked?
    ensures PastReplay(Advance(s, n).commits[n].pc)
  {
    hide Settle, Dependency;
    var c := s.commits[n];
    var Awaiting(cursor, index) := c.pc;
    if cursor < n && InWindow(c.held, cursor, index) {
      SettledPc(c, s.commits[cursor].record, cursor, NextWalk(c.held, cursor, index));
    }
  }

  lemma OtherStepsKeepCommit(s: State, step: Step, n: nat)
    requires Inv(s) && Enabled(s, step) && n < |s.commits| && step != AdvanceCommit(n)
    ensures |s.commits| <= |Apply(s, step).commits| && Apply(s, step).commits[n] == s.commits[n]
  {
    hide Inv;
  }

  lemma StepReplays(s0: State, s: State, step: Step, n: nat, stop: nat)
    requires Inv(s) && Enabled(s, step) && Evolves(s0, s) && n < |s0.commits| && Replaying(s0, s, n, stop)
    ensures |s0.commits| <= |Apply(s, step).commits| && Replaying(s0, Apply(s, step), n, stop)
  {
    if step == AdvanceCommit(n) {
      if s.commits[n].pc.Scanning? {
        ReplayGoesOn(s0, s, n, stop);
      } else {
        StaysPastReplay(s, n);
      }
    } else {
      OtherStepsKeepCommit(s, step, n);
    }
  }

  lemma {:induction false} ReplayStands(run: seq<State>, i: nat, k: nat, n: nat)
    requires Execution(run) && i < k < |run| && n < |run[i].commits|
    requires run[i].commits[n].pc.ReadingStatuses? && n < |run[i + 1].commits| && run[i + 1].commits[n].pc.Scanning?
    ensures |run[i].commits| <= |run[k].commits| && Replaying(run[i], run[k], n, run[i].commits[n].pc.stop)
  {
    hide Inv, Replaying;
    var stop := run[i].commits[n].pc.stop;
    var step := StepInto(run, k);
    if k == i + 1 {
      if step != AdvanceCommit(n) {
        OtherStepsKeepCommit(run[i], step, n);
        assert false;
      }
      ReplayBegins(run[i], n);
    } else {
      ReplayStands(run, i, k - 1, n);
      RunsMoveForward(run, i, k - 1);
      StepReplays(run[i], run[k - 1], step, n, stop);
    }
  }

  /* A replay that has ended panicked if and only if, when the statuses were read, one of them was missing
     and no number before it was logged as committed and in conflict. */
  lemma ReplayPanicsExactly(run: seq<State>, i: nat, k: nat, n: nat)
    requires Execution(run) && i < k < |run| && n < |run[i].commits| && n < |run[i + 1].commits| && n < |run[k].commits|
    requires run[i].commits[n].pc.ReadingStatuses? && run[i + 1].commits[n].pc.Scanning?
    requires !run[k].commits[n].pc.Scanning?
    ensures run[k].commits[n].pc.Panicked? <==> ReplayFails(run[i], n, run[i].commits[n].pc.stop)
  {
    hide Inv, ReplayFails;
    ReplayStands(run, i, k, n);
  }

  /******* Which commits replay *******/

  /* Collecting its windows, a commit turns to the log if and only if the number after its snapshot's has
     left memory. */
  lemma CommitReplaysIffWindowIsGone(run: seq<State>, k: nat, n: nat)
    requires Execution(run) && k < |run| && CanAdvance(run[k], n) && run[k].commits[n].pc.Collecting?
    ensures var pc := Advance(run[k], n).commits[n].pc;
            && (pc.ReadingStatuses? <==> run[k].commits[n].record.open + 1 < run[k].windows[0].start)
            && (!pc.ReadingStatuses? ==> pc.Walking?)
  {
    ReachableHasInvariant(run, k);
    HistoryTakesNoStep(run[k], n);
    assert CommitOk(run[k], n);
    UnfinishedIsInMemory(run[k], n);
    CollectedWindowsCover(run[k].windows, run[k].commits[n].record.open, n);
    CollectingStep(run[k], n);
  }

  predicate Replays(pc: Pc) {
    pc.ReadingStatuses? || pc.Scanning? || pc.Panicked?
  }

  /* The commit's snapshot pins the window of its open number. */
  predicate PinnedCommit(s: State, n: nat)
    requires n < |s.commits|
  {
    s.commits[n].snapshot < |s.snapshots| && s.snapshots[s.commits[n].snapshot].pinned
  }

  lemma PinnedCommitCollects(s: State, n: nat)
    requires Inv(s) && CanAdvance(s, n) && PinnedCommit(s, n) && s.commits[n].pc.Collecting?
    ensures !Replays(Advance(s, n).commits[n].pc)
  {
    HistoryTakesNoStep(s, n);
    assert CommitOk(s, n);
    assert SnapshotOk(s, s.snapshots[s.commits[n].snapshot]);
    UnfinishedIsInMemory(s, n);
    CollectedWindowsCover(s.windows, s.commits[n].record.open, n);
    hide Inv, CommitOk, SnapshotOk;
    assert Advance(s, n) == WithCommit(s, n, Collect(s, n));
  }

  lemma PinnedCommitWalks(s: State, n: nat)
    requires Inv(s) && CanAdvance(s, n) && PinnedCommit(s, n) && !Replays(s.commits[n].pc)
    ensures !Replays(Advance(s, n).commits[n].pc)
  {
    assert n < |s.commits|;
    hide Inv, Advance, CanAdvance;
    if s.commits[n].pc.Collecting? {
      PinnedCommitCollects(s, n);
    } else {
      assert s.initial <= n by {
        HistoryTakesNoStep(s, n);
      }
      NoPanicOutsideScanning(s, n);
      NeverGoesBack(s, n);
    }
  }

  lemma PinIsKept(s: State, step: Step, j: nat)
    requires Enabled(s, step) && j < |s.snapshots|
    requires s.snapshots[j].phase.Committing? || s.snapshots[j].phase.Released?
    ensures j < |Apply(s, step).snapshots| && Apply(s, step).snapshots[j].pinned == s.snapshots[j].pinned
  {
    hide Extended, Freed, RemoveReader, Collect, ReadStatuses, Scan, Walk, Await, Decide, LoadMark, Locate, Inspect;
  }

  lemma CommitKeepsItsPin(s: State, step: Step, n: nat)
    requires Inv(s) && Enabled(s, step) && s.initial <= n < |s.commits|
    ensures n < |Apply(s, step).commits| && PinnedCommit(Apply(s, step), n) == PinnedCommit(s, n)
  {
    var j := s.commits[n].snapshot;
    assert j < |s.snapshots| && (s.snapshots[j].phase.Committing? || s.snapshots[j].phase.Released?);
    hide Inv, Enabled, Apply;
    StepKeepsInvariant(s, step);
    assert CommitEvolves(s.commits[n], Apply(s, step).commits[n]);
    PinIsKept(s, step, j);
  }

  /* A commit whose snapshot pinned its window neither replays the log nor panics. */
  lemma {:induction false} PinnedCommitNeverPanics(run: seq<State>, k: nat, n: nat)
    requires Execution(run) && k < |run| && run[k].initial <= n < |run[k].commits| && PinnedCommit(run[k], n)
    ensures !Replays(run[k].commits[n].pc)
  {
    hide Inv, Next, Evolves;
    if k > 0 {
      var step := StepInto(run, k);
      RunsMoveForward(run, k - 1, k);
      if n < |run[k - 1].commits| {
        CommitKeepsItsPin(run[k - 1], step, n);
        PinnedCommitNeverPanics(run, k - 1, n);
        if step == AdvanceCommit(n) {
          PinnedCommitWalks(run[k - 1], n);
        } else {
          OtherStepsKeepCommit(run[k - 1], step, n);
        }
      }
    }
  }
}
