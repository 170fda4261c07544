/**
 What holds in every state of every run of the commit protocol.
 */
module Isolation {
  import opened CommitRecords
  import opened TimelineWindows
  import opened IsolationProtocol
  import opened IsolationInvariants
  import opened IsolationSteps
  import opened IsolationWatermark
  import opened IsolationReaders

  lemma HistoryTakesNoStep(s: State, n: nat)
    requires Inv(s) && CanAdvance(s, n)
    ensures s.initial <= n
  {
  }

  lemma AdvanceKeepsInvariant(s: State, n: nat)
    requires Inv(s) && CanAdvance(s, n)
    ensures Inv(Advance(s, n)) && Evolves(s, Advance(s, n))
  {
    HistoryTakesNoStep(s, n);
    match s.commits[n].pc
    case Logged => LoggedStep(s, n);
    case Entering => EnteringStep(s, n);
    case Collecting => CollectingStep(s, n);
    case ReadingStatuses(_) => ReadingStatusesStep(s, n);
    case Scanning(_, _, _) => ScanningStep(s, n);
    case Walking(_, _) => WalkingStep(s, n);
    case Awaiting(_, _) => AwaitingStep(s, n);
    case Deciding(_) => DecidingStep(s, n);
    case Publishing => PublishingStep(s, n);
    case Unpinning => UnpinningStep(s, n);
    case Applying => ApplyingStep(s, n);
    case LoadingMark => LoadingMarkStep(s, n);
    case Locating(_) => LocatingStep(s, n);
    case Inspecting(_, _) => InspectingStep(s, n);
    case Swapping(_, _) => SwappingStep(s, n);
    case Persisting => PersistingStep(s, n);
  }

  lemma StepKeepsInvariant(s: State, step: Step)
    requires Inv(s) && Enabled(s, step)
    ensures Inv(Apply(s, step)) && Evolves(s, Apply(s, step))
  {
    match step
    case RequestSnapshot => RequestStep(s, Snapshot(s.highest, false, 0, Waiting, false));
    case RequestSnapshotAt(number) => RequestStep(s, Snapshot(number, true, 0, Waiting, false));
    case LocateSnapshot(j) => LocateStep(s, j);
    case PinSnapshot(j) => PinStep(s, j);
    case CloseSnapshot(j) => CloseStep(s, j);
    case BeginCommit(_, _, _) => BeginStep(s, step);
    case AdvanceCommit(n) => AdvanceKeepsInvariant(s, n);
    case FreeWindows(seen) => FreeStep(s, seen);
  }

  lemma {:induction false} ReachableHasInvariant(run: seq<State>, k: nat)
    requires Execution(run) && k < |run|
    ensures Inv(run[k])
  {
    if k == 0 {
      InitHasInvariant(run[0]);
    } else {
      ReachableHasInvariant(run, k - 1);
      assert NextAt(run, k - 1);
      hide Inv, Enabled, Apply;
      var step :| Enabled(run[k - 1], step) && run[k] == Apply(run[k - 1], step);
      StepKeepsInvariant(run[k - 1], step);
    }
  }

  /* The step a run takes at its k-th position. */
  lemma StepInto(run: seq<State>, k: nat) returns (step: Step)
    requires Execution(run) && 0 < k < |run|
    ensures Enabled(run[k - 1], step) && run[k] == Apply(run[k - 1], step) && Inv(run[k - 1])
  {
    ReachableHasInvariant(run, k - 1);
    assert NextAt(run, k - 1);
    step :| Enabled(run[k - 1], step) && run[k] == Apply(run[k - 1], step);
  }

  lemma {:induction false} RunsMoveForward(run: seq<State>, i: nat, k: nat)
    requires Execution(run) && i <= k < |run|
    ensures Evolves(run[i], run[k])
  {
    if i == k {
      ReachableHasInvariant(run, i);
    } else {
      RunsMoveForward(run, i, k - 1);
      var step := StepInto(run, k);
      StepKeepsInvariant(run[k - 1], step);
      EvolvesIsTransitive(run[i], run[k - 1], run[k]);
    }
  }

  /******* Isolation *******/

  /* In every reachable state, a commit that was validated or applied has no conflict with any number
     between its snapshot and itself, except numbers that aborted. */
  lemma CommittedHasNoConflict(run: seq<State>, k: nat, n: nat, p: nat)
    requires Execution(run) && k < |run|
    requires run[k].initial <= n < |run[k].commits| && Committed(run[k].commits[n].marker)
    requires run[k].commits[n].record.open < p < n
    ensures run[k].commits[p].marker.Aborted?
         || !Dependency(run[k].commits[n].record, run[k].commits[p].record).Conflict?
  {
    ReachableHasInvariant(run, k);
    assert CommitOk(run[k], n);
    assert Cleared(run[k].commits, n, p);
  }

  /* A commit aborts only because a concurrent predecessor that committed conflicts with it. */
  lemma AbortedHasConflict(run: seq<State>, k: nat, n: nat)
    requires Execution(run) && k < |run|
    requires run[k].initial <= n < |run[k].commits| && run[k].commits[n].marker.Aborted?
    ensures exists p: nat :: (
              && run[k].commits[n].record.open < p < n
              && Committed(run[k].commits[p].marker)
              && Dependency(run[k].commits[n].record, run[k].commits[p].record).Conflict?)
  {
    ReachableHasInvariant(run, k);
    assert CommitOk(run[k], n);
    var p: nat :| run[k].commits[n].record.open < p < n
      && Committed(run[k].commits[p].marker) && Conflicts(run[k].commits[n].record, run[k].commits[p].record);
  }

  /* Said in terms of keys: of two concurrent commits that both went through, neither deletes a key the
     other requires, and they hold no exclusive lock in common. */
  lemma ConcurrentCommitsRespectLocks(run: seq<State>, k: nat, n: nat, p: nat, b: nat, key: Key)
    requires Execution(run) && k < |run|
    requires run[k].initial <= n < |run[k].commits| && run[k].commits[n].record.open < p < n
    requires Committed(run[k].commits[n].marker) && Committed(run[k].commits[p].marker)
    ensures var c, d := run[k].commits[n].record, run[k].commits[p].record;
            && !(LocksKey(c, key) && LocksKey(d, key))
            && !(b < |d.buffers| && DeletesKey(c, b, key) && RequiresKey(d, key))
            && !(b < |c.buffers| && DeletesKey(d, b, key) && RequiresKey(c, key))
  {
    CommittedHasNoConflict(run, k, n, p);
    ConflictIffKeysClash(run[k].commits[n].record, run[k].commits[p].record);
  }

  /* The log scan and the window walk together visit every number between the snapshot and the commit
     exactly once, in increasing order. */
  lemma CommittedVisitedEveryPredecessorOnce(run: seq<State>, k: nat, n: nat)
    requires Execution(run) && k < |run|
    requires run[k].initial <= n < |run[k].commits| && Committed(run[k].commits[n].marker)
    ensures run[k].commits[n].record.open < n
    ensures run[k].commits[n].visited == Range(run[k].commits[n].record.open + 1, n)
  {
    ReachableHasInvariant(run, k);
    assert CommitOk(run[k], n);
  }

  /* A thread panics only when the log holds no status for a number it replays; it never looks for a
     slot in the wrong window, and never misses its own. */
  lemma OnlyMissingStatusPanics(run: seq<State>, k: nat, n: nat)
    requires Execution(run) && k < |run|
    requires CanAdvance(run[k], n) && Advance(run[k], n).commits[n].pc.Panicked?
    ensures run[k].commits[n].pc.Scanning?
    ensures var Scanning(cursor, stop, statuses) := run[k].commits[n].pc;
            cursor < stop && cursor < |statuses| && statuses[cursor].None?
  {
    ReachableHasInvariant(run, k);
    HistoryTakesNoStep(run[k], n);
    assert CommitOk(run[k], n);
    if !run[k].commits[n].pc.Scanning? {
      NoPanicOutsideScanning(run[k], n);
    }
  }

  lemma NoPanicOutsideScanning(s: State, n: nat)
    requires Inv(s) && s.initial <= n && CanAdvance(s, n) && !s.commits[n].pc.Scanning?
    ensures !Advance(s, n).commits[n].pc.Panicked?
  {
    match s.commits[n].pc
    case Entering => EnteringStep(s, n);
    case Collecting => CollectingStep(s, n);
    case Walking(_, _) => WalkingStep(s, n);
    case Awaiting(_, _) => AwaitingStep(s, n);
    case Applying => ApplyingStep(s, n);
    case _ =>
  }

  /******* Reinsert flags *******/

  /* p committed and writes the key of the put at `at`. */
  predicate Overwrites(commits: seq<Commit>, n: nat, p: nat, at: Location)
    requires n < |commits| && p < |commits|
  {
    Committed(commits[p].marker) && PutsKey(commits[n].record, at) && WritesKey(commits[p].record, at)
  }

  lemma {:induction false} FlagComesFromLastWriter(commits: seq<Commit>, n: nat, upto: nat, p: nat, at: Location)
    requires n < |commits| && p < upto <= n && commits[n].record.open < p && at in commits[n].initialFlags
    requires Overwrites(commits, n, p, at)
    requires forall q :: p < q < upto ==> !Overwrites(commits, n, q, at)
    ensures at in FlagsUpTo(commits, n, upto)
    ensures FlagsUpTo(commits, n, upto)[at] == commits[p].record.buffers[at.buffer].entries[at.key].Delete?
  {
    FlagsKeepTheirKeys(commits, n, upto - 1);
    if p < upto - 1 {
      FlagComesFromLastWriter(commits, n, upto - 1, p, at);
      assert !Overwrites(commits, n, upto - 1, at);
    }
  }

  lemma {:induction false} FlagsKeepTheirKeys(commits: seq<Commit>, n: nat, upto: nat)
    requires n < |commits| && upto <= n
    ensures FlagsUpTo(commits, n, upto).Keys == commits[n].initialFlags.Keys
  {
    if upto > commits[n].record.open + 1 {
      FlagsKeepTheirKeys(commits, n, upto - 1);
    }
  }

  lemma {:induction false} FlagWithoutWriter(commits: seq<Commit>, n: nat, upto: nat, at: Location)
    requires n < |commits| && upto <= n && at in commits[n].initialFlags
    requires forall q :: commits[n].record.open < q < upto ==> !Overwrites(commits, n, q, at)
    ensures at in FlagsUpTo(commits, n, upto)
    ensures FlagsUpTo(commits, n, upto)[at] == commits[n].initialFlags[at]
  {
    if upto > commits[n].record.open + 1 {
      FlagWithoutWriter(commits, n, upto - 1, at);
      assert !Overwrites(commits, n, upto - 1, at);
    }
  }

  /* After a successful validation, a put's reinsert flag is the one set by the last concurrent
     predecessor that committed and writes its key: true after a delete, false after an insert or put. */
  lemma ReinsertFollowsLastWriter(run: seq<State>, k: nat, n: nat, p: nat, at: Location)
    requires Execution(run) && k < |run|
    requires run[k].initial <= n < |run[k].commits| && Committed(run[k].commits[n].marker)
    requires at in run[k].commits[n].initialFlags && run[k].commits[n].record.open < p < n
    requires Overwrites(run[k].commits, n, p, at)
    requires forall q :: p < q < n ==> !Overwrites(run[k].commits, n, q, at)
    ensures at in run[k].commits[n].flags
    ensures run[k].commits[n].flags[at] == run[k].commits[p].record.buffers[at.buffer].entries[at.key].Delete?
  {
    ReachableHasInvariant(run, k);
    assert CommitOk(run[k], n);
    FlagComesFromLastWriter(run[k].commits, n, n, p, at);
  }

  /* If no concurrent predecessor that committed writes the key, the flag is as it was; in particular
     aborted predecessors leave no trace. */
  lemma ReinsertUntouchedWithoutWriter(run: seq<State>, k: nat, n: nat, at: Location)
    requires Execution(run) && k < |run|
    requires run[k].initial <= n < |run[k].commits| && Committed(run[k].commits[n].marker)
    requires at in run[k].commits[n].initialFlags
    requires forall q :: run[k].commits[n].record.open < q < n ==> !Overwrites(run[k].commits, n, q, at)
    ensures at in run[k].commits[n].flags
    ensures run[k].commits[n].flags[at] == run[k].commits[n].initialFlags[at]
  {
    ReachableHasInvariant(run, k);
    assert CommitOk(run[k], n);
    FlagWithoutWriter(run[k].commits, n, n, at);
  }

  /******* The watermark *******/

  predicate MovingWatermark(pc: Pc) {
    pc.LoadingMark? || pc.Locating? || pc.Inspecting? || pc.Swapping?
  }

  /* The watermark never goes back, every slot up to it is finished and, when no thread is inside a
     finishing call, the slot after it is not: no advance is ever lost. */
  lemma WatermarkIsExact(run: seq<State>, i: nat, k: nat)
    requires Execution(run) && i <= k < |run|
    ensures run[i].watermark <= run[k].watermark < |run[k].commits|
    ensures forall p :: 0 <= p <= run[k].watermark ==> Finished(run[k].commits[p].marker)
    ensures (forall m :: 0 <= m < |run[k].commits| ==> !MovingWatermark(run[k].commits[m].pc)) ==>
      run[k].watermark + 1 < |run[k].commits| ==> !Finished(run[k].commits[run[k].watermark + 1].marker)
  {
    RunsMoveForward(run, i, k);
    ReachableHasInvariant(run, k);
  }

  /* A slot's marker only moves forward, and a decision is final. */
  lemma DecisionsAreFinal(run: seq<State>, i: nat, k: nat, n: nat)
    requires Execution(run) && i <= k < |run| && n < |run[i].commits|
    ensures n < |run[k].commits| && run[k].commits[n].record == run[i].commits[n].record
    ensures Committed(run[i].commits[n].marker) ==> Committed(run[k].commits[n].marker)
    ensures run[i].commits[n].marker.Aborted? ==> run[k].commits[n].marker.Aborted?
    ensures !run[i].commits[n].marker.Empty? ==> !run[k].commits[n].marker.Empty?
  {
    RunsMoveForward(run, i, k);
    assert CommitEvolves(run[i].commits[n], run[k].commits[n]);
  }

  /******* Windows *******/

  /* The deque is never empty and has no gaps; the slot after the watermark is in it or just beyond its end,
     and every slot that was filled and not freed is found in it. */
  lemma DequeIsContiguous(run: seq<State>, k: nat)
    requires Execution(run) && k < |run|
    ensures Contiguous(run[k].windows)
    ensures forall w :: 0 <= w < |run[k].windows| ==> run[k].windows[w].start == run[k].windows[0].start + 100 * w
    ensures run[k].windows[0].start <= run[k].watermark + 1 <= BackEnd(run[k].windows)
    ensures forall n :: run[k].windows[0].start <= n < |run[k].commits| && !run[k].commits[n].marker.Empty? ==>
      Resolve(run[k].windows, n).Some?
  {
    ReachableHasInvariant(run, k);
    forall n | run[k].windows[0].start <= n < |run[k].commits| && !run[k].commits[n].marker.Empty?
      ensures Resolve(run[k].windows, n).Some?
    {
      assert CommitOk(run[k], n);
    }
  }

  /* A window leaves the deque only when all its slots are finished and it has no readers. */
  lemma FreedWindowsAreFinished(run: seq<State>, i: nat, step: Step, w: Window)
    requires Execution(run) && i < |run| && Enabled(run[i], step)
    requires w in run[i].windows && forall w' :: w' in Apply(run[i], step).windows ==> w'.start != w.start
    ensures w.readers == 0
    ensures forall n :: w.start <= n < w.start + 100 ==> n < |run[i].commits| && Finished(run[i].commits[n].marker)
  {
    var s := run[i];
    ReachableHasInvariant(run, i);
    var k :| 0 <= k < |s.windows| && s.windows[k] == w;
    if !step.FreeWindows? {
      WindowsSurviveOtherSteps(s, step, k);
      assert false;
    }
    var freed := FreeFrom(s.windows, step.seen, 0);
    FreedKeepsTheRest(s.windows, step.seen);
    if k >= freed {
      assert false;
    }
  }

  lemma WindowsSurviveOtherSteps(s: State, step: Step, k: nat)
    requires Inv(s) && Enabled(s, step) && !step.FreeWindows? && k < |s.windows|
    ensures k < |Apply(s, step).windows| && Apply(s, step).windows[k].start == s.windows[k].start
    ensures Apply(s, step).windows[k] in Apply(s, step).windows
  {
  }

  /* How a snapshot may change over a run. */
  predicate SnapshotEvolves(x: Snapshot, y: Snapshot) {
    && x.target == y.target && x.exact == y.exact
    && (x.phase.Waiting? || y.open == x.open)
    && (x.phase.Held? || x.phase.Committing? ==>
          (y.phase.Held? || y.phase.Committing? || y.phase.Released?) && y.pinned == x.pinned)
    && (x.phase.Located? ==> !y.phase.Waiting?)
    && (x.phase.Released? ==> y.phase.Released?)
    && (y.phase.Waiting? ==> x.phase.Waiting?)
  }

  lemma StepMovesSnapshots(s: State, step: Step, j: nat)
    requires Inv(s) && Enabled(s, step) && j < |s.snapshots|
    ensures j < |Apply(s, step).snapshots| && SnapshotEvolves(s.snapshots[j], Apply(s, step).snapshots[j])
  {
    if step.AdvanceCommit? && s.commits[step.n].pc.Unpinning? {
      HistoryTakesNoStep(s, step.n);
    }
  }

  lemma {:induction false} SnapshotsMoveForward(run: seq<State>, i: nat, k: nat, j: nat)
    requires Execution(run) && i <= k < |run| && j < |run[i].snapshots|
    ensures j < |run[k].snapshots| && SnapshotEvolves(run[i].snapshots[j], run[k].snapshots[j])
  {
    if i < k {
      SnapshotsMoveForward(run, i, k - 1, j);
      var step := StepInto(run, k);
      StepMovesSnapshots(run[k - 1], step, j);
    }
  }

  /* A snapshot whose window is in memory once its reader has been counted keeps every slot from its
     open number on in memory until it is closed. */
  lemma OpenSnapshotPinsItsWindow(run: seq<State>, i: nat, k: nat, j: nat, n: nat)
    requires Execution(run) && i <= k < |run| && j < |run[i].snapshots|
    requires run[i].snapshots[j].phase.Held? || run[i].snapshots[j].phase.Committing?
    requires |run[i].windows| > 0 && run[i].windows[0].start <= run[i].snapshots[j].open
    requires j < |run[k].snapshots| && !run[k].snapshots[j].phase.Released?
    requires |run[k].windows| > 0 && run[i].snapshots[j].open <= n < BackEnd(run[k].windows)
    ensures Resolve(run[k].windows, n).Some?
    ensures var w := Resolve(run[k].windows, n).value;
            w < |run[k].windows| && run[k].windows[w].start <= n < run[k].windows[w].End()
  {
    SnapshotsMoveForward(run, i, k, j);
    ReachableHasInvariant(run, i);
    ReachableHasInvariant(run, k);
    assert SnapshotOk(run[i], run[i].snapshots[j]);
    assert SnapshotOk(run[k], run[k].snapshots[j]);
    ResolveNamesTheWindow(run[k].windows, n);
  }

  /* Reader counts are exact in every reachable state, so no decrement ever underflows. */
  lemma ReaderCountsAreExact(run: seq<State>, k: nat, w: nat)
    requires Execution(run) && k < |run| && w < |run[k].windows|
    ensures run[k].windows[w].readers == PinCount(run[k].snapshots, run[k].windows[w].start)
  {
    ReachableHasInvariant(run, k);
  }

  /******* External consistency *******/

  predicate Published(s: State, n: nat) {
    && s.initial <= n < |s.commits|
    && Committed(s.commits[n].marker)
    && !s.commits[n].pc.Publishing?
  }

  lemma StepTargets(s: State, step: Step, floor: nat, j: nat)
    requires Inv(s) && Enabled(s, step) && floor <= s.highest && j < |Apply(s, step).snapshots|
    requires j < |s.snapshots| ==> !s.snapshots[j].exact ==> floor <= s.snapshots[j].target
    ensures !Apply(s, step).snapshots[j].exact ==> floor <= Apply(s, step).snapshots[j].target
  {
    if j < |s.snapshots| {
      StepMovesSnapshots(s, step, j);
    }
  }

  lemma {:induction false} LaterTargetsAreHigher(run: seq<State>, i: nat, k: nat, j: nat)
    requires Execution(run) && i <= k < |run| && |run[i].snapshots| <= j < |run[k].snapshots|
    ensures !run[k].snapshots[j].exact ==> run[i].highest <= run[k].snapshots[j].target
  {
    if i < k {
      if j < |run[k - 1].snapshots| {
        LaterTargetsAreHigher(run, i, k - 1, j);
      }
      RunsMoveForward(run, i, k - 1);
      var step := StepInto(run, k);
      StepTargets(run[k - 1], step, run[i].highest, j);
    }
  }

  ghost predicate TargetsReached(s: State) {
    forall j :: 0 <= j < |s.snapshots| && !s.snapshots[j].phase.Waiting? ==>
      s.snapshots[j].target <= s.snapshots[j].open
  }

  lemma {:induction false} OpenedAtOrAboveTarget(run: seq<State>, k: nat)
    requires Execution(run) && k < |run|
    ensures TargetsReached(run[k])
  {
    if k > 0 {
      OpenedAtOrAboveTarget(run, k - 1);
      var step := StepInto(run, k);
      StepReachesTargets(run[k - 1], step);
    }
  }

  lemma StepReachesTargets(s: State, step: Step)
    requires Inv(s) && Enabled(s, step) && TargetsReached(s)
    ensures TargetsReached(Apply(s, step))
  {
    var s' := Apply(s, step);
    forall j | 0 <= j < |s'.snapshots| && !s'.snapshots[j].phase.Waiting?
      ensures s'.snapshots[j].target <= s'.snapshots[j].open
    {
      if j < |s.snapshots| {
        StepMovesSnapshots(s, step, j);
      }
    }
  }

  /* External consistency: a snapshot requested after a commit was published sees that commit. */
  lemma LaterSnapshotsSeePublishedCommits(run: seq<State>, i: nat, k: nat, n: nat, j: nat)
    requires Execution(run) && i <= k < |run| && Published(run[i], n)
    requires |run[i].snapshots| <= j < |run[k].snapshots|
    requires !run[k].snapshots[j].exact && !run[k].snapshots[j].phase.Waiting?
    ensures n <= run[k].snapshots[j].open
  {
    ReachableHasInvariant(run, i);
    assert CommitOk(run[i], n);
    LaterTargetsAreHigher(run, i, k, j);
    OpenedAtOrAboveTarget(run, k);
  }
}
