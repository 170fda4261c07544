/**
 What a new snapshot waits for (storage/storage.rs, `open_snapshot_read`): the highest number published when it was
 requested. That number belongs to a commit that went through, so the watermark reaches it.
 */
module IsolationOpening {
  import opened TimelineWindows
  import opened IsolationProtocol
  import opened IsolationInvariants
  import opened Isolation
  import opened IsolationProgress
  import opened IsolationReplay

  /* The number is the one before the first commit, or that of a commit that was published. */
  predicate GivenOut(s: State, number: nat) {
    number + 1 == s.initial || Published(s, number)
  }

  /* A published commit's own thread does not publish again. */
  lemma PublishedAdvances(s: State, n: nat)
    requires CanAdvance(s, n) && LocalOk(s.commits[n]) && Committed(s.commits[n].marker)
    requires !s.commits[n].pc.Publishing?
    ensures !Advance(s, n).commits[n].pc.Publishing?
  {
    hide Resolve, RemoveReader;
  }

  lemma PublishedStays(s: State, step: Step, n: nat)
    requires Inv(s) && Enabled(s, step) && Published(s, n)
    ensures Published(Apply(s, step), n)
  {
    StepKeepsInvariant(s, step);
    assert CommitOk(s, n);
    hide Inv, CommitOk;
    assert CommitEvolves(s.commits[n], Apply(s, step).commits[n]);
    if step == AdvanceCommit(n) {
      PublishedAdvances(s, n);
    } else {
      OtherStepsKeepCommit(s, step, n);
    }
  }

  /* Only publishing changes the highest number, and it makes it the greater of the two. */
  lemma HighestAfter(s: State, step: Step)
    requires Enabled(s, step)
    ensures var publishing := step.AdvanceCommit? && s.commits[step.n].pc.Publishing?;
            Apply(s, step).highest == if publishing && s.highest < step.n then step.n else s.highest
  {
    hide Resolve, RemoveReader;
  }

  lemma StepGivesOut(s: State, step: Step, number: nat)
    requires Inv(s) && Enabled(s, step) && GivenOut(s, number)
    ensures GivenOut(Apply(s, step), number)
  {
    StepKeepsInvariant(s, step);
    hide Inv, Enabled, Apply, Published;
    if number + 1 != s.initial {
      PublishedStays(s, step, number);
    }
  }

  /* In every state of every run the highest number is the greatest that was published, or the one before the
     first commit if none was. */
  lemma {:induction false} HighestIsGreatestPublished(run: seq<State>, k: nat)
    requires Execution(run) && k < |run|
    ensures GivenOut(run[k], run[k].highest)
    ensures forall n: nat :: Published(run[k], n) ==> n <= run[k].highest
  {
    ReachableHasInvariant(run, k);
    forall n: nat | Published(run[k], n) ensures n <= run[k].highest {
      assert CommitOk(run[k], n);
    }
    if k > 0 {
      HighestIsGreatestPublished(run, k - 1);
      var step := StepInto(run, k);
      var s := run[k - 1];
      hide Inv, Apply, Enabled;
      HighestAfter(s, step);
      StepGivesOut(s, step, s.highest);
      if run[k].highest != s.highest {
        PublishingGivesOut(s, step.n);
      }
    }
  }

  lemma PublishingGivesOut(s: State, n: nat)
    requires Inv(s) && CanAdvance(s, n) && s.commits[n].pc.Publishing?
    ensures Published(Apply(s, AdvanceCommit(n)), n)
  {
    HistoryTakesNoStep(s, n);
    assert CommitOk(s, n);
  }

  /* Whatever number a snapshot waits for was given out, unless the caller named it. */
  lemma {:induction false} TargetsAreGivenOut(run: seq<State>, k: nat, j: nat)
    requires Execution(run) && k < |run| && j < |run[k].snapshots| && !run[k].snapshots[j].exact
    ensures GivenOut(run[k], run[k].snapshots[j].target)
  {
    if k > 0 {
      var s := run[k - 1];
      var step := StepInto(run, k);
      HighestIsGreatestPublished(run, k - 1);
      if j < |s.snapshots| {
        StepMovesSnapshots(s, step, j);
        TargetsAreGivenOut(run, k - 1, j);
        StepGivesOut(s, step, s.snapshots[j].target);
      } else {
        NewTarget(s, step, j);
        StepGivesOut(s, step, s.highest);
      }
    }
  }

  lemma NewTarget(s: State, step: Step, j: nat)
    requires Enabled(s, step) && |s.snapshots| <= j < |Apply(s, step).snapshots| && !Apply(s, step).snapshots[j].exact
    ensures Apply(s, step).snapshots[j].target == s.highest
  {
    hide Resolve, RemoveReader;
  }

  /* No commit's thread can move, and none has panicked. */
  ghost predicate Quiet(s: State) {
    forall p :: 0 <= p < |s.commits| ==> !CanAdvance(s, p) && !s.commits[p].pc.Panicked?
  }

  /* When all threads are done the watermark has reached the last number. */
  lemma QuietWatermarkIsLast(run: seq<State>, k: nat)
    requires Execution(run) && k < |run| && Quiet(run[k])
    ensures run[k].watermark + 1 == |run[k].commits|
  {
    var s := run[k];
    ReachableHasInvariant(run, k);
    WatermarkIsExact(run, k, k);
    forall m | 0 <= m < |s.commits| ensures s.commits[m].pc.Done? && Finished(s.commits[m].marker) {
      if s.initial <= m {
        QuietMeansDecided(run, k, m);
      }
    }
  }

  /* The law a reader relies on: once all threads are done, every snapshot that was requested without naming a
     number can be opened, and it is opened at the last number. */
  lemma QuietSnapshotsOpen(run: seq<State>, k: nat, j: nat)
    requires Execution(run) && k < |run| && Quiet(run[k])
    requires j < |run[k].snapshots| && run[k].snapshots[j].phase.Waiting? && !run[k].snapshots[j].exact
    ensures Enabled(run[k], LocateSnapshot(j))
    ensures Apply(run[k], LocateSnapshot(j)).snapshots[j].open + 1 == |run[k].commits|
  {
    ReachableHasInvariant(run, k);
    QuietWatermarkIsLast(run, k);
    TargetsAreGivenOut(run, k, j);
  }

  /******* Where a snapshot is opened *******/

  lemma StepOpens(s: State, step: Step, j: nat)
    requires Enabled(s, step) && j < |s.snapshots| && s.snapshots[j].phase.Waiting?
    requires step.AdvanceCommit? && s.commits[step.n].pc.Unpinning? ==> s.commits[step.n].snapshot != j
    ensures var y := Apply(s, step).snapshots[j];
            y.phase.Waiting? || y.open == if y.exact then y.target else s.watermark
  {
    hide Resolve, RemoveReader;
  }

  lemma UnpinsCommitting(s: State, n: nat)
    requires Inv(s) && CanAdvance(s, n) && s.commits[n].pc.Unpinning?
    ensures s.commits[n].snapshot < |s.snapshots| && !s.snapshots[s.commits[n].snapshot].phase.Waiting?
  {
    HistoryTakesNoStep(s, n);
  }

  /* A snapshot requested at a number is opened at that number. */
  lemma SnapshotAtOpensThere(run: seq<State>, i: nat, k: nat, number: nat)
    requires Execution(run) && i + 1 <= k < |run|
    requires Enabled(run[i], RequestSnapshotAt(number)) && run[i + 1] == Apply(run[i], RequestSnapshotAt(number))
    ensures var j := |run[i].snapshots|;
            j < |run[k].snapshots| && (!run[k].snapshots[j].phase.Waiting? ==> run[k].snapshots[j].open == number)
  {
    var j := |run[i].snapshots|;
    SnapshotsMoveForward(run, i + 1, k, j);
    if !run[k].snapshots[j].phase.Waiting? {
      OpenedWhereAsked(run, i + 1, k, j);
    }
  }

  /* A snapshot requested at a number is opened at that number; any other at a watermark that was current at some
     moment between the request and the opening. */
  lemma {:induction false} OpenedWhereAsked(run: seq<State>, i: nat, k: nat, j: nat)
    requires Execution(run) && i <= k < |run| && j < |run[i].snapshots| && j < |run[k].snapshots|
    requires run[i].snapshots[j].phase.Waiting? && !run[k].snapshots[j].phase.Waiting?
    ensures var y := run[k].snapshots[j];
            if y.exact then y.open == y.target else run[i].watermark <= y.open <= run[k].watermark
  {
    if i < k {
      SnapshotsMoveForward(run, i, k - 1, j);
      RunsMoveForward(run, i, k - 1);
      RunsMoveForward(run, k - 1, k);
      var s := run[k - 1];
      var step := StepInto(run, k);
      StepMovesSnapshots(s, step, j);
      if s.snapshots[j].phase.Waiting? {
        if step.AdvanceCommit? && s.commits[step.n].pc.Unpinning? {
          UnpinsCommitting(s, step.n);
        }
        hide Inv;
        StepOpens(s, step, j);
      } else {
        hide Inv;
        OpenedWhereAsked(run, i, k - 1, j);
      }
    }
  }
}
