/**
 What the threads of the commit protocol owe each other: a commit waits only for a predecessor it depends on, and it
 gives up its snapshot before it is done.
 */
module IsolationThreads {
  import opened CommitRecords
  import opened TimelineWindows
  import opened IsolationProtocol
  import opened IsolationInvariants
  import opened Isolation
  import opened IsolationReplay

  /******* Waiting for a predecessor *******/

  ghost predicate DependsOn(s: State, n: nat, p: nat) {
    n < |s.commits| && p < |s.commits| && !Dependency(s.commits[n].record, s.commits[p].record).Independent?
  }

  ghost predicate WaitsWithReason(s: State, n: nat) {
    n < |s.commits| && (s.commits[n].pc.Awaiting? ==> DependsOn(s, n, s.commits[n].pc.cursor))
  }

  /* A thread begins to wait only for a pending predecessor that its record depends on. */
  lemma BeginsToWait(s: State, n: nat)
    requires CanAdvance(s, n) && Advance(s, n).commits[n].pc.Awaiting?
    ensures s.commits[n].pc.Walking? && s.commits[n].pc.cursor < n
    ensures Advance(s, n).commits[n].pc.cursor == s.commits[n].pc.cursor && DependsOn(s, n, s.commits[n].pc.cursor)
  {
    hide Dependency, Resolve, RemoveReader, Settle, Scan, Walk, Await;
    match s.commits[n].pc
    case Scanning(_, _, _) => ScanNeverAwaits(s, n);
    case Walking(_, _) => WalkAwaits(s, n);
    case Awaiting(_, _) => AwaitMovesOn(s, n);
    case _ =>
  }

  lemma ScanNeverAwaits(s: State, n: nat)
    requires n < |s.commits| && s.commits[n].pc.Scanning?
    ensures !Scan(s, n).pc.Awaiting?
  {
    hide Dependency;
  }

  lemma WalkAwaits(s: State, n: nat)
    requires n < |s.commits| && s.commits[n].pc.Walking? && Walk(s, n).pc.Awaiting?
    ensures s.commits[n].pc.cursor < n && Walk(s, n).pc.cursor == s.commits[n].pc.cursor
    ensures DependsOn(s, n, s.commits[n].pc.cursor)
  {
    hide Dependency;
  }

  lemma AwaitMovesOn(s: State, n: nat)
    requires n < |s.commits| && s.commits[n].pc.Awaiting?
    ensures !Await(s, n).pc.Awaiting?
  {
    hide Dependency;
  }

  lemma RecordsStay(s: State, step: Step, n: nat, p: nat)
    requires Inv(s) && Enabled(s, step) && DependsOn(s, n, p)
    ensures DependsOn(Apply(s, step), n, p)
  {
    StepKeepsInvariant(s, step);
    hide Inv, Enabled, Apply, Dependency;
    assert CommitEvolves(s.commits[n], Apply(s, step).commits[n]);
    assert CommitEvolves(s.commits[p], Apply(s, step).commits[p]);
  }

  /* In every state of every run, a thread that waits depends on the predecessor it waits for. */
  lemma {:induction false} WaitsOnlyForDependencies(run: seq<State>, k: nat, n: nat)
    requires Execution(run) && k < |run| && n < |run[k].commits|
    ensures WaitsWithReason(run[k], n)
  {
    if k > 0 {
      var step := StepInto(run, k);
      hide Inv, Enabled, Apply, Next, WaitsWithReason;
      if n < |run[k - 1].commits| {
        WaitsOnlyForDependencies(run, k - 1, n);
        StepWaits(run[k - 1], step, n);
      } else {
        NewCommitsAreLogged(run[k - 1], step, n);
        LoggedDoesNotWait(run[k], n);
      }
    }
  }

  lemma LoggedDoesNotWait(s: State, n: nat)
    requires n < |s.commits| && s.commits[n].pc.Logged?
    ensures WaitsWithReason(s, n)
  {
  }

  lemma StepWaits(s: State, step: Step, n: nat)
    requires Inv(s) && Enabled(s, step) && WaitsWithReason(s, n) && n < |Apply(s, step).commits|
    ensures WaitsWithReason(Apply(s, step), n)
  {
    hide Inv, DependsOn;
    var s' := Apply(s, step);
    if s'.commits[n].pc.Awaiting? {
      if step == AdvanceCommit(n) {
        BeginsToWait(s, n);
      } else {
        OtherStepsKeepCommit(s, step, n);
      }
      RecordsStay(s, step, n, s.commits[n].pc.cursor);
    }
  }

  lemma NewCommitsAreLogged(s: State, step: Step, n: nat)
    requires Enabled(s, step) && |s.commits| <= n < |Apply(s, step).commits|
    ensures Apply(s, step).commits[n].pc.Logged?
  {
    hide Resolve, RemoveReader, Extended;
  }

  /* A pending predecessor that does not matter does not hold a thread up. */
  lemma PassesIndependent(s: State, n: nat)
    requires 0 < n < |s.commits| && |s.windows| > 0 && s.commits[n].pc.Walking?
    requires var Walking(cursor, index) := s.commits[n].pc;
             && cursor < n && InWindow(s.commits[n].held, cursor, index)
             && s.commits[cursor].marker.Pending?
             && Dependency(s.commits[n].record, s.commits[cursor].record).Independent?
    ensures CanAdvance(s, n)
    ensures var c := Advance(s, n).commits[n];
            c.pc.Walking? && c.pc.cursor == s.commits[n].pc.cursor + 1 && c.flags == s.commits[n].flags
  {
    hide Dependency;
  }

  /******* Giving up the snapshot *******/

  /* A commit that no longer needs its snapshot has released it. */
  ghost predicate GaveUp(s: State, n: nat) {
    n < |s.commits| && (HoldsSnapshot(s.commits[n]) || s.commits[n].pc.Panicked? ||
      (s.commits[n].snapshot < |s.snapshots| && s.snapshots[s.commits[n].snapshot].phase.Released?))
  }

  /* Only unpinning takes a thread from needing its snapshot to not needing it. */
  lemma StillHolds(s: State, n: nat)
    requires CanAdvance(s, n) && LocalOk(s.commits[n]) && HoldsSnapshot(s.commits[n]) && !s.commits[n].pc.Unpinning?
    ensures var c := Advance(s, n).commits[n]; HoldsSnapshot(c) || c.pc.Panicked?
  {
    hide Resolve, RemoveReader, Settle, Dependency, Scan, Walk, Await;
    match s.commits[n].pc
    case Scanning(_, _, _) => StaysInValidation(s, n);
    case Walking(_, _) => StaysInValidation(s, n);
    case Awaiting(_, _) => StaysInValidation(s, n);
    case _ =>
  }

  lemma StaysInValidation(s: State, n: nat)
    requires n < |s.commits|
    ensures s.commits[n].pc.Scanning? ==>
              var pc := Scan(s, n).pc; pc.Scanning? || pc.Walking? || pc.Deciding? || pc.Panicked?
    ensures s.commits[n].pc.Walking? ==>
              var pc := Walk(s, n).pc; pc.Walking? || pc.Awaiting? || pc.Deciding? || pc.Panicked?
    ensures s.commits[n].pc.Awaiting? ==>
              var pc := Await(s, n).pc; pc.Walking? || pc.Deciding? || pc.Panicked?
  {
    hide Dependency;
  }

  lemma UnpinningReleases(s: State, n: nat)
    requires CanAdvance(s, n) && s.commits[n].pc.Unpinning?
    ensures GaveUp(Advance(s, n), n)
  {
    hide RemoveReader;
  }

  lemma StepGivesUp(s: State, step: Step, n: nat)
    requires Inv(s) && Enabled(s, step) && s.initial <= n && GaveUp(s, n)
    ensures GaveUp(Apply(s, step), n)
  {
    StepKeepsInvariant(s, step);
    assert CommitOk(s, n) && s.commits[n].snapshot < |s.snapshots|;
    assert CommitEvolves(s.commits[n], Apply(s, step).commits[n]);
    StepMovesSnapshots(s, step, s.commits[n].snapshot);
    hide Inv, CommitOk, HoldsSnapshot, Enabled, Apply;
    if step == AdvanceCommit(n) {
      AdvanceGivesUp(s, n);
    } else {
      OtherStepsKeepCommit(s, step, n);
    }
  }

  lemma AdvanceGivesUp(s: State, n: nat)
    requires Enabled(s, AdvanceCommit(n)) && LocalOk(s.commits[n]) && s.commits[n].snapshot < |s.snapshots|
    requires GaveUp(s, n)
    requires s.commits[n].snapshot < |Advance(s, n).snapshots|
    requires s.snapshots[s.commits[n].snapshot].phase.Released? ==>
               Advance(s, n).snapshots[s.commits[n].snapshot].phase.Released?
    requires Advance(s, n).commits[n].snapshot == s.commits[n].snapshot
    ensures GaveUp(Apply(s, AdvanceCommit(n)), n)
  {
    if s.commits[n].pc.Unpinning? {
      UnpinningReleases(s, n);
    } else if HoldsSnapshot(s.commits[n]) {
      StillHolds(s, n);
    }
  }

  lemma {:induction false} PastSnapshotMeansReleased(run: seq<State>, k: nat, n: nat)
    requires Execution(run) && k < |run| && run[k].initial <= n < |run[k].commits|
    ensures GaveUp(run[k], n)
  {
    if k > 0 {
      var s := run[k - 1];
      var step := StepInto(run, k);
      RunsMoveForward(run, k - 1, k);
      hide Inv, Apply, Enabled, Next, GaveUp;
      if n < |s.commits| {
        PastSnapshotMeansReleased(run, k - 1, n);
        StepGivesUp(s, step, n);
      } else {
        NewCommitsAreLogged(s, step, n);
        LoggedHolds(run[k], n);
      }
    }
  }

  lemma LoggedHolds(s: State, n: nat)
    requires n < |s.commits| && s.commits[n].pc.Logged?
    ensures GaveUp(s, n)
  {
  }

  /* In every state of every run, a commit that is done has released its snapshot, committed or aborted. */
  lemma DoneCommitsReleased(run: seq<State>, k: nat, n: nat)
    requires Execution(run) && k < |run| && run[k].initial <= n < |run[k].commits| && run[k].commits[n].pc.Done?
    ensures run[k].commits[n].snapshot < |run[k].snapshots|
    ensures run[k].snapshots[run[k].commits[n].snapshot].phase.Released?
  {
    PastSnapshotMeansReleased(run, k, n);
  }
}
