/**
 Every step of the commit protocol keeps its invariant and moves the state forward.
 */
module IsolationSteps {
  import opened Options
  import opened CommitRecords
  import opened TimelineWindows
  import opened IsolationProtocol
  import opened IsolationInvariants

  /******* Steps that change one commit only *******/

  lemma OneCommitEvolves(s: State, n: nat, c': Commit)
    requires |s.windows| > 0 && n < |s.commits| && CommitEvolves(s.commits[n], c')
    ensures Evolves(s, WithCommit(s, n, c'))
  {
  }

  lemma OtherCommitsOk(s: State, s': State, n: nat)
    requires CommitsOk(s) && Evolves(s, s') && |s'.commits| == |s.commits|
    requires forall m :: 0 <= m < |s.commits| && m != n ==> s'.commits[m] == s.commits[m]
    requires s.initial <= n < |s.commits| && CommitOk(s', n)
    ensures CommitsOk(s')
  {
    forall m | s'.initial <= m < |s'.commits| ensures CommitOk(s', m) {
      if m != n {
        assert CommitOk(s, m);
        CommitOkIsStable(s, s', m);
      }
    }
  }

  lemma WatermarkStaysOk(s: State, s': State)
    requires WatermarkOk(s) && Evolves(s, s') && s'.watermark == s.watermark
    ensures WatermarkOk(s')
  {
    forall p | 0 <= p <= s'.watermark ensures Finished(s'.commits[p].marker) {
      assert CommitEvolves(s.commits[p], s'.commits[p]);
    }
  }

  lemma UsageStaysOk(s: State, n: nat, c': Commit)
    requires UsageOk(s) && s.initial <= n < |s.commits|
    requires CommitEvolves(s.commits[n], c') && (HoldsSnapshot(c') ==> HoldsSnapshot(s.commits[n]))
    ensures UsageOk(WithCommit(s, n, c'))
  {
    var s' := WithCommit(s, n, c');
    forall m | s'.initial <= m < |s'.commits|
      ensures s'.commits[m].snapshot == s.commits[m].snapshot
      ensures s'.commits[m].record == s.commits[m].record
      ensures HoldsSnapshot(s'.commits[m]) ==> HoldsSnapshot(s.commits[m])
    {
    }
  }

  lemma CommitStepKeepsInvariant(s: State, n: nat, c': Commit)
    requires Inv(s) && s.initial <= n < |s.commits|
    requires CommitEvolves(s.commits[n], c') && (HoldsSnapshot(c') ==> HoldsSnapshot(s.commits[n]))
    requires CommitOk(WithCommit(s, n, c'), n)
    requires AdvanceOk(WithCommit(s, n, c'))
    ensures Inv(WithCommit(s, n, c')) && Evolves(s, WithCommit(s, n, c'))
  {
    var s' := WithCommit(s, n, c');
    OneCommitEvolves(s, n, c');
    OtherCommitsOk(s, s', n);
    WatermarkStaysOk(s, s');
    UsageStaysOk(s, n, c');
    forall j | 0 <= j < |s'.snapshots| ensures SnapshotOk(s', s'.snapshots[j]) {
      assert SnapshotOk(s, s.snapshots[j]);
    }
  }

  /* The finished slot after the watermark still has someone responsible for it, if the thread that
     moved was not that someone, or stays so. */
  lemma ResponsibilityKept(s: State, n: nat, c': Commit)
    requires AdvanceOk(s) && n < |s.commits|
    requires Responsible(s, n) ==> Responsible(WithCommit(s, n, c'), n)
    requires Finished(c'.marker) && !Finished(s.commits[n].marker) ==> c'.pc.LoadingMark?
    ensures AdvanceOk(WithCommit(s, n, c'))
  {
    var s' := WithCommit(s, n, c');
    if NextSlotFinished(s') {
      if NextSlotFinished(s) {
        var m: nat :| m < |s.commits| && Responsible(s, m);
        assert Responsible(s', m);
      } else {
        assert Responsible(s', n);
      }
    }
  }

  /* A thread may drop its responsibility when the slot after the watermark is not finished. */
  lemma NothingToBeResponsibleFor(s: State, n: nat, c': Commit)
    requires n < |s.commits| && c'.marker == s.commits[n].marker && !NextSlotFinished(s)
    ensures AdvanceOk(WithCommit(s, n, c'))
  {
  }

  /******* Entering *******/

  lemma EvolvesIsTransitive(s: State, s': State, s'': State)
    requires Evolves(s, s') && Evolves(s', s'')
    ensures Evolves(s, s'')
  {
    forall n | 0 <= n < |s.commits| ensures CommitEvolves(s.commits[n], s''.commits[n]) {
      assert CommitEvolves(s.commits[n], s'.commits[n]);
      assert CommitEvolves(s'.commits[n], s''.commits[n]);
    }
  }

  /* Steps that leave every commit alone keep what is known about all of them. */
  lemma AllCommitsOk(s: State, s': State)
    requires CommitsOk(s) && Evolves(s, s') && s'.commits == s.commits
    ensures CommitsOk(s')
  {
    forall m | s'.initial <= m < |s'.commits| ensures CommitOk(s', m) {
      assert CommitOk(s, m);
      CommitOkIsStable(s, s', m);
    }
  }

  lemma ExtendingKeepsInvariant(s: State, n: nat)
    requires Inv(s)
    ensures var s' := s.(windows := Extended(s.windows, n)); Inv(s') && Evolves(s, s')
  {
    hide Extended, PinCount;
    var s' := s.(windows := Extended(s.windows, n));
    ExtendedIsContiguous(s.windows, n);
    assert s'.windows[0] == s.windows[0];
    BackEndGrows(s.windows, n);
    AllCommitsOk(s, s');
    ExtendingKeepsSnapshots(s, n);
    NewWindowsHaveNoReaders(s, n);
    if NextSlotFinished(s') {
      var m: nat :| m < |s.commits| && Responsible(s, m);
      assert Responsible(s', m);
    }
  }

  lemma LoggedStep(s: State, n: nat)
    requires Inv(s) && s.initial <= n < |s.commits| && s.commits[n].pc.Logged?
    ensures Inv(Advance(s, n)) && Evolves(s, Advance(s, n))
  {
    var s1 := s.(windows := Extended(s.windows, n));
    var c' := s.commits[n].(pc := Entering);
    assert CommitOk(s, n);
    ExtendingKeepsInvariant(s, n);
    assert Advance(s, n) == WithCommit(s1, n, c');
    ResponsibilityKept(s1, n, c');
    CommitStepKeepsInvariant(s1, n, c');
    EvolvesIsTransitive(s, s1, Advance(s, n));
  }

  lemma BackEndGrows(ws: seq<Window>, n: nat)
    requires Contiguous(ws)
    ensures BackEnd(ws) <= BackEnd(Extended(ws, n))
  {
    ExtendedIsContiguous(ws, n);
    var r := Extended(ws, n);
    assert r[|ws| - 1] == ws[|ws| - 1];
    assert r[|r| - 1].start == r[0].start + (|r| - 1) * WINDOW_SIZE;
    assert r[|ws| - 1].start == r[0].start + (|ws| - 1) * WINDOW_SIZE;
  }

  lemma ExtendingKeepsSnapshots(s: State, n: nat)
    requires WindowsOk(s) && SnapshotsOk(s)
    ensures SnapshotsOk(s.(windows := Extended(s.windows, n)))
  {
    var s' := s.(windows := Extended(s.windows, n));
    ExtendedIsContiguous(s.windows, n);
    BackEndGrows(s.windows, n);
    assert s'.windows[0] == s.windows[0];
    forall j | 0 <= j < |s.snapshots| ensures SnapshotOk(s', s'.snapshots[j]) {
      var snap := s.snapshots[j];
      assert SnapshotOk(s, snap);
      if snap.phase.Located? && snap.open >= s.windows[0].start {
        var k := Resolve(s.windows, snap.open).value;
        assert s'.windows[k] == s.windows[k];
      }
    }
  }

  /* No snapshot is open at a number beyond the deque. */
  lemma {:induction false} NothingPinnedBeyond(snapshots: seq<Snapshot>, start: nat)
    requires forall j :: 0 <= j < |snapshots| && (snapshots[j].phase.Held? || snapshots[j].phase.Committing?) ==>
             snapshots[j].open < start
    ensures PinCount(snapshots, start) == 0
  {
    if snapshots != [] {
      NothingPinnedBeyond(snapshots[..|snapshots| - 1], start);
    }
  }

  lemma NewWindowsHaveNoReaders(s: State, n: nat)
    requires WindowsOk(s) && SnapshotsOk(s) && ReadersOk(s)
    ensures ReadersOk(s.(windows := Extended(s.windows, n)))
  {
    var r := Extended(s.windows, n);
    ExtendedIsContiguous(s.windows, n);
    forall k | 0 <= k < |r| ensures r[k].readers == PinCount(s.snapshots, r[k].start) {
      if k < |s.windows| {
        assert r[k] == s.windows[k];
      } else {
        assert r[k].start == r[0].start + k * WINDOW_SIZE;
        assert r[|s.windows| - 1] == s.windows[|s.windows| - 1];
        assert r[|s.windows| - 1].start == r[0].start + (|s.windows| - 1) * WINDOW_SIZE;
        assert forall j ::
            0 <= j < |s.snapshots| && (s.snapshots[j].phase.Held? || s.snapshots[j].phase.Committing?) ==>
              SnapshotOk(s, s.snapshots[j]) && s.snapshots[j].open < r[k].start;
        NothingPinnedBeyond(s.snapshots, r[k].start);
      }
    }
  }

  /* The slot's window is always found: an unfinished number lies beyond the watermark. */
  lemma UnfinishedIsInMemory(s: State, n: nat)
    requires Inv(s) && s.initial <= n < |s.commits| && !Finished(s.commits[n].marker) && !s.commits[n].pc.Logged?
    ensures s.watermark < n && s.windows[0].start <= n < BackEnd(s.windows)
    ensures Resolve(s.windows, n).Some?
  {
    assert CommitOk(s, n);
  }

  lemma EnteringStep(s: State, n: nat)
    requires Inv(s) && s.initial <= n < |s.commits| && s.commits[n].pc.Entering?
    ensures Inv(Advance(s, n)) && Evolves(s, Advance(s, n))
    ensures Advance(s, n).commits[n].pc.Collecting?
  {
    assert CommitOk(s, n);
    UnfinishedIsInMemory(s, n);
    var c' := s.commits[n].(marker := Pending, pc := Collecting);
    assert Advance(s, n) == WithCommit(s, n, c');
    ResponsibilityKept(s, n, c');
    CommitStepKeepsInvariant(s, n, c');
  }

  predicate Validating(pc: Pc) {
    pc.ReadingStatuses? || pc.Scanning? || pc.Walking? || pc.Awaiting? || pc.Deciding? || pc.Panicked?
  }

  /* A step inside validation: the slot stays pending, so only the new program counter matters. */
  lemma PendingStep(s: State, n: nat, c': Commit)
    requires Inv(s) && s.initial <= n < |s.commits|
    requires CommitEvolves(s.commits[n], c') && s.commits[n].marker.Pending? && c'.marker.Pending?
    requires s.commits[n].pc.Collecting? || Validating(s.commits[n].pc)
    requires !s.commits[n].pc.Panicked?
    requires Validating(c'.pc) && c'.persisted.None?
    requires PcOk(WithCommit(s, n, c'), n)
    ensures Inv(WithCommit(s, n, c')) && Evolves(s, WithCommit(s, n, c'))
  {
    assert CommitOk(s, n);
    ResponsibilityKept(s, n, c');
    CommitStepKeepsInvariant(s, n, c');
  }

  /******* Collecting windows and reading the log *******/

  /* What a commit holds once it has collected its windows. */
  lemma Collected(s: State, n: nat)
    requires n < |s.commits| && Contiguous(s.windows) && s.windows[0].start <= n < BackEnd(s.windows)
    requires CommitOk(s, n) && s.commits[n].pc.Collecting?
    ensures var c' := Collect(s, n);
            && CommitEvolves(s.commits[n], c') && c'.marker.Pending? && c'.persisted.None?
            && Validating(c'.pc) && !c'.pc.Panicked? && PcOk(WithCommit(s, n, c'), n)
  {
    hide Contiguous, BackEnd, FirstConcurrent, LastConcurrent;
    var c := s.commits[n];
    CollectedWindowsCover(s.windows, c.record.open, n);
    var c' := Collect(s, n);
    if c'.pc.Walking? {
      assert Walked(WithCommit(s, n, c'), n, c.record.open + 1);
      assert HeldAt(c'.held, c.record.open + 1, 0, n);
    }
  }

  lemma CollectingStep(s: State, n: nat)
    requires Inv(s) && s.initial <= n < |s.commits| && s.commits[n].pc.Collecting?
    ensures Inv(Advance(s, n)) && Evolves(s, Advance(s, n))
    ensures !Advance(s, n).commits[n].pc.Panicked?
  {
    assert CommitOk(s, n) && Contiguous(s.windows);
    UnfinishedIsInMemory(s, n);
    Collected(s, n);
    hide Inv, CommitOk, PcOk, Collect, Evolves;
    PendingStep(s, n, Collect(s, n));
  }

  lemma ReadingStatusesStep(s: State, n: nat)
    requires Inv(s) && s.initial <= n < |s.commits| && s.commits[n].pc.ReadingStatuses?
    ensures Inv(Advance(s, n)) && Evolves(s, Advance(s, n))
  {
    assert CommitOk(s, n);
    var c' := ReadStatuses(s, n);
    var s' := WithCommit(s, n, c');
    assert Walked(s', n, c'.record.open + 1);
    assert StatusesHold(s', c'.pc.statuses);
    PendingStep(s, n, c');
  }

  /******* Dealing with one predecessor *******/

  /* After a predecessor is skipped for good reason, or settled without a conflict, one more number is
     dealt with. */
  lemma OneMoreWalked(s: State, n: nat, cursor: nat, c': Commit)
    requires n < |s.commits| && cursor < n && |s.windows| > 0 && Walked(s, n, cursor)
    requires s.commits[n].record.Valid() && FlagsFor(s.commits[n].initialFlags, s.commits[n].record)
    requires CommitEvolves(s.commits[n], c') && Cleared(s.commits, n, cursor)
    requires c'.visited == s.commits[n].visited + [cursor]
    requires c'.flags == if Committed(s.commits[cursor].marker)
                         then FlagsAfter(s.commits[n].flags, s.commits[n].record, s.commits[cursor].record)
                         else s.commits[n].flags
    ensures Walked(WithCommit(s, n, c'), n, cursor + 1)
  {
    var s' := WithCommit(s, n, c');
    OneCommitEvolves(s, n, c');
    FlagsAreStable(s, s', n, cursor);
    assert c'.visited == Range(c'.record.open + 1, cursor + 1);
    forall p: nat | c'.record.open < p < cursor + 1 ensures Cleared(s'.commits, n, p) {
      assert Cleared(s.commits, n, p);
    }
  }

  /* Settling a committed predecessor: either it conflicts, which justifies an abort, or its puts take
     effect on the flags. */
  lemma Settled(s: State, n: nat, cursor: nat, next: Pc)
    requires n < |s.commits| && cursor < n && |s.windows| > 0 && Walked(s, n, cursor)
    requires s.commits[n].record.Valid() && FlagsFor(s.commits[n].initialFlags, s.commits[n].record)
    requires Committed(s.commits[cursor].marker)
    ensures var c' := Settle(s.commits[n], s.commits[cursor].record, cursor, next);
            var s' := WithCommit(s, n, c');
            && CommitEvolves(s.commits[n], c')
            && c'.marker == s.commits[n].marker && c'.held == s.commits[n].held
            && c'.persisted == s.commits[n].persisted
            && (if Conflicts(s.commits[n].record, s.commits[cursor].record)
                then c'.pc.Deciding? && c'.pc.conflict.Some? && Justified(s', n)
                else c'.pc == next && Walked(s', n, cursor + 1))
  {
    var c, p := s.commits[n], s.commits[cursor].record;
    var c' := Settle(c, p, cursor, next);
    if Conflicts(c.record, p) {
      var s' := WithCommit(s, n, c');
      assert Committed(s'.commits[cursor].marker);
    } else {
      FlagsHaveAllPuts(s.commits, n, cursor);
      ApplyingPutsUpdatesFlags(c.flags, c.record, p);
      OneMoreWalked(s, n, cursor, c');
    }
  }

  lemma Skipped(s: State, n: nat, cursor: nat, next: Pc)
    requires n < |s.commits| && cursor < n && |s.windows| > 0 && Walked(s, n, cursor)
    requires s.commits[n].record.Valid() && FlagsFor(s.commits[n].initialFlags, s.commits[n].record)
    requires var p := s.commits[cursor];
             p.marker.Aborted? || (p.marker.Pending? && Dependency(s.commits[n].record, p.record).Independent?)
    ensures Walked(WithCommit(s, n, Skip(s.commits[n], cursor, next)), n, cursor + 1)
  {
    OneMoreWalked(s, n, cursor, Skip(s.commits[n], cursor, next));
  }

  /* At the end of the replay. */
  lemma ScanEnds(s: State, n: nat)
    requires n < |s.commits| && |s.windows| > 0 && CommitOk(s, n) && s.commits[n].pc.Scanning?
    requires s.commits[n].pc.cursor >= s.commits[n].pc.stop
    ensures var c' := Scan(s, n);
            && CommitEvolves(s.commits[n], c') && c'.marker.Pending? && c'.persisted.None?
            && Validating(c'.pc) && PcOk(WithCommit(s, n, c'), n)
  {
    hide FlagsUpTo, FlagsFor;
    var c' := Scan(s, n);
    OneCommitEvolves(s, n, c');
    WalkedIsStable(s, WithCommit(s, n, c'), n, s.commits[n].pc.cursor);
  }

  /* A replayed record that was applied. */
  lemma ScanSettles(s: State, n: nat)
    requires n < |s.commits| && |s.windows| > 0 && CommitOk(s, n) && s.commits[n].pc.Scanning?
    requires var Scanning(cursor, stop, statuses) := s.commits[n].pc;
             cursor < stop && statuses[cursor] == Some(true) && s.commits[cursor].marker.Applied?
    ensures var c' := Scan(s, n);
            && CommitEvolves(s.commits[n], c') && c'.marker.Pending? && c'.persisted.None?
            && Validating(c'.pc) && PcOk(WithCommit(s, n, c'), n)
  {
    hide FlagsUpTo, FlagsFor, HeldFrom, Dependency, Walked, Justified, StatusesHold;
    var Scanning(cursor, stop, statuses) := s.commits[n].pc;
    var c' := Scan(s, n);
    Settled(s, n, cursor, Scanning(cursor + 1, stop, statuses));
    OneCommitEvolves(s, n, c');
    StatusesAreStable(s, WithCommit(s, n, c'), statuses);
  }

  /* A replayed record that was aborted. */
  lemma ScanSkips(s: State, n: nat)
    requires n < |s.commits| && |s.windows| > 0 && CommitOk(s, n) && s.commits[n].pc.Scanning?
    requires var Scanning(cursor, stop, statuses) := s.commits[n].pc;
             cursor < stop && statuses[cursor] == Some(false) && s.commits[cursor].marker.Aborted?
    ensures var c' := Scan(s, n);
            && CommitEvolves(s.commits[n], c') && c'.marker.Pending? && c'.persisted.None?
            && Validating(c'.pc) && PcOk(WithCommit(s, n, c'), n)
  {
    hide FlagsUpTo, FlagsFor, HeldFrom, Dependency, Walked, StatusesHold;
    var Scanning(cursor, stop, statuses) := s.commits[n].pc;
    var c' := Scan(s, n);
    Skipped(s, n, cursor, Scanning(cursor + 1, stop, statuses));
    OneCommitEvolves(s, n, c');
    StatusesAreStable(s, WithCommit(s, n, c'), statuses);
  }

  /* One record of the log. */
  lemma Scanned(s: State, n: nat)
    requires n < |s.commits| && |s.windows| > 0 && CommitOk(s, n) && s.commits[n].pc.Scanning?
    requires var cursor := s.commits[n].pc.cursor;
             s.commits[cursor].persisted.Some? ==>
               s.commits[cursor].marker == if s.commits[cursor].persisted.value then Applied else Aborted
    ensures var c' := Scan(s, n);
            && CommitEvolves(s.commits[n], c') && c'.marker.Pending? && c'.persisted.None?
            && Validating(c'.pc) && PcOk(WithCommit(s, n, c'), n)
  {
    var Scanning(cursor, stop, statuses) := s.commits[n].pc;
    if cursor >= stop {
      ScanEnds(s, n);
    } else {
      hide FlagsUpTo, FlagsFor, HeldFrom, Settle, Dependency, Walked;
      if statuses[cursor] == Some(true) {
        ScanSettles(s, n);
      } else if statuses[cursor] == Some(false) {
        ScanSkips(s, n);
      }
    }
  }

  lemma ScanningStep(s: State, n: nat)
    requires Inv(s) && s.initial <= n < |s.commits| && s.commits[n].pc.Scanning?
    ensures Inv(Advance(s, n)) && Evolves(s, Advance(s, n))
  {
    assert CommitOk(s, n);
    var cursor := s.commits[n].pc.cursor;
    if s.commits[cursor].persisted.Some? {
      PersistedMatchesMarker(s, cursor);
    }
    Scanned(s, n);
    PendingStep(s, n, Scan(s, n));
  }

  lemma PersistedMatchesMarker(s: State, p: nat)
    requires HistoryOk(s) && CommitsOk(s) && p < |s.commits| && s.commits[p].persisted.Some?
    ensures s.commits[p].marker == if s.commits[p].persisted.value then Applied else Aborted
  {
    if p >= s.initial {
      assert CommitOk(s, p);
    }
  }

  /******* Walking the windows *******/

  lemma NextWalkStaysInWindow(held: seq<nat>, cursor: nat, index: nat, n: nat)
    requires HeldAt(held, cursor, index, n) && cursor < n
    ensures InWindow(held, cursor, index)
    ensures NextWalk(held, cursor, index).cursor == cursor + 1
    ensures HeldAt(held, cursor + 1, NextWalk(held, cursor, index).index, n)
  {
    if cursor + 1 < n && cursor + 1 >= held[index] + WINDOW_SIZE {
      assert held[index] == held[0] + index * WINDOW_SIZE;
      assert index + 1 < |held|;
      assert held[index + 1] == held[0] + (index + 1) * WINDOW_SIZE;
    }
  }

  /* One slot of the collected windows: it is never looked for in the wrong window. */
  lemma WalkedOne(s: State, n: nat)
    requires n < |s.commits| && |s.windows| > 0 && CommitOk(s, n) && s.commits[n].pc.Walking? && CanWalk(s, n)
    ensures var c' := Walk(s, n);
            && CommitEvolves(s.commits[n], c') && c'.marker.Pending? && c'.persisted.None?
            && Validating(c'.pc) && !c'.pc.Panicked? && PcOk(WithCommit(s, n, c'), n)
  {
    var c := s.commits[n];
    var Walking(cursor, index) := c.pc;
    var c' := Walk(s, n);
    var s' := WithCommit(s, n, c');
    if cursor >= n {
      OneCommitEvolves(s, n, c');
      WalkedIsStable(s, s', n, n);
    } else {
      NextWalkStaysInWindow(c.held, cursor, index, n);
      var p := s.commits[cursor];
      var next := NextWalk(c.held, cursor, index);
      if Committed(p.marker) {
        Settled(s, n, cursor, next);
      } else if p.marker.Pending? && !Dependency(c.record, p.record).Independent? {
        OneCommitEvolves(s, n, c');
        WalkedIsStable(s, s', n, cursor);
      } else {
        Skipped(s, n, cursor, next);
      }
    }
  }

  lemma WalkingStep(s: State, n: nat)
    requires Inv(s) && s.initial <= n < |s.commits| && s.commits[n].pc.Walking? && CanAdvance(s, n)
    ensures Inv(Advance(s, n)) && Evolves(s, Advance(s, n))
    ensures !Advance(s, n).commits[n].pc.Panicked?
  {
    assert CommitOk(s, n);
    WalkedOne(s, n);
    PendingStep(s, n, Walk(s, n));
  }

  /* The awaited predecessor has been decided. */
  lemma Awaited(s: State, n: nat)
    requires n < |s.commits| && |s.windows| > 0 && CommitOk(s, n) && s.commits[n].pc.Awaiting? && CanAwait(s, n)
    ensures var c' := Await(s, n);
            && CommitEvolves(s.commits[n], c') && c'.marker.Pending? && c'.persisted.None?
            && Validating(c'.pc) && !c'.pc.Panicked? && PcOk(WithCommit(s, n, c'), n)
  {
    var c := s.commits[n];
    var Awaiting(cursor, index) := c.pc;
    NextWalkStaysInWindow(c.held, cursor, index, n);
    var next := NextWalk(c.held, cursor, index);
    if Committed(s.commits[cursor].marker) {
      Settled(s, n, cursor, next);
    } else {
      Skipped(s, n, cursor, next);
    }
  }

  lemma AwaitingStep(s: State, n: nat)
    requires Inv(s) && s.initial <= n < |s.commits| && s.commits[n].pc.Awaiting? && CanAdvance(s, n)
    ensures Inv(Advance(s, n)) && Evolves(s, Advance(s, n))
    ensures !Advance(s, n).commits[n].pc.Panicked?
  {
    assert CommitOk(s, n);
    Awaited(s, n);
    PendingStep(s, n, Await(s, n));
  }

  lemma DecidingStep(s: State, n: nat)
    requires Inv(s) && s.initial <= n < |s.commits| && s.commits[n].pc.Deciding?
    ensures Inv(Advance(s, n)) && Evolves(s, Advance(s, n))
  {
    assert CommitOk(s, n);
    var c' := Decide(s.commits[n]);
    var s' := WithCommit(s, n, c');
    OneCommitEvolves(s, n, c');
    if c'.marker.Validated? {
      WalkedIsStable(s, s', n, n);
    } else {
      JustifiedIsStable(s, s', n);
    }
    ResponsibilityKept(s, n, c');
    CommitStepKeepsInvariant(s, n, c');
  }

  /******* Publishing, applying, persisting *******/

  /* A decided commit that only moves its program counter or marker keeps what was decided. */
  lemma DecisionKept(s: State, n: nat, c': Commit)
    requires |s.windows| > 0 && n < |s.commits| && CommitOk(s, n) && CommitEvolves(s.commits[n], c')
    requires c'.flags == s.commits[n].flags && c'.visited == s.commits[n].visited
    requires Committed(s.commits[n].marker) || s.commits[n].marker.Aborted?
    ensures Committed(c'.marker) ==> Walked(WithCommit(s, n, c'), n, n)
    ensures c'.marker.Aborted? ==> Justified(WithCommit(s, n, c'), n)
  {
    var s' := WithCommit(s, n, c');
    OneCommitEvolves(s, n, c');
    if Committed(c'.marker) {
      WalkedIsStable(s, s', n, n);
    } else {
      JustifiedIsStable(s, s', n);
    }
  }

  lemma RaisingHighestKeepsInvariant(s: State, highest: nat)
    requires Inv(s) && s.highest <= highest
    ensures Inv(s.(highest := highest)) && Evolves(s, s.(highest := highest))
  {
    var s' := s.(highest := highest);
    AllCommitsOk(s, s');
    forall j | 0 <= j < |s'.snapshots| ensures SnapshotOk(s', s'.snapshots[j]) {
      assert SnapshotOk(s, s.snapshots[j]);
    }
    if NextSlotFinished(s') {
      var m: nat :| m < |s.commits| && Responsible(s, m);
      assert Responsible(s', m);
    }
  }

  lemma PublishingStep(s: State, n: nat)
    requires Inv(s) && s.initial <= n < |s.commits| && s.commits[n].pc.Publishing?
    ensures Inv(Advance(s, n)) && Evolves(s, Advance(s, n))
  {
    var highest := if s.highest < n then n else s.highest;
    var s1 := s.(highest := highest);
    RaisingHighestKeepsInvariant(s, highest);
    assert CommitOk(s1, n);
    var c' := s.commits[n].(pc := Unpinning);
    assert Advance(s, n) == WithCommit(s1, n, c');
    DecisionKept(s1, n, c');
    ResponsibilityKept(s1, n, c');
    CommitStepKeepsInvariant(s1, n, c');
    EvolvesIsTransitive(s, s1, Advance(s, n));
  }

  lemma ApplyingStep(s: State, n: nat)
    requires Inv(s) && s.initial <= n < |s.commits| && s.commits[n].pc.Applying?
    ensures Inv(Advance(s, n)) && Evolves(s, Advance(s, n))
    ensures Advance(s, n).commits[n].marker.Applied? && Advance(s, n).commits[n].pc.LoadingMark?
  {
    assert CommitOk(s, n);
    UnfinishedIsInMemory(s, n);
    var c' := s.commits[n].(marker := Applied, pc := LoadingMark);
    assert Advance(s, n) == WithCommit(s, n, c');
    DecisionKept(s, n, c');
    ResponsibilityKept(s, n, c');
    CommitStepKeepsInvariant(s, n, c');
  }

  lemma PersistingStep(s: State, n: nat)
    requires Inv(s) && s.initial <= n < |s.commits| && s.commits[n].pc.Persisting?
    ensures Inv(Advance(s, n)) && Evolves(s, Advance(s, n))
  {
    assert CommitOk(s, n);
    var c' := s.commits[n].(persisted := Some(s.commits[n].marker.Applied?), pc := Done);
    assert Advance(s, n) == WithCommit(s, n, c');
    DecisionKept(s, n, c');
    ResponsibilityKept(s, n, c');
    CommitStepKeepsInvariant(s, n, c');
  }
}
