/**
 Snapshots, reader counts and the freeing of windows keep the protocol's invariant.
 */
module IsolationReaders {
  import opened Options
  import opened TimelineWindows
  import opened IsolationProtocol
  import opened IsolationInvariants
  import opened IsolationSteps

  ghost predicate SameStarts(ws: seq<Window>, ws': seq<Window>) {
    |ws| == |ws'| && (forall k :: 0 <= k < |ws| ==> ws'[k].start == ws[k].start)
  }

  /* Steps that change only snapshots and reader counts, and not how far any snapshot has read. */
  lemma ReaderStepKeepsInvariant(s: State, ws: seq<Window>, snapshots: seq<Snapshot>)
    requires Inv(s) && SameStarts(s.windows, ws) && |s.snapshots| <= |snapshots|
    requires var s' := s.(windows := ws, snapshots := snapshots); SnapshotsOk(s') && ReadersOk(s') && UsageOk(s')
    ensures var s' := s.(windows := ws, snapshots := snapshots); Inv(s') && Evolves(s, s')
  {
    var s' := s.(windows := ws, snapshots := snapshots);
    AllCommitsOk(s, s');
    if NextSlotFinished(s') {
      var m: nat :| m < |s.commits| && Responsible(s, m);
      assert Responsible(s', m);
    }
  }

  lemma SnapshotOkWithSameStarts(s: State, ws: seq<Window>, snapshots: seq<Snapshot>, snap: Snapshot)
    requires |s.windows| > 0 && SameStarts(s.windows, ws) && SnapshotOk(s, snap)
    ensures SnapshotOk(s.(windows := ws, snapshots := snapshots), snap)
  {
    assert Resolve(ws, snap.open) == Resolve(s.windows, snap.open);
  }

  /******* Requesting and locating *******/

  lemma RequestStep(s: State, snap: Snapshot)
    requires Inv(s) && snap.phase.Waiting? && !snap.pinned
    ensures var s' := s.(snapshots := s.snapshots + [snap]); Inv(s') && Evolves(s, s')
  {
    var snapshots := s.snapshots + [snap];
    var s' := s.(snapshots := snapshots);
    assert s' == s.(windows := s.windows, snapshots := snapshots);
    forall j | 0 <= j < |snapshots| ensures SnapshotOk(s', snapshots[j]) {
      if j < |s.snapshots| {
        assert SnapshotOk(s, s.snapshots[j]);
      }
    }
    assert snapshots[..|snapshots| - 1] == s.snapshots;
    ReaderStepKeepsInvariant(s, s.windows, snapshots);
  }

  /* Replacing one snapshot by one with the same open number, or one that no commit uses yet. */
  lemma UsageWithSnapshot(s: State, ws: seq<Window>, j: nat, snap: Snapshot)
    requires UsageOk(s) && j < |s.snapshots|
    requires if s.snapshots[j].phase.Committing? || s.snapshots[j].phase.Released?
             then snap.open == s.snapshots[j].open && snap.phase.Released?
               && (forall n :: s.initial <= n < |s.commits| && s.commits[n].snapshot == j ==>
                 !HoldsSnapshot(s.commits[n]))
             else true
    ensures UsageOk(s.(windows := ws, snapshots := s.snapshots[j := snap]))
  {
  }

  lemma LocateStep(s: State, j: nat)
    requires Inv(s) && Enabled(s, LocateSnapshot(j))
    ensures Inv(Apply(s, LocateSnapshot(j))) && Evolves(s, Apply(s, LocateSnapshot(j)))
  {
    var s' := Apply(s, LocateSnapshot(j));
    var snap := s'.snapshots[j];
    ResolveNamesTheWindow(s.windows, snap.open);
    assert SnapshotOk(s', snap);
    forall i | 0 <= i < |s'.snapshots| ensures SnapshotOk(s', s'.snapshots[i]) {
      if i != j {
        assert SnapshotOk(s, s.snapshots[i]);
      }
    }
    forall k | 0 <= k < |s'.windows| ensures s'.windows[k].readers == PinCount(s'.snapshots, s'.windows[k].start) {
      PinCountUpdated(s.snapshots, j, snap, s.windows[k].start);
    }
    UsageWithSnapshot(s, s.windows, j, snap);
    assert s' == s.(windows := s.windows, snapshots := s.snapshots[j := snap]);
    ReaderStepKeepsInvariant(s, s.windows, s'.snapshots);
  }

  /******* Reader counts *******/

  /* Changing whether one snapshot pins its window changes exactly that window's count. */
  lemma CountsAfterChange(s: State, j: nat, snap: Snapshot, k: Option<nat>, m: nat)
    requires Contiguous(s.windows) && ReadersOk(s) && j < |s.snapshots| && m < |s.windows|
    requires snap.open == s.snapshots[j].open && k == Resolve(s.windows, snap.open)
    ensures var delta := (if Pins(snap, s.windows[m].start) then 1 else 0)
                       - (if Pins(s.snapshots[j], s.windows[m].start) then 1 else 0);
            && PinCount(s.snapshots[j := snap], s.windows[m].start) == s.windows[m].readers + delta
            && (k != Some(m) ==> delta == 0)
  {
    PinCountUpdated(s.snapshots, j, snap, s.windows[m].start);
    if s.windows[m].start <= snap.open < s.windows[m].End() {
      WindowOfIsUnique(s.windows, snap.open, m);
    }
  }

  lemma PinStep(s: State, j: nat)
    requires Inv(s) && Enabled(s, PinSnapshot(j))
    ensures Inv(Apply(s, PinSnapshot(j))) && Evolves(s, Apply(s, PinSnapshot(j)))
  {
    var s' := Apply(s, PinSnapshot(j));
    var old', snap := s.snapshots[j], s'.snapshots[j];
    assert SnapshotOk(s, old');
    var found := old'.phase.found;
    var k := Resolve(s.windows, snap.open);
    ResolveNamesTheWindow(s.windows, snap.open);
    if snap.open >= s.windows[0].start {
      WindowOfIsUnique(s.windows, found.value, k.value);
      assert s'.windows == WithReaders(s.windows, k.value, s.windows[k.value].readers + 1);
    } else {
      assert s'.windows == s.windows;
    }
    assert SameStarts(s.windows, s'.windows);
    forall i | 0 <= i < |s'.snapshots| ensures SnapshotOk(s', s'.snapshots[i]) {
      if i != j {
        assert SnapshotOk(s, s.snapshots[i]);
        SnapshotOkWithSameStarts(s, s'.windows, s'.snapshots, s.snapshots[i]);
      }
    }
    forall m | 0 <= m < |s'.windows| ensures s'.windows[m].readers == PinCount(s'.snapshots, s'.windows[m].start) {
      CountsAfterChange(s, j, snap, k, m);
    }
    UsageWithSnapshot(s, s'.windows, j, snap);
    ReaderStepKeepsInvariant(s, s'.windows, s'.snapshots);
  }

  /* The count that `remove_reader` decrements is never zero. */
  lemma RemovingReader(s: State, j: nat)
    requires Inv(s) && j < |s.snapshots| && (s.snapshots[j].phase.Held? || s.snapshots[j].phase.Committing?)
    ensures var open := s.snapshots[j].open;
            var k := Resolve(s.windows, open);
            if k.Some? then
              && k.value < |s.windows| && s.windows[k.value].readers > 0 &&
                Pins(s.snapshots[j], s.windows[k.value].start)
              && RemoveReader(s.windows, open) == WithReaders(s.windows, k.value, s.windows[k.value].readers - 1)
            else RemoveReader(s.windows, open) == s.windows && !s.snapshots[j].pinned
  {
    var snap := s.snapshots[j];
    assert SnapshotOk(s, snap);
    ResolveNamesTheWindow(s.windows, snap.open);
    var k := Resolve(s.windows, snap.open);
    if k.Some? {
      PinnedWindowsAreCounted(s.snapshots, j, s.windows[k.value].start);
    }
  }

  lemma ReleaseKeepsInvariant(s: State, j: nat)
    requires Inv(s) && j < |s.snapshots| && (s.snapshots[j].phase.Held? || s.snapshots[j].phase.Committing?)
    requires forall n :: s.initial <= n < |s.commits| && s.commits[n].snapshot == j ==> !HoldsSnapshot(s.commits[n])
    ensures Inv(ReleaseSnapshot(s, j)) && Evolves(s, ReleaseSnapshot(s, j))
  {
    var s' := ReleaseSnapshot(s, j);
    var snap := s'.snapshots[j];
    RemovingReader(s, j);
    assert SameStarts(s.windows, s'.windows);
    forall i | 0 <= i < |s'.snapshots| ensures SnapshotOk(s', s'.snapshots[i]) {
      if i != j {
        assert SnapshotOk(s, s.snapshots[i]);
        SnapshotOkWithSameStarts(s, s'.windows, s'.snapshots, s.snapshots[i]);
      }
    }
    forall m | 0 <= m < |s'.windows| ensures s'.windows[m].readers == PinCount(s'.snapshots, s'.windows[m].start) {
      CountsAfterChange(s, j, snap, Resolve(s.windows, snap.open), m);
    }
    UsageWithSnapshot(s, s'.windows, j, snap);
    ReaderStepKeepsInvariant(s, s'.windows, s'.snapshots);
  }

  lemma CloseStep(s: State, j: nat)
    requires Inv(s) && Enabled(s, CloseSnapshot(j))
    ensures Inv(Apply(s, CloseSnapshot(j))) && Evolves(s, Apply(s, CloseSnapshot(j)))
  {
    ReleaseKeepsInvariant(s, j);
  }

  lemma UnpinningStep(s: State, n: nat)
    requires Inv(s) && s.initial <= n < |s.commits| && s.commits[n].pc.Unpinning? && CanAdvance(s, n)
    ensures Inv(Advance(s, n)) && Evolves(s, Advance(s, n))
  {
    hide Contiguous, PinCount, Resolve, Walked, Justified, HeldAt, HeldFrom;
    assert CommitOk(s, n);
    var c := s.commits[n];
    var c' := c.(pc := if c.marker.Aborted? then Persisting else Applying);
    var s1 := WithCommit(s, n, c');
    DecisionKept(s, n, c');
    ResponsibilityKept(s, n, c');
    CommitStepKeepsInvariant(s, n, c');
    assert HoldsSnapshot(c);
    assert forall m :: s.initial <= m < |s.commits| && s.commits[m].snapshot == c.snapshot ==> m == n;
    ReleaseKeepsInvariant(s1, c.snapshot);
    assert Advance(s, n) == ReleaseSnapshot(s1, c.snapshot);
    EvolvesIsTransitive(s, s1, Advance(s, n));
  }

  /******* Beginning a commit *******/

  lemma CommittingSnapshot(s: State, j: nat)
    requires SnapshotsOk(s) && ReadersOk(s) && j < |s.snapshots| && s.snapshots[j].phase.Held?
    ensures var s' := s.(snapshots := s.snapshots[j := s.snapshots[j].(phase := Committing)]);
            SnapshotsOk(s') && ReadersOk(s')
  {
    var snap := s.snapshots[j].(phase := Committing);
    var s' := s.(snapshots := s.snapshots[j := snap]);
    forall i | 0 <= i < |s'.snapshots| ensures SnapshotOk(s', s'.snapshots[i]) {
      assert SnapshotOk(s, s.snapshots[i]);
    }
    forall k | 0 <= k < |s'.windows| ensures s'.windows[k].readers == PinCount(s'.snapshots, s'.windows[k].start) {
      PinCountUpdated(s.snapshots, j, snap, s.windows[k].start);
    }
  }

  lemma BeginCommits(s: State, step: Step)
    requires WindowsOk(s) && CommitsOk(s) && SnapshotsOk(s) && step.BeginCommit? && Enabled(s, step)
    ensures Evolves(s, Apply(s, step)) && CommitsOk(Apply(s, step))
  {
    var s' := Apply(s, step);
    var n := |s.commits|;
    assert SnapshotOk(s, s.snapshots[step.j]);
    assert CommitOk(s', n);
    forall m | s'.initial <= m < |s'.commits| ensures CommitOk(s', m) {
      if m < n {
        assert CommitOk(s, m);
        CommitOkIsStable(s, s', m);
      }
    }
  }

  lemma BeginUsage(s: State, step: Step)
    requires UsageOk(s) && step.BeginCommit? && Enabled(s, step)
    ensures UsageOk(Apply(s, step))
  {
    forall m | s.initial <= m < |s.commits| ensures s.commits[m].snapshot != step.j {
    }
  }

  lemma BeginStep(s: State, step: Step)
    requires Inv(s) && step.BeginCommit? && Enabled(s, step)
    ensures Inv(Apply(s, step)) && Evolves(s, Apply(s, step))
  {
    hide Contiguous, PinCount, Resolve;
    var s' := Apply(s, step);
    BeginCommits(s, step);
    BeginUsage(s, step);
    CommittingSnapshot(s, step.j);
    forall i | 0 <= i < |s'.snapshots| ensures SnapshotOk(s', s'.snapshots[i]) {
      assert SnapshotOk(s.(snapshots := s'.snapshots), s'.snapshots[i]);
    }
    WatermarkStaysOk(s, s');
    if NextSlotFinished(s') {
      var m: nat :| m < |s.commits| && Responsible(s, m);
      assert Responsible(s', m);
    }
  }

  /******* Freeing windows *******/

  lemma FreedWindowsOk(s: State, seen: nat)
    requires WindowsOk(s) && seen <= s.watermark
    ensures var s' := s.(windows := Freed(s.windows, seen));
            var freed := FreeFrom(s.windows, seen, 0);
            && WindowsOk(s') && Evolves(s, s')
            && freed < |s.windows| && s'.windows[0] == s.windows[freed]
  {
    var freed := FreeFrom(s.windows, seen, 0);
    FreedKeepsTheRest(s.windows, seen);
    assert s.windows[freed].start == s.windows[0].start + freed * WINDOW_SIZE;
  }

  /* Pinned windows stay: the popping loop stops at the first window with a reader. */
  lemma PinnedIsNotFreed(s: State, seen: nat, j: nat)
    requires WindowsOk(s) && ReadersOk(s) && seen <= s.watermark && j < |s.snapshots| && SnapshotOk(s, s.snapshots[j])
    requires (s.snapshots[j].phase.Held? || s.snapshots[j].phase.Committing?) && s.snapshots[j].pinned
    ensures Freed(s.windows, seen) != [] && Freed(s.windows, seen)[0].start <= s.snapshots[j].open
  {
    var snap, freed := s.snapshots[j], FreeFrom(s.windows, seen, 0);
    FreedWindowsOk(s, seen);
    ResolveNamesTheWindow(s.windows, snap.open);
    var k := Resolve(s.windows, snap.open).value;
    PinnedWindowsAreCounted(s.snapshots, j, s.windows[k].start);
    assert freed <= k;
    assert s.windows[freed].start == s.windows[0].start + freed * WINDOW_SIZE;
    assert s.windows[k].start == s.windows[0].start + k * WINDOW_SIZE;
  }

  /* A number that stays in memory stays in the same window. */
  lemma ResolvedAfterFreeing(s: State, seen: nat, n: nat)
    requires WindowsOk(s) && seen <= s.watermark
    requires Resolve(s.windows, n).Some? && Freed(s.windows, seen) != [] && Freed(s.windows, seen)[0].start <= n
    ensures var ws, k := Freed(s.windows, seen), Resolve(s.windows, n).value;
            && k < |s.windows|
            && Resolve(ws, n).Some? && Resolve(ws, n).value < |ws|
            && ws[Resolve(ws, n).value] == s.windows[k]
  {
    var ws, freed, k := Freed(s.windows, seen), FreeFrom(s.windows, seen, 0), Resolve(s.windows, n).value;
    FreedWindowsOk(s, seen);
    ResolveNamesTheWindow(s.windows, n);
    assert s.windows[freed].start == s.windows[0].start + freed * WINDOW_SIZE;
    assert s.windows[k].start == s.windows[0].start + k * WINDOW_SIZE;
    assert ws[k - freed] == s.windows[k];
    WindowOfIsUnique(ws, n, k - freed);
  }

  lemma FreeingKeepsSnapshot(s: State, seen: nat, j: nat)
    requires WindowsOk(s) && ReadersOk(s) && seen <= s.watermark && j < |s.snapshots| && SnapshotOk(s, s.snapshots[j])
    ensures Freed(s.windows, seen) != [] && SnapshotOk(s.(windows := Freed(s.windows, seen)), s.snapshots[j])
  {
    FreedWindowsOk(s, seen);
    var snap, ws := s.snapshots[j], Freed(s.windows, seen);
    if (snap.phase.Held? || snap.phase.Committing?) && snap.pinned {
      PinnedIsNotFreed(s, seen, j);
    }
    if snap.phase.Located? && ws[0].start <= snap.open {
      ResolvedAfterFreeing(s, seen, snap.open);
    }
  }

  lemma FreeingKeepsReaders(s: State, seen: nat)
    requires WindowsOk(s) && ReadersOk(s) && SnapshotsOk(s) && seen <= s.watermark
    ensures var s' := s.(windows := Freed(s.windows, seen)); ReadersOk(s') && SnapshotsOk(s')
  {
    var s' := s.(windows := Freed(s.windows, seen));
    var freed := FreeFrom(s.windows, seen, 0);
    FreedWindowsOk(s, seen);
    forall j | 0 <= j < |s.snapshots| ensures SnapshotOk(s', s'.snapshots[j]) {
      FreeingKeepsSnapshot(s, seen, j);
    }
    forall k | 0 <= k < |s'.windows| ensures s'.windows[k].readers == PinCount(s'.snapshots, s'.windows[k].start) {
      assert s'.windows[k] == s.windows[freed + k];
    }
  }

  lemma FreeStep(s: State, seen: nat)
    requires Inv(s) && seen <= s.watermark
    ensures var s' := s.(windows := Freed(s.windows, seen)); Inv(s') && Evolves(s, s')
  {
    var s' := s.(windows := Freed(s.windows, seen));
    FreedWindowsOk(s, seen);
    AllCommitsOk(s, s');
    FreeingKeepsReaders(s, seen);
    if NextSlotFinished(s') {
      var m: nat :| m < |s.commits| && Responsible(s, m);
      assert Responsible(s', m);
    }
  }
}
