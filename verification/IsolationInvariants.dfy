/**
 The invariant of the commit protocol, and how it survives the steps of other threads.

 All steps only move the state forward in the sense of `Evolves`. What is known about one commit is
 stated so that it is stable under `Evolves`; a step then only has to re-establish what is known about
 the commit that took it.
 */
module IsolationInvariants {
  import opened Options
  import opened CommitRecords
  import opened TimelineWindows
  import opened IsolationProtocol

  /* The numbers from a up to, but not including, b. */
  function Range(a: nat, b: nat): (r: seq<nat>)
    requires a <= b
    ensures |r| == b - a
    ensures forall k :: 0 <= k < |r| ==> r[k] == a + k
  {
    seq<nat>(b - a, k requires 0 <= k < b - a => a + k)
  }

  /******* Forward movement *******/

  predicate Forward(m: Marker, m': Marker) {
    match m
    case Empty => true
    case Pending => !m'.Empty?
    case Validated => m'.Validated? || m'.Applied?
    case Applied => m'.Applied?
    case Aborted => m'.Aborted?
  }

  predicate CommitEvolves(c: Commit, c': Commit) {
    && c'.record == c.record
    && c'.initialFlags == c.initialFlags
    && c'.snapshot == c.snapshot
    && Forward(c.marker, c'.marker)
    && (c.persisted.Some? ==> c'.persisted == c.persisted)
  }

  ghost predicate Evolves(s: State, s': State) {
    && s'.initial == s.initial
    && s.watermark <= s'.watermark
    && s.highest <= s'.highest
    && |s.windows| > 0 && |s'.windows| > 0
    && s.windows[0].start <= s'.windows[0].start
    && BackEnd(s.windows) <= BackEnd(s'.windows)
    && |s.snapshots| <= |s'.snapshots|
    && |s.commits| <= |s'.commits|
    && (forall n :: 0 <= n < |s.commits| ==> CommitEvolves(s.commits[n], s'.commits[n]))
  }

  /******* What is known about one commit *******/

  /* Predecessor p will not get in the way of commit n any more, whatever p's thread still does. */
  ghost predicate Cleared(commits: seq<Commit>, n: nat, p: nat)
    requires p < |commits| && n < |commits|
  {
    var c, marker := commits[n].record, commits[p].marker;
    && !marker.Empty?
    && (marker.Aborted? || !Conflicts(c, commits[p].record))
    && (marker.Pending? ==> Dependency(c, commits[p].record).Independent?)
  }

  /* The reinsert flags of commit n once the committed numbers below `upto` have had their effect. */
  ghost function FlagsUpTo(commits: seq<Commit>, n: nat, upto: nat): (flags: ReinsertFlags)
    requires n < |commits| && upto <= n
  {
    var c := commits[n];
    if upto <= c.record.open + 1 then c.initialFlags
    else
      var before := FlagsUpTo(commits, n, upto - 1);
      if Committed(commits[upto - 1].marker) then FlagsAfter(before, c.record, commits[upto - 1].record) else before
  }

  /* Commit n has dealt with every number after its open number and below `upto`, in order and once. */
  ghost predicate Walked(s: State, n: nat, upto: nat)
    requires n < |s.commits| && upto <= n
  {
    var c := s.commits[n];
    && c.record.open < upto
    && c.visited == Range(c.record.open + 1, upto)
    && (forall p: nat :: c.record.open < p < upto ==> Cleared(s.commits, n, p))
    && c.flags == FlagsUpTo(s.commits, n, upto)
  }

  /* An abort has a reason: a concurrent predecessor that conflicts and did commit. */
  ghost predicate Justified(s: State, n: nat)
    requires n < |s.commits|
  {
    exists p: nat :: s.commits[n].record.open < p < n
      && Committed(s.commits[p].marker) && Conflicts(s.commits[n].record, s.commits[p].record)
  }

  ghost predicate HeldFrom(held: seq<nat>, first: nat, n: nat) {
    && (forall k :: 0 <= k < |held| ==> held[k] == first + k * WINDOW_SIZE)
    && n <= first + |held| * WINDOW_SIZE
  }

  ghost predicate HeldAt(held: seq<nat>, cursor: nat, index: nat, n: nat) {
    cursor == n || (|held| > 0 && HeldFrom(held, held[0], n) && InWindow(held, cursor, index))
  }

  ghost predicate StatusesHold(s: State, statuses: seq<Option<bool>>) {
    && |statuses| <= |s.commits|
    && (forall k :: 0 <= k < |statuses| && statuses[k].Some? ==> s.commits[k].persisted == statuses[k])
  }

  /* Facts about a commit's own fields. */
  predicate LocalOk(c: Commit) {
    && (c.persisted.Some? ==> c.pc.Done? && Finished(c.marker) && c.persisted.value == c.marker.Applied?)
    && match c.pc
       case Logged => c.marker.Empty? && c.visited == [] && c.flags == c.initialFlags
       case Entering => c.marker.Empty? && c.visited == [] && c.flags == c.initialFlags
       case Publishing => c.marker.Validated?
       case Unpinning => c.marker.Validated? || c.marker.Aborted?
       case Applying => c.marker.Validated?
       case LoadingMark => Finished(c.marker)
       case Locating(_) => Finished(c.marker)
       case Inspecting(_, _) => Finished(c.marker)
       case Swapping(_, _) => Finished(c.marker)
       case Persisting => Finished(c.marker)
       case Done => Finished(c.marker) && c.persisted.Some?
       case Panicked => true
       case _ => c.marker.Pending?
  }

  /* Facts that tie a commit's program counter to the rest of the state. */
  ghost predicate PcOk(s: State, n: nat)
    requires n < |s.commits|
  {
    var c := s.commits[n];
    match c.pc
    case Collecting => c.visited == [] && c.flags == c.initialFlags
    case ReadingStatuses(stop) =>
      c.visited == [] && c.flags == c.initialFlags && c.record.open + 1 < stop <= n && HeldFrom(c.held, stop, n)
    case Scanning(cursor, stop, statuses) =>
      && cursor <= stop <= n < |statuses| && Walked(s, n, cursor)
      && HeldFrom(c.held, stop, n) && StatusesHold(s, statuses)
    case Walking(cursor, index) => cursor <= n && Walked(s, n, cursor) && HeldAt(c.held, cursor, index, n)
    case Awaiting(cursor, index) =>
      cursor < n && Walked(s, n, cursor) && HeldAt(c.held, cursor, index, n) && !s.commits[cursor].marker.Empty?
    case Deciding(conflict) => if conflict.None? then Walked(s, n, n) else Justified(s, n)
    case Locating(candidate) => n <= candidate <= s.watermark + 1
    case Inspecting(candidate, end) => n <= candidate <= s.watermark + 1
    case Swapping(candidate, end) =>
      n <= candidate <= s.watermark + 1 && candidate < |s.commits| && Finished(s.commits[candidate].marker)
    case _ => true
  }

  ghost predicate CommitOk(s: State, n: nat)
    requires n < |s.commits| && |s.windows| > 0
  {
    var c := s.commits[n];
    && LocalOk(c)
    && c.record.Valid() && FlagsFor(c.initialFlags, c.record)
    && c.record.open < n && c.record.open <= s.watermark
    && (!c.pc.Logged? ==> n < BackEnd(s.windows))
    && PcOk(s, n)
    && (Committed(c.marker) ==> Walked(s, n, n))
    && (c.marker.Aborted? ==> Justified(s, n))
    && (Committed(c.marker) && !c.pc.Publishing? ==> n <= s.highest)
  }

  /******* Stability *******/

  lemma {:induction false} FlagsHaveAllPuts(commits: seq<Commit>, n: nat, upto: nat)
    requires n < |commits| && upto <= n && FlagsFor(commits[n].initialFlags, commits[n].record)
    ensures FlagsFor(FlagsUpTo(commits, n, upto), commits[n].record)
  {
    if upto > commits[n].record.open + 1 {
      FlagsHaveAllPuts(commits, n, upto - 1);
    }
  }

  lemma {:induction false} FlagsAreStable(s: State, s': State, n: nat, upto: nat)
    requires Evolves(s, s') && n < |s.commits| && upto <= n
    requires s.commits[n].record.Valid() && FlagsFor(s.commits[n].initialFlags, s.commits[n].record)
    requires forall p: nat :: s.commits[n].record.open < p < upto ==> Cleared(s.commits, n, p)
    ensures FlagsUpTo(s'.commits, n, upto) == FlagsUpTo(s.commits, n, upto)
  {
    assert CommitEvolves(s.commits[n], s'.commits[n]);
    if upto > s.commits[n].record.open + 1 {
      FlagsAreStable(s, s', n, upto - 1);
      var p := upto - 1;
      assert CommitEvolves(s.commits[p], s'.commits[p]);
      assert Cleared(s.commits, n, p);
      if s.commits[p].marker.Pending? {
        FlagsHaveAllPuts(s.commits, n, p);
        IndependentKeepsFlags(FlagsUpTo(s.commits, n, p), s.commits[n].record, s.commits[p].record);
      }
    }
  }

  lemma WalkedIsStable(s: State, s': State, n: nat, upto: nat)
    requires Evolves(s, s') && n < |s.commits| && upto <= n
    requires s.commits[n].record.Valid() && FlagsFor(s.commits[n].initialFlags, s.commits[n].record)
    requires Walked(s, n, upto)
    requires s'.commits[n].visited == s.commits[n].visited && s'.commits[n].flags == s.commits[n].flags
    ensures Walked(s', n, upto)
  {
    assert CommitEvolves(s.commits[n], s'.commits[n]);
    FlagsAreStable(s, s', n, upto);
    forall p: nat | s.commits[n].record.open < p < upto ensures Cleared(s'.commits, n, p) {
      assert Cleared(s.commits, n, p);
      assert CommitEvolves(s.commits[p], s'.commits[p]);
    }
  }

  lemma JustifiedIsStable(s: State, s': State, n: nat)
    requires Evolves(s, s') && n < |s.commits| && Justified(s, n)
    ensures Justified(s', n)
  {
    var p: nat :| s.commits[n].record.open < p < n
      && Committed(s.commits[p].marker) && Conflicts(s.commits[n].record, s.commits[p].record);
    assert CommitEvolves(s.commits[n], s'.commits[n]);
    assert CommitEvolves(s.commits[p], s'.commits[p]);
  }

  lemma StatusesAreStable(s: State, s': State, statuses: seq<Option<bool>>)
    requires Evolves(s, s') && StatusesHold(s, statuses)
    ensures StatusesHold(s', statuses)
  {
    forall k | 0 <= k < |statuses| && statuses[k].Some? ensures s'.commits[k].persisted == statuses[k] {
      assert CommitEvolves(s.commits[k], s'.commits[k]);
    }
  }

  lemma PcOkIsStable(s: State, s': State, n: nat)
    requires Evolves(s, s') && n < |s.commits| && s'.commits[n] == s.commits[n]
    requires s.commits[n].record.Valid() && FlagsFor(s.commits[n].initialFlags, s.commits[n].record)
    requires PcOk(s, n)
    ensures PcOk(s', n)
  {
    match s.commits[n].pc
    case Scanning(cursor, stop, statuses) =>
      WalkedIsStable(s, s', n, cursor);
      StatusesAreStable(s, s', statuses);
    case Walking(cursor, index) => WalkedIsStable(s, s', n, cursor);
    case Awaiting(cursor, index) =>
      WalkedIsStable(s, s', n, cursor);
      assert CommitEvolves(s.commits[cursor], s'.commits[cursor]);
    case Deciding(conflict) =>
      if conflict.None? {
        WalkedIsStable(s, s', n, n);
      } else {
        JustifiedIsStable(s, s', n);
      }
    case Swapping(candidate, end) => assert CommitEvolves(s.commits[candidate], s'.commits[candidate]);
    case _ =>
  }

  /* What is known about a commit survives any step of another thread. */
  lemma CommitOkIsStable(s: State, s': State, n: nat)
    requires Evolves(s, s') && n < |s.commits| && s'.commits[n] == s.commits[n]
    requires CommitOk(s, n)
    ensures CommitOk(s', n)
  {
    PcOkIsStable(s, s', n);
    if Committed(s.commits[n].marker) {
      WalkedIsStable(s, s', n, n);
    }
    if s.commits[n].marker.Aborted? {
      JustifiedIsStable(s, s', n);
    }
  }

  /******* Readers *******/

  predicate Pins(snap: Snapshot, start: nat) {
    (snap.phase.Held? || snap.phase.Committing?) && snap.pinned && start <= snap.open < start + WINDOW_SIZE
  }

  /* The number of open snapshots that pin the window with the given start. */
  function PinCount(snapshots: seq<Snapshot>, start: nat): nat {
    if snapshots == [] then 0
    else
      PinCount(snapshots[..|snapshots| - 1], start) + (if Pins(snapshots[|snapshots| - 1], start) then 1 else 0)
  }

  lemma {:induction false} PinCountUpdated(snapshots: seq<Snapshot>, j: nat, snap: Snapshot, start: nat)
    requires j < |snapshots|
    ensures PinCount(snapshots[j := snap], start) ==
            PinCount(snapshots, start)
            - (if Pins(snapshots[j], start) then 1 else 0) + (if Pins(snap, start) then 1 else 0)
  {
    var last := |snapshots| - 1;
    var updated := snapshots[j := snap];
    if j == last {
      assert updated[..last] == snapshots[..last];
    } else {
      PinCountUpdated(snapshots[..last], j, snap, start);
      assert updated[..last] == snapshots[..last][j := snap];
    }
  }

  lemma {:induction false} PinnedWindowsAreCounted(snapshots: seq<Snapshot>, j: nat, start: nat)
    requires j < |snapshots| && Pins(snapshots[j], start)
    ensures PinCount(snapshots, start) > 0
  {
    var last := |snapshots| - 1;
    if j < last {
      PinnedWindowsAreCounted(snapshots[..last], j, start);
    }
  }

  /******* The invariant *******/

  ghost predicate WindowsOk(s: State) {
    && 1 <= s.initial <= |s.commits|
    && Contiguous(s.windows)
    && s.initial <= s.windows[0].start <= s.watermark + 1
    && s.initial - 1 <= s.watermark < |s.commits|
    && s.watermark < BackEnd(s.windows)
  }

  /* Every number up to the watermark is finished. */
  ghost predicate WatermarkOk(s: State) {
    && s.watermark < |s.commits|
    && (forall p :: 0 <= p <= s.watermark ==> Finished(s.commits[p].marker))
  }

  ghost predicate HistoryOk(s: State) {
    && s.initial <= |s.commits|
    && (forall n :: 0 <= n < s.initial ==> s.commits[n].pc.Done? && LocalOk(s.commits[n]))
  }

  ghost predicate CommitsOk(s: State) {
    && |s.windows| > 0
    && (forall n :: s.initial <= n < |s.commits| ==> CommitOk(s, n))
  }

  /* A held snapshot is pinned exactly when the window of its open number is in memory. */
  ghost predicate SnapshotOk(s: State, snap: Snapshot)
    requires |s.windows| > 0
  {
    match snap.phase
    case Waiting => !snap.pinned
    case Located(found) =>
      && !snap.pinned
      && snap.open <= s.watermark
      && (snap.open < s.windows[0].start
          || (found.Some? && Resolve(s.windows, snap.open).Some?
              && Resolve(s.windows, snap.open).value < |s.windows|
              && s.windows[Resolve(s.windows, snap.open).value].start == found.value))
      && (found.Some? ==> found.value <= snap.open)
    case Held => snap.open <= s.watermark && (snap.pinned <==> s.windows[0].start <= snap.open)
    case Committing => snap.open <= s.watermark && (snap.pinned <==> s.windows[0].start <= snap.open)
    case Released => true
  }

  ghost predicate ReadersOk(s: State) {
    forall k :: 0 <= k < |s.windows| ==> s.windows[k].readers == PinCount(s.snapshots, s.windows[k].start)
  }

  ghost predicate SnapshotsOk(s: State) {
    && |s.windows| > 0
    && (forall j :: 0 <= j < |s.snapshots| ==> SnapshotOk(s, s.snapshots[j]))
  }

  /* Before this point the commit has not given up its snapshot. */
  predicate HoldsSnapshot(c: Commit) {
    match c.pc
    case Applying => false
    case Persisting => false
    case Done => false
    case Panicked => false
    case LoadingMark => c.marker.Aborted?
    case Locating(_) => c.marker.Aborted?
    case Inspecting(_, _) => c.marker.Aborted?
    case Swapping(_, _) => c.marker.Aborted?
    case _ => true
  }

  /* No two commits share a snapshot. */
  ghost predicate UsageOk(s: State) {
    && (forall n :: s.initial <= n < |s.commits| ==>
          && s.commits[n].snapshot < |s.snapshots|
          && s.snapshots[s.commits[n].snapshot].open == s.commits[n].record.open
          && (s.snapshots[s.commits[n].snapshot].phase.Committing? ||
            s.snapshots[s.commits[n].snapshot].phase.Released?)
          && (HoldsSnapshot(s.commits[n]) ==> s.snapshots[s.commits[n].snapshot].phase.Committing?))
    && (forall n, m :: s.initial <= n < m < |s.commits| ==> s.commits[n].snapshot != s.commits[m].snapshot)
  }

  /* Thread m will look at the slot after the watermark and move the watermark over it if it can. */
  predicate Responsible(s: State, m: nat)
    requires m < |s.commits|
  {
    match s.commits[m].pc
    case LoadingMark => m == s.watermark + 1
    case Locating(candidate) => candidate == s.watermark + 1
    case Inspecting(candidate, _) => candidate == s.watermark + 1
    case Swapping(candidate, _) => candidate == s.watermark + 1
    case _ => false
  }

  ghost predicate SomeoneResponsible(s: State) {
    exists m: nat :: m < |s.commits| && Responsible(s, m)
  }

  predicate NextSlotFinished(s: State) {
    s.watermark + 1 < |s.commits| && Finished(s.commits[s.watermark + 1].marker)
  }

  ghost predicate AdvanceOk(s: State) {
    NextSlotFinished(s) ==> SomeoneResponsible(s)
  }

  ghost predicate Inv(s: State) {
    && WindowsOk(s)
    && WatermarkOk(s)
    && HistoryOk(s)
    && CommitsOk(s)
    && SnapshotsOk(s)
    && ReadersOk(s)
    && UsageOk(s)
    && AdvanceOk(s)
  }

  lemma InitHasInvariant(s: State)
    requires Init(s)
    ensures Inv(s)
  {
  }
}
