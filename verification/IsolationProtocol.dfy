/**
 The commit protocol of the isolation manager as a transition system (storage/isolation_manager.rs,
 with the calling order of storage/storage.rs, `snapshot_commit`).

 Every commit is driven by its own thread, whose program counter is part of the state. Atomics are
 sequentially consistent: every load, store or compare-and-swap that another thread can observe is a
 step of its own, and so is every section run under the deque's lock.
 */
module IsolationProtocol {
  import opened Options
  import opened CommitRecords
  import opened TimelineWindows

  datatype Marker = Empty | Pending | Validated | Applied | Aborted

  predicate Finished(m: Marker) {
    m.Applied? || m.Aborted?
  }

  predicate Committed(m: Marker) {
    m.Validated? || m.Applied?
  }

  /* The program counter of a commit's thread. */
  datatype Pc =
    | Logged                        // has a sequence number from the log; its slot is empty
    | Entering                      // its window exists
    | Collecting                    // its slot is pending
    | ReadingStatuses(stop: nat)    // must replay numbers below `stop` from the log
    | Scanning(cursor: nat, stop: nat, statuses: seq<Option<bool>>)
    | Walking(cursor: nat, index: nat)   // `index` into the collected windows
    | Awaiting(cursor: nat, index: nat)  // spins on a pending predecessor it depends on
    | Deciding(conflict: Option<IsolationConflict>)
    | Publishing                    // validated; about to raise the highest validated number
    | Unpinning                     // about to give up its snapshot's reader
    | Applying                      // writing its batch; about to mark the slot applied
    | LoadingMark                   // slot finished; about to load the watermark
    | Locating(candidate: nat)      // looking up the window of the candidate watermark
    | Inspecting(candidate: nat, end: nat)
    | Swapping(candidate: nat, end: nat)
    | Persisting                    // about to log its commit status
    | Done
    | Panicked

  /* One sequence number: the slot (record and marker), the log's status record for it, and its thread.
     `visited` and `initialFlags` only remember what happened. */
  datatype Commit = Commit(
    record: CommitRecord,
    initialFlags: ReinsertFlags,
    snapshot: nat,
    marker: Marker,
    persisted: Option<bool>,
    pc: Pc,
    flags: ReinsertFlags,
    visited: seq<nat>,
    held: seq<nat>)

  /* A snapshot first waits for the watermark, then looks up the window of its open number, and only
     in a later step increments that window's reader count. */
  datatype Phase = Waiting | Located(found: Option<nat>) | Held | Committing | Released

  datatype Snapshot = Snapshot(target: nat, exact: bool, open: nat, phase: Phase, pinned: bool)

  /* `commits` is indexed by sequence number. Entry 0 stands for the minimal number, which no commit
     takes. Numbers below `initial` are history: decided, with their status in the log. */
  datatype State = State(
    initial: nat,
    watermark: nat,
    highest: nat,
    windows: seq<Window>,
    snapshots: seq<Snapshot>,
    commits: seq<Commit>)

  ghost predicate Init(s: State) {
    && 1 <= s.initial == |s.commits|
    && s.watermark == s.highest == s.initial - 1
    && s.windows == [Window(s.initial, 0)]
    && s.snapshots == []
    && (forall n :: 0 <= n < |s.commits| ==>
          && Finished(s.commits[n].marker)
          && s.commits[n].pc.Done?
          && s.commits[n].persisted == Some(s.commits[n].marker.Applied?))
  }

  datatype Step =
    | RequestSnapshot
    | RequestSnapshotAt(number: nat)
    | LocateSnapshot(j: nat)
    | PinSnapshot(j: nat)
    | CloseSnapshot(j: nat)
    | BeginCommit(j: nat, record: CommitRecord, flags: ReinsertFlags)
    | AdvanceCommit(n: nat)
    | FreeWindows(seen: nat)

  /******* Snapshots and readers *******/

  function WithReaders(ws: seq<Window>, k: nat, readers: nat): (r: seq<Window>)
    requires k < |ws|
  {
    ws[k := ws[k].(readers := readers)]
  }

  /* `remove_reader`: an unsigned counter, so decrementing zero would wrap around. */
  function RemoveReader(ws: seq<Window>, open: nat): (r: seq<Window>)
    requires |ws| > 0
  {
    var k := Resolve(ws, open);
    if k.None? || k.value >= |ws| then ws
    else WithReaders(ws, k.value,
                     if ws[k.value].readers == 0 then 0xFFFF_FFFF_FFFF_FFFF else ws[k.value].readers - 1)
  }

  function LocateSnapshotStep(s: State, j: nat): State
    requires j < |s.snapshots| && |s.windows| > 0
  {
    var snap := s.snapshots[j];
    var open := if snap.exact then snap.target else s.watermark;
    var k := Resolve(s.windows, open);
    var found := if k.Some? && k.value < |s.windows| then Some(s.windows[k.value].start) else None;
    s.(snapshots := s.snapshots[j := snap.(open := open, phase := Located(found))])
  }

  function PinSnapshotStep(s: State, j: nat): State
    requires j < |s.snapshots| && s.snapshots[j].phase.Located? && |s.windows| > 0
  {
    var snap := s.snapshots[j];
    var found := snap.phase.found;
    var k := if found.Some? then Resolve(s.windows, found.value) else None;
    if k.Some? && k.value < |s.windows| then
      s.(windows := WithReaders(s.windows, k.value, s.windows[k.value].readers + 1),
         snapshots := s.snapshots[j := snap.(phase := Held, pinned := true)])
    else
      // there was no window, or the window found earlier is no longer in the deque
      s.(snapshots := s.snapshots[j := snap.(phase := Held, pinned := false)])
  }

  function ReleaseSnapshot(s: State, j: nat): State
    requires j < |s.snapshots| && |s.windows| > 0
  {
    s.(windows := RemoveReader(s.windows, s.snapshots[j].open),
       snapshots := s.snapshots[j := s.snapshots[j].(phase := Released)])
  }

  /******* Validation *******/

  predicate InWindow(held: seq<nat>, cursor: nat, index: nat) {
    index < |held| && held[index] <= cursor < held[index] + WINDOW_SIZE
  }

  function NextWalk(held: seq<nat>, cursor: nat, index: nat): Pc
    requires index < |held|
  {
    Walking(cursor + 1, if cursor + 1 >= held[index] + WINDOW_SIZE then index + 1 else index)
  }

  /* Skips a predecessor that cannot matter. */
  function Skip(c: Commit, cursor: nat, next: Pc): (r: Commit) {
    c.(visited := c.visited + [cursor], pc := next)
  }

  /* `handle_dependency` on a predecessor that committed. */
  ghost function Settle(c: Commit, predecessor: CommitRecord, cursor: nat, next: Pc): (r: Commit) {
    match Dependency(c.record, predecessor)
    case Independent => Skip(c, cursor, next)
    case DependentPuts(puts) => Skip(c.(flags := ApplyPuts(c.flags, puts)), cursor, next)
    case Conflict(conflict) => Skip(c, cursor, Deciding(Some(conflict)))
  }

  function Collect(s: State, n: nat): Commit
    requires 0 < n < |s.commits| && |s.windows| > 0
  {
    var c := s.commits[n];
    var first := FirstConcurrent(s.windows, c.record.open);
    var last := LastConcurrent(s.windows, n);
    if first >= |s.windows| || last >= |s.windows| then c.(pc := Panicked)
    else
      var firstInMemory := s.windows[first].start;
      c.(held := Starts(s.windows, first, last),
         pc := if c.record.open + 1 < firstInMemory then ReadingStatuses(firstInMemory)
               else Walking(c.record.open + 1, 0))
  }

  function ReadStatuses(s: State, n: nat): Commit
    requires n < |s.commits| && s.commits[n].pc.ReadingStatuses?
  {
    var c := s.commits[n];
    c.(pc := Scanning(c.record.open + 1, c.pc.stop,
                      seq(|s.commits|, k requires 0 <= k < |s.commits| => s.commits[k].persisted)))
  }

  ghost function Scan(s: State, n: nat): Commit
    requires n < |s.commits| && s.commits[n].pc.Scanning?
  {
    var c := s.commits[n];
    var Scanning(cursor, stop, statuses) := c.pc;
    var next := Scanning(cursor + 1, stop, statuses);
    if cursor >= stop then c.(pc := Walking(stop, 0))
    else if cursor >= |statuses| || cursor >= |s.commits| || statuses[cursor].None? then
      c.(pc := Panicked) // a replayed record without a status counts as pending, which is unreachable!()
    else if statuses[cursor].value then Settle(c, s.commits[cursor].record, cursor, next)
    else Skip(c, cursor, next)
  }

  predicate CanWalk(s: State, n: nat)
    requires n < |s.commits| && s.commits[n].pc.Walking?
  {
    var cursor := s.commits[n].pc.cursor;
    cursor < n ==> !s.commits[cursor].marker.Empty?
  }

  ghost function Walk(s: State, n: nat): Commit
    requires n < |s.commits| && s.commits[n].pc.Walking?
  {
    var c := s.commits[n];
    var Walking(cursor, index) := c.pc;
    if cursor >= n then c.(pc := Deciding(None))
    else if !InWindow(c.held, cursor, index) then c.(pc := Panicked)
    else
      var p := s.commits[cursor];
      var next := NextWalk(c.held, cursor, index);
      match p.marker
      case Empty => c
      case Pending =>
        if Dependency(c.record, p.record).Independent? then Skip(c, cursor, next)
        else c.(pc := Awaiting(cursor, index))
      case Validated => Settle(c, p.record, cursor, next)
      case Applied => Settle(c, p.record, cursor, next)
      case Aborted => Skip(c, cursor, next)
  }

  predicate CanAwait(s: State, n: nat)
    requires n < |s.commits| && s.commits[n].pc.Awaiting?
  {
    var cursor := s.commits[n].pc.cursor;
    cursor < n ==> !s.commits[cursor].marker.Empty? && !s.commits[cursor].marker.Pending?
  }

  ghost function Await(s: State, n: nat): Commit
    requires n < |s.commits| && s.commits[n].pc.Awaiting?
  {
    var c := s.commits[n];
    var Awaiting(cursor, index) := c.pc;
    if cursor >= n || !InWindow(c.held, cursor, index) then c.(pc := Panicked)
    else
      var p := s.commits[cursor];
      var next := NextWalk(c.held, cursor, index);
      if p.marker.Aborted? then Skip(c, cursor, next) else Settle(c, p.record, cursor, next)
  }

  function Decide(c: Commit): Commit
    requires c.pc.Deciding?
  {
    if c.pc.conflict.None? then c.(marker := Validated, pc := Publishing)
    else c.(marker := Aborted, pc := LoadingMark)
  }

  /******* The watermark *******/

  /* Where a thread goes on after `may_increment_watermark` returns. */
  function AfterMark(c: Commit): Commit {
    c.(pc := if c.marker.Aborted? then Unpinning else Persisting)
  }

  function LoadMark(s: State, n: nat): Commit
    requires 0 < n < |s.commits|
  {
    var c := s.commits[n];
    if s.watermark == n - 1 then c.(pc := Locating(n)) else AfterMark(c)
  }

  function Locate(s: State, n: nat): Commit
    requires n < |s.commits| && s.commits[n].pc.Locating? && |s.windows| > 0
  {
    var c := s.commits[n];
    var candidate := c.pc.candidate;
    var k := Resolve(s.windows, candidate);
    if k.Some? && k.value < |s.windows| then c.(pc := Inspecting(candidate, s.windows[k.value].End()))
    else AfterMark(c)
  }

  function Inspect(s: State, n: nat): Commit
    requires n < |s.commits| && s.commits[n].pc.Inspecting?
  {
    var c := s.commits[n];
    var Inspecting(candidate, end) := c.pc;
    if candidate < |s.commits| && Finished(s.commits[candidate].marker) then c.(pc := Swapping(candidate, end))
    else AfterMark(c)
  }

  function Swap(s: State, n: nat): State
    requires n < |s.commits| && s.commits[n].pc.Swapping?
  {
    var c := s.commits[n];
    var Swapping(candidate, end) := c.pc;
    if s.watermark + 1 == candidate then
      s.(watermark := candidate,
         commits := s.commits[n := c.(pc := if candidate + 1 >= end then Locating(candidate + 1)
                                            else Inspecting(candidate + 1, end))])
    else s.(commits := s.commits[n := AfterMark(c)])
  }

  /******* The step relation *******/

  function WithCommit(s: State, n: nat, c: Commit): (r: State)
    requires n < |s.commits|
  {
    s.(commits := s.commits[n := c])
  }

  /* A thread that spins, or has nothing left to do, takes no step. */
  predicate CanAdvance(s: State, n: nat) {
    && 0 < n < |s.commits|
    && |s.windows| > 0
    && match s.commits[n].pc
       case Walking(_, _) => CanWalk(s, n)
       case Awaiting(_, _) => CanAwait(s, n)
       case Unpinning => s.commits[n].snapshot < |s.snapshots|
       case Done => false
       case Panicked => false
       case _ => true
  }

  ghost function Advance(s: State, n: nat): State
    requires CanAdvance(s, n)
  {
    var c := s.commits[n];
    match c.pc
    case Logged => WithCommit(s, n, c.(pc := Entering)).(windows := Extended(s.windows, n))
    case Entering =>
      if Resolve(s.windows, n).None? then WithCommit(s, n, c.(pc := Panicked))
      else WithCommit(s, n, c.(marker := Pending, pc := Collecting))
    case Collecting => WithCommit(s, n, Collect(s, n))
    case ReadingStatuses(_) => WithCommit(s, n, ReadStatuses(s, n))
    case Scanning(_, _, _) => WithCommit(s, n, Scan(s, n))
    case Walking(_, _) => WithCommit(s, n, Walk(s, n))
    case Awaiting(_, _) => WithCommit(s, n, Await(s, n))
    case Deciding(_) => WithCommit(s, n, Decide(c))
    case Publishing =>
      WithCommit(s, n, c.(pc := Unpinning)).(highest := if s.highest < n then n else s.highest)
    case Unpinning =>
      WithCommit(ReleaseSnapshot(s, c.snapshot), n, c.(pc := if c.marker.Aborted? then Persisting else Applying))
    case Applying =>
      if Resolve(s.windows, n).None? then WithCommit(s, n, c.(pc := Panicked))
      else WithCommit(s, n, c.(marker := Applied, pc := LoadingMark))
    case LoadingMark => WithCommit(s, n, LoadMark(s, n))
    case Locating(_) => WithCommit(s, n, Locate(s, n))
    case Inspecting(_, _) => WithCommit(s, n, Inspect(s, n))
    case Swapping(_, _) => Swap(s, n)
    case Persisting => WithCommit(s, n, c.(persisted := Some(c.marker.Applied?), pc := Done))
  }

  ghost predicate Enabled(s: State, step: Step) {
    && |s.windows| > 0
    && match step
       case RequestSnapshot => true
       case RequestSnapshotAt(_) => true
       case LocateSnapshot(j) =>
         j < |s.snapshots| && s.snapshots[j].phase.Waiting? && s.snapshots[j].target <= s.watermark
       case PinSnapshot(j) => j < |s.snapshots| && s.snapshots[j].phase.Located?
       case CloseSnapshot(j) => j < |s.snapshots| && s.snapshots[j].phase.Held?
       case BeginCommit(j, record, flags) =>
         && j < |s.snapshots| && s.snapshots[j].phase.Held?
         && record.open == s.snapshots[j].open && record.Valid() && FlagsFor(flags, record)
       case AdvanceCommit(n) => CanAdvance(s, n)
       case FreeWindows(seen) => seen <= s.watermark // any value of the watermark loaded earlier
  }

  function NewCommit(j: nat, record: CommitRecord, flags: ReinsertFlags): Commit {
    Commit(record, flags, j, Empty, None, Logged, flags, [], [])
  }

  ghost function Apply(s: State, step: Step): State
    requires Enabled(s, step)
  {
    match step
    case RequestSnapshot => s.(snapshots := s.snapshots + [Snapshot(s.highest, false, 0, Waiting, false)])
    case RequestSnapshotAt(number) => s.(snapshots := s.snapshots + [Snapshot(number, true, 0, Waiting, false)])
    case LocateSnapshot(j) => LocateSnapshotStep(s, j)
    case PinSnapshot(j) => PinSnapshotStep(s, j)
    case CloseSnapshot(j) => ReleaseSnapshot(s, j)
    case BeginCommit(j, record, flags) =>
      s.(snapshots := s.snapshots[j := s.snapshots[j].(phase := Committing)],
         commits := s.commits + [NewCommit(j, record, flags)])
    case AdvanceCommit(n) => Advance(s, n)
    case FreeWindows(seen) => s.(windows := Freed(s.windows, seen))
  }

  ghost predicate Next(s: State, s': State) {
    exists step :: Enabled(s, step) && s' == Apply(s, step)
  }

  ghost predicate NextAt(run: seq<State>, k: nat)
    requires k + 1 < |run|
  {
    Next(run[k], run[k + 1])
  }

  ghost predicate Execution(run: seq<State>) {
    && |run| > 0
    && Init(run[0])
    && (forall k: nat :: k + 1 < |run| ==> NextAt(run, k))
  }
}
