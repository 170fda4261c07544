# Verified models of the TypeDB storage, durability and query core

This project models the parts of the database whose correctness depends on long histories and on
interleavings, and proves what they promise for every input, every run and every interleaving.
`dafny verify dfyconfig.toml` checks all of it.

- **Isolation manager** (`CommitRecords`, `Timeline`, `TimelineState`, `Isolation*`). Commits take slots in a
  deque of 100-slot windows and are validated against every concurrent predecessor, some in memory and some
  replayed from the log. The protocol is a transition system in which every commit's thread has a program
  counter and every observable load, store, compare-and-swap and locked section is a step. The invariant is
  inductive over all steps, and the theorems in `Isolation.dfy` hold in every state of every run.
- **Write-ahead log** (`WalRecords`, `WalStore`, `Wal`, `WalCollisions`, `WalSizes`, `WalRecovery`, `WalRestart`,
  `WalState`). Framed records down to the byte, rotation, the scan for a start number, the search for the last
  record of a type, trimming after a crash, and the number chosen on reopening. `WalState` is the imperative log;
  its methods are tied to the functions the theorems speak about.
- **Sync acknowledgements** (`Fsync`, `FsyncDurability`). The two-buffer protocol between producers and the sync
  thread, over all interleavings and with stale index reads, and which records have been synced when their senders
  are acknowledged.
- **Transaction gate** (`ReservationGate`). The first-in, first-out gate between schema and write
  transactions, with time-outs at any moment.
- **MVCC iterator** (`MvccKeys`, `MvccIterator`). The lazy range iterator against the view "latest version at
  or below the open number", and the byte order of stored keys.
- **Stratification check** (`FunctionCalls`, `CallSites`, `Stratification`, `StratificationExact`,
  `StratificationCalls`, `StratificationSearch`). Where calls stand in a function, and the depth-first search over
  them against cycles and against textbook stratification.
- **Query structure** (`QueryStructure`, `QueryStructureBuilder`). Flattening pattern trees into an arena and
  reading them back.
- **Grouped reduction** (`Reduce`, `GroupedReduce`). Running accumulators with multiplicities against the
  statistics of the rows written out one by one.

Where a property turned out not to hold of the code, the code is modelled as it is, a case is given in which it
fails, and the exact condition under which it holds is proved:

- A rotation can reuse the newest file's path. A whole history is read back as it was written **if and only if**
  none of its rotations does (`HistoryReadsBackIffNoCollision`); `PathIsReused` is a case on bytes. The search for
  the last record of a type is right all the same (`LastOfTypeIsAlwaysFound`).
- Only the newest file is synced, and a rotation syncs nothing. An acknowledged record has been synced **if and only
  if** some sync began between its write and the next rotation (`AcknowledgedIsDurableIff`).
  `AcknowledgedMayBeLost` is a run in which an acknowledged record never is.
- Reopening trims the newest file also at a record without a payload. A file that was not cut keeps all its records
  **if and only if** it has no such record (`UncutFileIsKeptIff`).
- Reopening continues the numbering **if and only if** the last survivor is numbered at least the newest
  file's start, or is numbered zero, or nothing survived (`LoadContinuesNumbering`). `NumberingRestarts` is a
  log of two records whose numbering starts again at 1.
- A seek drops exactly what lies below its target **if and only if** the versions stored at or after the target
  show no other key below it (`SeekIsExactIff`, and the contract of `Seek`). `SeekMayLeaveSmallerKeys` is a fresh
  iterator over two keys that leaves one behind. Targets that do not fall among the versions of a stored key are
  always safe (`SeekDropsExactlyBelow`).
- The stratification check accepts some programs that cannot be stratified, depending on the order in which the
  hash map yields the functions (`UnstratifiedMayBeAccepted`). A program is accepted in every order in which the
  map can yield it **if and only if** it can be stratified (`AcceptedInEveryOrderIffStratified`), and without
  recursion through plain calls the check is exact in each single order (`ExactWithoutPlainRecursion`).
- A minimum or maximum looks at rows that count zero times. It is right **if and only if** every number in the
  column is matched by one in a row that counts, and all other statistics are always right
  (`ReductionIsStatistic`, per group `GroupedIsStatistic`). Straight after a distinct stage that is so
  (`DistinctIsCovered`); with an offset in between it may not be (`OffsetMayUncountTheMinimum`).
- A commit whose snapshot has outlived its window replays its predecessors from the log, and panics
  **if and only if**, when the statuses were read, one was missing and no earlier number was logged as committed
  and in conflict (`ReplayPanicsExactly`). `ReplayCanPanic` is a run of a hundred and two commits that ends so. A
  commit replays if and only if its window has left memory (`CommitReplaysIffWindowIsGone`), and one whose snapshot
  pinned its window never panics (`PinnedCommitNeverPanics`).

## How the models relate to the code

- Sequence numbers index the list of commits; entry 0 is the minimal number, and numbers below the initial one
  are history that is decided and has its status in the log. The log replays every commit and status record.
- Looking up a reader's window and incrementing its count are two steps. Freeing windows is a step that may
  happen at any time with any watermark loaded earlier, which includes every moment at which the code frees.
- Waiting for a slot to be filled and reading it are one step; a slot never becomes empty again.
- A new snapshot loads the watermark and looks up its window in one step. If the window is freed in between, the
  code finds none; the model reaches the same state by freeing between the lookup and the count.
- A replay reads all status records in one step: the log's iterator holds the lock on the files for as long as it
  lives, so no status is written while they are read. The commit records it replays were logged before.
- A map whose iteration order matters is a list of keys with a finite map.
- A write with its rotation is one step of the sync protocol, since both happen under the lock on the files, and so
  is a record that nobody asks to be synced. A rotation that reuses the newest path stays in the same file. Synced is
  what a sync call has covered; what the operating system writes out of its own accord is not counted.
- The compression codec is a parameter. It is assumed to decode what it encoded, and to give an error or
  nothing for a proper prefix of an encoding (`WalRecords.Faithful`).
- A file's path is its start number. `FileNamesSortByNumber` shows that zero-padded names sort the same way.
- The rendezvous channel of the gate is one step: an offer succeeds exactly when the waiter has not given up.
- Calls to functions of another kind are not part of the call graph, as in the collectors. The search stops
  on an unknown function; programs whose calls are closed have none.
- Integers are unbounded, except where stated (u16 ids of conjunctions, 64-bit numbers in frames and keys, the
  unsigned reader counter). Means and variances are exact reals.

## Model

| member | source | states |
|---|---|---|
| CommitRecords.ComputeDependency | storage/isolation_manager.rs:749-806 | the nested loops compute `Dependency`: a conflict exactly when one side deletes a key the other holds unmodifiable or both hold an exclusive lock on a key, otherwise the overlapping puts |
| CommitRecords.ScanBuffers | storage/isolation_manager.rs:762-793 | the outer loop finds the first buffer with a conflict, or all dependent puts |
| CommitRecords.ScanBuffer | storage/isolation_manager.rs:762-793 | one pair of buffers: which kind of conflict there is, and the puts before it |
| CommitRecords.ScanWrites | storage/isolation_manager.rs:766-782 | a conflict exactly when this side deletes a required key, otherwise the puts that overlap |
| CommitRecords.ScanLocks | storage/isolation_manager.rs:786-792 | a conflict exactly when the predecessor deletes a key this side requires |
| CommitRecords.ScanExclusive | storage/isolation_manager.rs:795-799 | true exactly when both hold an exclusive lock on some key |
| CommitRecords.FirstConflictDecides | storage/isolation_manager.rs:762-793 | the first conflicting buffer determines which conflict is reported |
| CommitRecords.WithoutBufferConflicts | storage/isolation_manager.rs:795-806 | without conflicting buffers only exclusive locks can conflict, and otherwise the puts are listed |
| CommitRecords.ConflictIsSymmetric | storage/isolation_manager.rs:749-806 | whether two records with equally many buffers conflict does not depend on the order |
| CommitRecords.ConflictIffKeysClash | storage/isolation_manager.rs:749-806 | on the maps themselves: two records conflict if and only if one deletes, in a keyspace both have, a key the other locks unmodifiable, or both lock a key exclusively |
| CommitRecords.ReasonIsReal | storage/isolation_manager.rs:749-806 | the reason reported names a clash of its kind that exists |
| CommitRecords.DependencyListsOverlappingPuts | storage/isolation_manager.rs:749-806 | without a conflict the dependency lists exactly the puts the predecessor overwrites, with the kind of its write |
| CommitRecords.ApplyingPutsUpdatesFlags | storage/isolation_manager.rs:309-331 | applying the listed puts sets each overlapping put's flag by the predecessor's write and leaves the others |
| CommitRecords.IndependentKeepsFlags | storage/isolation_manager.rs:309-331 | an independent predecessor would not change any flag |
| TimelineWindows.ResolveNamesTheWindow | storage/isolation_manager.rs:535-547 | the computed index names the window holding the number, and there is no index only when no window holds it |
| TimelineWindows.WindowOfIsUnique | storage/isolation_manager.rs:535-547 | at most one window of a deque holds a number, and the index finds it |
| TimelineWindows.HundredSlots | resource/constants.rs:130 | a window has 100 slots, and the k-th window of a deque starts 100 k after the first |
| TimelineWindows.ExtendedIsContiguous | storage/isolation_manager.rs:518-529 | creating windows keeps the deque without gaps, adds windows without readers, and only until the number fits |
| TimelineWindows.FreedKeepsTheRest | storage/isolation_manager.rs:414-424 | only windows behind the watermark without readers go, at least one stays, and the rest has no gaps |
| TimelineWindows.CollectedWindowsCover | storage/isolation_manager.rs:487-502 | the collected windows follow one another, reach the commit and no further, and start at or before the number after open unless that has left memory |
| TimelineState.Timeline.constructor | storage/isolation_manager.rs:396-412 | a new timeline holds one window and is valid |
| TimelineState.Timeline.TryGetWindow | storage/isolation_manager.rs:504-508 | finds the window of a number in memory, and none otherwise |
| TimelineState.Timeline.CreateWindowsTo | storage/isolation_manager.rs:518-529 | the loop extends the deque exactly as far as needed |
| TimelineState.Timeline.GetOrCreateWindow | storage/isolation_manager.rs:510-516 | the window of any number beyond the watermark can be had |
| TimelineState.Timeline.MayFreeWindows | storage/isolation_manager.rs:414-424 | the popping loop frees exactly the windows behind the watermark up to the first with readers |
| TimelineState.Timeline.RecordReader | storage/isolation_manager.rs:472-476 | counts a reader in the window of its number, if there is one |
| TimelineState.Timeline.RemoveReaderAt | storage/isolation_manager.rs:478-485 | undoes the count and frees when it was the window's last reader |
| TimelineState.Timeline.CollectConcurrentWindows | storage/isolation_manager.rs:487-502 | the loop collects consecutive windows that cover everything in memory between open and commit |
| TimelineState.Timeline.MayIncrementWatermark | storage/isolation_manager.rs:426-466 | the watermark moves to the end of the run of finished slots, frees only then, and otherwise stays |
| TimelineState.Timeline.AdvanceFrom | storage/isolation_manager.rs:432-455 | the loop passes finished slots only and stops at one that is not |
| Isolation.ReachableHasInvariant | storage/isolation_manager.rs:114-316 | every state of every run satisfies the protocol's invariant |
| Isolation.StepKeepsInvariant | storage/isolation_manager.rs:76-316 | every step of every thread keeps it and only moves markers, watermark and windows forward |
| Isolation.CommittedHasNoConflict | storage/isolation_manager.rs:114-226 | a validated or applied commit conflicts with no number between its snapshot and itself that did not abort |
| Isolation.AbortedHasConflict | storage/isolation_manager.rs:114-226 | a commit aborts only because of a conflict with a concurrent predecessor that committed |
| Isolation.ConcurrentCommitsRespectLocks | storage/isolation_manager.rs:749-806 | of two concurrent committed commits neither deletes a key the other requires, and they share no exclusive lock |
| Isolation.CommittedVisitedEveryPredecessorOnce | storage/isolation_manager.rs:145-226 | log scan and window walk together visit every number between snapshot and commit once, in increasing order |
| Isolation.OnlyMissingStatusPanics | storage/isolation_manager.rs:174-226 | a thread panics only on replaying a number without a logged status; window lookups never fail |
| IsolationReplay.ReplayPanicsExactly | storage/isolation_manager.rs:174-260 | a replay that has ended panicked if and only if a status was missing when they were read and no number before it was logged as committed and in conflict |
| IsolationReplay.CommitReplaysIffWindowIsGone | storage/isolation_manager.rs:156-164 | collecting its windows, a commit turns to the log if and only if the number after its snapshot's has left memory |
| IsolationReplay.PinnedCommitNeverPanics | storage/isolation_manager.rs:156-202 | a commit whose snapshot pinned its window neither replays the log nor panics, in any run |
| IsolationPanic.ReplayCanPanic | storage/isolation_manager.rs:181-195 | a run, built commit by commit, in which the commit of an unpinned snapshot replays a number without a status and panics |
| Isolation.ReinsertFollowsLastWriter | storage/isolation_manager.rs:280-331 | a put's reinsert flag after validation is set by the last committed concurrent writer of its key: true after a delete, false otherwise |
| Isolation.ReinsertUntouchedWithoutWriter | storage/isolation_manager.rs:204-226 | without such a writer the flag is unchanged; aborted predecessors leave no trace |
| Isolation.WatermarkIsExact | storage/isolation_manager.rs:426-470 | the watermark never decreases, everything up to it is finished, and when no thread is moving it the next slot is not finished |
| Isolation.DecisionsAreFinal | storage/isolation_manager.rs:575-611 | records never change, slots never become empty again, and a decision is never reversed |
| Isolation.DequeIsContiguous | storage/isolation_manager.rs:510-547 | the deque is non-empty and without gaps, the slot after the watermark is in it or just beyond its end, and every filled slot not yet freed is found in it |
| Isolation.FreedWindowsAreFinished | storage/isolation_manager.rs:414-424 | a window leaves the deque only with all slots finished and no readers |
| Isolation.OpenSnapshotPinsItsWindow | storage/isolation_manager.rs:472-485 | a snapshot whose window is in memory when its reader has been counted keeps every later slot in memory until it closes |
| Isolation.ReaderCountsAreExact | storage/isolation_manager.rs:630-642 | each window's reader count equals the snapshots that pin it, so no decrement wraps around |
| Isolation.LaterSnapshotsSeePublishedCommits | storage/storage.rs:232-276 | a snapshot requested after a commit was published opens at or above that commit |
| IsolationOpening.HighestIsGreatestPublished | storage/isolation_manager.rs:124-127 | in every state the highest number is the greatest that was published, or the one before the first commit |
| IsolationOpening.TargetsAreGivenOut | storage/storage.rs:245-263 | the number a snapshot waits for, unless the caller named it, is that of a published commit or the one before the first |
| IsolationOpening.QuietWatermarkIsLast | storage/isolation_manager.rs:426-466 | when no commit can move and none has panicked, the watermark has reached the last number |
| IsolationOpening.QuietSnapshotsOpen | storage/storage.rs:245-276 | then every waiting snapshot requested without a number can be opened, and is opened at the last number |
| IsolationOpening.OpenedWhereAsked | storage/storage.rs:245-276 | a snapshot is opened at the number it was requested at, or at a watermark between those of its request and its opening |
| IsolationOpening.SnapshotAtOpensThere | storage/storage.rs:252-255 | a snapshot requested at a number is opened at that number |
| IsolationThreads.WaitsOnlyForDependencies | storage/isolation_manager.rs:280-307 | in every run a thread that waits for a predecessor depends on it |
| IsolationThreads.PassesIndependent | storage/isolation_manager.rs:280-307 | a pending predecessor that does not matter is passed at once and changes no flag |
| IsolationThreads.DoneCommitsReleased | storage/isolation_manager.rs:124-132 | in every run a commit that is done, applied or aborted, has released its snapshot |
| IsolationProgress.WaitsForSmaller | storage/isolation_manager.rs:280-307 | an undecided commit that cannot move waits for a strictly smaller undecided number |
| IsolationProgress.SomeUndecidedCanAdvance | storage/isolation_manager.rs:613-628 | as long as some commit is undecided and none has panicked, some undecided commit can take a step |
| IsolationProgress.AdvanceUsesUpWork | storage/isolation_manager.rs:114-226 | every step of a commit's thread lowers the sum of the bounds on remaining steps |
| IsolationProgress.CommitStepsAreBounded | storage/isolation_manager.rs:114-226 | between states with the same commits, the commit threads take at most that many steps, whatever the scheduler does and whatever windows are freed and snapshots opened or closed in between |
| IsolationProgress.QuietMeansDecided | storage/isolation_manager.rs:114-143 | when no commit can move and none has panicked, every commit is applied or aborted and its status is in the log |
| WalRecords.FrameReadsBack | durability/wal.rs:419-447 | a whole frame anywhere in a file reads back as the record written |
| WalRecords.FrameLayout | durability/wal.rs:328-333 | a frame is eight bytes of number and eight of length, most significant first, one of kind, and the body |
| WalRecords.CutFrameReadsAs | durability/wal.rs:419-447 | a frame cut in its header is an error, and one cut in its body reads as what the codec makes of the rest |
| WalRecords.CutFrameIsRejected | durability/wal.rs:419-447 | a frame cut at any byte is an error or an empty payload, never another record |
| WalRecords.RecordsReadBack | durability/wal.rs:419-447 | reading a file from the start of its k-th record yields exactly the records from there on |
| WalRecords.TrimCorruptedTail | durability/wal.rs:360-382 | the loop keeps exactly the bytes that `TrimFrom` keeps |
| WalRecords.TrimmingKeepsWholeRecords | durability/wal.rs:360-382 | for a file cut at any byte, trimming leaves the whole records up to the first without a payload, and they parse |
| WalRecords.UncutFileIsKeptIff | durability/wal.rs:360-382 | a file that was not cut keeps all its records on reopening if and only if none of them is without a payload |
| WalRecords.FileNamesSortByNumber | durability/wal.rs:343-345 | file names sort as their start numbers, determine them, and differ when they differ |
| Numerals.DigitsRoundTrip | durability/durability.rs:98-112 | a number that fits the width is read back from its digits |
| Numerals.DigitsSortAsNumbers | durability/durability.rs:98-112 | fixed-width numerals sort as their numbers |
| WalStore.IterYieldsSuffix | durability/wal.rs:464-520 | iterating from s over numbered files yields exactly the records numbered at least s, in write order |
| WalStore.FindLastIsLast | durability/wal.rs:166-188 | searching the files newest first finds the last record of the type in write order |
| WalStore.LastOfKindIsLast | durability/wal.rs:174-182 | the last record of a type is the one with the greatest index among those of the type |
| WalHistory.PerformKeepsHealthy | durability/wal.rs:125-143 | a write that does not rotate onto the newest file's own path adds exactly its record |
| WalHistory.HistoryReadsBack | durability/wal.rs:125-188 | over any history of sequenced and unsequenced writes without such rotations, from any healthy log, iteration and search by type see exactly what was written |
| WalHistory.NewLogReadsBack | durability/wal.rs:125-188 | the same for a log written from scratch, with its records numbered independently of the store |
| WalCollisions.HistoryReadsBackIffNoCollision | durability/wal.rs:268-302 | over any history, from any log with or without repeated files, exactly what was written is read back if and only if no rotation reuses the newest file's path; later writes never repair one that did |
| WalCollisions.NewLogReadsBackIffNoCollision | durability/wal.rs:268-302 | the same for a log written from scratch |
| WalCollisions.HistoryGrows | durability/wal.rs:268-302 | whatever is written, every entry reads back whole records, more than were written as soon as a path was reused, and the last record of each type is the one written last |
| WalCollisions.LastOfTypeIsAlwaysFound | durability/wal.rs:166-188 | the search by type finds the record of the type written last after every history, paths reused or not |
| WalCollisions.CollisionDuplicatesRecords | durability/wal.rs:268-278 | after a rotation onto the newest file's path, that file's records are read back twice |
| WalCollisions.WriteReadsBackIffNoCollision | durability/wal.rs:268-278 | after a history without such rotations, one more write is read back if and only if it is not one |
| WalCollisions.LargeRecordThenUnsequencedCollides | durability/wal.rs:125-131 | a record that fills a file followed by an unsequenced record is such a rotation |
| WalSizes.WriteOpensFileIffFull | durability/wal.rs:275-302 | a write adds a file, named by its record, if and only if there is none or the newest has 16777216 bytes or more; otherwise the newest grows by the frame |
| WalSizes.OneFileIffSmall | durability/wal.rs:275-302 | a log written from scratch is one file if and only if the records before the last take less than 16777216 bytes |
| WalSizes.SmallHistoryReadsBack | durability/wal.rs:125-188 | such a log reads back exactly what was written, for every mix of writes |
| WalRecovery.RecoveredLogReadsBack | durability/wal.rs:242-266 | after a crash that cut the newest file at any byte, the reopened log reads back exactly the surviving records |
| WalRecovery.LoadContinuesNumbering | durability/wal.rs:74-98 | the next number is one past the last survivor if and only if nothing survived, or that survivor is numbered at least the newest file's start, or zero; otherwise numbering starts again at 1 |
| WalRecovery.RecoveredIsHealthy | durability/wal.rs:74-98 | if the newest file keeps a record, the reopened log is as healthy as one that never crashed, and its next number is one past the last survivor |
| WalRecovery.WritesAfterRecoveryReadBack | durability/wal.rs:74-98 | writes after recovery read back after the survivors |
| WalRestart.NumberingCanRestart | durability/wal.rs:80-88 | a record that fills its file and a second in a new one: if a crash empties the newest file, the next number is 1 although record 1 survived |
| WalRestart.NumberingRestarts | durability/wal.rs:80-88 | the same for sixteen mebibytes of zeros and one byte, with a given codec |
| WalRestart.PathIsReused | durability/wal.rs:268-278 | sixteen mebibytes of zeros and an unsequenced byte: what is read back is not what was written |
| WalRestart.MarkingIsFaithful | durability/wal.rs:279-284 | a codec that meets what is assumed of the compression |
| WalState.WriteAheadLog.Load | durability/wal.rs:74-98 | reopening trims the newest file, lists all files and sets the next number to `LoadNext` |
| WalState.WriteAheadLog.OpenNewFileAt | durability/wal.rs:268-273 | a new entry with the length of whatever is already at that path |
| WalState.WriteAheadLog.WriteRecord | durability/wal.rs:275-302 | opens a file exactly when there is none or the newest has 16777216 bytes or more, and leaves the store that the history theorems speak about |
| WalState.WriteAheadLog.SequencedWrite | durability/wal.rs:133-144 | takes the next number, returns it and performs the write |
| WalState.WriteAheadLog.UnsequencedWrite | durability/wal.rs:125-131 | performs the write with the previous number |
| WalState.WriteAheadLog.SeekFrom | durability/wal.rs:465-490 | the two loops find the file and position of `CurrentFile` and `SkipFrom` |
| WalState.WriteAheadLog.ReadFile | durability/wal.rs:419-432 | the loop reads exactly the records of one file from a position |
| WalState.WriteAheadLog.IterAnyFrom | durability/wal.rs:146-151 | yields `IterFrom`, or reports the error it reports |
| WalState.WriteAheadLog.FindLastType | durability/wal.rs:166-188 | yields `FindLast` |
| Fsync.AcksFollowTheirSync | durability/wal.rs:582-631 | in every interleaving each acknowledgement is sent after the end of a sync that began after the entry was pushed, which its sender did after writing its record |
| Fsync.DrainedWithinTwoRounds | durability/wal.rs:582-631 | an entry still in a buffer was pushed less than two completed rounds ago, also when its producer read a stale index |
| Fsync.WaitersAreAckedOnce | durability/wal.rs:582-631 | a waiting sender is never acknowledged twice, and is acknowledged once two rounds have completed since its push |
| Fsync.TraceIsSound | durability/wal.rs:582-631 | the invariant of the protocol: round r drains buffer r mod 2, and the buffer being synced holds only entries pushed before the sync |
| Fsync.TraceConserves | durability/wal.rs:582-631 | every push of a waiting sender is in exactly one place: a buffer or an acknowledgement |
| Fsync.AskedIdleIsServedNext | durability/wal.rs:582-631 | a sender that asks while the sync thread sleeps is acknowledged by the end of the next round |
| Fsync.RoundAcksNewestFirst | durability/wal.rs:624-630 | the senders served by one sync are acknowledged latest push first |
| FsyncDurability.DurableIffSyncedInTime | durability/wal.rs:275-306 | in every interleaving a record has been synced if and only if a sync began after its write and before the next rotation, and has ended |
| FsyncDurability.AcknowledgedIsDurableIff | durability/wal.rs:618-631 | an acknowledged record has been synced if and only if some sync, its own or an earlier one, began between its write and the next rotation |
| FsyncDurability.SyncTakesItsFileIff | durability/wal.rs:304-306 | the file synced for an acknowledgement holds the acknowledged record if and only if no rotation came between the write and the sync |
| FsyncDurability.RotatedAwayIsLost | durability/wal.rs:268-278 | a record whose file is rotated away before any sync begins is not synced, however the run goes on |
| FsyncDurability.AcknowledgedMayBeLost | durability/wal.rs:268-306 | a run in which a record is acknowledged, and in no continuation synced |
| FsyncDurability.SyncFindsAFile | durability/wal.rs:304-306 | whenever the thread begins to sync there is a newest file |
| FsyncDurability.TraceIsFiled | durability/wal.rs:268-306 | every record is in the file that was newest at its write, and what is synced of a file is what syncs in time covered |
| ReservationGate.Reservations.ReserveWriteTransaction | database/database.rs:130-145 | on the fields: granted if and only if no schema transaction runs and nobody waits, with the counter raised by one, and queued otherwise |
| ReservationGate.Reservations.ReserveSchemaTransaction | database/database.rs:147-162 | on the fields: granted if and only if nothing runs and nobody waits, with the flag set, and queued otherwise |
| ReservationGate.Reservations.ReleaseWriteTransaction | database/database.rs:164-173 | counts down by one; while writes remain nothing else changes, and at zero the waiting requests are offered |
| ReservationGate.Reservations.ReleaseSchemaTransaction | database/database.rs:175-182 | clears the flag and offers the waiting requests |
| ReservationGate.Reservations.FulfillReservationRequests | database/database.rs:211-252 | the loop terminates and serves the queue as the laws below say |
| ReservationGate.ReservationsAreExclusive | database/database.rs:130-182 | in every run the flag and the counter equal the reservations held, and a schema reservation never coexists with another |
| ReservationGate.ReleaseNeverUnderflows | database/database.rs:164-182 | whoever holds a reservation can release it: the counter is positive for a write and the flag set for a schema transaction |
| ReservationGate.NoWaiterIsStranded | database/database.rs:211-252 | whoever waits is queued, and a non-empty queue means some reservation is held |
| ReservationGate.NobodyOvertakes | database/database.rs:130-182 | grants follow the order of arrival, and every earlier request was granted or gave up |
| ReservationGate.FirstLiveRequestIsServed | database/database.rs:211-252 | when nothing is held, the first live request is granted whatever expired requests precede it |
| ReservationGate.FulfilServesAPrefix | database/database.rs:211-252 | the loop takes a prefix off the queue and grants exactly its live requests in order |
| ReservationGate.FulfilGrantsCompatibly | database/database.rs:211-252 | it grants only writes or a single schema request, and stops only at an empty queue, after a schema grant, or at a schema request while writes run |
| ReservationGate.FulfilTakesWhatItCan | database/database.rs:211-252 | how far the loop goes: no schema request, expired or not, is taken while writes run or were granted before it, and it ends at the end of the queue, after a schema grant, or at a schema request that has to wait |
| ReservationGate.WritersNeverWait | database/database.rs:130-145 | in a run without schema requests every write request is granted on arrival |
| ReservationGate.ManyWritersTogether | database/database.rs:130-145 | for every n there is a run in which n writers are held together |
| MvccKeys.EncodedReadsBack | storage/storage.rs:711-766 | key, sequence number and operation are read back from the stored bytes |
| MvccKeys.EncodedLayout | storage/storage.rs:711-790 | a stored key is the key, eight bytes for the number counted down from the greatest, and 0 for an insert or 1 for a delete |
| MvccKeys.EncodedSortsByKeyThenNewest | storage/storage.rs:711-725 | stored bytes sort by key and then newest first, for keys of which none is a proper prefix of another |
| MvccKeys.SeekPassesSmallerKeysExactly | storage/iterator.rs:151-159 | a byte-wise seek is right about all versions a key could have if and only if the target does not fall among them |
| MvccIterator.ScanAscends | storage/iterator.rs:97-119 | what is produced comes in ascending key order, once per key, after the last decided key |
| MvccIterator.ScanIsTheView | storage/iterator.rs:97-119 | what is produced is exactly what the latest-version view shows of the undecided keys |
| MvccIterator.IteratorShowsLatestVersions | storage/iterator.rs:97-119 | a fresh iterator produces exactly the keys whose newest version at or below the open number is an insert |
| MvccIterator.ProducedIffNewestIsInsert | storage/iterator.rs:97-119 | on the versions themselves: an item is produced if and only if some version of its key numbered at most the open number inserts its value and no such version is newer |
| MvccIterator.SeekIsExactIff | storage/iterator.rs:151-159 | seeking drops exactly what lies below the target if and only if the versions stored at or after the target show no undecided key below it |
| MvccIterator.SeekDropsExactlyBelow | storage/iterator.rs:151-159 | it does so whenever the target does not fall among the versions of a stored key |
| MvccIterator.SeekMayLeaveSmallerKeys | storage/iterator.rs:151-159 | a fresh iterator over two keys whose seek to an extension of the second leaves that key behind |
| MvccIterator.MvccRangeIterator.FindNextState | storage/iterator.rs:97-119 | skips to the next version to be produced, or finds that there is none |
| MvccIterator.MvccRangeIterator.Next | storage/iterator.rs:125-148 | returns and removes the first of what is left |
| MvccIterator.MvccRangeIterator.Peek | storage/iterator.rs:89-95 | returns the first of what is left and removes nothing |
| MvccIterator.MvccRangeIterator.Seek | storage/iterator.rs:151-159 | what is left is what the versions stored from the target on show beyond the next item; nothing at or above the target is lost, and it drops exactly what lies below it if and only if `SeeksExactly` held before, which it does for targets outside every key's versions |
| FunctionCalls.CollectNegatedFunctionCalls | function/function_manager.rs:383-404 | collects exactly the calls under some negation, in order |
| FunctionCalls.CollectUnnegatedFunctionCalls | function/function_manager.rs:418-438 | collects exactly the calls under no negation, in order |
| FunctionCalls.NegatedFunctionCalls | function/function_manager.rs:373-381 | the negated calls of all match stages |
| FunctionCalls.UnnegatedFunctionCalls | function/function_manager.rs:406-416 | the other calls of all match stages |
| CallSites.CollectedExactly | function/function_manager.rs:373-438 | the calls collected for a function are those at the sites of its match stages that a way through negations, branches and optionals leads to: each once, of the right sign, in the order of the text, none left out |
| CallSites.CalledIffAtSomeSite | function/function_manager.rs:373-438 | a function is among the negated (other) calls if and only if some site that is (not) under a negation calls it |
| Stratification.RejectedIsRealCycle | function/function_manager.rs:316-371 | a rejection names a real cycle of calls, one of which is negated or made by an aggregating or single-answer function, in any order of the functions |
| Stratification.StratifiedIsAccepted | function/function_manager.rs:285-305 | functions that can be stratified are accepted in any order |
| Stratification.AcceptedCompletesAll | function/function_manager.rs:285-305 | on success exactly the given functions are complete |
| Stratification.ExactWithoutPlainRecursion | function/function_manager.rs:285-371 | without recursion through plain calls, acceptance holds if and only if a stratification exists |
| StratificationExact.StrataExistIffNoRaisingCycle | function/function_manager.rs:316-371 | strata that fall along negated and aggregating calls exist if and only if no cycle of calls contains one |
| StratificationExact.RootFindsRaisingCycle | function/function_manager.rs:316-371 | a search that begins with the target of a raising call on a cycle is rejected |
| StratificationExact.RejectingOrder | function/function_manager.rs:285-305 | for every raising cycle there is an order the map can yield in which the check rejects |
| StratificationExact.AcceptedInEveryOrderIffStratified | function/function_manager.rs:285-371 | the functions are accepted in every order in which a map can yield its keys, each once, if and only if they can be stratified |
| StratificationCalls.RaisesIff | function/function_manager.rs:316-371 | which calls raise the stratum, on the text: those under a negation, and all calls of a function that returns a single answer or has an aggregating stage |
| StratificationCalls.SelfRaisingIsAlwaysRejected | function/function_manager.rs:285-371 | a function that calls itself by such a call, at any depth of its patterns, is rejected in every order |
| StratificationCalls.NegatedCallsComeFirst | function/function_manager.rs:338-360 | negated calls are followed before the others, so a function whose first negated call is to itself is the cycle reported |
| Stratification.UnstratifiedMayBeAccepted | function/function_manager.rs:323-337 | a program with a cycle through a negation that is accepted in an order the map can yield |
| StratificationSearch.CycleValidator.ValidateNoCyclesImpl | function/function_manager.rs:316-371 | the search with its map and set in place terminates and agrees with `Visit`, names included |
| StratificationSearch.CycleValidator.ValidateNoCycles | function/function_manager.rs:285-305 | the whole check agrees with `Validate`; on success every function is complete and none is active |
| StratificationSearch.CycleValidator.IdsByDepth | function/function_manager.rs:328-332 | sorting the active functions by depth gives the current path |
| QueryStructure.AddSpellsTree | compiler/query_structure.rs:346-407 | adding a tree changes only its branch entries and appended entries, and the arena spells the tree from its id |
| QueryStructure.SpellingIsUnique | compiler/query_structure.rs:246-258 | reading back from an id has one answer |
| QueryStructure.PipelineReadsBack | compiler/query_structure.rs:277-407 | given distinct branch ids and at most 65536 branch ids, roots and negations together, every stage reads back as its tree, and the ids met over all stages are exactly the branch ids and the appended ids, none twice |
| QueryStructure.LaterStagesKeepEarlier | compiler/query_structure.rs:346-407 | later stages leave every entry of earlier stages as it was |
| QueryStructure.LastIdIsIndex | compiler/query_structure.rs:397-404 | the id given to an appended entry is its index if and only if the arena has at most 65536 entries |
| QueryStructure.RootComesLast | compiler/query_structure.rs:346-407 | a conjunction without a branch id is the last entry added, after everything nested in it |
| QueryStructureBuilder.StructureBuilder.constructor | compiler/query_structure.rs:277-294 | entries are set aside for the branch ids given out |
| QueryStructureBuilder.StructureBuilder.AddConjunctionToStructure | compiler/query_structure.rs:386-407 | places an entry at its branch id or appends it |
| QueryStructureBuilder.StructureBuilder.AddConjunction | compiler/query_structure.rs:346-384 | the recursive method computes `Add` |
| QueryStructureBuilder.StructureBuilder.AddStage | compiler/query_structure.rs:296-344 | records the stage with the id of its block's root |
| QueryStructureBuilder.StructureBuilder.AddStages | compiler/query_structure.rs:127-128 | adding all stages computes `Build` |
| Reduce.ReductionIsStatistic | executor/reduce_executor.rs:181-359 | count, sum, mean and variance equal those of the rows expanded by multiplicity; minimum and maximum do if and only if every number is matched by one in a row that counts |
| Reduce.VarianceFormula | executor/reduce_executor.rs:685-697 | the formula from sums equals the squared deviations over n - 1, and is never negative |
| Reduce.FoldHolds | executor/reduce_executor.rs:193-359 | each accumulator holds the sums of the expanded rows, or the extremes of all rows |
| Reduce.OrderDoesNotMatter | executor/reduce_executor.rs:193-359 | folding the rows in any order gives the same accumulator |
| Reduce.DistinctAt | executor/read/stream_modifier.rs:246-261 | a distinct stage lets a row count once if no earlier row has its cells, and not at all otherwise |
| Reduce.DistinctIsCovered | executor/read/stream_modifier.rs:246-261 | straight after a distinct stage minimum and maximum are right |
| Reduce.OffsetMayUncountTheMinimum | executor/read/stream_modifier.rs:172-193 | after a distinct stage and an offset, the minimum may be a number that does not count |
| GroupedReduce.GroupsByRows | executor/reduce_executor.rs:37-70 | there is a group exactly for each combination that occurs, and the empty one without grouping columns, and it has accepted exactly its rows |
| GroupedReduce.GroupsByCells | executor/reduce_executor.rs:37-70 | on the cells: there is a group if and only if some row has its cells at the grouping positions, and its accumulators have folded exactly the rows that have them, in order |
| GroupedReduce.SameGroupIffAgree | executor/reduce_executor.rs:59-61 | two rows fall into one group if and only if they agree at every grouping position |
| GroupedReduce.GroupedIsStatistic | executor/reduce_executor.rs:37-97 | every result of every group is the statistic of the group's expanded rows; a minimum or maximum if and only if the group's numbers are matched by ones that count |
| GroupedReduce.GroupedInAnyOrder | executor/reduce_executor.rs:53-70 | rearranging the rows changes no group and no result |
| GroupedReduce.GroupedReducer.constructor | executor/reduce_executor.rs:37-51 | without grouping columns there is a group from the start |
| GroupedReduce.GroupedReducer.Accept | executor/reduce_executor.rs:53-70 | one row is accepted by the reducers of its group alone |
| GroupedReduce.GroupedReducer.AcceptRows | executor/pipeline/reduce.rs:62-73 | after accepting all rows the groups are exactly the combinations of cells that some row has at the grouping positions |
| GroupedReduce.GroupedReducer.Finalise | executor/reduce_executor.rs:72-97 | one output row per group, no group twice, each with its group's results |

## Left out

- I/O errors, file handles, lz4 and bincode: byte sequences and a codec with stated assumptions take their place.
- `load_aborted`, `reset`, `reset_to_watermark` and snapshot import: they replace state wholesale, and `load_aborted` marks a slot that has no record.
- A durability client that replays nothing: the isolation theorems are about a log that replays every record.
- Shutting down the sync thread, and receivers that are dropped before they are acknowledged.
- TimelineState.Timeline.MayIncrementWatermark: states the call without interference; the races between the loads and compare-and-swaps of several threads are in the protocol.
- TimelineState.Timeline.AdvanceFrom: states the loop without a compare-and-swap that fails; failing ones are in the protocol.
- Lock polling and wall-clock time of the gate: a time-out is a step that may happen at any moment.
- WalRecovery.RecoveredLogReadsBack: only the newest file may be cut.
- WalState.WriteAheadLog.SequencedWrite: does not model the counter's wrap-around at 64 bits; the history theorems require numbers that fit.
- WalState.WriteAheadLog.Load: leaves the next number open when reading fails, where the source panics.
- MvccIterator.MvccRangeIterator.Seek: read errors end the data, as in the source; a seek past an error is not modelled.
- MvccKeys.SeekPassesSmallerKeysExactly: is about all versions a key could have; what the iterator yields is in MvccIterator.SeekIsExactIff.
- Range bounds and prefix conditions of the raw iterator: the versions given are those within the range.
- QueryStructure.PipelineReadsBack: with exactly 65536 conjunctions the last id is right in wrapping arithmetic, where a build with overflow checks stops.
- QueryStructure: resolved labels, call syntax, output variables and the map from scopes to conjunction ids, which only record what was added.
- Reduce.ReductionIsStatistic: does not model 64-bit overflow of sums and counts, rounding, or the square root of the variance; Median, Double, Decimal, String and date reducers are left out.
- Stratification.ExactWithoutPlainRecursion: for programs with plain recursion, which single orders accept an unstratified program is not characterised; the exact result is the one over all orders.
- Servers, users, diagnostics, type checking, query planning and everything else in the repository.
