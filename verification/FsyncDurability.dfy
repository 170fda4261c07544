/**
 What an acknowledgement of the sync thread is worth (durability/wal.rs, `sync_all`): only the newest file is
 synced, and a rotation syncs nothing, so a record whose file was rotated away in time is never synced.
 */
module FsyncDurability {
  import opened Fsync

  /* The record written at this moment has been synced. */
  ghost predicate Durable(s: State, w: nat) {
    exists i :: 0 <= i < |s.files| && w in s.files[i].synced
  }

  predicate Written(trace: seq<Step>, t: nat) {
    t < |trace| && trace[t].Write?
  }

  predicate RotatedAt(trace: seq<Step>, t: nat) {
    Written(trace, t) && trace[t].rotate
  }

  ghost predicate NoRotation(trace: seq<Step>, from: nat, to: nat) {
    forall t: nat :: from < t < to ==> !RotatedAt(trace, t)
  }

  ghost predicate Ended(trace: seq<Step>, b: nat) {
    exists e: nat :: b < e && Happened(trace, e, EndSync)
  }

  /* A sync began after the write and before the next rotation, and has ended. */
  ghost predicate Covered(trace: seq<Step>, w: nat) {
    exists b: nat :: w < b && Happened(trace, b, BeginSync) && Ended(trace, b) && NoRotation(trace, w, b)
  }

  /******* Which file holds a record *******/

  /* How many files the steps of a trace have opened. */
  function RotationsIn(trace: seq<Step>): nat {
    if trace == [] then 0
    else RotationsIn(trace[..|trace| - 1]) + (if RotatedAt(trace, |trace| - 1) then 1 else 0)
  }

  /* Which file is the newest once the step at t is taken, counting from one. */
  function FileAt(trace: seq<Step>, t: nat): nat
    requires t < |trace|
  {
    RotationsIn(trace[..t + 1])
  }

  lemma RotationsOfAppend(trace: seq<Step>, step: Step)
    ensures RotationsIn(trace + [step]) == RotationsIn(trace) + if step.Write? && step.rotate then 1 else 0
  {
    assert (trace + [step])[..|trace|] == trace;
  }

  lemma NextRotations(trace: seq<Step>, n: nat)
    requires n < |trace|
    ensures RotationsIn(trace[..n + 1]) == RotationsIn(trace[..n]) + if RotatedAt(trace, n) then 1 else 0
  {
    assert trace[..n + 1] == trace[..n] + [trace[n]];
    RotationsOfAppend(trace[..n], trace[n]);
  }

  /* The count stays the same exactly as long as nothing rotates. */
  lemma {:induction false} SameFileIffNoRotation(trace: seq<Step>, w: nat, n: nat)
    requires w < n <= |trace|
    ensures FileAt(trace, w) <= RotationsIn(trace[..n])
    ensures FileAt(trace, w) == RotationsIn(trace[..n]) <==> NoRotation(trace, w, n)
    decreases n
  {
    hide RotationsIn, RotatedAt;
    if n > w + 1 {
      SameFileIffNoRotation(trace, w, n - 1);
      NextRotations(trace, n - 1);
    }
  }

  /******* The files hold what was written and synced *******/

  ghost predicate HoldsRecords(trace: seq<Step>, file: File, number: nat) {
    forall w: nat :: w in file.records <==> Written(trace, w) && FileAt(trace, w) == number
  }

  ghost predicate HoldsSynced(trace: seq<Step>, file: File) {
    forall w: nat :: w in file.synced <==> w in file.records && Covered(trace, w)
  }

  /* Nothing is written during a sync, and only the latest sync may not have ended. */
  ghost predicate SyncAlone(trace: seq<Step>, pc: Pc) {
    && (pc.Syncing? ==> forall t: nat :: pc.began < t ==> !Written(trace, t))
    && (forall b: nat :: Happened(trace, b, BeginSync) ==> Ended(trace, b) || (pc.Syncing? && pc.began == b))
  }

  ghost predicate Filed(trace: seq<Step>, s: State) {
    && |s.files| == RotationsIn(trace)
    && (forall i: nat :: i < |s.files| ==> HoldsRecords(trace, s.files[i], i + 1))
    && (forall i: nat :: i < |s.files| ==> HoldsSynced(trace, s.files[i]))
    && SyncAlone(trace, s.pc)
  }

  lemma FileAtLater(trace: seq<Step>, step: Step, w: nat)
    requires w < |trace|
    ensures FileAt(trace + [step], w) == FileAt(trace, w)
  {
    assert (trace + [step])[..w + 1] == trace[..w + 1];
  }

  lemma NoRotationLater(trace: seq<Step>, step: Step, w: nat, b: nat)
    requires b <= |trace|
    ensures NoRotation(trace + [step], w, b) <==> NoRotation(trace, w, b)
  {
    assert forall t: nat :: t < b ==> (RotatedAt(trace + [step], t) <==> RotatedAt(trace, t));
  }

  lemma EndedLater(trace: seq<Step>, step: Step, b: nat)
    ensures Ended(trace, b) ==> Ended(trace + [step], b)
    ensures !step.EndSync? && Ended(trace + [step], b) ==> Ended(trace, b)
    ensures step.EndSync? && b < |trace| ==> Ended(trace + [step], b)
  {
    var trace' := trace + [step];
    if e: nat :| b < e && Happened(trace, e, EndSync) {
      assert Happened(trace', e, EndSync);
    }
    if step.EndSync? && b < |trace| {
      assert Happened(trace', |trace|, EndSync);
    }
    if e: nat :| b < e && Happened(trace', e, EndSync) && !step.EndSync? {
      assert Happened(trace, e, EndSync);
    }
  }

  /* Only the end of a sync covers further records. */
  lemma CoveredLater(trace: seq<Step>, step: Step, w: nat)
    ensures Covered(trace, w) ==> Covered(trace + [step], w)
    ensures !step.EndSync? && Covered(trace + [step], w) ==> Covered(trace, w)
  {
    hide Ended, NoRotation;
    var trace' := trace + [step];
    if b: nat :| w < b && Happened(trace, b, BeginSync) && Ended(trace, b) && NoRotation(trace, w, b) {
      EndedLater(trace, step, b);
      NoRotationLater(trace, step, w, b);
      assert Happened(trace', b, BeginSync);
    }
    if !step.EndSync? && Covered(trace', w) {
      var b: nat :| w < b && Happened(trace', b, BeginSync) && Ended(trace', b) && NoRotation(trace', w, b);
      EndedLater(trace, step, b);
      NothingEndsLater(trace, b);
      NoRotationLater(trace, step, w, b);
      assert Happened(trace, b, BeginSync);
    }
  }

  lemma NothingEndsLater(trace: seq<Step>, b: nat)
    requires Ended(trace, b)
    ensures b < |trace|
  {
  }

  /* The end of a sync covers what was written before it began, unless it was rotated away. */
  lemma CoveredByEnd(trace: seq<Step>, s: State, w: nat)
    requires SyncAlone(trace, s.pc) && s.pc.Syncing? && Happened(trace, s.pc.began, BeginSync)
    ensures Covered(trace + [EndSync], w) <==>
            Covered(trace, w) || (w < s.pc.began && NoRotation(trace, w, s.pc.began))
  {
    hide Ended, NoRotation;
    var trace', began := trace + [EndSync], s.pc.began;
    CoveredLater(trace, EndSync, w);
    EndedLater(trace, EndSync, began);
    NoRotationLater(trace, EndSync, w, began);
    assert Happened(trace', began, BeginSync);
    if Covered(trace', w) && !Covered(trace, w) {
      var b: nat :| w < b && Happened(trace', b, BeginSync) && Ended(trace', b) && NoRotation(trace', w, b);
      NoRotationLater(trace, EndSync, w, b);
      assert Happened(trace, b, BeginSync);
    }
  }

  /* What is in the newest file can be synced now, what is in an earlier one cannot. */
  lemma NewestIsInTime(trace: seq<Step>, s: State, w: nat)
    requires SyncAlone(trace, s.pc) && s.pc.Syncing? && Happened(trace, s.pc.began, BeginSync) && Written(trace, w)
    ensures FileAt(trace, w) == RotationsIn(trace) <==> w < s.pc.began && NoRotation(trace, w, s.pc.began)
  {
    hide RotationsIn;
    assert trace[..|trace|] == trace;
    SameFileIffNoRotation(trace, w, |trace|);
  }

  lemma NewRecord(trace: seq<Step>, step: Step, w: nat)
    ensures Written(trace + [step], w) <==> Written(trace, w) || (step.Write? && w == |trace|)
  {
  }

  lemma RecordsLater(trace: seq<Step>, step: Step, file: File, number: nat)
    requires HoldsRecords(trace, file, number)
    requires step.Write? ==> RotationsIn(trace + [step]) != number
    ensures HoldsRecords(trace + [step], file, number)
  {
    hide RotationsIn;
    assert (trace + [step])[..|trace| + 1] == trace + [step];
    forall w: nat
      ensures w in file.records <==> Written(trace + [step], w) && FileAt(trace + [step], w) == number
    {
      NewRecord(trace, step, w);
      if w < |trace| {
        FileAtLater(trace, step, w);
      }
    }
  }

  lemma RecordAdded(trace: seq<Step>, step: Step, file: File, number: nat)
    requires HoldsRecords(trace, file, number) && step.Write? && RotationsIn(trace + [step]) == number
    ensures HoldsRecords(trace + [step], file.(records := file.records + {|trace|}), number)
  {
    hide RotationsIn;
    assert (trace + [step])[..|trace| + 1] == trace + [step];
    forall w: nat
      ensures w in file.records + {|trace|} <==> Written(trace + [step], w) && FileAt(trace + [step], w) == number
    {
      NewRecord(trace, step, w);
      if w < |trace| {
        FileAtLater(trace, step, w);
      }
    }
  }

  /* Nothing has been written to the file that is opened next. */
  lemma NextFileIsEmpty(trace: seq<Step>)
    ensures HoldsRecords(trace, File({}, {}), RotationsIn(trace) + 1)
  {
    hide RotationsIn;
    forall w: nat | Written(trace, w) ensures FileAt(trace, w) <= RotationsIn(trace) {
      assert trace[..|trace|] == trace;
      SameFileIffNoRotation(trace, w, |trace|);
    }
  }

  lemma RecordsOfNewFile(trace: seq<Step>, step: Step)
    requires step.Write? && step.rotate
    ensures HoldsRecords(trace + [step], File({|trace|}, {}), RotationsIn(trace + [step]))
  {
    hide RotationsIn, HoldsRecords;
    RotationsOfAppend(trace, step);
    NextFileIsEmpty(trace);
    RecordAdded(trace, step, File({}, {}), RotationsIn(trace) + 1);
    assert {} + {|trace|} == {|trace|};
  }

  lemma SyncedLater(trace: seq<Step>, step: Step, file: File, file': File)
    requires HoldsSynced(trace, file) && !step.EndSync? && file'.synced == file.synced
    requires file'.records == file.records || file'.records == file.records + {|trace|}
    ensures HoldsSynced(trace + [step], file')
  {
    hide Covered;
    forall w: nat ensures w in file'.synced <==> w in file'.records && Covered(trace + [step], w) {
      CoveredLater(trace, step, w);
      CoveredIsEarlier(trace, w);
    }
  }

  lemma CoveredIsEarlier(trace: seq<Step>, w: nat)
    ensures Covered(trace, w) ==> w < |trace|
  {
  }

  lemma SyncedAtEnd(trace: seq<Step>, s: State, file: File, number: nat)
    requires SyncAlone(trace, s.pc) && s.pc.Syncing? && Happened(trace, s.pc.began, BeginSync)
    requires HoldsRecords(trace, file, number) && HoldsSynced(trace, file)
    ensures HoldsSynced(trace + [EndSync],
                        if number == RotationsIn(trace) then file.(synced := file.records) else file)
  {
    hide Covered, RotationsIn, FileAt, SyncAlone;
    var file' := if number == RotationsIn(trace) then file.(synced := file.records) else file;
    forall w: nat ensures w in file'.synced <==> w in file'.records && Covered(trace + [EndSync], w) {
      CoveredByEnd(trace, s, w);
      if Written(trace, w) {
        NewestIsInTime(trace, s, w);
      }
    }
  }

  lemma StepSyncsAlone(trace: seq<Step>, s: State, step: Step)
    requires Sound(trace, s) && SyncAlone(trace, s.pc) && Enabled(s, step)
    ensures SyncAlone(trace + [step], Apply(s, step).pc)
  {
    hide Ended, EntriesTimely, EntriesRecorded, WritesRecorded, AcksInOrder, SyncCovers, Alternates, RoundsIn;
    var trace', pc' := trace + [step], Apply(s, step).pc;
    forall b: nat | Happened(trace', b, BeginSync) ensures Ended(trace', b) || (pc'.Syncing? && pc'.began == b) {
      EndedLater(trace, step, b);
      if b < |trace| {
        assert Happened(trace, b, BeginSync);
      }
    }
    if pc'.Syncing? {
      forall t: nat | pc'.began < t ensures !Written(trace', t) {
        NewRecord(trace, step, t);
      }
    }
  }

  /* A write puts its record into the newest file, or into a new one. */
  lemma WriteFiles(trace: seq<Step>, files: seq<File>, step: Step, i: nat)
    requires step.Write? && (files == [] ==> step.rotate) && |files| == RotationsIn(trace)
    requires forall k: nat :: k < |files| ==> HoldsRecords(trace, files[k], k + 1)
    requires forall k: nat :: k < |files| ==> HoldsSynced(trace, files[k])
    requires i < |Stored(files, |trace|, step.rotate)|
    ensures var files' := Stored(files, |trace|, step.rotate);
            && |files'| == RotationsIn(trace + [step])
            && HoldsRecords(trace + [step], files'[i], i + 1) && HoldsSynced(trace + [step], files'[i])
  {
    hide RotationsIn, HoldsRecords, HoldsSynced;
    var files' := Stored(files, |trace|, step.rotate);
    RotationsOfAppend(trace, step);
    if i == |files| {
      RecordsOfNewFile(trace, step);
      assert HoldsSynced(trace, File({}, {})) by { NothingIsSynced(trace); }
      SyncedLater(trace, step, File({}, {}), files'[i]);
    } else {
      SyncedLater(trace, step, files[i], files'[i]);
      if i == |files'| - 1 {
        RecordAdded(trace, step, files[i], i + 1);
      } else {
        RecordsLater(trace, step, files[i], i + 1);
      }
    }
  }

  lemma NothingIsSynced(trace: seq<Step>)
    ensures HoldsSynced(trace, File({}, {}))
  {
  }

  lemma StepFiles(trace: seq<Step>, s: State, step: Step, i: nat)
    requires Sound(trace, s) && Filed(trace, s) && Enabled(s, step) && i < |Apply(s, step).files|
    ensures var files' := Apply(s, step).files;
            && |files'| == RotationsIn(trace + [step])
            && HoldsRecords(trace + [step], files'[i], i + 1) && HoldsSynced(trace + [step], files'[i])
  {
    hide RotationsIn, HoldsRecords, HoldsSynced, SyncAlone, EntriesTimely, EntriesRecorded, AcksInOrder, SyncCovers;
    RotationsOfAppend(trace, step);
    if step.Write? {
      WriteFiles(trace, s.files, step, i);
    } else {
      var file' := Apply(s, step).files[i];
      RecordsLater(trace, step, s.files[i], i + 1);
      RecordsDecideFile(trace + [step], s.files[i], file', i + 1);
      if step.EndSync? {
        SyncedAtEnd(trace, s, s.files[i], i + 1);
      } else {
        SyncedLater(trace, step, s.files[i], file');
      }
    }
  }

  lemma RecordsDecideFile(trace: seq<Step>, file: File, file': File, number: nat)
    requires HoldsRecords(trace, file, number) && file'.records == file.records
    ensures HoldsRecords(trace, file', number)
  {
  }

  lemma StepKeepsFiled(trace: seq<Step>, s: State, step: Step)
    requires Sound(trace, s) && Filed(trace, s) && Enabled(s, step)
    ensures Filed(trace + [step], Apply(s, step))
  {
    StepSyncsAlone(trace, s, step);
    StepOpensFiles(trace, s, step);
    hide RotationsIn, HoldsRecords, HoldsSynced, SyncAlone, Sound, Apply;
    var s', trace' := Apply(s, step), trace + [step];
    forall i: nat | i < |s'.files|
      ensures HoldsRecords(trace', s'.files[i], i + 1) && HoldsSynced(trace', s'.files[i])
    {
      StepFiles(trace, s, step, i);
    }
  }

  lemma StepOpensFiles(trace: seq<Step>, s: State, step: Step)
    requires Enabled(s, step) && |s.files| == RotationsIn(trace)
    ensures |Apply(s, step).files| == RotationsIn(trace + [step])
  {
    hide RotationsIn;
    RotationsOfAppend(trace, step);
  }

  lemma {:induction false} TraceIsFiled(trace: seq<Step>)
    requires Legal(trace)
    ensures Filed(trace, After(trace))
  {
    if trace != [] {
      hide Sound, Filed;
      var before, step := trace[..|trace| - 1], trace[|trace| - 1];
      TraceIsFiled(before);
      TraceIsSound(before);
      assert trace == before + [step];
      StepKeepsFiled(before, After(before), step);
    } else {
      assert Filed([], INIT);
    }
  }

  /******* Which records become durable *******/

  /* The first write opens a file, so every record is in one. */
  lemma {:induction false} WritesHaveFiles(trace: seq<Step>, w: nat)
    requires Legal(trace) && Written(trace, w)
    ensures 0 < FileAt(trace, w) <= |After(trace).files|
    decreases |trace|
  {
    var before, step := trace[..|trace| - 1], trace[|trace| - 1];
    assert trace == before + [step];
    TraceIsFiled(before);
    TraceIsFiled(trace);
    hide Sound, Filed, RotationsIn;
    RotationsOfAppend(before, step);
    if w < |before| {
      WritesHaveFiles(before, w);
      FileAtLater(before, step, w);
    } else {
      assert trace[..w + 1] == trace;
    }
  }

  /* Whatever the interleaving, a record is durable if and only if a sync began after it was written and before
     the next rotation, and has ended. */
  lemma DurableIffSyncedInTime(trace: seq<Step>, w: nat)
    requires Legal(trace) && Written(trace, w)
    ensures Durable(After(trace), w) <==> Covered(trace, w)
  {
    hide RotationsIn, Covered;
    TraceIsFiled(trace);
    WritesHaveFiles(trace, w);
    var files, i := After(trace).files, FileAt(trace, w) - 1;
    assert HoldsRecords(trace, files[i], i + 1) && HoldsSynced(trace, files[i]);
    if k: nat :| k < |files| && w in files[k].synced {
      assert HoldsSynced(trace, files[k]);
    }
  }

  lemma FewerRotations(trace: seq<Step>, w: nat, n: nat, b: nat)
    requires NoRotation(trace, w, b) && n <= b
    ensures NoRotation(trace, w, n)
  {
  }

  ghost predicate SyncBeganInTime(trace: seq<Step>, w: nat, latest: nat) {
    exists b: nat :: w < b <= latest && Happened(trace, b, BeginSync) && NoRotation(trace, w, b)
  }

  /* An acknowledged record is durable if and only if some sync, its own or an earlier one, began after it was
     written and before the next rotation. */
  lemma AcknowledgedIsDurableIff(trace: seq<Step>, i: nat)
    requires Legal(trace) && i < |After(trace).acks|
    ensures var a := After(trace).acks[i];
            Durable(After(trace), a.written) <==> SyncBeganInTime(trace, a.written, a.began)
  {
    hide Durable;
    var a := After(trace).acks[i];
    AcksFollowTheirSync(trace, i);
    DurableIffSyncedInTime(trace, a.written);
    if Covered(trace, a.written) {
      var b: nat :| a.written < b && Happened(trace, b, BeginSync) && NoRotation(trace, a.written, b);
      if b > a.began {
        FewerRotations(trace, a.written, a.began, b);
      }
    }
    if b: nat :| a.written < b <= a.began && Happened(trace, b, BeginSync) && NoRotation(trace, a.written, b) {
      assert b < a.ended && Happened(trace, a.ended, EndSync);
      assert Ended(trace, b);
    }
  }

  lemma NewestHolds(trace: seq<Step>, w: nat)
    requires Legal(trace) && Written(trace, w)
    ensures var files := After(trace).files;
            files != [] && (w in files[|files| - 1].records <==> FileAt(trace, w) == RotationsIn(trace))
  {
    hide RotationsIn, HoldsSynced, SyncAlone, Legal, After;
    TraceIsFiled(trace);
    WritesHaveFiles(trace, w);
    var files := After(trace).files;
    assert HoldsRecords(trace, files[|files| - 1], |files|);
  }

  /* The file that is synced for an acknowledgement holds the acknowledged record if and only if no rotation came
     between the write and the sync. */
  lemma SyncTakesItsFileIff(trace: seq<Step>, i: nat)
    requires Legal(trace) && i < |After(trace).acks|
    ensures var a := After(trace).acks[i];
            && a.began < |trace| && Legal(trace[..a.began])
            && var files := After(trace[..a.began]).files;
               && files != []
               && (a.written in files[|files| - 1].records <==> NoRotation(trace, a.written, a.began))
  {
    hide RotationsIn, Legal, After, NoRotation;
    var a := After(trace).acks[i];
    AcksFollowTheirSync(trace, i);
    PrefixIsLegal(trace, a.began);
    NewestHolds(trace[..a.began], a.written);
    SameFileIffNoRotation(trace, a.written, a.began);
    assert trace[..a.began][..a.written + 1] == trace[..a.written + 1];
  }

  /* Whenever the thread begins to sync there is a file to sync. */
  lemma SyncFindsAFile(trace: seq<Step>)
    requires Legal(trace) && Enabled(After(trace), BeginSync)
    ensures After(trace).files != []
  {
    TraceIsSound(trace);
    var s := After(trace);
    var e := Buffer(s, s.pc.index)[0];
    assert Recorded(trace, e);
    WritesHaveFiles(trace, e.written);
  }

  /******* A record that is acknowledged and lost *******/

  /* A record is written, another write rotates, and only then is the first one's request served. */
  const LOSING: seq<Step> :=
    [Write(0, true), Write(1, true), ReadIndex(0), Push(0, true), LoadCurrent, Flip, Lock, BeginSync, EndSync, Pop]

  /* A record whose file is rotated away before any sync begins is not durable, however the run goes on. */
  lemma RotatedAwayIsLost(trace: seq<Step>, w: nat, t: nat)
    requires Legal(trace) && Written(trace, w) && w < t && RotatedAt(trace, t)
    requires forall b: nat :: w < b < t ==> !Happened(trace, b, BeginSync)
    ensures !Durable(After(trace), w)
  {
    hide Durable;
    DurableIffSyncedInTime(trace, w);
  }

  lemma OneMoreStep(trace: seq<Step>, step: Step)
    requires Legal(trace) && Enabled(After(trace), step)
    ensures Legal(trace + [step]) && After(trace + [step]) == Apply(After(trace), step)
  {
    assert (trace + [step])[..|trace|] == trace;
  }

  const REQUESTED: seq<Step> := [Write(0, true), Write(1, true), ReadIndex(0), Push(0, true)]

  lemma RequestIsMade()
    ensures Legal(REQUESTED)
    ensures var s := After(REQUESTED);
            Buffer(s, 0) == [Entry(0, 3, 0, true)] && s.current == 0 && s.pc.Idle? && s.clock == 4 && s.acks == []
  {
    var t0: seq<Step> := [];
    assert Legal(t0) && After(t0) == INIT;
    hide Legal, After;
    OneMoreStep(t0, Write(0, true));
    var t1 := t0 + [Write(0, true)];
    OneMoreStep(t1, Write(1, true));
    var t2 := t1 + [Write(1, true)];
    OneMoreStep(t2, ReadIndex(0));
    var t3 := t2 + [ReadIndex(0)];
    OneMoreStep(t3, Push(0, true));
    assert t3 + [Push(0, true)] == REQUESTED;
  }

  lemma RequestIsServed()
    ensures Legal(LOSING) && After(LOSING).acks == [Ack(0, 3, 7, 8, 9)]
  {
    RequestIsMade();
    hide Legal, After;
    var t0 := REQUESTED;
    OneMoreStep(t0, LoadCurrent);
    var t1 := t0 + [LoadCurrent];
    OneMoreStep(t1, Flip);
    var t2 := t1 + [Flip];
    OneMoreStep(t2, Lock);
    var t3 := t2 + [Lock];
    OneMoreStep(t3, BeginSync);
    var t4 := t3 + [BeginSync];
    OneMoreStep(t4, EndSync);
    var t5 := t4 + [EndSync];
    OneMoreStep(t5, Pop);
    assert t5 + [Pop] == LOSING;
  }

  /* The first record is acknowledged, and not durable however the run goes on. */
  lemma AcknowledgedMayBeLost(more: seq<Step>)
    ensures Legal(LOSING) && |After(LOSING).acks| == 1 && After(LOSING).acks[0].written == 0
    ensures Legal(LOSING + more) ==> !Durable(After(LOSING + more), 0)
  {
    hide Durable, Legal, After;
    RequestIsServed();
    if Legal(LOSING + more) {
      assert RotatedAt(LOSING + more, 1);
      RotatedAwayIsLost(LOSING + more, 0, 1);
    }
  }
}
