/**
 Histories of the write-ahead log in which rotations may reuse the newest file's path (durability/wal.rs,
 `Files::write_record`): what is then read back, and when that is what was written.
 */
module WalCollisions {
  import opened Bytes
  import opened Joining
  import opened Options
  import opened WalRecords
  import opened WalStore
  import opened WalHistory

  /******* What every history keeps *******/

  predicate StartsClimb(files: seq<FileEntry>) {
    forall i, j :: 0 <= i < j < |files| ==> files[i].start <= files[j].start
  }

  /* The newest file holds the records of its segment and nothing else. */
  ghost predicate NewestIs(codec: Codec, store: Store, rs: seq<Record>) {
    && store.files != []
    && store.files[|store.files| - 1].start in store.disk
    && Content(store, |store.files| - 1) == Frames(codec, rs)
  }

  /* A log in which several entries may stand for the same file; each reads its own prefix of it. */
  ghost predicate Grown(codec: Codec, log: Log, segs: seq<seq<Record>>) {
    && Readable(codec, log.store, segs)
    && NoEmptySegment(segs)
    && StartsClimb(log.store.files)
    && NoStrayFiles(log.store)
    && log.next >= 1
    && (segs != [] ==>
          && NewestIs(codec, log.store, segs[|segs| - 1])
          && log.store.files[|segs| - 1].start <= log.next - 1)
  }

  /* What each entry reads after a write: a rotation onto the newest file's path repeats that file's records. */
  function Regrown(store: Store, segs: seq<seq<Record>>, r: Record): (s: seq<seq<Record>>)
    requires |segs| == |store.files|
  {
    if Collides(store, r) then segs + [segs[|segs| - 1] + [r]] else SegmentsAfter(store, segs, r)
  }

  lemma HealthyIsGrown(codec: Codec, log: Log, segs: seq<seq<Record>>)
    requires Healthy(codec, log, segs)
    ensures Grown(codec, log, segs)
  {
    hide Readable, Frames;
    if segs != [] {
      var last := |segs| - 1;
      FirstIsBounded(segs[last], log.store.files[last].start, log.next - 1, log.next - 1);
    }
  }

  lemma AppendGrows(codec: Codec, store: Store, segs: seq<seq<Record>>, r: Record)
    requires Readable(codec, store, segs) && segs != [] && NewestIs(codec, store, segs[|segs| - 1])
    requires Framable(codec, r)
    ensures var last := segs[|segs| - 1] + [r];
            && Readable(codec, Appended(codec, store, r), segs[|segs| - 1 := last])
            && NewestIs(codec, Appended(codec, store, r), last)
  {
    hide Frame, Framable, Frames;
    var last := |segs| - 1;
    var store', segs' := Appended(codec, store, r), segs[last := segs[last] + [r]];
    FramesOfAppend(codec, segs[last], r);
    assert Holds(codec, store, segs, last);
    forall i: nat | i < |segs'| ensures Holds(codec, store', segs', i) {
      assert Holds(codec, store, segs, i);
      if i < last {
        assert Content(store, i) <= Content(store', i);
      }
    }
  }

  lemma NewFileGrows(codec: Codec, store: Store, segs: seq<seq<Record>>, r: Record)
    requires Readable(codec, store, segs) && Framable(codec, r) && r.number !in store.disk
    requires forall i :: 0 <= i < |store.files| ==> store.files[i].start != r.number
    ensures var grown := Store(store.disk[r.number := Frame(codec, r)],
                               store.files + [FileEntry(r.number, |Frame(codec, r)|)]);
            Readable(codec, grown, segs + [[r]]) && NewestIs(codec, grown, [r])
  {
    hide Frame, Framable, Frames;
    var grown := Store(store.disk[r.number := Frame(codec, r)], store.files + [FileEntry(r.number, |Frame(codec, r)|)]);
    var segs' := segs + [[r]];
    SingleFrame(codec, r);
    forall i: nat | i < |segs'| ensures Holds(codec, grown, segs', i) {
      if i < |segs| {
        assert Holds(codec, store, segs, i);
      }
    }
  }

  /* What such a write does: the newest file grows, and a second entry for it is added. */
  lemma CollidingWrite(codec: Codec, store: Store, r: Record)
    requires Collides(store, r) && r.number in store.disk
    ensures var content := store.disk[r.number] + Frame(codec, r);
            Written(codec, store, r) ==
              Store(store.disk[r.number := content], store.files + [FileEntry(r.number, |content|)])
  {
    hide Frame;
    var rotated, last := Rotated(store, r), |store.files|;
    assert rotated.files[last] == FileEntry(r.number, |store.disk[r.number]|);
    var content := store.disk[r.number] + Frame(codec, r);
    assert Content(rotated, last) == store.disk[r.number];
    assert rotated.files[last := FileEntry(r.number, |content|)] == store.files + [FileEntry(r.number, |content|)];
    assert rotated.disk[r.number := content] == store.disk[r.number := content];
  }

  lemma CollisionGrows(codec: Codec, store: Store, segs: seq<seq<Record>>, r: Record)
    requires Readable(codec, store, segs) && segs != [] && NewestIs(codec, store, segs[|segs| - 1])
    requires Collides(store, r) && Framable(codec, r)
    ensures var last := segs[|segs| - 1] + [r];
            && Readable(codec, Written(codec, store, r), segs + [last])
            && NewestIs(codec, Written(codec, store, r), last)
  {
    hide Frame, Framable, Frames, Written;
    var last := |segs| - 1;
    var segs' := segs + [segs[last] + [r]];
    assert Holds(codec, store, segs, last);
    FramesOfAppend(codec, segs[last], r);
    CollidingWrite(codec, store, r);
    var store' := Written(codec, store, r);
    forall i: nat | i < |segs'| ensures Holds(codec, store', segs', i) {
      if i <= last {
        assert Holds(codec, store, segs, i);
        assert Content(store, i) <= Content(store', i);
      }
    }
  }

  /* The path of a rotation is either the newest file's or not in use. */
  lemma RotationCollidesOrIsFresh(codec: Codec, log: Log, segs: seq<seq<Record>>, op: Op)
    requires Grown(codec, log, segs) && !Collides(log.store, RecordFor(log, op)) && Rotates(log.store)
    ensures var r := RecordFor(log, op);
            && r.number !in log.store.disk
            && (forall i :: 0 <= i < |log.store.files| ==> log.store.files[i].start < r.number)
  {
    hide Readable, Frames;
    var r, files := RecordFor(log, op), log.store.files;
    OneEntryPerSegment(codec, log.store, segs);
    forall i | 0 <= i < |files| ensures files[i].start < r.number {
      var last := |files| - 1;
      assert files[last].start <= log.next - 1 <= r.number;
      assert i < last ==> files[i].start <= files[last].start;
    }
  }

  lemma WriteGrows(codec: Codec, log: Log, segs: seq<seq<Record>>, op: Op)
    requires Grown(codec, log, segs) && Framable(codec, RecordFor(log, op))
    ensures |segs| == |log.store.files|
    ensures var r := RecordFor(log, op);
            var store', segs' := Written(codec, log.store, r), Regrown(log.store, segs, r);
            && Readable(codec, store', segs') && segs' != [] && NewestIs(codec, store', segs'[|segs'| - 1])
  {
    hide Readable, Frame, Framable, Frames, NoStrayFiles, Written, Appended, NewestIs;
    var r := RecordFor(log, op);
    OneEntryPerSegment(codec, log.store, segs);
    if Collides(log.store, r) {
      CollisionGrows(codec, log.store, segs, r);
    } else if Rotates(log.store) {
      RotationCollidesOrIsFresh(codec, log, segs, op);
      NewFileGrows(codec, log.store, segs, r);
      WrittenToNewFile(codec, log.store, r);
    } else {
      AppendGrows(codec, log.store, segs, r);
      WrittenIsAppended(codec, log.store, r);
    }
  }

  /* How the list of files changes: an entry at the end, or a new length for the last one. */
  lemma FilesAfterWrite(codec: Codec, store: Store, r: Record)
    ensures var files := Written(codec, store, r).files;
            if Rotates(store)
            then |files| == |store.files| + 1 && store.files <= files && files[|store.files|].start == r.number
            else |files| == |store.files| && forall i :: 0 <= i < |files| ==> files[i].start == store.files[i].start
  {
    hide Frame;
  }

  lemma PerformGrows(codec: Codec, log: Log, segs: seq<seq<Record>>, op: Op)
    requires Grown(codec, log, segs) && Framable(codec, RecordFor(log, op))
    ensures |segs| == |log.store.files|
    ensures Grown(codec, Perform(codec, log, op), Regrown(log.store, segs, RecordFor(log, op)))
  {
    hide Readable, Framable, Frames, NoStrayFiles, Written, NewestIs;
    var r := RecordFor(log, op);
    OneEntryPerSegment(codec, log.store, segs);
    WriteGrows(codec, log, segs, op);
    NoStrayAfterWrite(codec, log.store, r);
    FilesAfterWrite(codec, log.store, r);
    var files := log.store.files;
    if files != [] {
      assert files[|files| - 1].start <= log.next - 1 <= r.number;
      assert forall i :: 0 <= i < |files| ==> files[i].start <= files[|files| - 1].start;
    }
  }

  /******* What every history is read back as *******/

  lemma JoinedWithRepeat(segs: seq<seq<Record>>, r: Record)
    requires segs != []
    ensures Joined(segs + [segs[|segs| - 1] + [r]]) == Joined(segs) + segs[|segs| - 1] + [r]
  {
    hide Joined;
    var again := segs[|segs| - 1] + [r];
    JoinedOfConcat(segs, [again]);
    JoinedOfOne(again);
    assert Joined(segs) + again == Joined(segs) + segs[|segs| - 1] + [r];
  }

  lemma RegrownJoins(store: Store, segs: seq<seq<Record>>, r: Record)
    requires |segs| == |store.files|
    ensures Joined(Regrown(store, segs, r)) ==
            Joined(segs) + (if Collides(store, r) then segs[|segs| - 1] else []) + [r]
  {
    hide Joined;
    if Collides(store, r) {
      JoinedWithRepeat(segs, r);
    } else {
      SegmentsAfterJoin(store, segs, r);
      assert Joined(segs) + [] + [r] == Joined(segs) + [r];
    }
  }

  /* Repeating records that are already there does not change which record of a type is last. */
  ghost predicate SameLast(a: seq<Record>, b: seq<Record>) {
    forall kind: Byte :: LastOfKind(a, kind) == LastOfKind(b, kind)
  }

  lemma RepeatKeepsLast(segs: seq<seq<Record>>, written: seq<Record>, again: seq<Record>, r: Record)
    requires SameLast(Joined(segs), written)
    requires again == [] || (segs != [] && again == segs[|segs| - 1])
    ensures SameLast(Joined(segs) + again + [r], written + [r])
  {
    hide Joined, LastOfKind;
    forall kind: Byte ensures LastOfKind(Joined(segs) + again + [r], kind) == LastOfKind(written + [r], kind) {
      LastOfConcat(Joined(segs) + again, [r], kind);
      LastOfConcat(Joined(segs), again, kind);
      LastOfConcat(written, [r], kind);
      if segs != [] {
        JoinedLast(segs);
        LastOfConcat(Joined(segs[..|segs| - 1]), segs[|segs| - 1], kind);
      }
      if again == [] {
        assert Joined(segs) + again == Joined(segs);
      }
    }
  }

  /* Whatever is written, each entry reads back whole records. There is one more than was written for every
     repeated one, and none is repeated only if no rotation reuses a path. */
  lemma {:induction false} HistoryGrows(codec: Codec, log: Log, before: seq<seq<Record>>, ops: seq<Op>)
    returns (segs: seq<seq<Record>>)
    requires Grown(codec, log, before) && Fits(codec, log.next, ops)
    ensures log.next >= 1
    ensures Grown(codec, PerformAll(codec, log, ops), segs)
    ensures PerformAll(codec, log, ops).next == log.next + SequencedIn(ops) <= log.next + |ops|
    ensures var written := Joined(before) + RecordsOf(log.next - 1, ops);
            && SameLast(Joined(segs), written)
            && (if CollisionFree(codec, log, ops) then Joined(segs) == written else |Joined(segs)| > |written|)
  {
    hide Grown, Collides, Written, Joined, Regrown, Fits, Framable, LastOfKind;
    GrownFacts(codec, log, before);
    segs := before;
    if ops == [] {
      assert Joined(before) + RecordsOf(log.next - 1, ops) == Joined(before);
    } else {
      var earlier, op := ops[..|ops| - 1], ops[|ops| - 1];
      LastOpFits(codec, log.next, ops);
      var segs0 := HistoryGrows(codec, log, before, earlier);
      var log' := PerformAll(codec, log, earlier);
      var r := RecordFor(log', op);
      FitsMeansFramable(codec, log.next, ops, r);
      GrownFacts(codec, log', segs0);
      PerformGrows(codec, log', segs0, op);
      segs := Regrown(log'.store, segs0, r);
      RegrownJoins(log'.store, segs0, r);
      var written := Joined(before) + RecordsOf(log.next - 1, earlier);
      assert written + [r] == Joined(before) + RecordsOf(log.next - 1, ops);
      RepeatKeepsLast(segs0, written, if Collides(log'.store, r) then segs0[|segs0| - 1] else [], r);
      if !Collides(log'.store, r) {
        assert Joined(segs0) + [] + [r] == Joined(segs0) + [r];
      }
    }
  }

  lemma GrownFacts(codec: Codec, log: Log, segs: seq<seq<Record>>)
    requires Grown(codec, log, segs)
    ensures log.next >= 1 && |segs| == |log.store.files| && Readable(codec, log.store, segs)
    ensures forall r :: Collides(log.store, r) ==> segs != [] && segs[|segs| - 1] != []
  {
    hide Frames;
  }

  lemma IterFromZeroReadsAll(codec: Codec, store: Store)
    ensures IterFrom(codec, store, 0) == ReadOn(codec, store, 0, 0)
  {
  }

  lemma EverythingIsRead(codec: Codec, store: Store, segs: seq<seq<Record>>)
    requires Faithful(codec) && Readable(codec, store, segs)
    ensures IterFrom(codec, store, 0) == Some(Joined(segs))
  {
    hide Faithful, Readable, ReadOn, IterFrom, Joined;
    ReadOnYieldsAll(codec, store, segs, 0);
    assert segs[0..] == segs;
    IterFromZeroReadsAll(codec, store);
  }

  /* Over any history whatever, what is read back is what was written if and only if no rotation reused the
     newest file's path. Later writes never make up for one that did. */
  lemma HistoryReadsBackIffNoCollision(codec: Codec, log: Log, before: seq<seq<Record>>, ops: seq<Op>)
    requires Faithful(codec) && Grown(codec, log, before) && Fits(codec, log.next, ops)
    ensures log.next >= 1
    ensures var written := Joined(before) + RecordsOf(log.next - 1, ops);
            IterFrom(codec, PerformAll(codec, log, ops).store, 0) == Some(written) <==> CollisionFree(codec, log, ops)
  {
    hide Faithful, Grown, Fits, CollisionFree, PerformAll, IterFrom, Readable, Joined, RecordsOf, SameLast;
    var segs := HistoryGrows(codec, log, before, ops);
    GrownFacts(codec, PerformAll(codec, log, ops), segs);
    EverythingIsRead(codec, PerformAll(codec, log, ops).store, segs);
  }

  /* The same for a log written from scratch. */
  lemma NewLogReadsBackIffNoCollision(codec: Codec, ops: seq<Op>)
    requires Faithful(codec) && Fits(codec, 1, ops)
    ensures IterFrom(codec, PerformAll(codec, EMPTY_LOG, ops).store, 0) == Some(RecordsOf(0, ops)) <==>
            CollisionFree(codec, EMPTY_LOG, ops)
  {
    hide Faithful, Grown, Healthy, Fits, CollisionFree, PerformAll, IterFrom, Joined, RecordsOf;
    EmptyIsHealthy(codec);
    HealthyIsGrown(codec, EMPTY_LOG, []);
    HistoryReadsBackIffNoCollision(codec, EMPTY_LOG, [], ops);
    JoinedOfNone<Record>();
    assert [] + RecordsOf(0, ops) == RecordsOf(0, ops);
  }

  /* After a history without such rotations, one more write is read back if and only if it is not one. */
  lemma WriteReadsBackIffNoCollision(codec: Codec, ops: seq<Op>, op: Op)
    requires Faithful(codec) && CollisionFree(codec, EMPTY_LOG, ops) && Fits(codec, 1, ops + [op])
    ensures var log := PerformAll(codec, EMPTY_LOG, ops);
            IterFrom(codec, PerformAll(codec, EMPTY_LOG, ops + [op]).store, 0) == Some(RecordsOf(0, ops + [op])) <==>
            !Collides(log.store, RecordFor(log, op))
  {
    hide Faithful, IterFrom, Written, Collides, Fits;
    assert (ops + [op])[..|ops|] == ops;
    NewLogReadsBackIffNoCollision(codec, ops + [op]);
  }

  /* The search for the last record of a type is right after every history, whether or not paths are reused. */
  lemma LastOfTypeIsAlwaysFound(codec: Codec, log: Log, before: seq<seq<Record>>, ops: seq<Op>, kind: Byte)
    requires Faithful(codec) && Grown(codec, log, before) && Fits(codec, log.next, ops)
    ensures log.next >= 1
    ensures var store := PerformAll(codec, log, ops).store;
            FindLast(codec, store, kind, |store.files|) ==
            Some(LastOfKind(Joined(before) + RecordsOf(log.next - 1, ops), kind))
  {
    hide Faithful, Grown, Fits, CollisionFree, PerformAll, FindLast, Readable, Joined, RecordsOf, LastOfKind;
    var segs := HistoryGrows(codec, log, before, ops);
    GrownFacts(codec, PerformAll(codec, log, ops), segs);
    FindLastIsLast(codec, PerformAll(codec, log, ops).store, segs, kind, |segs|);
    assert segs[..|segs|] == segs;
  }

  /******* What a reused path looks like *******/

  /* After such a rotation the newest file is listed twice: its records are read back a second time. */
  lemma CollisionDuplicatesRecords(codec: Codec, log: Log, segs: seq<seq<Record>>, r: Record)
    requires Faithful(codec) && Grown(codec, log, segs) && Collides(log.store, r) && Framable(codec, r)
    ensures segs != [] && segs[|segs| - 1] != []
    ensures IterFrom(codec, Written(codec, log.store, r), 0) == Some(Joined(segs) + segs[|segs| - 1] + [r])
  {
    hide Faithful, Framable, Written, Readable, Collides, IterFrom, NewestIs;
    GrownFacts(codec, log, segs);
    CollisionGrows(codec, log.store, segs, r);
    EverythingIsRead(codec, Written(codec, log.store, r), segs + [segs[|segs| - 1] + [r]]);
    JoinedWithRepeat(segs, r);
  }

  /* A single record that fills a file, followed by an unsequenced one, is such a case: the second record
     rotates onto the file just written. */
  lemma LargeRecordThenUnsequencedCollides(codec: Codec, kind: Byte, payload: ByteString, op: Op)
    requires HEADER_BYTES + |codec.encode(payload)| >= MAX_WAL_FILE_SIZE && op.Unsequenced?
    ensures var log := PerformAll(codec, EMPTY_LOG, [Sequenced(kind, payload)]); Collides(log.store, RecordFor(log, op))
  {
    hide Frame;
    var first := Sequenced(kind, payload);
    assert [first][..|[first]| - 1] == [];
    assert PerformAll(codec, EMPTY_LOG, []) == EMPTY_LOG;
    var r := RecordFor(EMPTY_LOG, first);
    var rotated := Rotated(EMPTY_LOG.store, r);
    assert rotated.files == [FileEntry(1, 0)];
    assert Content(rotated, 0) == [];
    var log := PerformAll(codec, EMPTY_LOG, [first]);
    assert log == Perform(codec, EMPTY_LOG, first);
    assert log.store.files == [FileEntry(1, |Frame(codec, r)|)];
  }
}
