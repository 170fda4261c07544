/**
 When the write-ahead log opens a new file (durability/wal.rs, `Files::write_record`), with the limit written out: a
 file takes records until it has 16777216 bytes or more.
 */
module WalSizes {
  import opened Bytes
  import opened Joining
  import opened Options
  import opened WalRecords
  import opened WalStore
  import opened WalHistory
  import opened WalCollisions

  /* A write adds a file, named by its record, exactly if there is none or the newest has reached the limit. Every
     other entry stays as it is. */
  lemma WriteOpensFileIffFull(codec: Codec, store: Store, r: Record)
    ensures var files, last := Written(codec, store, r).files, |store.files| - 1;
            if store.files == [] || store.files[last].len >= 16777216
            then |files| == |store.files| + 1 && store.files <= files && files[last + 1].start == r.number
            else files == store.files[..last] + [FileEntry(store.files[last].start,
                                                           |Content(store, last)| + |Frame(codec, r)|)]
  {
    hide Frame;
  }

  /* The one file of a log holds everything written so far. */
  ghost predicate InOneFile(codec: Codec, log: Log, rs: seq<Record>) {
    && |log.store.files| == 1
    && log.store.files[0].start in log.store.disk
    && Content(log.store, 0) == Frames(codec, rs) && log.store.files[0].len == |Frames(codec, rs)|
  }

  lemma FirstWriteOpensFile(codec: Codec, op: Op)
    ensures InOneFile(codec, Perform(codec, EMPTY_LOG, op), [RecordFor(EMPTY_LOG, op)])
  {
    hide Frame;
    var r := RecordFor(EMPTY_LOG, op);
    WrittenToNewFile(codec, EMPTY_LOG.store, r);
    SingleFrame(codec, r);
  }

  lemma NextWriteStays(codec: Codec, log: Log, rs: seq<Record>, op: Op)
    requires InOneFile(codec, log, rs) && |Frames(codec, rs)| < 16777216
    ensures InOneFile(codec, Perform(codec, log, op), rs + [RecordFor(log, op)])
    ensures !Collides(log.store, RecordFor(log, op))
  {
    hide Frame, Frames;
    FramesOfAppend(codec, rs, RecordFor(log, op));
  }

  lemma FramesGrow(codec: Codec, rs: seq<Record>, r: Record)
    ensures |Frames(codec, rs)| <= |Frames(codec, rs + [r])|
  {
    FramesOfAppend(codec, rs, r);
  }

  lemma {:induction false} NumbersAreCounted(codec: Codec, ops: seq<Op>)
    ensures PerformAll(codec, EMPTY_LOG, ops).next == 1 + SequencedIn(ops)
  {
    hide Written;
    if ops != [] {
      NumbersAreCounted(codec, ops[..|ops| - 1]);
    }
  }

  lemma {:induction false} FilesNeverFewer(codec: Codec, ops: seq<Op>)
    requires ops != []
    ensures var before, after := PerformAll(codec, EMPTY_LOG, ops[..|ops| - 1]), PerformAll(codec, EMPTY_LOG, ops);
            |after.store.files| == |before.store.files| + if Rotates(before.store) then 1 else 0
  {
    hide Written;
    var before, op := PerformAll(codec, EMPTY_LOG, ops[..|ops| - 1]), ops[|ops| - 1];
    FilesAfterWrite(codec, before.store, RecordFor(before, op));
  }

  /* A log written from scratch has one file if and only if the records before the last one take less than the
     limit; that file then holds everything, and no rotation reused a path. */
  lemma {:induction false} OneFileIffSmall(codec: Codec, ops: seq<Op>)
    requires ops != []
    ensures var log, before := PerformAll(codec, EMPTY_LOG, ops), RecordsOf(0, ops[..|ops| - 1]);
            && (|log.store.files| == 1 <==> |Frames(codec, before)| < 16777216)
            && |log.store.files| >= 1
            && (|log.store.files| == 1 ==>
                  InOneFile(codec, log, RecordsOf(0, ops)) && CollisionFree(codec, EMPTY_LOG, ops))
  {
    hide Written, Frames, Frame;
    var earlier, op := ops[..|ops| - 1], ops[|ops| - 1];
    var log := PerformAll(codec, EMPTY_LOG, earlier);
    NumbersAreCounted(codec, earlier);
    FilesNeverFewer(codec, ops);
    if earlier == [] {
      FirstWriteOpensFile(codec, op);
      NothingTakesNoBytes(codec);
      assert RecordsOf(0, ops) == [] + [RecordFor(EMPTY_LOG, op)] == [RecordFor(EMPTY_LOG, op)];
    } else {
      OneFileIffSmall(codec, earlier);
      var before := earlier[..|earlier| - 1];
      var r := Record(SequencedIn(earlier), earlier[|earlier| - 1].kind, earlier[|earlier| - 1].payload);
      assert RecordsOf(0, earlier) == RecordsOf(0, before) + [r];
      FramesGrow(codec, RecordsOf(0, before), r);
      if |log.store.files| == 1 && |Frames(codec, RecordsOf(0, earlier))| < 16777216 {
        NextWriteStays(codec, log, RecordsOf(0, earlier), op);
      }
    }
  }

  lemma NothingTakesNoBytes(codec: Codec)
    ensures Frames(codec, []) == []
  {
    JoinedOfNone<Byte>();
  }

  /* Whatever the mix of sequenced and unsequenced writes, a log whose records before the last one take less than
     16777216 bytes is one file and reads back exactly what was written. */
  lemma SmallHistoryReadsBack(codec: Codec, ops: seq<Op>, s: nat, kind: Byte)
    requires Faithful(codec) && Fits(codec, 1, ops)
    requires ops == [] || |Frames(codec, RecordsOf(0, ops[..|ops| - 1]))| < 16777216
    ensures var store := PerformAll(codec, EMPTY_LOG, ops).store;
            && |store.files| == (if ops == [] then 0 else 1)
            && IterFrom(codec, store, s) == Some(From(RecordsOf(0, ops), s))
            && FindLast(codec, store, kind, |store.files|) == Some(LastOfKind(RecordsOf(0, ops), kind))
  {
    hide Faithful, Fits, Frames, IterFrom, FindLast, From, LastOfKind, RecordsOf;
    if ops != [] {
      OneFileIffSmall(codec, ops);
    }
    NewLogReadsBack(codec, ops, s, kind);
  }
}
