/**
 The write-ahead log over whole histories of writes (durability/wal.rs, `WAL` and `Files`): what is read
 back as long as no rotation reuses a path.
 */
module WalHistory {
  import opened Bytes
  import opened Joining
  import opened Numerals
  import opened Options
  import opened WalRecords
  import opened WalStore

  /******* Writing one record *******/

  predicate Rotates(store: Store) {
    store.files == [] || store.files[|store.files| - 1].len >= MAX_WAL_FILE_SIZE
  }

  /* A rotation onto the start number, hence the path, of the newest file. */
  predicate Collides(store: Store, r: Record) {
    Rotates(store) && store.files != [] && r.number == store.files[|store.files| - 1].start
  }

  function Rotated(store: Store, r: Record): (s: Store)
    ensures s.files != []
  {
    if !Rotates(store) then store
    else
      var existing := if r.number in store.disk then store.disk[r.number] else [];
      Store(store.disk[r.number := existing], store.files + [FileEntry(r.number, |existing|)])
  }

  /* Appending to the newest file. */
  function Appended(codec: Codec, store: Store, r: Record): (s: Store)
    requires store.files != []
  {
    var last := |store.files| - 1;
    var start := store.files[last].start;
    var content := Content(store, last) + Frame(codec, r);
    Store(store.disk[start := content], store.files[last := FileEntry(start, |content|)])
  }

  function Written(codec: Codec, store: Store, r: Record): (s: Store) {
    Appended(codec, Rotated(store, r), r)
  }

  /* The segments after a write to a healthy store. */
  function SegmentsAfter(store: Store, segs: seq<seq<Record>>, r: Record): (s: seq<seq<Record>>)
    requires |segs| == |store.files|
  {
    if Rotates(store) then segs + [[r]] else segs[|segs| - 1 := segs[|segs| - 1] + [r]]
  }

  /* The next number may repeat the last one or follow it. */
  ghost predicate Follows(segs: seq<seq<Record>>, r: Record) {
    forall i :: 0 <= i < |segs| ==> NumbersUpTo(segs[i], r.number)
  }

  ghost predicate NextInLast(segs: seq<seq<Record>>, r: Record) {
    segs != [] && segs[|segs| - 1] != [] ==>
      var last := segs[|segs| - 1]; last[|last| - 1].number <= r.number <= last[|last| - 1].number + 1
  }

  ghost predicate NoEmptySegment(segs: seq<seq<Record>>) {
    forall i :: 0 <= i < |segs| ==> segs[i] != []
  }

  lemma AppendKeepsNumbered(rs: seq<Record>, start: nat, r: Record)
    requires Numbered(rs, start) && rs != []
    requires rs[|rs| - 1].number <= r.number <= rs[|rs| - 1].number + 1
    ensures Numbered(rs + [r], start)
  {
  }

  lemma FramesOfAppend(codec: Codec, rs: seq<Record>, r: Record)
    ensures Frames(codec, rs + [r]) == Frames(codec, rs) + Frame(codec, r)
  {
    hide Frame;
    FramesOfConcat(codec, rs, [r]);
    assert FrameList(codec, [r]) == [Frame(codec, r)];
    JoinedOfOne(Frame(codec, r));
  }

  /* Appending to the newest of files with pairwise different paths. */
  lemma AppendRepresents(codec: Codec, store: Store, segs: seq<seq<Record>>, r: Record)
    requires Represents(codec, store, segs) && segs != [] && NoEmptySegment(segs)
    requires Framable(codec, r) && Follows(segs, r) && NextInLast(segs, r)
    ensures Represents(codec, Appended(codec, store, r), segs[|segs| - 1 := segs[|segs| - 1] + [r]])
  {
    hide Frame, Framable, Frames;
    var last := |segs| - 1;
    var store', segs' := Appended(codec, store, r), segs[last := segs[last] + [r]];
    FramesOfAppend(codec, segs[last], r);
    assert Holds(codec, store, segs, last);
    AppendKeepsNumbered(segs[last], store.files[last].start, r);
    forall i: nat | i < |segs'|
      ensures Holds(codec, store', segs', i)
      ensures Content(store', i) == Frames(codec, segs'[i]) && store'.files[i].start in store'.disk
    {
      assert Holds(codec, store, segs, i);
      if i < last {
        assert store.files[i].start < store.files[last].start;
      }
    }
  }

  lemma OpenNewFile(codec: Codec, store: Store, segs: seq<seq<Record>>, r: Record)
    requires Represents(codec, store, segs) && Framable(codec, r) && Follows(segs, r)
    requires forall i :: 0 <= i < |store.files| ==> store.files[i].start < r.number
    requires r.number !in store.disk
    ensures var grown := Store(store.disk[r.number := Frame(codec, r)],
                               store.files + [FileEntry(r.number, |Frame(codec, r)|)]);
            Represents(codec, grown, segs + [[r]])
  {
    hide Frame, Framable, Frames;
    var grown := Store(store.disk[r.number := Frame(codec, r)], store.files + [FileEntry(r.number, |Frame(codec, r)|)]);
    var segs' := segs + [[r]];
    assert Frames(codec, [r]) == Frame(codec, r) by {
      SingleFrame(codec, r);
    }
    forall i: nat | i < |segs'|
      ensures Holds(codec, grown, segs', i)
      ensures Content(grown, i) == Frames(codec, segs'[i]) && grown.files[i].start in grown.disk
    {
      if i < |segs| {
        assert Holds(codec, store, segs, i);
      }
    }
  }

  lemma SingleFrame(codec: Codec, r: Record)
    ensures Frames(codec, [r]) == Frame(codec, r)
  {
    hide Frame;
    assert FrameList(codec, [r]) == [Frame(codec, r)];
    JoinedOfOne(Frame(codec, r));
  }

  /******* Histories *******/

  datatype Op = Sequenced(kind: Byte, payload: ByteString) | Unsequenced(kind: Byte, payload: ByteString)

  datatype Log = Log(store: Store, next: nat)

  const EMPTY_LOG: Log := Log(Store(map[], []), 1)

  /* A sequenced record takes the next number, an unsequenced one repeats the previous number. */
  function RecordFor(log: Log, op: Op): Record {
    match op
    case Sequenced(kind, payload) => Record(log.next, kind, payload)
    case Unsequenced(kind, payload) => Record(if log.next == 0 then 0 else log.next - 1, kind, payload)
  }

  function Perform(codec: Codec, log: Log, op: Op): (r: Log) {
    Log(Written(codec, log.store, RecordFor(log, op)), if op.Sequenced? then log.next + 1 else log.next)
  }

  function PerformAll(codec: Codec, log: Log, ops: seq<Op>): (r: Log) {
    if ops == [] then log else Perform(codec, PerformAll(codec, log, ops[..|ops| - 1]), ops[|ops| - 1])
  }

  /* How many sequenced writes there are. */
  function SequencedIn(ops: seq<Op>): nat {
    if ops == [] then 0 else SequencedIn(ops[..|ops| - 1]) + (if ops[|ops| - 1].Sequenced? then 1 else 0)
  }

  /* What was written, in order, when `last` was the last number taken before: the n-th sequenced record is
     numbered last + n, and an unsequenced record takes the number of the sequenced record before it. */
  function RecordsOf(last: nat, ops: seq<Op>): (rs: seq<Record>) {
    if ops == [] then []
    else
      var op := ops[|ops| - 1];
      RecordsOf(last, ops[..|ops| - 1]) + [Record(last + SequencedIn(ops), op.kind, op.payload)]
  }

  ghost predicate Fits(codec: Codec, next: nat, ops: seq<Op>) {
    && next + |ops| < Pow(256, NUMBER_BYTES)
    && (forall k :: 0 <= k < |ops| ==> |codec.encode(ops[k].payload)| < Pow(256, NUMBER_BYTES))
  }

  ghost predicate CollisionFree(codec: Codec, log: Log, ops: seq<Op>) {
    ops == [] ||
    (var before, op := ops[..|ops| - 1], ops[|ops| - 1];
     && CollisionFree(codec, log, before)
     && !Collides(PerformAll(codec, log, before).store, RecordFor(PerformAll(codec, log, before), op)))
  }

  ghost predicate NoStrayFiles(store: Store) {
    forall path :: path in store.disk ==> exists i: nat :: i < |store.files| && store.files[i].start == path
  }

  ghost predicate Healthy(codec: Codec, log: Log, segs: seq<seq<Record>>) {
    && Represents(codec, log.store, segs)
    && NoEmptySegment(segs)
    && NoStrayFiles(log.store)
    && log.next >= 1
    && (forall i :: 0 <= i < |segs| ==> NumbersUpTo(segs[i], log.next - 1))
    && (segs != [] ==> var last := segs[|segs| - 1]; last != [] && last[|last| - 1].number == log.next - 1)
  }

  lemma HealthyFacts(codec: Codec, log: Log, segs: seq<seq<Record>>, op: Op)
    requires Healthy(codec, log, segs)
    ensures var r := RecordFor(log, op); Follows(segs, r) && NextInLast(segs, r)
    ensures forall i :: 0 <= i < |segs| ==> log.store.files[i].start <= log.next - 1
    ensures |segs| == |log.store.files|
  {
    hide Readable, Frames;
    var r := RecordFor(log, op);
    OneEntryPerSegment(codec, log.store, segs);
    forall i | 0 <= i < |segs|
      ensures NumbersUpTo(segs[i], r.number)
      ensures log.store.files[i].start <= log.next - 1
    {
      FirstIsBounded(segs[i], log.store.files[i].start, log.next - 1, r.number);
    }
  }

  lemma FirstIsBounded(rs: seq<Record>, start: nat, bound: nat, bound': nat)
    requires Numbered(rs, start) && NumbersUpTo(rs, bound) && rs != [] && bound <= bound'
    ensures start <= bound && NumbersUpTo(rs, bound')
  {
  }

  /* Rotating without a collision opens a path that is not in use. */
  lemma RotationIsFresh(codec: Codec, log: Log, segs: seq<seq<Record>>, op: Op)
    requires Healthy(codec, log, segs) && Rotates(log.store) && !Collides(log.store, RecordFor(log, op))
    ensures var r := RecordFor(log, op);
            && r.number !in log.store.disk
            && (forall i :: 0 <= i < |log.store.files| ==> log.store.files[i].start < r.number)
  {
    hide Represents, NumbersUpTo, NoEmptySegment, Follows, NextInLast;
    var r, files := RecordFor(log, op), log.store.files;
    HealthyFacts(codec, log, segs, op);
    StartsAscend(codec, log.store, segs);
    forall i | 0 <= i < |files| ensures files[i].start < r.number {
      var last := |files| - 1;
      assert files[last].start <= log.next - 1 <= r.number;
      assert i < last ==> files[i].start < files[last].start;
    }
  }

  lemma StartsAscend(codec: Codec, store: Store, segs: seq<seq<Record>>)
    requires Represents(codec, store, segs)
    ensures forall i, j :: 0 <= i < j < |store.files| ==> store.files[i].start < store.files[j].start
  {
    hide Readable, Numbered, NumbersUpTo;
  }

  lemma WrittenRepresents(codec: Codec, log: Log, segs: seq<seq<Record>>, op: Op)
    requires Healthy(codec, log, segs) && !Collides(log.store, RecordFor(log, op)) &&
             Framable(codec, RecordFor(log, op))
    ensures |segs| == |log.store.files|
    ensures var r := RecordFor(log, op);
            Represents(codec, Written(codec, log.store, r), SegmentsAfter(log.store, segs, r))
  {
    hide Represents, Frame, Framable, NoStrayFiles, Written, Appended, NumbersUpTo;
    var r := RecordFor(log, op);
    HealthyFacts(codec, log, segs, op);
    if Rotates(log.store) {
      RotationIsFresh(codec, log, segs, op);
      OpenNewFile(codec, log.store, segs, r);
      WrittenToNewFile(codec, log.store, r);
    } else {
      AppendRepresents(codec, log.store, segs, r);
      assert Rotated(log.store, r) == log.store;
      WrittenIsAppended(codec, log.store, r);
    }
  }

  lemma WrittenIsAppended(codec: Codec, store: Store, r: Record)
    ensures Written(codec, store, r) == Appended(codec, Rotated(store, r), r)
  {
  }

  lemma WrittenToNewFile(codec: Codec, store: Store, r: Record)
    requires Rotates(store) && r.number !in store.disk
    ensures Written(codec, store, r) ==
            Store(store.disk[r.number := Frame(codec, r)], store.files + [FileEntry(r.number, |Frame(codec, r)|)])
  {
    hide Frame;
    assert [] + Frame(codec, r) == Frame(codec, r);
    var rotated, written := Rotated(store, r), Written(codec, store, r);
    assert Content(rotated, |store.files|) == [];
    assert written.disk == store.disk[r.number := Frame(codec, r)];
    assert written.files == store.files + [FileEntry(r.number, |Frame(codec, r)|)];
  }

  lemma NoStrayAfterWrite(codec: Codec, store: Store, r: Record)
    requires NoStrayFiles(store)
    ensures NoStrayFiles(Written(codec, store, r))
  {
    hide Frame;
    var store' := Written(codec, store, r);
    forall path | path in store'.disk ensures exists i: nat :: i < |store'.files| && store'.files[i].start == path {
      if path in store.disk {
        var i: nat :| i < |store.files| && store.files[i].start == path;
        assert store'.files[i].start == path;
      } else {
        assert store'.files[|store'.files| - 1].start == path;
      }
    }
  }

  lemma SegmentsAfterJoin(store: Store, segs: seq<seq<Record>>, r: Record)
    requires |segs| == |store.files|
    ensures Joined(SegmentsAfter(store, segs, r)) == Joined(segs) + [r]
  {
    hide Joined;
    var after := SegmentsAfter(store, segs, r);
    JoinedLast(after);
    if Rotates(store) {
      assert after[..|after| - 1] == segs;
    } else {
      assert after[..|after| - 1] == segs[..|segs| - 1];
      JoinedLast(segs);
      assert Joined(segs[..|segs| - 1]) + (segs[|segs| - 1] + [r]) ==
        (Joined(segs[..|segs| - 1]) + segs[|segs| - 1]) + [r];
    }
  }

  /* The segments after a write are non-empty, bounded, and end with the record written. */
  lemma SegmentsAfterEnd(store: Store, segs: seq<seq<Record>>, r: Record, i: nat)
    requires |segs| == |store.files| && i < |SegmentsAfter(store, segs, r)|
    requires NoEmptySegment(segs) && Follows(segs, r)
    ensures var after := SegmentsAfter(store, segs, r);
            && after[i] != [] && NumbersUpTo(after[i], r.number)
            && (i == |after| - 1 ==> after[i][|after[i]| - 1] == r)
  {
    if i < |segs| {
      assert NumbersUpTo(segs[i], r.number);
    }
  }

  lemma PerformKeepsHealthy(codec: Codec, log: Log, segs: seq<seq<Record>>, op: Op)
    requires Healthy(codec, log, segs) && !Collides(log.store, RecordFor(log, op)) &&
             Framable(codec, RecordFor(log, op))
    ensures |segs| == |log.store.files|
    ensures var segs' := SegmentsAfter(log.store, segs, RecordFor(log, op));
            Healthy(codec, Perform(codec, log, op), segs') && Joined(segs') == Joined(segs) + [RecordFor(log, op)]
  {
    hide Written, Represents, Framable, NoStrayFiles, NumbersUpTo, SegmentsAfter, Joined, Follows;
    var r := RecordFor(log, op);
    HealthyFacts(codec, log, segs, op);
    WrittenRepresents(codec, log, segs, op);
    NoStrayAfterWrite(codec, log.store, r);
    SegmentsAfterJoin(log.store, segs, r);
    var segs' := SegmentsAfter(log.store, segs, r);
    forall i | 0 <= i < |segs'|
      ensures NumbersUpTo(segs'[i], r.number) && segs'[i] != []
      ensures i == |segs'| - 1 ==> segs'[i][|segs'[i]| - 1] == r
    {
      SegmentsAfterEnd(log.store, segs, r, i);
    }
  }

  lemma {:induction false} HistoryIsHealthy(codec: Codec, log: Log, before: seq<seq<Record>>, ops: seq<Op>)
    returns (segs: seq<seq<Record>>)
    requires Healthy(codec, log, before) && CollisionFree(codec, log, ops) && Fits(codec, log.next, ops)
    ensures log.next > 0
    ensures Healthy(codec, PerformAll(codec, log, ops), segs)
    ensures Joined(segs) == Joined(before) + RecordsOf(log.next - 1, ops)
    ensures PerformAll(codec, log, ops).next == log.next + SequencedIn(ops) <= log.next + |ops|
  {
    hide Healthy, Collides, Written, Joined, SegmentsAfter, Fits, Framable;
    NextIsPositive(codec, log, before);
    segs := before;
    if ops != [] {
      var earlier, op := ops[..|ops| - 1], ops[|ops| - 1];
      LastOpFits(codec, log.next, ops);
      var segs0 := HistoryIsHealthy(codec, log, before, earlier);
      var log' := PerformAll(codec, log, earlier);
      var r := RecordFor(log', op);
      FitsMeansFramable(codec, log.next, ops, r);
      PerformKeepsHealthy(codec, log', segs0, op);
      segs := SegmentsAfter(log'.store, segs0, r);
      assert (Joined(before) + RecordsOf(log.next - 1, earlier)) + [r] == Joined(before) + RecordsOf(log.next - 1, ops);
    }
  }

  lemma LastOpFits(codec: Codec, next: nat, ops: seq<Op>)
    requires Fits(codec, next, ops) && ops != []
    ensures Fits(codec, next, ops[..|ops| - 1])
  {
  }

  lemma FitsMeansFramable(codec: Codec, next: nat, ops: seq<Op>, r: Record)
    requires Fits(codec, next, ops) && ops != [] && r.number < next + |ops| && r.payload == ops[|ops| - 1].payload
    ensures Framable(codec, r)
  {
  }

  lemma NextIsPositive(codec: Codec, log: Log, segs: seq<seq<Record>>)
    requires Healthy(codec, log, segs)
    ensures log.next > 0
  {
  }

  lemma EmptyIsHealthy(codec: Codec)
    ensures Healthy(codec, EMPTY_LOG, [])
  {
  }

  /* Over any history of sequenced and unsequenced writes whose rotations pick unused start numbers,
     iterating from s yields exactly the records numbered at least s in write order, and the last record of
     a type is the last one written. */
  lemma HistoryReadsBack(codec: Codec, log: Log, before: seq<seq<Record>>, ops: seq<Op>, s: nat, kind: Byte)
    requires Faithful(codec) && Healthy(codec, log, before)
    requires CollisionFree(codec, log, ops) && Fits(codec, log.next, ops)
    ensures var store, all := PerformAll(codec, log, ops).store, Joined(before) + RecordsOf(log.next - 1, ops);
            && IterFrom(codec, store, s) == Some(From(all, s))
            && FindLast(codec, store, kind, |store.files|) == Some(LastOfKind(all, kind))
  {
    hide Faithful, Fits, CollisionFree, PerformAll, IterFrom, FindLast, Readable, Ordered;
    var segs := HistoryIsHealthy(codec, log, before, ops);
    var store := PerformAll(codec, log, ops).store;
    IterYieldsSuffix(codec, store, segs, s);
    FindLastIsLast(codec, store, segs, kind, |segs|);
    OneEntryPerSegment(codec, store, segs);
    assert segs[..|segs|] == segs;
  }

  /* The same for a log written from scratch. */
  lemma NewLogReadsBack(codec: Codec, ops: seq<Op>, s: nat, kind: Byte)
    requires Faithful(codec) && CollisionFree(codec, EMPTY_LOG, ops) && Fits(codec, 1, ops)
    ensures var store := PerformAll(codec, EMPTY_LOG, ops).store;
            && IterFrom(codec, store, s) == Some(From(RecordsOf(0, ops), s))
            && FindLast(codec, store, kind, |store.files|) == Some(LastOfKind(RecordsOf(0, ops), kind))
  {
    hide Faithful, Fits, CollisionFree, PerformAll, IterFrom, FindLast, From, LastOfKind;
    EmptyIsHealthy(codec);
    HistoryReadsBack(codec, EMPTY_LOG, [], ops, s, kind);
    assert Joined([]) + RecordsOf(0, ops) == RecordsOf(0, ops);
  }
}
