/**
 A log whose numbering starts again after a crash (durability/wal.rs, `WAL::load`), and a codec of the kind the
 log's theorems assume.
 */
module WalRestart {
  import opened Bytes
  import opened Joining
  import opened Numerals
  import opened Options
  import opened WalRecords
  import opened WalStore
  import opened WalHistory
  import opened WalCollisions
  import opened WalRecovery

  /******* A codec that rejects proper prefixes *******/

  /* Every byte after a 1, and a 0 at the end. */
  function Marked(x: ByteString): (y: ByteString)
    ensures |y| == 2 * |x| + 1
  {
    if x == [] then [0] else [1, x[0]] + Marked(x[1..])
  }

  function Unmarked(y: ByteString): Option<ByteString> {
    if y == [] then None
    else if y[0] == 0 then if |y| == 1 then Some([]) else None
    else if |y| == 1 then None
    else
      var rest := Unmarked(y[2..]);
      if rest.None? then None else Some([y[1]] + rest.value)
  }

  const MARKING: Codec := Codec(x => Marked(x), y => Unmarked(y))

  lemma {:induction false} MarkedReadsBack(x: ByteString)
    ensures Unmarked(Marked(x)) == Some(x)
  {
    if x != [] {
      MarkedReadsBack(x[1..]);
      assert Marked(x)[2..] == Marked(x[1..]);
      assert [x[0]] + x[1..] == x;
    }
  }

  lemma {:induction false} CutMarkedIsRejected(x: ByteString, n: nat)
    requires n < |Marked(x)|
    ensures Unmarked(Marked(x)[..n]) == None
  {
    if x != [] && n >= 2 {
      CutMarkedIsRejected(x[1..], n - 2);
      assert Marked(x)[2..] == Marked(x[1..]);
      assert Marked(x)[..n][2..] == Marked(x[1..])[..n - 2];
    }
  }

  lemma MarkingIsFaithful()
    ensures Faithful(MARKING)
  {
    forall x ensures MARKING.decode(MARKING.encode(x)) == Some(x) {
      MarkedReadsBack(x);
    }
    forall x, n | 0 <= n < |MARKING.encode(x)| ensures MARKING.decode(MARKING.encode(x)[..n]).None? {
      CutMarkedIsRejected(x, n);
    }
  }

  /******* Numbering that starts again *******/

  /* Two sequenced records, the first of which fills its file. */
  ghost predicate FillsAFile(codec: Codec, first: Record, second: Record) {
    && first.number == 1 && second.number == 2 && second.payload != []
    && HEADER_BYTES + |codec.encode(first.payload)| >= MAX_WAL_FILE_SIZE
    && Framable(codec, first) && Framable(codec, second)
  }

  function TwoWrites(first: Record, second: Record): seq<Op> {
    [Sequenced(first.kind, first.payload), Sequenced(second.kind, second.payload)]
  }

  function FirstLog(codec: Codec, r: Record): Log {
    Log(Store(map[1 := Frame(codec, r)], [FileEntry(1, |Frame(codec, r)|)]), 2)
  }

  function SecondLog(codec: Codec, first: Record, second: Record): Log {
    Log(Store(map[1 := Frame(codec, first), 2 := Frame(codec, second)],
              [FileEntry(1, |Frame(codec, first)|), FileEntry(2, |Frame(codec, second)|)]), 3)
  }

  lemma FirstWrite(codec: Codec, r: Record)
    requires r.number == 1 && Framable(codec, r)
    ensures Perform(codec, EMPTY_LOG, Sequenced(r.kind, r.payload)) == FirstLog(codec, r)
    ensures Healthy(codec, FirstLog(codec, r), [[r]])
  {
    hide Frame, Framable, Healthy;
    var op := Sequenced(r.kind, r.payload);
    assert RecordFor(EMPTY_LOG, op) == r;
    EmptyIsHealthy(codec);
    PerformKeepsHealthy(codec, EMPTY_LOG, [], op);
    hide Written;
    WrittenToNewFile(codec, EMPTY_LOG.store, r);
    assert SegmentsAfter(EMPTY_LOG.store, [], r) == [[r]];
  }

  lemma SecondWrite(codec: Codec, first: Record, second: Record)
    requires FillsAFile(codec, first, second) && Healthy(codec, FirstLog(codec, first), [[first]])
    ensures var op := Sequenced(second.kind, second.payload);
            && !Collides(FirstLog(codec, first).store, RecordFor(FirstLog(codec, first), op))
            && Perform(codec, FirstLog(codec, first), op) == SecondLog(codec, first, second)
            && Healthy(codec, SecondLog(codec, first, second), [[first], [second]])
  {
    hide Frame, Framable, Healthy;
    var op, log := Sequenced(second.kind, second.payload), FirstLog(codec, first);
    assert RecordFor(log, op) == second;
    assert Rotates(log.store);
    PerformKeepsHealthy(codec, log, [[first]], op);
    hide Written;
    WrittenToNewFile(codec, log.store, second);
    assert SegmentsAfter(log.store, [[first]], second) == [[first], [second]];
  }

  lemma TwoWritesPerformed(codec: Codec, first: Record, second: Record)
    requires FillsAFile(codec, first, second)
    ensures CollisionFree(codec, EMPTY_LOG, TwoWrites(first, second))
    ensures PerformAll(codec, EMPTY_LOG, TwoWrites(first, second)) == SecondLog(codec, first, second)
    ensures Healthy(codec, SecondLog(codec, first, second), [[first], [second]])
  {
    FirstWrite(codec, first);
    SecondWrite(codec, first, second);
    hide Frame, Framable, Healthy, FillsAFile, Perform, FirstLog, SecondLog;
    var ops := TwoWrites(first, second);
    assert ops[..1] == [ops[0]] && [ops[0]][..0] == [];
    assert PerformAll(codec, EMPTY_LOG, []) == EMPTY_LOG;
    assert PerformAll(codec, EMPTY_LOG, [ops[0]]) == FirstLog(codec, first);
    assert !Collides(EMPTY_LOG.store, RecordFor(EMPTY_LOG, ops[0]));
    assert CollisionFree(codec, EMPTY_LOG, []);
    assert CollisionFree(codec, EMPTY_LOG, [ops[0]]);
  }

  /* Nothing is left of a file cut at its first byte. */
  lemma NothingSurvives(codec: Codec, first: Record, second: Record)
    ensures Recovered(codec, [[first], [second]], 0) == [[first], []]
    ensures Joined(Recovered(codec, [[first], [second]], 0)) == [first]
  {
    hide Frame, Joined;
    var k := Survivors(codec, [second], 0);
    OffsetAtEnds(codec, [second]);
    SingleFrame(codec, second);
    assert k == 0;
    assert [second][..0] == [];
    var segs := [[first], []];
    JoinedFirst(segs);
    assert segs[1..] == [[]];
    JoinedOfOne<Record>([]);
  }

  lemma CrashLosesTheSecond(codec: Codec, first: Record, second: Record)
    requires FillsAFile(codec, first, second) && Healthy(codec, SecondLog(codec, first, second), [[first], [second]])
    ensures CrashAt(codec, SecondLog(codec, first, second), [[first], [second]], 0, [1, 2])
  {
    hide Frame, Framable, Healthy;
    var log := SecondLog(codec, first, second);
    var disk := Crashed(log.store, 0);
    assert disk.Keys == {1, 2};
    assert Listing(disk, [1, 2]);
  }

  /* A crash that empties the newest file makes `load` give out number 1 again, although record 1 survived. */
  lemma NumberingCanRestart(codec: Codec, first: Record, second: Record)
    requires Faithful(codec) && FillsAFile(codec, first, second)
    ensures CollisionFree(codec, EMPTY_LOG, TwoWrites(first, second))
    ensures var log, segs := PerformAll(codec, EMPTY_LOG, TwoWrites(first, second)), [[first], [second]];
            && CrashAt(codec, log, segs, 0, [1, 2])
            && LoadNext(codec, Opened(codec, Crashed(log.store, 0), [1, 2])) == Some(1)
            && NumberAfter(Joined(Recovered(codec, segs, 0))) == 2
  {
    hide Faithful, LoadNext, Opened, Crashed, CrashAt, Healthy, Joined, Recovered, CollisionFree, PerformAll;
    TwoWritesPerformed(codec, first, second);
    CrashLosesTheSecond(codec, first, second);
    NothingSurvives(codec, first, second);
    LoadContinuesNumbering(codec, SecondLog(codec, first, second), [[first], [second]], 0, [1, 2]);
  }

  /******* Both failures, on bytes *******/

  const LARGE: ByteString := seq(16777216, i => 0)

  lemma LargeRecordFills()
    ensures Faithful(MARKING) && FillsAFile(MARKING, Record(1, 0, LARGE), Record(2, 0, [0]))
  {
    MarkingIsFaithful();
    assert Marked([0]) == [1, 0, 0];
    SizesFit();
  }

  lemma SizesFit()
    ensures 2 * 16777216 + 1 < Pow(256, NUMBER_BYTES)
  {
    assert Pow(256, 4) == 256 * 256 * 256 * 256;
    assert Pow(256, 8) == 256 * 256 * 256 * 256 * Pow(256, 4);
  }

  /* Sixteen mebibytes of zeros and a record of one byte: the crash makes the numbering start again. */
  lemma NumberingRestarts()
    ensures var first, second := Record(1, 0, LARGE), Record(2, 0, [0]);
            var log, segs := PerformAll(MARKING, EMPTY_LOG, TwoWrites(first, second)), [[first], [second]];
            && CrashAt(MARKING, log, segs, 0, [1, 2])
            && LoadNext(MARKING, Opened(MARKING, Crashed(log.store, 0), [1, 2])) == Some(1)
            && NumberAfter(Joined(Recovered(MARKING, segs, 0))) == 2
  {
    LargeRecordFills();
    NumberingCanRestart(MARKING, Record(1, 0, LARGE), Record(2, 0, [0]));
  }

  /* The same record followed by an unsequenced one: what is read back is not what was written. */
  lemma PathIsReused()
    ensures var ops := [Sequenced(0, LARGE), Unsequenced(0, [0])];
            && !CollisionFree(MARKING, EMPTY_LOG, ops)
            && IterFrom(MARKING, PerformAll(MARKING, EMPTY_LOG, ops).store, 0) != Some(RecordsOf(0, ops))
  {
    hide Faithful, IterFrom, Collides, Perform;
    LargeRecordFills();
    SizesFit();
    var first, second := Sequenced(0, LARGE), Unsequenced(0, [0]);
    LargeRecordThenUnsequencedCollides(MARKING, 0, LARGE, second);
    assert [first, second][..1] == [first];
    assert Fits(MARKING, 1, [first, second]);
    NewLogReadsBackIffNoCollision(MARKING, [first, second]);
  }
}
