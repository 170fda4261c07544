/**
 The write-ahead log as an object (durability/wal.rs: `WAL`, `Files`, `FileReader`, `RecordIterator`): its
 methods work on the file list, the file contents and the number counter in place, and each is tied to the
 function that the theorems are about.
 */
module WalState {
  import opened Bytes
  import opened Numerals
  import opened Options
  import opened WalRecords
  import opened WalStore
  import opened WalHistory
  import opened WalRecovery
  import opened WalSizes

  /* What a reader that has already found some records yields, given what it yields from there on. */
  function Prefixed(found: seq<Record>, rest: Option<seq<Record>>): Option<seq<Record>> {
    if rest.None? then None else Some(found + rest.value)
  }

  lemma PrefixedTwice(a: seq<Record>, b: seq<Record>, rest: Option<seq<Record>>)
    ensures Prefixed(a, Prefixed(b, rest)) == Prefixed(a + b, rest)
  {
    if rest.Some? {
      assert a + (b + rest.value) == (a + b) + rest.value;
    }
  }

  lemma PrefixedByNothing(rest: Option<seq<Record>>)
    ensures Prefixed([], rest) == rest
  {
    if rest.Some? {
      assert [] + rest.value == rest.value;
    }
  }

  lemma OpenedIsListed(codec: Codec, directory: map<nat, ByteString>, names: seq<nat>, store: Store)
    requires store.disk == Opened(codec, directory, names).disk && |store.files| == |names|
    requires forall k :: 0 <= k < |names| ==> store.files[k] == FileEntry(names[k], |At(store.disk, names[k])|)
    ensures store == Opened(codec, directory, names)
  {
    hide TrimFrom;
    assert store.files == Opened(codec, directory, names).files;
  }

  method LastIn(records: seq<Record>, kind: Byte) returns (found: Option<Record>)
    ensures found == LastOfKind(records, kind)
  {
    found := None;
    for k := 0 to |records|
      invariant found == LastOfKind(records[..k], kind)
    {
      assert records[..k + 1][..k] == records[..k];
      if records[k].kind == kind {
        found := Some(records[k]);
      }
    }
    assert records[..|records|] == records;
  }

  class WriteAheadLog {
    const codec: Codec
    var disk: map<nat, ByteString>
    var files: seq<FileEntry>
    var next: nat

    ghost function State(): Log
      reads this
    {
      Log(Store(disk, files), next)
    }

    constructor (codec: Codec)
      ensures this.codec == codec && State() == EMPTY_LOG
    {
      this.codec := codec;
      disk, files, next := map[], [], 1;
    }

    /* Opening the files of a directory, given its sorted listing. */
    constructor Load(codec: Codec, directory: map<nat, ByteString>, names: seq<nat>)
      requires forall i :: 0 <= i < |names| ==> names[i] in directory
      ensures this.codec == codec && Store(disk, files) == Opened(codec, directory, names)
      ensures LoadNext(codec, Opened(codec, directory, names)).Some? ==>
                next == LoadNext(codec, Opened(codec, directory, names)).value
    {
      this.codec := codec;
      disk, files, next := directory, [], 1;
      new;
      hide TrimFrom, IterFrom, Opened;
      TrimNewest(names);
      var newestStart := ListFiles(names);
      OpenedIsListed(codec, directory, names, Store(disk, files));
      var records := IterAnyFrom(newestStart);
      if records.Some? && records.value != [] {
        next := records.value[|records.value| - 1].number + 1;
      }
    }

    method TrimNewest(names: seq<nat>)
      requires forall i :: 0 <= i < |names| ==> names[i] in disk
      modifies this`disk
      ensures disk == Opened(codec, old(disk), names).disk
    {
      if names != [] {
        var newest := names[|names| - 1];
        var trimmed := TrimCorruptedTail(codec, disk[newest]);
        disk := disk[newest := trimmed];
      }
    }

    /* Lists the files with their lengths; also their greatest start number. */
    method ListFiles(names: seq<nat>) returns (newestStart: nat)
      requires files == []
      modifies this`files
      ensures |files| == |names|
      ensures forall k :: 0 <= k < |names| ==> files[k] == FileEntry(names[k], |At(disk, names[k])|)
      ensures newestStart == MaxStart(files)
    {
      newestStart := 0;
      for i := 0 to |names|
        invariant |files| == i
        invariant forall k :: 0 <= k < i ==> files[k] == FileEntry(names[k], |At(disk, names[k])|)
        invariant newestStart == MaxStart(files)
      {
        var entry := FileEntry(names[i], |At(disk, names[i])|);
        newestStart := if newestStart <= entry.start then entry.start else newestStart;
        assert (files + [entry])[..i] == files;
        files := files + [entry];
      }
    }

    method OpenNewFileAt(start: nat)
      modifies this
      ensures next == old(next)
      ensures disk == old(disk)[start := At(old(disk), start)]
      ensures files == old(files) + [FileEntry(start, |At(old(disk), start)|)]
    {
      var existing := if start in disk then disk[start] else [];
      disk := disk[start := existing];
      files := files + [FileEntry(start, |existing|)];
    }

    method WriteRecord(r: Record)
      modifies this
      ensures next == old(next)
      ensures Store(disk, files) == Written(codec, old(Store(disk, files)), r)
      ensures |files| == |old(files)| +
                if old(files) == [] || old(files)[|old(files)| - 1].len >= 16777216 then 1 else 0
    {
      WriteOpensFileIffFull(codec, Store(disk, files), r);
      if |files| == 0 || files[|files| - 1].len >= MAX_WAL_FILE_SIZE {
        OpenNewFileAt(r.number);
      }
      assert Store(disk, files) == Rotated(old(Store(disk, files)), r);
      var newest := files[|files| - 1];
      var body := codec.encode(r.payload);
      var content := At(disk, newest.start) + (BigEndian(r.number) + BigEndian(|body|) + [r.kind] + body);
      disk := disk[newest.start := content];
      files := files[|files| - 1 := FileEntry(newest.start, |content|)];
    }

    method SequencedWrite(kind: Byte, payload: ByteString) returns (number: nat)
      modifies this
      ensures number == old(next)
      ensures State() == Perform(codec, old(State()), Sequenced(kind, payload))
    {
      number := next;
      next := next + 1;
      WriteRecord(Record(number, kind, payload));
    }

    method UnsequencedWrite(kind: Byte, payload: ByteString)
      requires next > 0
      modifies this
      ensures State() == Perform(codec, old(State()), Unsequenced(kind, payload))
    {
      WriteRecord(Record(next - 1, kind, payload));
    }

    /* The file and position at which a scan from number s begins. */
    method SeekFrom(s: nat) returns (current: nat, position: Option<nat>)
      requires files != []
      ensures current == CurrentFile(files, s)
      ensures position == SkipFrom(Content(Store(disk, files), current), files[current].len, 0, files[current].start, s)
    {
      current := 0;
      while current < |files| && files[current].start < s
        invariant current <= |files| && FilesBelow(files, s, 0) == FilesBelow(files, s, current)
      {
        current := current + 1;
      }
      current := if current == 0 then 0 else current - 1;
      var content, len := At(disk, files[current].start), files[current].len;
      var pos: nat, currentStart: nat := 0, files[current].start;
      position := Some(0);
      while position.Some? && currentStart < s && pos != len
        invariant position.Some? ==> position.value == pos
        invariant SkipFrom(content, len, 0, files[current].start, s) ==
                  if position.None? then None else SkipFrom(content, len, pos, currentStart, s)
        decreases position.Some?, |content| - pos
      {
        if pos + NUMBER_BYTES > |content| {
          position := None;
        } else {
          var number := Value(content[pos..][..NUMBER_BYTES], 256);
          if number == s {
            return;
          }
          if pos + HEADER_BYTES > |content| {
            position := None;
          } else {
            pos := pos + HEADER_BYTES + Value(content[pos..][NUMBER_BYTES..2 * NUMBER_BYTES], 256);
            currentStart := number;
            position := Some(pos);
          }
        }
      }
    }

    /* Reading one file from a position to its end. */
    method ReadFile(i: nat, position: nat) returns (rs: Option<seq<Record>>)
      requires i < |files|
      ensures rs == Records(codec, Content(Store(disk, files), i), files[i].len, position)
    {
      var content, len, pos := At(disk, files[i].start), files[i].len, position;
      var found: seq<Record> := [];
      PrefixedByNothing(Records(codec, content, len, pos));
      while true
        invariant Records(codec, content, len, position) == Prefixed(found, Records(codec, content, len, pos))
        decreases |content| - pos
      {
        match ReadOne(codec, content, len, pos) {
          case End =>
            assert found + [] == found;
            return Some(found);
          case Fault =>
            return None;
          case Got(r, next') =>
            PrefixedTwice(found, [r], Records(codec, content, len, next'));
            found, pos := found + [r], next';
        }
      }
    }

    /* All records from number s on; None if a read fails. */
    method IterAnyFrom(s: nat) returns (rs: Option<seq<Record>>)
      ensures rs == IterFrom(codec, Store(disk, files), s)
    {
      hide Records, SkipFrom, CurrentFile;
      ghost var store := Store(disk, files);
      if |files| == 0 {
        return Some([]);
      }
      var current, position := SeekFrom(s);
      if position.None? {
        return None;
      }
      var found: seq<Record>, pos: nat := [], position.value;
      PrefixedByNothing(ReadOn(codec, store, current, pos));
      while current < |files|
        invariant current <= |files| && files == store.files && disk == store.disk
        invariant IterFrom(codec, store, s) == Prefixed(found, ReadOn(codec, store, current, pos))
        decreases |files| - current
      {
        var here := ReadFile(current, pos);
        if here.None? {
          return None;
        }
        PrefixedTwice(found, here.value, ReadOn(codec, store, current + 1, 0));
        found, pos, current := found + here.value, 0, current + 1;
      }
      assert found + [] == found;
      rs := Some(found);
    }

    /* The last record of a type, searching the newest file first; the outer None is a failed read. */
    method FindLastType(kind: Byte) returns (r: Option<Option<Record>>)
      ensures r == FindLast(codec, Store(disk, files), kind, |files|)
    {
      hide Records, LastOfKind;
      ghost var store := Store(disk, files);
      var n: nat := |files|;
      while n > 0
        invariant n <= |files|
        invariant FindLast(codec, store, kind, |files|) == FindLast(codec, store, kind, n)
      {
        n := n - 1;
        var here := ReadFile(n, 0);
        if here.None? {
          return None;
        }
        var found := LastIn(here.value, kind);
        if found.Some? {
          return Some(found);
        }
      }
      r := Some(None);
    }
  }
}
