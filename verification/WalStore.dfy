/**
 The files of the write-ahead log: what reading them yields and what writing does to them
 (durability/wal.rs: `Files::write_record`, `RecordIterator`, `find_last_type`).
 */
module WalStore {
  import opened Bytes
  import opened Joining
  import opened Numerals
  import opened Options
  import opened WalRecords

  const MAX_WAL_FILE_SIZE: nat := 16 * 1024 * 1024

  /* A file as the log remembers it: its path is determined by its start number. */
  datatype FileEntry = FileEntry(start: nat, len: nat)

  datatype Store = Store(disk: map<nat, ByteString>, files: seq<FileEntry>)

  function Content(store: Store, i: nat): ByteString
    requires i < |store.files|
  {
    if store.files[i].start in store.disk then store.disk[store.files[i].start] else []
  }

  /******* Reading *******/

  /* How many files, of which the first i already do, come before number s. */
  function FilesBelow(files: seq<FileEntry>, s: nat, i: nat): (r: nat)
    requires i <= |files|
    ensures i <= r <= |files|
    ensures forall k :: i <= k < r ==> files[k].start < s
    ensures r < |files| ==> s <= files[r].start
    decreases |files| - i
  {
    if i < |files| && files[i].start < s then FilesBelow(files, s, i + 1) else i
  }

  /* The file in which a scan from number s begins. */
  function CurrentFile(files: seq<FileEntry>, s: nat): (i: nat)
    requires files != []
    ensures i < |files|
  {
    var below := FilesBelow(files, s, 0);
    if below == 0 then 0 else below - 1
  }

  /* The skipping loop: the position of the first record numbered s, or the end; None for an error. */
  function SkipFrom(content: ByteString, len: nat, pos: nat, currentStart: nat, s: nat): (r: Option<nat>)
    decreases |content| - pos
  {
    if currentStart >= s || pos == len then Some(pos)
    else if pos + NUMBER_BYTES > |content| then None
    else
      var number := Value(content[pos..][..NUMBER_BYTES], 256);
      if number == s then Some(pos)
      else if pos + HEADER_BYTES > |content| then None
      else
        var size := Value(content[pos..][NUMBER_BYTES..2 * NUMBER_BYTES], 256);
        SkipFrom(content, len, pos + HEADER_BYTES + size, number, s)
  }

  /* All records of the files from the i-th on, beginning at position pos of the i-th. */
  function ReadOn(codec: Codec, store: Store, i: nat, pos: nat): (rs: Option<seq<Record>>)
    decreases |store.files| - i
  {
    if i >= |store.files| then Some([])
    else
      var here := Records(codec, Content(store, i), store.files[i].len, pos);
      if here.None? then None
      else
        var rest := ReadOn(codec, store, i + 1, 0);
        if rest.None? then None else Some(here.value + rest.value)
  }

  /* Everything `iter_any_from(s)` yields; None if it reports an error. */
  function IterFrom(codec: Codec, store: Store, s: nat): (rs: Option<seq<Record>>) {
    if store.files == [] then Some([])
    else
      var i := CurrentFile(store.files, s);
      var pos := SkipFrom(Content(store, i), store.files[i].len, 0, store.files[i].start, s);
      if pos.None? then None else ReadOn(codec, store, i, pos.value)
  }

  function LastOfKind(rs: seq<Record>, kind: Byte): (r: Option<Record>) {
    if rs == [] then None
    else if rs[|rs| - 1].kind == kind then Some(rs[|rs| - 1])
    else LastOfKind(rs[..|rs| - 1], kind)
  }

  /* `find_last_type` over the first n files, newest first; the outer None is an error. */
  function FindLast(codec: Codec, store: Store, kind: Byte, n: nat): (r: Option<Option<Record>>)
    requires n <= |store.files|
  {
    if n == 0 then Some(None)
    else
      var here := Records(codec, Content(store, n - 1), store.files[n - 1].len, 0);
      if here.None? then None
      else if LastOfKind(here.value, kind).Some? then Some(LastOfKind(here.value, kind))
      else FindLast(codec, store, kind, n - 1)
  }

  /******* What the files hold *******/

  /* Entry i, read up to its recorded length, holds the records of segs[i]. */
  ghost predicate Holds(codec: Codec, store: Store, segs: seq<seq<Record>>, i: nat)
    requires i < |store.files| == |segs|
  {
    && AllFramable(codec, segs[i])
    && Frames(codec, segs[i]) <= Content(store, i)
    && store.files[i].len == |Frames(codec, segs[i])|
  }

  ghost predicate Readable(codec: Codec, store: Store, segs: seq<seq<Record>>) {
    && |store.files| == |segs|
    && (forall i: nat :: i < |segs| ==> Holds(codec, store, segs, i))
  }

  /* Numbers go up by at most one from one record to the next, beginning at the file's start number. */
  ghost predicate Numbered(rs: seq<Record>, start: nat) {
    && (rs != [] ==> rs[0].number == start)
    && (forall k :: 0 <= k < |rs| - 1 ==> rs[k].number <= rs[k + 1].number <= rs[k].number + 1)
  }

  ghost predicate NumbersUpTo(rs: seq<Record>, bound: nat) {
    forall k :: 0 <= k < |rs| ==> rs[k].number <= bound
  }

  ghost predicate NumbersFrom(rs: seq<Record>, bound: nat) {
    forall k :: 0 <= k < |rs| ==> bound <= rs[k].number
  }

  /* The files are numbered in order: each begins at its start number, after all earlier records. */
  ghost predicate Ordered(files: seq<FileEntry>, segs: seq<seq<Record>>) {
    && |files| == |segs|
    && (forall i :: 0 <= i < |segs| ==> Numbered(segs[i], files[i].start))
    && (forall i, j :: 0 <= i < j < |segs| ==> files[i].start < files[j].start)
    && (forall i, j :: 0 <= i < j < |segs| ==> NumbersUpTo(segs[i], files[j].start))
  }

  /* The store holds exactly these records, file by file. */
  ghost predicate Represents(codec: Codec, store: Store, segs: seq<seq<Record>>) {
    && Readable(codec, store, segs)
    && Ordered(store.files, segs)
    && (forall i: nat :: i < |segs| ==>
      Content(store, i) == Frames(codec, segs[i]) && store.files[i].start in store.disk)
  }

  /* The records numbered at least s, in order. */
  function From(rs: seq<Record>, s: nat): (r: seq<Record>) {
    if rs == [] then []
    else From(rs[..|rs| - 1], s) + (if s <= rs[|rs| - 1].number then [rs[|rs| - 1]] else [])
  }

  lemma {:induction false} FromSelects(rs: seq<Record>, s: nat, r: Record)
    ensures multiset(From(rs, s))[r] == if s <= r.number then multiset(rs)[r] else 0
  {
    if rs != [] {
      FromSelects(rs[..|rs| - 1], s, r);
      assert rs == rs[..|rs| - 1] + [rs[|rs| - 1]];
    }
  }

  lemma {:induction false} FromOfConcat(a: seq<Record>, b: seq<Record>, s: nat)
    ensures From(a + b, s) == From(a, s) + From(b, s)
  {
    if b == [] {
      assert a + b == a;
    } else {
      FromOfConcat(a, b[..|b| - 1], s);
      assert (a + b)[..|a + b| - 1] == a + b[..|b| - 1];
    }
  }

  lemma {:induction false} FromKeepsAll(rs: seq<Record>, s: nat)
    requires NumbersFrom(rs, s)
    ensures From(rs, s) == rs
  {
    if rs != [] {
      FromKeepsAll(rs[..|rs| - 1], s);
    }
  }

  lemma {:induction false} FromKeepsNone(rs: seq<Record>, s: nat)
    requires forall k :: 0 <= k < |rs| ==> rs[k].number < s
    ensures From(rs, s) == []
  {
    if rs != [] {
      FromKeepsNone(rs[..|rs| - 1], s);
    }
  }

  lemma {:induction false} NumberedIsMonotone(rs: seq<Record>, start: nat, i: nat, k: nat)
    requires Numbered(rs, start) && i <= k < |rs|
    ensures start <= rs[i].number <= rs[k].number
    decreases k
  {
    if i < k {
      NumberedIsMonotone(rs, start, i, k - 1);
    } else if 0 < i {
      NumberedIsMonotone(rs, start, i - 1, i - 1);
    }
  }

  /******* Reading the whole log *******/

  lemma {:induction false} ReadOnYieldsAll(codec: Codec, store: Store, segs: seq<seq<Record>>, i: nat)
    requires Faithful(codec) && Readable(codec, store, segs) && i <= |segs|
    ensures ReadOn(codec, store, i, 0) == Some(Joined(segs[i..]))
    decreases |segs| - i
  {
    hide Faithful, Joined, Records, AllFramable, Frames;
    if i < |segs| {
      assert Holds(codec, store, segs, i);
      OffsetAtEnds(codec, segs[i]);
      RecordsReadBack(codec, segs[i], Content(store, i), 0);
      assert segs[i][0..] == segs[i];
      ReadOnYieldsAll(codec, store, segs, i + 1);
      JoinedFirst(segs[i..]);
      assert segs[i..][1..] == segs[i + 1..];
    } else {
      JoinedOfNone<Record>();
      assert segs[i..] == [];
    }
  }

  lemma ReadOnFrom(codec: Codec, store: Store, segs: seq<seq<Record>>, i: nat, k: nat)
    requires Faithful(codec) && Readable(codec, store, segs) && i < |segs| && k <= |segs[i]|
    ensures ReadOn(codec, store, i, Offset(codec, segs[i], k)) == Some(segs[i][k..] + Joined(segs[i + 1..]))
  {
    hide Faithful;
    assert Holds(codec, store, segs, i);
    RecordsReadBack(codec, segs[i], Content(store, i), k);
    ReadOnYieldsAll(codec, store, segs, i + 1);
  }

  /******* Skipping to a number *******/

  /* The header at the start of the k-th record, as the skipping loop sees it. */
  lemma PeekKthRecord(codec: Codec, rs: seq<Record>, content: ByteString, k: nat)
    requires AllFramable(codec, rs) && k < |rs| && Frames(codec, rs) <= content
    ensures var pos := Offset(codec, rs, k);
            && pos + HEADER_BYTES <= |content| && pos < |Frames(codec, rs)|
            && Value(content[pos..][..NUMBER_BYTES], 256) == rs[k].number
            && pos + HEADER_BYTES + Value(content[pos..][NUMBER_BYTES..2 * NUMBER_BYTES], 256) ==
              Offset(codec, rs, k + 1)
  {
    hide Frame, Framable;
    PartAt(FrameList(codec, rs), k);
    var pos, end := Offset(codec, rs, k), Offset(codec, rs, k + 1);
    var tail := content[end..];
    assert content[pos..end] == Frames(codec, rs)[pos..end];
    assert content[pos..] == Frame(codec, rs[k]) + tail;
    HeaderReadsBack(codec, rs[k], tail);
  }

  /* The index of the first record numbered at least s, among those from k on. */
  function FirstFrom(rs: seq<Record>, s: nat, k: nat): (r: nat)
    requires k <= |rs|
    ensures k <= r <= |rs|
    ensures forall i :: k <= i < r ==> rs[i].number < s
    ensures r < |rs| ==> s <= rs[r].number
    decreases |rs| - k
  {
    if k < |rs| && rs[k].number < s then FirstFrom(rs, s, k + 1) else k
  }

  lemma {:induction false} SkipFindsFirst(codec: Codec, rs: seq<Record>, content: ByteString, start: nat, s: nat,
                                          k: nat)
    requires AllFramable(codec, rs) && Numbered(rs, start) && k <= |rs| && Frames(codec, rs) <= content
    requires start < s && (k > 0 ==> rs[k - 1].number < s)
    ensures var current := if k == 0 then start else rs[k - 1].number;
            SkipFrom(content, |Frames(codec, rs)|, Offset(codec, rs, k), current, s) ==
            Some(Offset(codec, rs, FirstFrom(rs, s, k)))
    decreases |rs| - k
  {
    hide Frames, Offset, AllFramable;
    if k == |rs| {
      OffsetAtEnds(codec, rs);
    } else {
      PeekKthRecord(codec, rs, content, k);
      if rs[k].number < s {
        SkipFindsFirst(codec, rs, content, start, s, k + 1);
      }
    }
  }

  /* In a numbered file, the records numbered at least s are those from the first such one on. */
  lemma SuffixIsFrom(rs: seq<Record>, start: nat, s: nat)
    requires Numbered(rs, start)
    ensures From(rs, s) == rs[FirstFrom(rs, s, 0)..]
  {
    hide From, Numbered;
    var k := FirstFrom(rs, s, 0);
    assert rs == rs[..k] + rs[k..];
    FromOfConcat(rs[..k], rs[k..], s);
    FromKeepsNone(rs[..k], s);
    forall i | 0 <= i < |rs[k..]| ensures s <= rs[k..][i].number {
      NumberedIsMonotone(rs, start, k, k + i);
    }
    FromKeepsAll(rs[k..], s);
  }

  /******* Iterating from a number *******/

  lemma {:induction false} EarlierFilesAreSkipped(files: seq<FileEntry>, segs: seq<seq<Record>>, i: nat, s: nat)
    requires Ordered(files, segs) && i < |segs| && (i > 0 ==> files[i].start < s)
    ensures From(Joined(segs[..i]), s) == []
  {
    hide Joined, From, Numbered;
    JoinedOfNone<Record>();
    FromKeepsNone([], s);
    if i > 0 {
      var before := segs[..i];
      JoinedLast(before);
      assert before[..i - 1] == segs[..i - 1];
      assert i > 1 ==> files[i - 1].start < files[i].start;
      EarlierFilesAreSkipped(files, segs, i - 1, s);
      FromOfConcat(Joined(segs[..i - 1]), segs[i - 1], s);
      assert NumbersUpTo(segs[i - 1], files[i].start);
      FromKeepsNone(segs[i - 1], s);
    }
  }

  lemma {:induction false} LaterFilesAreKept(files: seq<FileEntry>, segs: seq<seq<Record>>, i: nat, s: nat)
    requires Ordered(files, segs) && i <= |segs| && (i < |segs| ==> s <= files[i].start)
    ensures From(Joined(segs[i..]), s) == Joined(segs[i..])
    decreases |segs| - i
  {
    hide Joined, From, Numbered, NumbersUpTo;
    if i < |segs| {
      assert i + 1 < |segs| ==> files[i].start < files[i + 1].start;
      LaterFilesAreKept(files, segs, i + 1, s);
      JoinedFirst(segs[i..]);
      assert segs[i..][1..] == segs[i + 1..];
      FromOfConcat(segs[i], Joined(segs[i + 1..]), s);
      assert Numbered(segs[i], files[i].start);
      forall k | 0 <= k < |segs[i]| ensures s <= segs[i][k].number {
        NumberedIsMonotone(segs[i], files[i].start, k, k);
      }
      FromKeepsAll(segs[i], s);
    } else {
      JoinedOfNone<Record>();
      assert segs[i..] == [];
      FromKeepsAll([], s);
    }
  }

  lemma SplitAtFile(segs: seq<seq<Record>>, i: nat, s: nat)
    requires i < |segs|
    ensures From(Joined(segs), s) == From(Joined(segs[..i]), s) + (From(segs[i], s) + From(Joined(segs[i + 1..]), s))
  {
    hide Joined, From;
    assert segs == segs[..i] + segs[i..];
    JoinedOfConcat(segs[..i], segs[i..]);
    JoinedFirst(segs[i..]);
    assert segs[i..][1..] == segs[i + 1..];
    FromOfConcat(Joined(segs[..i]), segs[i] + Joined(segs[i + 1..]), s);
    FromOfConcat(segs[i], Joined(segs[i + 1..]), s);
  }

  /* Where the scan begins: at the first record of the current file that is numbered at least s. */
  lemma ScanBegins(codec: Codec, store: Store, segs: seq<seq<Record>>, s: nat, i: nat)
    requires Readable(codec, store, segs) && Ordered(store.files, segs) && i < |segs|
    ensures var k := FirstFrom(segs[i], s, 0);
            && SkipFrom(Content(store, i), store.files[i].len, 0, store.files[i].start, s) ==
              Some(Offset(codec, segs[i], k))
            && From(segs[i], s) == segs[i][k..]
  {
    hide Frames, Offset, AllFramable;
    var start, here := store.files[i].start, segs[i];
    assert Holds(codec, store, segs, i);
    assert Numbered(here, start);
    SuffixIsFrom(here, start, s);
    OffsetAtEnds(codec, here);
    if start < s {
      SkipFindsFirst(codec, here, Content(store, i), start, s, 0);
    }
  }

  lemma OrderedLengths(files: seq<FileEntry>, segs: seq<seq<Record>>)
    requires Ordered(files, segs)
    ensures |files| == |segs|
    ensures forall i, j :: 0 <= i < j < |files| ==> files[i].start < files[j].start
  {
    hide Numbered, NumbersUpTo;
  }

  lemma SuffixByFiles(files: seq<FileEntry>, segs: seq<seq<Record>>, s: nat)
    requires Ordered(files, segs) && segs != []
    ensures var i := CurrentFile(files, s); From(Joined(segs), s) == From(segs[i], s) + Joined(segs[i + 1..])
  {
    OrderedLengths(files, segs);
    hide Ordered, From, Joined, CurrentFile;
    CurrentFileSplits(files, s);
    var i := CurrentFile(files, s);
    SplitAtFile(segs, i, s);
    EarlierFilesAreSkipped(files, segs, i, s);
    LaterFilesAreKept(files, segs, i + 1, s);
  }

  /* Where the scan begins, earlier files start below s and later ones at or above it. */
  lemma CurrentFileSplits(files: seq<FileEntry>, s: nat)
    requires files != [] && forall i, j :: 0 <= i < j < |files| ==> files[i].start < files[j].start
    ensures var i := CurrentFile(files, s);
            (i > 0 ==> files[i].start < s) && (i + 1 < |files| ==> s <= files[i + 1].start)
  {
  }

  /* Iterating from s yields exactly the records numbered at least s, in write order. */
  lemma IterYieldsSuffix(codec: Codec, store: Store, segs: seq<seq<Record>>, s: nat)
    requires Faithful(codec) && Readable(codec, store, segs) && Ordered(store.files, segs)
    ensures IterFrom(codec, store, s) == Some(From(Joined(segs), s))
  {
    hide Faithful, Readable, Ordered, Offset, SkipFrom, CurrentFile, Content;
    OneEntryPerSegment(codec, store, segs);
    if segs != [] {
      var i := CurrentFile(store.files, s);
      SuffixByFiles(store.files, segs, s);
      ScanBegins(codec, store, segs, s, i);
      ReadOnFrom(codec, store, segs, i, FirstFrom(segs[i], s, 0));
    }
  }

  lemma OneEntryPerSegment(codec: Codec, store: Store, segs: seq<seq<Record>>)
    requires Readable(codec, store, segs)
    ensures |store.files| == |segs|
  {
  }

  /******* The last record of a type *******/

  /* The record with the greatest index among those of the kind. */
  lemma {:induction false} LastOfKindIsLast(rs: seq<Record>, kind: Byte)
    ensures LastOfKind(rs, kind).None? <==> forall i :: 0 <= i < |rs| ==> rs[i].kind != kind
    ensures LastOfKind(rs, kind).Some? ==>
              exists i :: (0 <= i < |rs| && rs[i].kind == kind && LastOfKind(rs, kind) == Some(rs[i])
                           && forall j :: i < j < |rs| ==> rs[j].kind != kind)
  {
    if rs != [] && rs[|rs| - 1].kind != kind {
      LastOfKindIsLast(rs[..|rs| - 1], kind);
    }
  }

  lemma {:induction false} LastOfConcat(a: seq<Record>, b: seq<Record>, kind: Byte)
    ensures LastOfKind(a + b, kind) ==
            if LastOfKind(b, kind).Some? then LastOfKind(b, kind) else LastOfKind(a, kind)
  {
    if b == [] {
      assert a + b == a;
    } else {
      assert (a + b)[..|a + b| - 1] == a + b[..|b| - 1];
      LastOfConcat(a, b[..|b| - 1], kind);
    }
  }

  /* Searching the files newest first finds the last record of the type in write order. */
  lemma {:induction false} FindLastIsLast(codec: Codec, store: Store, segs: seq<seq<Record>>, kind: Byte, n: nat)
    requires Faithful(codec) && Readable(codec, store, segs) && n <= |segs|
    ensures FindLast(codec, store, kind, n) == Some(LastOfKind(Joined(segs[..n]), kind))
  {
    hide Faithful;
    if n > 0 {
      assert Holds(codec, store, segs, n - 1);
      RecordsReadBack(codec, segs[n - 1], Content(store, n - 1), 0);
      FindLastIsLast(codec, store, segs, kind, n - 1);
      assert segs[..n][..n - 1] == segs[..n - 1];
      LastOfConcat(Joined(segs[..n - 1]), segs[n - 1], kind);
    }
  }
}
