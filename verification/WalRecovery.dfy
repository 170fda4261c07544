/**
 Opening the write-ahead log again after a crash (durability/wal.rs: `WAL::load`, `Files::open`): what
 survives, which number comes next, and that later writes carry on from there.
 */
module WalRecovery {
  import opened Bytes
  import opened Joining
  import opened Options
  import opened WalRecords
  import opened WalStore
  import opened WalHistory

  /* The file names in a directory listing, sorted. */
  ghost predicate Listing(disk: map<nat, ByteString>, names: seq<nat>) {
    && (forall i, j :: 0 <= i < j < |names| ==> names[i] < names[j])
    && (forall path :: path in names <==> path in disk)
  }

  /* `Files::open`: every file is listed with its length, after the newest has been trimmed. */
  function Opened(codec: Codec, disk: map<nat, ByteString>, names: seq<nat>): (s: Store)
    ensures |s.files| == |names|
  {
    if names == [] then Store(disk, [])
    else
      var content := At(disk, names[|names| - 1]);
      var disk' := disk[names[|names| - 1] := content[..TrimFrom(codec, content, 0)]];
      Store(disk', seq(|names|, i requires 0 <= i < |names| => FileEntry(names[i], |At(disk', names[i])|)))
  }

  function At(disk: map<nat, ByteString>, name: nat): ByteString {
    if name in disk then disk[name] else []
  }

  function MaxStart(files: seq<FileEntry>): nat {
    if files == [] then 0
    else
      var before, last := MaxStart(files[..|files| - 1]), files[|files| - 1].start;
      if before <= last then last else before
  }

  /* The number `load` gives to the next record; None if reading fails. */
  function LoadNext(codec: Codec, store: Store): (next: Option<nat>) {
    match IterFrom(codec, store, MaxStart(store.files))
    case None => None
    case Some(rs) => Some(if rs == [] then 1 else rs[|rs| - 1].number + 1)
  }

  /* The directory after a crash that left only the first `cut` bytes of the newest file. */
  function Crashed(store: Store, cut: nat): (disk: map<nat, ByteString>) {
    if store.files == [] then store.disk
    else
      var content := Content(store, |store.files| - 1);
      store.disk[store.files[|store.files| - 1].start := content[..Min(cut, |content|)]]
  }

  lemma {:induction false} SortedNamesAgree(a: seq<nat>, b: seq<nat>)
    requires forall i, j :: 0 <= i < j < |a| ==> a[i] < a[j]
    requires forall i, j :: 0 <= i < j < |b| ==> b[i] < b[j]
    requires forall x :: x in a <==> x in b
    ensures a == b
  {
    assert b == [] || b[0] in b;
    if a != [] {
      var n := |a| - 1;
      assert a[n] in b;
      var m := |b| - 1;
      assert b[m] in a;
      assert a[n] == b[m];
      var a', b' := a[..n], b[..m];
      forall x ensures x in a' <==> x in b' {
        assert x in a' ==> x in a && x != a[n];
        assert x in b' ==> x in b && x != b[m];
      }
      SortedNamesAgree(a', b');
      assert a == a' + [a[n]] && b == b' + [b[m]];
    }
  }

  function Starts(files: seq<FileEntry>): (names: seq<nat>)
    ensures |names| == |files|
    ensures forall i :: 0 <= i < |files| ==> names[i] == files[i].start
  {
    seq(|files|, i requires 0 <= i < |files| => files[i].start)
  }

  lemma ListingIsStarts(store: Store, cut: nat, names: seq<nat>)
    requires store.files != []
    requires NoStrayFiles(store) && Listing(Crashed(store, cut), names)
    requires forall i, j :: 0 <= i < j < |store.files| ==> store.files[i].start < store.files[j].start
    requires forall i :: 0 <= i < |store.files| ==> store.files[i].start in store.disk
    ensures names == Starts(store.files)
  {
    var files, starts := store.files, Starts(store.files);
    forall x ensures x in starts <==> x in names {
      if x in starts {
        var i :| 0 <= i < |starts| && starts[i] == x;
        assert files[i].start in store.disk;
      }
      if x in names && x in store.disk {
        var i: nat :| i < |files| && files[i].start == x;
        assert starts[i] == x;
      }
    }
    SortedNamesAgree(names, starts);
  }

  /* What a crash and the trimming leave of the records, file by file. */
  function Recovered(codec: Codec, segs: seq<seq<Record>>, cut: nat): (r: seq<seq<Record>>)
    ensures |r| == |segs|
  {
    if segs == [] then []
    else
      var last := segs[|segs| - 1];
      segs[|segs| - 1 := last[..Survivors(codec, last, cut)]]
  }

  lemma NewestIsCut(codec: Codec, segs: seq<seq<Record>>, cut: nat)
    requires segs != []
    ensures var last := |segs| - 1;
            Recovered(codec, segs, cut)[last] == segs[last][..Survivors(codec, segs[last], cut)]
  {
    hide Survivors;
  }

  /* The newest file keeps a record. */
  predicate NewestSurvives(codec: Codec, segs: seq<seq<Record>>, cut: nat) {
    segs != [] && Survivors(codec, segs[|segs| - 1], cut) > 0
  }

  lemma EarlierRecordsStay(codec: Codec, segs: seq<seq<Record>>, cut: nat, i: nat)
    requires i < |segs|
    ensures i < |segs| - 1 ==> Recovered(codec, segs, cut)[i] == segs[i]
  {
    hide Survivors;
  }

  ghost predicate CrashAt(codec: Codec, log: Log, segs: seq<seq<Record>>, cut: nat, names: seq<nat>) {
    && segs != [] && |log.store.files| == |segs|
    && cut <= |Content(log.store, |segs| - 1)|
    && Listing(Crashed(log.store, cut), names)
    && Healthy(codec, log, segs)
  }

  /* What is in the files when the directory is opened again. */
  lemma OpenedContents(codec: Codec, store: Store, cut: nat)
    requires store.files != [] && cut <= |Content(store, |store.files| - 1)|
    requires forall i, j :: 0 <= i < j < |store.files| ==> store.files[i].start < store.files[j].start
    requires forall i :: 0 <= i < |store.files| ==> store.files[i].start in store.disk
    ensures var reopened, last := Opened(codec, Crashed(store, cut), Starts(store.files)), |store.files| - 1;
            && (forall i: nat :: i < last ==> Content(reopened, i) == Content(store, i))
            && (forall i: nat :: i <= last ==>
              reopened.files[i] == FileEntry(store.files[i].start, |Content(reopened, i)|))
            && (forall i: nat :: i <= last ==> store.files[i].start in reopened.disk)
            && var content := Content(store, last)[..cut];
               Content(reopened, last) == content[..TrimFrom(codec, content, 0)]
  {
    hide TrimFrom;
    var disk, names, last := Crashed(store, cut), Starts(store.files), |store.files| - 1;
    var reopened := Opened(codec, disk, names);
    forall i: nat | i < last ensures Content(reopened, i) == Content(store, i) {
      assert store.files[i].start < store.files[last].start;
    }
  }

  lemma TrimmedContent(codec: Codec, log: Log, segs: seq<seq<Record>>, cut: nat, names: seq<nat>)
    requires Faithful(codec) && CrashAt(codec, log, segs, cut, names)
    ensures names == Starts(log.store.files) && segs != [] && |names| == |segs|
    ensures Content(Opened(codec, Crashed(log.store, cut), names), |segs| - 1) ==
            Frames(codec, Recovered(codec, segs, cut)[|segs| - 1])
    ensures AllFramable(codec, segs[|segs| - 1])
  {
    hide Faithful, Frames, TrimFrom, NoEmptySegment, NumbersUpTo, Numbered, NoStrayFiles, Opened, Crashed, Framable,
      Listing, Recovered, Survivors, Records;
    var last := |segs| - 1;
    NewestIsCut(codec, segs, cut);
    ListingIsStarts(log.store, cut, names);
    assert Holds(codec, log.store, segs, last);
    OpenedContents(codec, log.store, cut);
    TrimmingKeepsWholeRecords(codec, segs[last], cut);
  }

  lemma RecoveredNumbered(files: seq<FileEntry>, files': seq<FileEntry>, segs: seq<seq<Record>>, codec: Codec, cut: nat)
    requires Ordered(files, segs) && segs != []
    requires |files'| == |files| && forall i :: 0 <= i < |files| ==> files'[i].start == files[i].start
    ensures Ordered(files', Recovered(codec, segs, cut))
  {
    hide Survivors, Numbered, NumbersUpTo;
    var segs', last := Recovered(codec, segs, cut), |segs| - 1;
    PrefixNumbered(segs[last], files[last].start, |segs'[last]|);
    forall i, j | 0 <= i < j < |segs'| ensures NumbersUpTo(segs'[i], files'[j].start) {
      assert NumbersUpTo(segs[i], files[j].start);
    }
  }

  lemma PrefixNumbered(rs: seq<Record>, start: nat, k: nat)
    requires Numbered(rs, start) && k <= |rs|
    ensures Numbered(rs[..k], start)
  {
  }

  /* File i holds exactly the records of segment i. */
  ghost predicate StoredAt(codec: Codec, store: Store, segs: seq<seq<Record>>, i: nat) {
    && i < |store.files| == |segs| && Holds(codec, store, segs, i)
    && Content(store, i) == Frames(codec, segs[i]) && store.files[i].start in store.disk
  }

  lemma StoredFilesRepresent(codec: Codec, store: Store, segs: seq<seq<Record>>)
    requires Ordered(store.files, segs) && forall i: nat :: i < |segs| ==> StoredAt(codec, store, segs, i)
    ensures Represents(codec, store, segs)
  {
    hide Holds, Frames, Numbered, NumbersUpTo;
    forall i: nat | i < |segs|
      ensures Holds(codec, store, segs, i)
      ensures Content(store, i) == Frames(codec, segs[i]) && store.files[i].start in store.disk
    {
      assert StoredAt(codec, store, segs, i);
    }
  }

  lemma EarlierFileIsStored(codec: Codec, store: Store, reopened: Store, segs: seq<seq<Record>>,
                            segs': seq<seq<Record>>, i: nat)
    requires StoredAt(codec, store, segs, i) && |segs'| == |segs| == |reopened.files| && segs'[i] == segs[i]
    requires reopened.files[i] == FileEntry(store.files[i].start, |Content(reopened, i)|)
    requires Content(reopened, i) == Content(store, i) && store.files[i].start in reopened.disk
    ensures StoredAt(codec, reopened, segs', i)
  {
    hide Frames, AllFramable, Content;
  }

  lemma NewestFileIsStored(codec: Codec, reopened: Store, segs: seq<seq<Record>>, segs': seq<seq<Record>>, cut: nat)
    requires segs != [] && segs' == Recovered(codec, segs, cut) && |segs| == |reopened.files|
    requires AllFramable(codec, segs[|segs| - 1])
    requires var last := |segs| - 1;
             && Content(reopened, last) == Frames(codec, segs'[last])
             && reopened.files[last].len == |Content(reopened, last)| && reopened.files[last].start in reopened.disk
    ensures StoredAt(codec, reopened, segs', |segs| - 1)
  {
    hide Framable, Frames, Survivors, Content;
  }

  /* What a crash leaves to be opened, file by file. */
  lemma CrashedFiles(codec: Codec, log: Log, segs: seq<seq<Record>>, cut: nat, names: seq<nat>)
    requires CrashAt(codec, log, segs, cut, names)
    ensures segs != [] && |log.store.files| == |segs| && cut <= |Content(log.store, |segs| - 1)|
    ensures Ordered(log.store.files, segs)
    ensures forall i, j :: 0 <= i < j < |segs| ==> log.store.files[i].start < log.store.files[j].start
    ensures forall i :: 0 <= i < |segs| ==> log.store.files[i].start in log.store.disk
    ensures forall i: nat :: i < |segs| ==> StoredAt(codec, log.store, segs, i)
  {
    hide Frames, NoEmptySegment, NumbersUpTo, Numbered, NoStrayFiles, AllFramable, Listing, Crashed;
    forall i: nat | i < |segs| ensures StoredAt(codec, log.store, segs, i) {
      assert Holds(codec, log.store, segs, i);
    }
  }

  lemma ReopenedIsStored(codec: Codec, log: Log, segs: seq<seq<Record>>, cut: nat, names: seq<nat>, i: nat)
    requires Faithful(codec) && CrashAt(codec, log, segs, cut, names) && i < |segs|
    ensures names == Starts(log.store.files)
    ensures var reopened := Opened(codec, Crashed(log.store, cut), names);
            && |log.store.files| == |segs| == |reopened.files| && reopened.files[i].start == log.store.files[i].start
            && StoredAt(codec, reopened, Recovered(codec, segs, cut), i)
  {
    hide CrashAt, Faithful, Opened, Crashed, StoredAt, Ordered, Frames, Content, AllFramable, Recovered, TrimFrom;
    EarlierRecordsStay(codec, segs, cut, i);
    CrashedFiles(codec, log, segs, cut, names);
    TrimmedContent(codec, log, segs, cut, names);
    OpenedContents(codec, log.store, cut);
    var reopened, segs' := Opened(codec, Crashed(log.store, cut), names), Recovered(codec, segs, cut);
    if i < |segs| - 1 {
      EarlierFileIsStored(codec, log.store, reopened, segs, segs', i);
    } else {
      NewestFileIsStored(codec, reopened, segs, segs', cut);
    }
  }

  lemma OpenedRepresents(codec: Codec, log: Log, segs: seq<seq<Record>>, cut: nat, names: seq<nat>)
    requires Faithful(codec) && CrashAt(codec, log, segs, cut, names)
    ensures names == Starts(log.store.files)
    ensures Represents(codec, Opened(codec, Crashed(log.store, cut), names), Recovered(codec, segs, cut))
  {
    hide Faithful, Opened, Crashed, CrashAt, StoredAt, Ordered, Recovered, Represents;
    CrashedFiles(codec, log, segs, cut, names);
    ReopenedIsStored(codec, log, segs, cut, names, 0);
    var reopened, segs' := Opened(codec, Crashed(log.store, cut), names), Recovered(codec, segs, cut);
    forall i: nat | i < |segs'|
      ensures StoredAt(codec, reopened, segs', i) && reopened.files[i].start == log.store.files[i].start
    {
      ReopenedIsStored(codec, log, segs, cut, names, i);
    }
    RecoveredNumbered(log.store.files, reopened.files, segs, codec, cut);
    StoredFilesRepresent(codec, reopened, segs');
  }

  /* After a crash and reopening, iteration and the search by type see exactly the surviving records. */
  lemma RecoveredLogReadsBack(codec: Codec, log: Log, segs: seq<seq<Record>>, cut: nat, names: seq<nat>, s: nat,
                              kind: Byte)
    requires Faithful(codec) && CrashAt(codec, log, segs, cut, names)
    ensures names == Starts(log.store.files)
    ensures var reopened := Opened(codec, Crashed(log.store, cut), names);
            var survivors := Joined(Recovered(codec, segs, cut));
            && IterFrom(codec, reopened, s) == Some(From(survivors, s))
            && FindLast(codec, reopened, kind, |reopened.files|) == Some(LastOfKind(survivors, kind))
  {
    hide Faithful, CrashAt, IterFrom, FindLast, Readable, Ordered, Opened, Recovered, From, LastOfKind, Joined;
    OpenedRepresents(codec, log, segs, cut, names);
    var reopened, segs' := Opened(codec, Crashed(log.store, cut), names), Recovered(codec, segs, cut);
    IterYieldsSuffix(codec, reopened, segs', s);
    FindLastIsLast(codec, reopened, segs', kind, |segs'|);
    OneEntryPerSegment(codec, reopened, segs');
    assert segs'[..|segs'|] == segs';
  }

  /******* The next number *******/

  lemma {:induction false} MaxStartIsLast(files: seq<FileEntry>)
    requires files != [] && forall i, j :: 0 <= i < j < |files| ==> files[i].start < files[j].start
    ensures MaxStart(files) == files[|files| - 1].start
  {
    if |files| > 1 {
      MaxStartIsLast(files[..|files| - 1]);
    }
  }

  /* No record has a higher number than the last one. */
  ghost predicate EndsHighest(rs: seq<Record>) {
    rs != [] ==> NumbersUpTo(rs, rs[|rs| - 1].number)
  }

  lemma LastFrom(rs: seq<Record>, s: nat)
    requires EndsHighest(rs)
    ensures From(rs, s) == [] <==> rs == [] || rs[|rs| - 1].number < s
    ensures rs != [] && s <= rs[|rs| - 1].number ==> From(rs, s) != [] && From(rs, s)[|From(rs, s)| - 1] == rs[|rs| - 1]
  {
    if rs != [] && rs[|rs| - 1].number < s {
      FromKeepsNone(rs, s);
    }
  }

  lemma {:induction false} JoinedUpTo(segs: seq<seq<Record>>, bound: nat)
    requires forall i :: 0 <= i < |segs| ==> NumbersUpTo(segs[i], bound)
    ensures NumbersUpTo(Joined(segs), bound)
  {
    if segs != [] {
      JoinedUpTo(segs[..|segs| - 1], bound);
    }
  }

  lemma JoinedEndsHighest(files: seq<FileEntry>, segs: seq<seq<Record>>)
    requires Ordered(files, segs) && segs != [] && segs[|segs| - 1] != []
    ensures EndsHighest(Joined(segs)) && Joined(segs) != []
    ensures Joined(segs)[|Joined(segs)| - 1] == segs[|segs| - 1][|segs[|segs| - 1]| - 1]
  {
    hide Ordered;
    var last := |segs| - 1;
    var end := segs[last][|segs[last]| - 1].number;
    forall i | 0 <= i < |segs| ensures NumbersUpTo(segs[i], end) {
      SegmentBelowEnd(files, segs, i);
    }
    JoinedUpTo(segs, end);
  }

  lemma SegmentBelowEnd(files: seq<FileEntry>, segs: seq<seq<Record>>, i: nat)
    requires Ordered(files, segs) && i < |segs| && segs[|segs| - 1] != []
    ensures var last := segs[|segs| - 1]; NumbersUpTo(segs[i], last[|last| - 1].number)
  {
    var n := |segs| - 1;
    assert Numbered(segs[n], files[n].start);
    NumberedIsMonotone(segs[n], files[n].start, |segs[n]| - 1, |segs[n]| - 1);
    if i < n {
      assert NumbersUpTo(segs[i], files[n].start);
    } else {
      forall k | 0 <= k < |segs[n]| ensures segs[n][k].number <= segs[n][|segs[n]| - 1].number {
        NumberedIsMonotone(segs[n], files[n].start, k, |segs[n]| - 1);
      }
    }
  }

  lemma OrderedBefore(files: seq<FileEntry>, segs: seq<seq<Record>>)
    requires Ordered(files, segs) && segs != []
    ensures Ordered(files[..|files| - 1], segs[..|segs| - 1])
  {
    hide Numbered, NumbersUpTo;
  }

  /* Only the last file may have lost all its records. */
  lemma SurvivorsEndHighest(files: seq<FileEntry>, segs: seq<seq<Record>>)
    requires Ordered(files, segs) && segs != [] && NoEmptySegment(segs[..|segs| - 1])
    ensures EndsHighest(Joined(segs))
  {
    if segs[|segs| - 1] != [] {
      JoinedEndsHighest(files, segs);
    } else if |segs| > 1 {
      OrderedBefore(files, segs);
      JoinedEndsHighest(files[..|files| - 1], segs[..|segs| - 1]);
      assert Joined(segs) == Joined(segs[..|segs| - 1]);
    }
  }

  lemma RepresentsInOrder(codec: Codec, store: Store, segs: seq<seq<Record>>)
    requires Represents(codec, store, segs) && segs != []
    ensures |store.files| == |segs| && Readable(codec, store, segs) && Ordered(store.files, segs)
    ensures MaxStart(store.files) == store.files[|segs| - 1].start
  {
    hide Numbered, NumbersUpTo, Readable, MaxStart;
    OneEntryPerSegment(codec, store, segs);
    MaxStartIsLast(store.files);
  }

  /* The number that should come after these records. */
  function NumberAfter(rs: seq<Record>): nat {
    if rs == [] then 1 else rs[|rs| - 1].number + 1
  }

  lemma LoadedNumber(codec: Codec, store: Store, segs: seq<seq<Record>>)
    requires Faithful(codec) && Represents(codec, store, segs) && segs != [] && NoEmptySegment(segs[..|segs| - 1])
    ensures store.files != []
    ensures var rs := Joined(segs);
            LoadNext(codec, store) ==
            Some(if rs != [] && store.files[|store.files| - 1].start <= rs[|rs| - 1].number
                 then rs[|rs| - 1].number + 1 else 1)
  {
    hide Faithful, Readable, Ordered, Represents, From, IterFrom, NoEmptySegment, NumbersUpTo, MaxStart, Joined,
      EndsHighest;
    RepresentsInOrder(codec, store, segs);
    IterYieldsSuffix(codec, store, segs, MaxStart(store.files));
    SurvivorsEndHighest(store.files, segs);
    LastFrom(Joined(segs), MaxStart(store.files));
  }

  /* After a crash, `load` continues one past the last survivor if and only if nothing survived, or the last
     survivor is numbered at least the newest file's start (so whenever that file keeps a record), or that
     number is zero. Otherwise numbering starts again at 1. */
  lemma LoadContinuesNumbering(codec: Codec, log: Log, segs: seq<seq<Record>>, cut: nat, names: seq<nat>)
    requires Faithful(codec) && CrashAt(codec, log, segs, cut, names)
    ensures names != []
    ensures var next := LoadNext(codec, Opened(codec, Crashed(log.store, cut), names));
            var rs := Joined(Recovered(codec, segs, cut));
            && (next == Some(NumberAfter(rs)) <==>
                rs == [] || names[|names| - 1] <= rs[|rs| - 1].number || rs[|rs| - 1].number == 0)
            && (next != Some(NumberAfter(rs)) ==> next == Some(1))
  {
    hide Faithful, CrashAt, LoadNext, Represents, Opened, Crashed, Joined, NoEmptySegment, Recovered, Listing;
    CrashFacts(codec, log, segs, cut, names);
    OpenedRepresents(codec, log, segs, cut, names);
    LoadedNumber(codec, Opened(codec, Crashed(log.store, cut), names), Recovered(codec, segs, cut));
    OpenedStarts(codec, Crashed(log.store, cut), names);
  }

  lemma OpenedStarts(codec: Codec, disk: map<nat, ByteString>, names: seq<nat>)
    ensures forall i :: 0 <= i < |names| ==> Opened(codec, disk, names).files[i].start == names[i]
  {
  }

  /* If the newest file keeps a record, the reopened log is as healthy as one that never crashed. */
  lemma RecoveredIsHealthy(codec: Codec, log: Log, segs: seq<seq<Record>>, cut: nat, names: seq<nat>)
    requires Faithful(codec) && CrashAt(codec, log, segs, cut, names)
    requires NewestSurvives(codec, segs, cut)
    ensures var rs, reopened := Joined(Recovered(codec, segs, cut)), Opened(codec, Crashed(log.store, cut), names);
            && rs != [] && LoadNext(codec, reopened) == Some(rs[|rs| - 1].number + 1)
            && Healthy(codec, Log(reopened, rs[|rs| - 1].number + 1), Recovered(codec, segs, cut))
  {
    hide Faithful, CrashAt, LoadNext, Opened, Crashed, Represents, Joined, NoStrayFiles, Listing, Survivors, Healthy,
      Recovered;
    CrashFacts(codec, log, segs, cut, names);
    NewestKeepsARecord(codec, segs, cut);
    OpenedRepresents(codec, log, segs, cut, names);
    ReopenedHasNoStrays(codec, log, segs, cut, names);
    WholeStoreIsHealthy(codec, Opened(codec, Crashed(log.store, cut), names), Recovered(codec, segs, cut));
  }

  lemma NewestKeepsARecord(codec: Codec, segs: seq<seq<Record>>, cut: nat)
    requires NewestSurvives(codec, segs, cut)
    ensures Recovered(codec, segs, cut)[|segs| - 1] != []
  {
    hide Survivors;
  }

  lemma WholeStoreIsHealthy(codec: Codec, store: Store, segs: seq<seq<Record>>)
    requires Faithful(codec) && Represents(codec, store, segs) && NoStrayFiles(store)
    requires segs != [] && NoEmptySegment(segs[..|segs| - 1]) && segs[|segs| - 1] != []
    ensures var rs := Joined(segs);
            && rs != [] && LoadNext(codec, store) == Some(rs[|rs| - 1].number + 1)
            && Healthy(codec, Log(store, rs[|rs| - 1].number + 1), segs)
  {
    hide Faithful, LoadNext, Represents, Joined, NumbersUpTo, NoStrayFiles, Ordered, EndsHighest;
    RepresentsInOrder(codec, store, segs);
    LoadedNumber(codec, store, segs);
    JoinedEndsHighest(store.files, segs);
    LastSurvivorReachesStart(store.files, segs);
    var last := segs[|segs| - 1];
    forall i | 0 <= i < |segs| ensures NumbersUpTo(segs[i], last[|last| - 1].number) {
      SegmentBelowEnd(store.files, segs, i);
    }
    assert NoEmptySegment(segs) by {
      forall i | 0 <= i < |segs| ensures segs[i] != [] {
        assert i < |segs| - 1 ==> segs[..|segs| - 1][i] == segs[i];
      }
    }
  }

  lemma CrashFacts(codec: Codec, log: Log, segs: seq<seq<Record>>, cut: nat, names: seq<nat>)
    requires CrashAt(codec, log, segs, cut, names)
    ensures segs != [] && names != [] && Listing(Crashed(log.store, cut), names)
    ensures NoEmptySegment(Recovered(codec, segs, cut)[..|segs| - 1])
  {
    hide Represents, NumbersUpTo, NoStrayFiles, Survivors;
    assert log.store.files[|segs| - 1].start in Crashed(log.store, cut);
    assert Recovered(codec, segs, cut)[..|segs| - 1] == segs[..|segs| - 1];
  }

  lemma LastSurvivorReachesStart(files: seq<FileEntry>, segs: seq<seq<Record>>)
    requires Ordered(files, segs) && segs != [] && segs[|segs| - 1] != []
    ensures var last := segs[|segs| - 1]; files[|files| - 1].start <= last[|last| - 1].number
  {
    var n := |segs| - 1;
    assert Numbered(segs[n], files[n].start);
    NumberedIsMonotone(segs[n], files[n].start, |segs[n]| - 1, |segs[n]| - 1);
  }

  lemma ReopenedHasNoStrays(codec: Codec, log: Log, segs: seq<seq<Record>>, cut: nat, names: seq<nat>)
    requires Listing(Crashed(log.store, cut), names) && names != []
    ensures NoStrayFiles(Opened(codec, Crashed(log.store, cut), names))
  {
    hide TrimFrom, Crashed;
    var reopened := Opened(codec, Crashed(log.store, cut), names);
    forall path | path in reopened.disk
      ensures exists i: nat :: i < |reopened.files| && reopened.files[i].start == path
    {
      assert path in names;
      var i: nat :| i < |names| && names[i] == path;
      assert reopened.files[i].start == path;
    }
  }

  /* Later writes, numbered by `load`, read back after the survivors. */
  lemma WritesAfterRecoveryReadBack(codec: Codec, log: Log, segs: seq<seq<Record>>, cut: nat, names: seq<nat>,
                                    ops: seq<Op>, s: nat, kind: Byte)
    requires Faithful(codec) && CrashAt(codec, log, segs, cut, names)
    requires NewestSurvives(codec, segs, cut)
    requires var reopened := Opened(codec, Crashed(log.store, cut), names);
             var next := LoadNext(codec, reopened).UnwrapOr(1);
             CollisionFree(codec, Log(reopened, next), ops) && Fits(codec, next, ops)
    ensures var reopened := Opened(codec, Crashed(log.store, cut), names);
            var next := LoadNext(codec, reopened).UnwrapOr(1);
            var store := PerformAll(codec, Log(reopened, next), ops).store;
            next > 0 &&
            var all := Joined(Recovered(codec, segs, cut)) + RecordsOf(next - 1, ops);
            && IterFrom(codec, store, s) == Some(From(all, s))
            && FindLast(codec, store, kind, |store.files|) == Some(LastOfKind(all, kind))
  {
    hide Faithful, CrashAt, CollisionFree, Fits, PerformAll, IterFrom, FindLast, From, LastOfKind, Healthy, LoadNext,
      Opened, Crashed, Recovered, Joined, RecordsOf, NewestSurvives;
    RecoveredIsHealthy(codec, log, segs, cut, names);
    var reopened := Opened(codec, Crashed(log.store, cut), names);
    HistoryReadsBack(codec, Log(reopened, LoadNext(codec, reopened).value), Recovered(codec, segs, cut), ops, s, kind);
  }
}
