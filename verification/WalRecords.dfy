/**
 Framed records of the write-ahead log and how one file is read back (durability/wal.rs: `write_header`,
 `FileReader`, `File::trim_corrupted_tail`, `File::format_file_name`).
 */
module WalRecords {
  import opened Bytes
  import opened Joining
  import opened Numerals
  import opened Options

  const NUMBER_BYTES: nat := 8
  const HEADER_BYTES: nat := 17
  const FILE_NAME_DIGITS: nat := 25

  datatype Record = Record(number: nat, kind: Byte, payload: ByteString)

  /* The compression codec. `decode` gives None for an error. */
  datatype Codec = Codec(encode: ByteString -> ByteString, decode: ByteString -> Option<ByteString>)

  /* What is assumed of it: it decodes what it encoded, and a proper prefix of an encoding does not decode
     to anything but an error or nothing. */
  ghost predicate Faithful(codec: Codec) {
    && (forall x :: codec.decode(codec.encode(x)) == Some(x))
    && (forall x, n :: 0 <= n < |codec.encode(x)| ==>
          codec.decode(codec.encode(x)[..n]).None? || codec.decode(codec.encode(x)[..n]) == Some([]))
  }

  /* A record that can be framed: its numbers fit 64 bits. */
  ghost predicate Framable(codec: Codec, r: Record) {
    r.number < Pow(256, NUMBER_BYTES) && |codec.encode(r.payload)| < Pow(256, NUMBER_BYTES)
  }

  function BigEndian(n: nat): (bytes: ByteString)
    ensures |bytes| == NUMBER_BYTES
  {
    Digits(n, 256, NUMBER_BYTES)
  }

  function Frame(codec: Codec, r: Record): (bytes: ByteString)
    ensures |bytes| == HEADER_BYTES + |codec.encode(r.payload)|
  {
    var body := codec.encode(r.payload);
    BigEndian(r.number) + BigEndian(|body|) + [r.kind] + body
  }

  function FrameList(codec: Codec, rs: seq<Record>): (parts: seq<ByteString>)
    ensures |parts| == |rs|
    ensures forall k :: 0 <= k < |rs| ==> parts[k] == Frame(codec, rs[k])
  {
    seq(|rs|, k requires 0 <= k < |rs| => Frame(codec, rs[k]))
  }

  /* The contents of a file that holds exactly these records. */
  function Frames(codec: Codec, rs: seq<Record>): (bytes: ByteString) {
    Joined(FrameList(codec, rs))
  }

  lemma SixtyFourBits()
    ensures Pow(256, NUMBER_BYTES) == 18446744073709551616
  {
    assert Pow(256, 4) == 256 * (256 * (256 * (256 * 1)));
    assert Pow(256, 8) == 256 * (256 * (256 * (256 * Pow(256, 4))));
  }

  /* The bytes of a frame: the number and the length of the body as 64-bit numbers, most significant byte first, the
     kind, and the body. */
  lemma FrameLayout(codec: Codec, r: Record)
    requires r.number < 18446744073709551616 && |codec.encode(r.payload)| < 18446744073709551616
    ensures var frame, body := Frame(codec, r), codec.encode(r.payload);
            && |frame| == 17 + |body| && frame[16] == r.kind && frame[17..] == body
            && Value(frame[..8], 256) == r.number && Value(frame[8..16], 256) == |body|
  {
    SixtyFourBits();
    HeaderReadsBack(codec, r, []);
    assert Frame(codec, r) + [] == Frame(codec, r) && codec.encode(r.payload) + [] == codec.encode(r.payload);
  }

  /******* Reading *******/

  datatype ReadResult = End | Fault | Got(record: Record, next: nat)

  function Min(a: nat, b: nat): nat {
    if a <= b then a else b
  }

  /* `read_one_record` at position pos of a file with the given contents and recorded length. */
  function ReadOne(codec: Codec, content: ByteString, len: nat, pos: nat): (r: ReadResult)
    ensures r.Got? ==> pos + HEADER_BYTES <= r.next <= |content|
  {
    if pos == len then End
    else if pos + HEADER_BYTES > |content| then Fault
    else
      var rest := content[pos..];
      var number := Value(rest[..NUMBER_BYTES], 256);
      var size := Value(rest[NUMBER_BYTES..2 * NUMBER_BYTES], 256);
      var available := rest[HEADER_BYTES..];
      var body := available[..Min(size, |available|)];
      match codec.decode(body)
      case None => Fault
      case Some(payload) => Got(Record(number, rest[2 * NUMBER_BYTES], payload), pos + HEADER_BYTES + |body|)
  }

  lemma SlicesOfFour(a: ByteString, b: ByteString, x: Byte, c: ByteString)
    ensures var whole := a + b + [x] + c;
            && whole[..|a|] == a
            && whole[|a|..|a| + |b|] == b
            && whole[|a| + |b|] == x
            && whole[|a| + |b| + 1..] == c
  {
  }

  /* A frame's header gives back its numbers. */
  lemma HeaderReadsBack(codec: Codec, r: Record, tail: ByteString)
    requires Framable(codec, r)
    ensures var rest, body := Frame(codec, r) + tail, codec.encode(r.payload);
            && Value(rest[..NUMBER_BYTES], 256) == r.number
            && Value(rest[NUMBER_BYTES..2 * NUMBER_BYTES], 256) == |body|
            && rest[2 * NUMBER_BYTES] == r.kind
            && rest[HEADER_BYTES..] == body + tail
  {
    var body := codec.encode(r.payload);
    var number, size := BigEndian(r.number), BigEndian(|body|);
    DigitsRoundTrip(r.number, 256, NUMBER_BYTES);
    DigitsRoundTrip(|body|, 256, NUMBER_BYTES);
    SlicesOfFour(number, size, r.kind, body + tail);
    assert Frame(codec, r) + tail == number + size + [r.kind] + (body + tail) by {
      hide BigEndian;
    }
  }

  /* A whole frame is read back as the record that was written. */
  lemma FrameReadsBack(codec: Codec, content: ByteString, len: nat, pos: nat, r: Record)
    requires Faithful(codec) && Framable(codec, r) && pos != len
    requires pos + |Frame(codec, r)| <= |content| && content[pos..pos + |Frame(codec, r)|] == Frame(codec, r)
    ensures ReadOne(codec, content, len, pos) == Got(r, pos + |Frame(codec, r)|)
  {
    hide Frame, Framable;
    var rest, body := content[pos..], codec.encode(r.payload);
    var tail := content[pos + |Frame(codec, r)|..];
    assert rest == Frame(codec, r) + tail;
    HeaderReadsBack(codec, r, tail);
    assert (body + tail)[..|body|] == body;
  }

  /* A frame that is cut reads as what the codec makes of the part of the body that is left, or not at all if its
     header is cut. */
  lemma CutFrameReadsAs(codec: Codec, content: ByteString, pos: nat, r: Record, cut: nat)
    requires Framable(codec, r)
    requires pos < |content| && cut < |Frame(codec, r)| && content[pos..] == Frame(codec, r)[..cut]
    ensures ReadOne(codec, content, |content|, pos) ==
            if cut < 17 then Fault
            else
              match codec.decode(codec.encode(r.payload)[..cut - 17])
              case None => Fault
              case Some(payload) => Got(Record(r.number, r.kind, payload), |content|)
  {
    if cut >= HEADER_BYTES {
      CutHeaderReadsBack(codec, r, cut);
      var rest, body := content[pos..], codec.encode(r.payload);
      var available := rest[HEADER_BYTES..];
      assert available == body[..cut - HEADER_BYTES];
      assert available[..Min(|body|, |available|)] == available;
    }
  }

  /* A frame cut short is not taken for a record with a payload. */
  lemma CutFrameIsRejected(codec: Codec, content: ByteString, pos: nat, r: Record, cut: nat)
    requires Faithful(codec) && Framable(codec, r)
    requires pos < |content| && cut < |Frame(codec, r)| && content[pos..] == Frame(codec, r)[..cut]
    ensures var result := ReadOne(codec, content, |content|, pos);
            result.Fault? || (result.Got? && result.record.payload == [])
  {
    hide Frame, ReadOne;
    CutFrameReadsAs(codec, content, pos, r, cut);
  }

  lemma CutHeaderReadsBack(codec: Codec, r: Record, cut: nat)
    requires Framable(codec, r) && HEADER_BYTES <= cut < |Frame(codec, r)|
    ensures var rest, body := Frame(codec, r)[..cut], codec.encode(r.payload);
            && Value(rest[..NUMBER_BYTES], 256) == r.number && rest[2 * NUMBER_BYTES] == r.kind
            && Value(rest[NUMBER_BYTES..2 * NUMBER_BYTES], 256) == |body|
            && rest[HEADER_BYTES..] == body[..cut - HEADER_BYTES]
  {
    hide Frame;
    HeaderReadsBack(codec, r, []);
    var whole, rest := Frame(codec, r), Frame(codec, r)[..cut];
    assert whole + [] == whole;
    assert rest[..NUMBER_BYTES] == whole[..NUMBER_BYTES];
    assert rest[NUMBER_BYTES..2 * NUMBER_BYTES] == whole[NUMBER_BYTES..2 * NUMBER_BYTES];
    assert rest[HEADER_BYTES..] == whole[HEADER_BYTES..][..cut - HEADER_BYTES];
  }

  /******* Sequences of frames *******/

  /* Where the k-th record of a file begins. */
  function Offset(codec: Codec, rs: seq<Record>, k: nat): nat
    requires k <= |rs|
  {
    Start(FrameList(codec, rs), k)
  }

  lemma OffsetAtEnds(codec: Codec, rs: seq<Record>)
    ensures Offset(codec, rs, 0) == 0 && Offset(codec, rs, |rs|) == |Frames(codec, rs)|
  {
    StartAtEnd(FrameList(codec, rs));
  }

  ghost predicate AllFramable(codec: Codec, rs: seq<Record>) {
    forall k :: 0 <= k < |rs| ==> Framable(codec, rs[k])
  }

  lemma FramesOfPrefix(codec: Codec, rs: seq<Record>, k: nat)
    requires k <= |rs|
    ensures FrameList(codec, rs)[..k] == FrameList(codec, rs[..k])
    ensures Offset(codec, rs, k) == |Frames(codec, rs[..k])| <= |Frames(codec, rs)|
    ensures Frames(codec, rs)[..Offset(codec, rs, k)] == Frames(codec, rs[..k])
  {
    hide Joined, Frame;
    JoinedBefore(FrameList(codec, rs), k);
    assert FrameList(codec, rs)[..k] == FrameList(codec, rs[..k]);
  }

  lemma FramesOfConcat(codec: Codec, a: seq<Record>, b: seq<Record>)
    ensures Frames(codec, a + b) == Frames(codec, a) + Frames(codec, b)
  {
    hide Frame;
    assert FrameList(codec, a + b) == FrameList(codec, a) + FrameList(codec, b);
    JoinedOfConcat(FrameList(codec, a), FrameList(codec, b));
  }

  /* Reading at the start of the k-th record, when the file holds at least that record. */
  lemma ReadsKthRecord(codec: Codec, rs: seq<Record>, content: ByteString, len: nat, k: nat)
    requires Faithful(codec) && AllFramable(codec, rs) && k < |rs|
    requires Offset(codec, rs, k + 1) <= |content| && Offset(codec, rs, k + 1) <= |Frames(codec, rs)|
    requires content[..Offset(codec, rs, k + 1)] == Frames(codec, rs)[..Offset(codec, rs, k + 1)]
    requires len != Offset(codec, rs, k)
    ensures Offset(codec, rs, k) + HEADER_BYTES <= Offset(codec, rs, k + 1)
    ensures ReadOne(codec, content, len, Offset(codec, rs, k)) == Got(rs[k], Offset(codec, rs, k + 1))
  {
    hide Joined, Frame, ReadOne, Faithful, Framable;
    PartAt(FrameList(codec, rs), k);
    var pos, end, all := Offset(codec, rs, k), Offset(codec, rs, k + 1), Frames(codec, rs);
    SliceOfSlice(content, pos, end, |content|);
    SliceOfSlice(all, pos, end, |all|);
    assert content[pos..end] == content[pos..][..end - pos] == all[pos..][..end - pos] == all[pos..end];
    FrameReadsBack(codec, content, len, pos, rs[k]);
  }

  /* All records from position pos to the end of the file; None if a read fails. */
  function Records(codec: Codec, content: ByteString, len: nat, pos: nat): (rs: Option<seq<Record>>)
    decreases |content| - pos
  {
    match ReadOne(codec, content, len, pos)
    case End => Some([])
    case Fault => None
    case Got(r, next) =>
      var rest := Records(codec, content, len, next);
      if rest.None? then None else Some([r] + rest.value)
  }

  lemma NothingAtTheEnd(codec: Codec, content: ByteString, len: nat)
    ensures Records(codec, content, len, len) == Some([])
  {
  }

  lemma {:induction false} RecordsReadBack(codec: Codec, rs: seq<Record>, content: ByteString, k: nat)
    requires Faithful(codec) && AllFramable(codec, rs) && k <= |rs|
    requires Frames(codec, rs) <= content
    ensures Records(codec, content, |Frames(codec, rs)|, Offset(codec, rs, k)) == Some(rs[k..])
    decreases |rs| - k
  {
    hide Frame, ReadOne, Faithful;
    if k == |rs| {
      StartAtEnd(FrameList(codec, rs));
      NothingAtTheEnd(codec, content, |Frames(codec, rs)|);
    } else {
      PartAt(FrameList(codec, rs), k);
      ReadsKthRecord(codec, rs, content, |Frames(codec, rs)|, k);
      RecordsReadBack(codec, rs, content, k + 1);
      assert [rs[k]] + rs[k + 1..] == rs[k..];
    }
  }

  /******* Trimming a corrupted tail *******/

  /* How much of the file `trim_corrupted_tail` keeps when everything before pos was read well. */
  function TrimFrom(codec: Codec, content: ByteString, pos: nat): (kept: nat)
    requires pos <= |content|
    ensures kept <= |content|
    decreases |content| - pos
  {
    match ReadOne(codec, content, |content|, pos)
    case End => pos
    case Fault => pos
    case Got(r, next) => if r.payload == [] then pos else TrimFrom(codec, content, next)
  }

  method TrimCorruptedTail(codec: Codec, content: ByteString) returns (trimmed: ByteString)
    ensures trimmed == content[..TrimFrom(codec, content, 0)]
  {
    var pos := 0;
    var lastSuccessful := 0;
    trimmed := content;
    var reading := true;
    while reading
      invariant pos <= |content| && lastSuccessful == pos
      invariant reading ==> TrimFrom(codec, content, 0) == TrimFrom(codec, content, pos) && trimmed == content
      invariant !reading ==> trimmed == content[..TrimFrom(codec, content, 0)]
      decreases reading, |content| - pos
    {
      match ReadOne(codec, content, |content|, pos) {
        case End =>
          reading := false;
          assert content[..|content|] == content;
        case Fault =>
          trimmed := content[..lastSuccessful];
          reading := false;
        case Got(r, next) =>
          if r.payload != [] {
            pos := next;
            lastSuccessful := pos;
          } else {
            trimmed := content[..lastSuccessful];
            reading := false;
          }
      }
    }
  }

  /* How many records are whole when the file is cut at byte `cut`. */
  function Whole(codec: Codec, rs: seq<Record>, cut: nat): (k: nat)
    ensures k <= |rs|
    ensures Offset(codec, rs, k) <= cut
    ensures k < |rs| ==> cut < Offset(codec, rs, k + 1)
  {
    WholeFrom(FrameList(codec, rs), cut, 0)
  }

  /* How many of the first n records come before one without a payload. */
  function BeforeEmpty(rs: seq<Record>, n: nat): (k: nat)
    requires n <= |rs|
    ensures k <= n
    ensures forall i :: 0 <= i < k ==> rs[i].payload != []
    ensures k < n ==> rs[k].payload == []
  {
    if n == 0 then 0
    else
      var k := BeforeEmpty(rs, n - 1);
      if k < n - 1 || rs[n - 1].payload == [] then k else n
  }

  /* How many records survive the cut and the trimming, which also stops at a record without a payload. */
  function Survivors(codec: Codec, rs: seq<Record>, cut: nat): (k: nat)
    ensures k <= Whole(codec, rs, cut) <= |rs|
    ensures forall i :: 0 <= i < k ==> rs[i].payload != []
    ensures k < Whole(codec, rs, cut) ==> rs[k].payload == []
  {
    BeforeEmpty(rs, Whole(codec, rs, cut))
  }

  /* What is left of the record that the cut went through. */
  lemma TailOfCut(codec: Codec, rs: seq<Record>, cut: nat, k: nat)
    requires k < |rs| && Offset(codec, rs, k) <= cut < Offset(codec, rs, k + 1)
    ensures cut <= |Frames(codec, rs)| && cut - Offset(codec, rs, k) < |Frame(codec, rs[k])|
    ensures Frames(codec, rs)[..cut][Offset(codec, rs, k)..] == Frame(codec, rs[k])[..cut - Offset(codec, rs, k)]
  {
    hide Frame, Joined, Start;
    var parts := FrameList(codec, rs);
    PartAt(parts, k);
    var pos, end, all := Start(parts, k), Start(parts, k + 1), Joined(parts);
    assert all[pos..end] == Frame(codec, rs[k]);
    SliceOfSlice(all, pos, cut, end);
  }

  lemma SliceOfSlice(all: ByteString, pos: nat, cut: nat, end: nat)
    requires pos <= cut <= end <= |all|
    ensures all[..cut][pos..] == all[pos..end][..cut - pos]
  {
  }

  lemma {:induction false} TrimReachesTheCut(codec: Codec, rs: seq<Record>, cut: nat, k: nat)
    requires Faithful(codec) && AllFramable(codec, rs) && cut <= |Frames(codec, rs)|
    requires k <= Survivors(codec, rs, cut)
    ensures Offset(codec, rs, k) <= cut
    ensures TrimFrom(codec, Frames(codec, rs)[..cut], Offset(codec, rs, k)) ==
            Offset(codec, rs, Survivors(codec, rs, cut))
    decreases |rs| - k
  {
    hide Frame, ReadOne, Faithful, TrimFrom, AllFramable, Survivors, Whole;
    var kept := Survivors(codec, rs, cut);
    StartsGrow(FrameList(codec, rs), k, Whole(codec, rs, cut));
    if k < kept {
      TrimPasses(codec, rs, cut, k);
      TrimReachesTheCut(codec, rs, cut, k + 1);
    } else if kept < Whole(codec, rs, cut) {
      TrimStopsAtEmpty(codec, rs, cut, kept);
    } else {
      TrimStops(codec, rs, cut);
    }
  }

  /* Reading a record that is still whole. */
  lemma ReadsWholeRecord(codec: Codec, rs: seq<Record>, cut: nat, k: nat)
    requires Faithful(codec) && AllFramable(codec, rs) && cut <= |Frames(codec, rs)| && k < Whole(codec, rs, cut)
    ensures Offset(codec, rs, k) <= Offset(codec, rs, k + 1) <= cut
    ensures ReadOne(codec, Frames(codec, rs)[..cut], cut, Offset(codec, rs, k)) == Got(rs[k], Offset(codec, rs, k + 1))
  {
    hide Frame, ReadOne, Faithful;
    var content, whole := Frames(codec, rs)[..cut], Whole(codec, rs, cut);
    StartsGrow(FrameList(codec, rs), k, whole);
    StartsGrow(FrameList(codec, rs), k + 1, whole);
    PartAt(FrameList(codec, rs), k);
    assert content[..Offset(codec, rs, k + 1)] == Frames(codec, rs)[..Offset(codec, rs, k + 1)];
    ReadsKthRecord(codec, rs, content, |content|, k);
  }

  lemma TrimStopsAtEmpty(codec: Codec, rs: seq<Record>, cut: nat, k: nat)
    requires Faithful(codec) && AllFramable(codec, rs) && cut <= |Frames(codec, rs)|
    requires k < Whole(codec, rs, cut) && rs[k].payload == []
    ensures Offset(codec, rs, k) <= cut
    ensures TrimFrom(codec, Frames(codec, rs)[..cut], Offset(codec, rs, k)) == Offset(codec, rs, k)
  {
    hide Frame, ReadOne, Faithful, Whole, AllFramable;
    ReadsWholeRecord(codec, rs, cut, k);
  }

  /* A whole record with a payload is passed over. */
  lemma TrimPasses(codec: Codec, rs: seq<Record>, cut: nat, k: nat)
    requires Faithful(codec) && AllFramable(codec, rs) && cut <= |Frames(codec, rs)|
    requires k < Whole(codec, rs, cut) && rs[k].payload != []
    ensures Offset(codec, rs, k) <= cut && Offset(codec, rs, k + 1) <= cut
    ensures TrimFrom(codec, Frames(codec, rs)[..cut], Offset(codec, rs, k)) ==
            TrimFrom(codec, Frames(codec, rs)[..cut], Offset(codec, rs, k + 1))
  {
    hide Frame, ReadOne, Faithful, Whole, AllFramable;
    ReadsWholeRecord(codec, rs, cut, k);
  }

  /* At the record that was cut, or at the end, trimming stops. */
  lemma TrimStops(codec: Codec, rs: seq<Record>, cut: nat)
    requires Faithful(codec) && AllFramable(codec, rs) && cut <= |Frames(codec, rs)|
    ensures var start := Offset(codec, rs, Whole(codec, rs, cut));
            TrimFrom(codec, Frames(codec, rs)[..cut], start) == start
  {
    hide Frame, Faithful;
    var content, k := Frames(codec, rs)[..cut], Whole(codec, rs, cut);
    if Offset(codec, rs, k) == cut {
      assert ReadOne(codec, content, |content|, cut).End?;
    } else {
      hide ReadOne;
      if k == |rs| {
        StartAtEnd(FrameList(codec, rs));
        assert false;
      }
      TailOfCut(codec, rs, cut, k);
      CutFrameIsRejected(codec, content, Offset(codec, rs, k), rs[k], cut - Offset(codec, rs, k));
    }
  }

  /* For a file cut at any byte, trimming leaves exactly the whole records up to the first without a payload, and
     what it leaves reads back without error. */
  lemma TrimmingKeepsWholeRecords(codec: Codec, rs: seq<Record>, cut: nat)
    requires Faithful(codec) && AllFramable(codec, rs) && cut <= |Frames(codec, rs)|
    ensures var content, k := Frames(codec, rs)[..cut], Survivors(codec, rs, cut);
            var trimmed := content[..TrimFrom(codec, content, 0)];
            && trimmed == Frames(codec, rs[..k])
            && Records(codec, trimmed, |trimmed|, 0) == Some(rs[..k])
            && (forall i :: 0 <= i < k ==> rs[i].payload != [])
            && (k < |rs| ==> rs[k].payload == [] || cut < |Frames(codec, rs[..k + 1])|)
  {
    hide Frame, ReadOne, Faithful;
    var content, k := Frames(codec, rs)[..cut], Survivors(codec, rs, cut);
    TrimReachesTheCut(codec, rs, cut, 0);
    FramesOfPrefix(codec, rs, k);
    StartsGrow(FrameList(codec, rs), k, Whole(codec, rs, cut));
    var trimmed := content[..TrimFrom(codec, content, 0)];
    assert trimmed == Frames(codec, rs)[..Offset(codec, rs, k)];
    RecordsReadBack(codec, rs[..k], trimmed, 0);
    if k < |rs| {
      FramesOfPrefix(codec, rs, k + 1);
    }
  }

  /* A file that was not cut keeps all its records if and only if none of them is without a payload. */
  lemma UncutFileIsKeptIff(codec: Codec, rs: seq<Record>)
    requires Faithful(codec) && AllFramable(codec, rs)
    ensures var content := Frames(codec, rs);
            content[..TrimFrom(codec, content, 0)] == content <==> forall i :: 0 <= i < |rs| ==> rs[i].payload != []
  {
    hide Frame, Faithful, AllFramable, Frames, TrimFrom;
    var content := Frames(codec, rs);
    assert content[..|content|] == content;
    TrimmingKeepsWholeRecords(codec, rs, |content|);
    OffsetAtEnds(codec, rs);
    NothingIsCut(codec, rs);
    var k := Survivors(codec, rs, |content|);
    if k < |rs| {
      LaterRecordsTakeBytes(codec, rs, k);
    } else {
      assert rs[..k] == rs;
    }
  }

  lemma NothingIsCut(codec: Codec, rs: seq<Record>)
    ensures Whole(codec, rs, |Frames(codec, rs)|) == |rs|
  {
    hide Joined, Frame;
    var k := Whole(codec, rs, |Frames(codec, rs)|);
    if k < |rs| {
      FramesOfPrefix(codec, rs, k + 1);
    }
  }

  lemma LaterRecordsTakeBytes(codec: Codec, rs: seq<Record>, k: nat)
    requires k < |rs|
    ensures |Frames(codec, rs[..k])| < |Frames(codec, rs)|
  {
    hide Joined;
    assert rs == rs[..k] + rs[k..];
    FramesOfConcat(codec, rs[..k], rs[k..]);
    JoinedFirst(FrameList(codec, rs[k..]));
  }

  /******* File names *******/

  /* The digits of a file name after its fixed prefix. */
  function FileNameDigits(start: nat): (ds: seq<nat>) {
    Digits(start, 10, FILE_NAME_DIGITS)
  }

  lemma SixtyFourBitsFitTheName(n: nat)
    requires n < Pow(256, NUMBER_BYTES)
    ensures n < Pow(10, FILE_NAME_DIGITS)
  {
    assert Pow(256, 8) == 256 * (256 * (256 * (256 * (256 * (256 * (256 * (256 * 1)))))));
    assert Pow(10, 20) == 10 * (10 * (10 * (10 * (10 * Pow(10, 15)))));
    assert Pow(10, 15) == 10 * (10 * (10 * (10 * (10 * Pow(10, 10)))));
    assert Pow(10, 10) == 10 * (10 * (10 * (10 * (10 * Pow(10, 5)))));
    assert Pow(10, 5) == 10 * (10 * (10 * (10 * (10 * 1))));
    assert Pow(10, 25) == 10 * (10 * (10 * (10 * (10 * Pow(10, 20)))));
  }

  /* Sorting the files by name sorts them by start number, and the number is read back from the name. */
  lemma FileNamesSortByNumber(a: nat, b: nat)
    requires a < Pow(256, NUMBER_BYTES) && b < Pow(256, NUMBER_BYTES)
    ensures |FileNameDigits(a)| == 25
    ensures LexLess(FileNameDigits(a), FileNameDigits(b)) <==> a < b
    ensures Value(FileNameDigits(a), 10) == a
    ensures FileNameDigits(a) == FileNameDigits(b) <==> a == b
  {
    SixtyFourBitsFitTheName(a);
    SixtyFourBitsFitTheName(b);
    DigitsSortAsNumbers(a, b, 10, FILE_NAME_DIGITS);
    DigitsRoundTrip(a, 10, FILE_NAME_DIGITS);
    DigitsAreInjective(a, b, 10, FILE_NAME_DIGITS);
  }
}
