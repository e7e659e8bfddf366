/**
 Ranges of records that can span files: construction checks, the per-file decomposition, and the proof
 that reading the parts one after the other yields exactly the requested records.
 */
module RecordRanges {
  import opened Bytes
  import opened RecordProtocol
  import opened Locations

  datatype LogFileRange =
    | FileRange(start: u64, end: u64)
    | FilePostfix(start: u64)
    | EntireFile
    | FilePrefix(end: u64)

  datatype AnyRange = RecordRange(start: RecordStart, end: RecordEnd)

  /** What construction establishes, and all that iteration relies on. */
  predicate Ordered(range: AnyRange) {
    && range.start.id.stream == range.end.id.stream
    && range.start.id.sequence <= range.end.id.sequence
    && range.end.position > if FileOf(range.start.id) == FileOf(range.end.id) then range.start.position else 0
  }

  type RecordRange = range: AnyRange | Ordered(range)
    witness RecordRange(RecordStart(RecordId(0, 0), 0), RecordEnd(RecordId(0, 0), 16))

  datatype NewRangeResult =
    | Located(range: RecordRange)
    | DifferentStreams
    | ReversedRecords
    | InvalidByteSpan(file: LogFileId, start: u64, end: u64)

  /** Where the bytes of the range begin in the file of its last record. */
  function LowerBound(start: RecordStart, end: RecordEnd): u64 {
    if start.id.sequence / 100_000 == end.id.sequence / 100_000 then start.position else 0
  }

  function NewRange(start: RecordStart, end: RecordEnd): (r: NewRangeResult)
    ensures r.Located? ==> r.range == RecordRange(start, end)
    ensures r.DifferentStreams? <==> start.id.stream != end.id.stream
    ensures r.ReversedRecords? <==> start.id.stream == end.id.stream && start.id.sequence > end.id.sequence
    ensures r.InvalidByteSpan? <==> && start.id.stream == end.id.stream && start.id.sequence <= end.id.sequence
                                    && end.position <= LowerBound(start, end)
    ensures r.InvalidByteSpan? ==> r == InvalidByteSpan(FileOf(end.id), LowerBound(start, end), end.position)
  {
    if start.id.stream != end.id.stream then NewRangeResult.DifferentStreams
    else if start.id.sequence > end.id.sequence then ReversedRecords
    else
      var endFileStart := if FileOf(start.id) == FileOf(end.id) then start.position else 0;
      if end.position <= endFileStart then InvalidByteSpan(FileOf(end.id), endFileStart, end.position)
      else Located(RecordRange(start, end))
  }

  datatype Part = Part(file: LogFileId, range: LogFileRange)

  function PartFor(range: RecordRange, file: LogFileId): LogFileRange {
    var first, last := FileOf(range.start.id), FileOf(range.end.id);
    if first == last then FileRange(range.start.position, range.end.position)
    else if file == first then FilePostfix(range.start.position)
    else if file == last then FilePrefix(range.end.position)
    else EntireFile
  }

  /** The per-file parts in ascending order, one for each file the range touches. */
  function Iter(range: RecordRange): (r: seq<Part>)
    ensures |r| == FileOf(range.end.id).number - FileOf(range.start.id).number + 1
    ensures forall i :: 0 <= i < |r| ==>
              r[i].file == LogFileId(range.start.id.stream, FileOf(range.start.id).number + i)
  {
    var files := FilesThrough(FileOf(range.start.id), FileOf(range.end.id));
    seq(|files|, i requires 0 <= i < |files| => Part(files[i], PartFor(range, files[i])))
  }

  /** The shape of an accepted range's parts: the outer ones carry its positions, and each bounded part has bytes. */
  lemma PartsOfLocated(start: RecordStart, end: RecordEnd)
    requires NewRange(start, end).Located?
    ensures var parts := Iter(NewRange(start, end).range);
            var last := |parts| - 1;
            && last == end.id.sequence / 100_000 - start.id.sequence / 100_000
            && (last == 0 ==> parts[0].range == FileRange(start.position, end.position) && start.position < end.position)
            && (last > 0 ==>
                  && parts[0].range == FilePostfix(start.position)
                  && parts[last].range == FilePrefix(end.position) && end.position > 0
                  && forall i :: 0 < i < last ==> parts[i].range == EntireFile)
  {
    var range := NewRange(start, end).range;
    var first, last := FileOf(start.id), FileOf(end.id);
    var parts := Iter(range);
    forall i | 0 <= i < |parts|
      ensures parts[i].range == PartFor(range, LogFileId(start.id.stream, first.number + i))
    {
    }
  }

  // ---------- Meaning ----------

  /** The bytes of a log file that a part stands for; a reader resolves the missing file ends itself. */
  function Slice(contents: seq<byte>, range: LogFileRange): seq<byte> {
    match range
    case FileRange(start, end) => if start <= end <= |contents| then contents[start..end] else []
    case FilePostfix(start) => if start <= |contents| then contents[start..] else []
    case EntireFile => contents
    case FilePrefix(end) => if end <= |contents| then contents[..end] else []
  }

  /** Index behind the last record of file `number` in a stream holding `count` records. */
  function FileStop(number: nat, count: nat): nat {
    Min((number + 1) * RECORDS_PER_FILE, count)
  }

  /** Contents of a file of a contiguous stream; the record with sequence number i is `records[i]`. */
  function FileContents(records: seq<Record>, number: nat): seq<byte>
    requires number * RECORDS_PER_FILE <= |records|
  {
    Concat(records[number * RECORDS_PER_FILE..FileStop(number, |records|)])
  }

  /** The records `first..last` are in the stream, and the range's positions are theirs. */
  ghost predicate Resolves(records: seq<Record>, range: AnyRange) {
    var a: nat, b: nat := range.start.id.sequence, range.end.id.sequence;
    && range.start.id.stream == range.end.id.stream
    && a <= b < |records|
    && range.start.position == |Concat(records[FileStart(a)..a])|
    && range.end.position == |Concat(records[FileStart(b)..b + 1])|
  }

  function FileStart(sequence: nat): (r: nat)
    ensures r <= sequence
  {
    sequence / RECORDS_PER_FILE * RECORDS_PER_FILE
  }

  function ReadParts(records: seq<Record>, parts: seq<Part>): seq<byte>
    requires forall i :: 0 <= i < |parts| ==> parts[i].file.number * RECORDS_PER_FILE <= |records|
  {
    if parts == [] then []
    else Slice(FileContents(records, parts[0].file.number), parts[0].range) + ReadParts(records, parts[1..])
  }

  lemma ConcatSplit(records: seq<Record>, i: nat, j: nat, k: nat)
    requires i <= j <= k <= |records|
    ensures Concat(records[i..k]) == Concat(records[i..j]) + Concat(records[j..k])
  {
    hide ValidFrame, Concat;
    ConcatAppend(records[i..j], records[j..k]);
    assert records[i..k] == records[i..j] + records[j..k];
  }

  /** Correct endpoints always pass the construction checks. */
  lemma ResolvedRangesAreAccepted(records: seq<Record>, range: AnyRange)
    requires Resolves(records, range)
    ensures NewRange(range.start, range.end).Located? && NewRange(range.start, range.end).range == range
  {
    hide ValidFrame;
    var a: nat, b: nat := range.start.id.sequence, range.end.id.sequence;
    ConcatSplit(records, FileStart(b), b, b + 1);
    assert records[b..b + 1] == [records[b]];
    RecordIsNotEmpty(records[b]);
    if FileStart(a) == FileStart(b) {
      ConcatSplit(records, FileStart(b), a, b);
    }
  }

  /** From the `i`-th part on, what is read are the records from that file's start through the last one. */
  lemma {:induction false} LaterParts(records: seq<Record>, range: RecordRange, i: nat)
    requires Resolves(records, range)
    requires 0 < i < |Iter(range)|
    requires forall j :: 0 <= j < |Iter(range)| ==> Iter(range)[j].file.number * RECORDS_PER_FILE <= |records|
    ensures ReadParts(records, Iter(range)[i..])
         == Concat(records[Iter(range)[i].file.number * RECORDS_PER_FILE..range.end.id.sequence + 1])
    decreases |Iter(range)| - i
  {
    hide ValidFrame, Concat, Resolves;
    var b: nat := range.end.id.sequence;
    var parts := Iter(range);
    var number := parts[i].file.number;
    var start := number * RECORDS_PER_FILE;
    assert parts[i..][0] == parts[i] && parts[i..][1..] == parts[i + 1..];
    if i == |parts| - 1 {
      LastPart(records, range);
      assert parts[i + 1..] == [];
    } else {
      LaterParts(records, range, i + 1);
      assert parts[i].range == EntireFile;
      assert start + RECORDS_PER_FILE <= b by { NotLastFile(number, b); }
      assert |records| > b by { ResolvedBounds(records, range); }
      ConcatSplit(records, start, start + RECORDS_PER_FILE, b + 1);
    }
  }

  lemma NotLastFile(number: nat, sequence: nat)
    requires number < sequence / RECORDS_PER_FILE
    ensures (number + 1) * RECORDS_PER_FILE <= sequence
  {
  }

  lemma ResolvedBounds(records: seq<Record>, range: AnyRange)
    requires Resolves(records, range)
    ensures range.start.id.sequence <= range.end.id.sequence < |records|
  {
  }

  lemma LastPart(records: seq<Record>, range: RecordRange)
    requires Resolves(records, range)
    ensures Slice(FileContents(records, range.end.id.sequence / RECORDS_PER_FILE), FilePrefix(range.end.position))
         == Concat(records[FileStart(range.end.id.sequence)..range.end.id.sequence + 1])
  {
    hide ValidFrame, Concat;
    var b: nat := range.end.id.sequence;
    ConcatSplit(records, FileStart(b), b + 1, FileStop(b / RECORDS_PER_FILE, |records|));
  }

  /** The first part of a range over several files is everything from the first record to the file's end. */
  lemma FirstPart(records: seq<Record>, range: RecordRange)
    requires Resolves(records, range)
    requires FileOf(range.start.id) != FileOf(range.end.id)
    ensures var a: nat := range.start.id.sequence;
            var next := FileStart(a) + RECORDS_PER_FILE;
            && next <= range.end.id.sequence
            && Slice(FileContents(records, a / RECORDS_PER_FILE), FilePostfix(range.start.position))
            == Concat(records[a..next])
  {
    hide ValidFrame, Concat;
    var a: nat := range.start.id.sequence;
    NotLastFile(a / RECORDS_PER_FILE, range.end.id.sequence);
    ConcatSplit(records, FileStart(a), a, FileStart(a) + RECORDS_PER_FILE);
  }

  lemma OnlyPart(records: seq<Record>, range: RecordRange)
    requires Resolves(records, range)
    requires FileOf(range.start.id) == FileOf(range.end.id)
    ensures Slice(FileContents(records, range.start.id.sequence / RECORDS_PER_FILE),
                  FileRange(range.start.position, range.end.position))
         == Concat(records[range.start.id.sequence..range.end.id.sequence + 1])
  {
    hide ValidFrame, Concat;
    var a: nat, b: nat := range.start.id.sequence, range.end.id.sequence;
    ConcatSplit(records, FileStart(b), a, b + 1);
    ConcatSplit(records, FileStart(b), b + 1, FileStop(b / RECORDS_PER_FILE, |records|));
  }

  /** Every file the iteration names exists in the stream. */
  lemma PartsExist(records: seq<Record>, range: RecordRange)
    requires Resolves(records, range)
    ensures forall j :: 0 <= j < |Iter(range)| ==> Iter(range)[j].file.number * RECORDS_PER_FILE <= |records|
  {
    hide Iter, Concat, ValidFrame;
    var b: nat := range.end.id.sequence;
    forall j | 0 <= j < |Iter(range)|
      ensures Iter(range)[j].file.number * RECORDS_PER_FILE <= |records|
    {
      assert Iter(range)[j].file.number <= b / RECORDS_PER_FILE;
    }
  }

  /**
   For any contiguous stream split into files and any correct endpoints, slicing each yielded file and
   concatenating gives exactly the encodings of the first through the last requested record.
   */
  lemma IterationReadsTheRange(records: seq<Record>, range: RecordRange)
    requires Resolves(records, range)
    ensures forall j :: 0 <= j < |Iter(range)| ==> Iter(range)[j].file.number * RECORDS_PER_FILE <= |records|
    ensures ReadParts(records, Iter(range)) == Concat(records[range.start.id.sequence..range.end.id.sequence + 1])
  {
    hide ValidFrame, Concat, Resolves, Slice, FileContents;
    PartsExist(records, range);
    var a: nat, b: nat := range.start.id.sequence, range.end.id.sequence;
    var parts := Iter(range);
    ResolvedBounds(records, range);
    assert parts[0].file.number == a / RECORDS_PER_FILE;
    if |parts| == 1 {
      OnlyPart(records, range);
      assert parts[1..] == [];
    } else {
      var next := FileStart(a) + RECORDS_PER_FILE;
      FirstPart(records, range);
      LaterParts(records, range, 1);
      assert parts[1].file.number * RECORDS_PER_FILE == next;
      ConcatSplit(records, a, next, b + 1);
    }
  }
}
