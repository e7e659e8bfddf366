/**
 File ranges over the whole u64 sequence domain, byte positions within a file, and the arithmetic
 that moves both from record to record. A panic of the source is a precondition here.
 */
module Locations {
  import opened Bytes
  import opened RecordProtocol

  const RECORDS_PER_FILE: u64 := 100_000
  const MAX_FILE_NUMBER: u64 := 184_467_440_737_095

  type LogFileNumber = x: int | 0 <= x <= MAX_FILE_NUMBER
  type RecordLength = x: int | MIN_RECORD_LEN <= x <= MAX_RECORD_LEN witness 16

  datatype LogFileId = LogFileId(stream: StreamId, number: LogFileNumber)

  /** Inclusive byte start of a record in its own file. */
  datatype RecordStart = RecordStart(id: RecordId, position: u64)

  /** Exclusive byte end of a record in its own file. */
  datatype RecordEnd = RecordEnd(id: RecordId, position: u64)

  // ---------- Record and file identities ----------

  function NextRecordId(id: RecordId): RecordId
    requires id.sequence < U64_MAX
  {
    id.(sequence := id.sequence + 1)
  }

  function FileOf(id: RecordId): LogFileId {
    LogFileId(id.stream, id.sequence / RECORDS_PER_FILE)
  }

  function FirstFile(stream: StreamId): LogFileId {
    LogFileId(stream, 0)
  }

  function NextFile(file: LogFileId): LogFileId
    requires file.number < MAX_FILE_NUMBER
  {
    file.(number := file.number + 1)
  }

  function RecordCountThrough(id: RecordId): (r: u64)
    ensures 1 <= r <= RECORDS_PER_FILE
  {
    id.sequence % RECORDS_PER_FILE + 1
  }

  function FirstRecordId(file: LogFileId): RecordId {
    RecordId(file.stream, file.number * RECORDS_PER_FILE)
  }

  /** The last representable record of the range, capped at the end of the sequence domain. */
  function LastRecordId(file: LogFileId): RecordId {
    RecordId(file.stream, Min(file.number * RECORDS_PER_FILE + (RECORDS_PER_FILE - 1), U64_MAX))
  }

  datatype AtIndex = At(id: RecordId) | IndexTooLarge | SequenceExhausted

  function RecordIdAt(file: LogFileId, index: u64): AtIndex {
    if index > RECORDS_PER_FILE - 1 then IndexTooLarge
    else
      var sequence := FirstRecordId(file).sequence + index;
      if sequence > U64_MAX then SequenceExhausted else At(RecordId(file.stream, sequence))
  }

  /** Number of representable positions in a file: 100,000, and 51,616 in the last one. */
  function Positions(file: LogFileId): u64 {
    LastRecordId(file).sequence - FirstRecordId(file).sequence + 1
  }

  /** The ranges partition the sequence domain: a record lies in one file's range, its own. */
  lemma RangesPartitionSequences(id: RecordId, file: LogFileId)
    ensures FileOf(id) == file
            <==> id.stream == file.stream && FirstRecordId(file).sequence <= id.sequence <= LastRecordId(file).sequence
  {
    var n := id.sequence / RECORDS_PER_FILE;
    assert n * RECORDS_PER_FILE <= id.sequence < (n + 1) * RECORDS_PER_FILE;
  }

  /** Consecutive ranges leave no gap, and only the last one is short. */
  lemma RangesAreAdjacent(file: LogFileId)
    ensures file.number < MAX_FILE_NUMBER ==>
              && FirstRecordId(NextFile(file)) == NextRecordId(LastRecordId(file))
              && Positions(file) == RECORDS_PER_FILE
    ensures file.number == MAX_FILE_NUMBER ==> LastRecordId(file).sequence == U64_MAX && Positions(file) == 51_616
  {
  }

  /** Position lookup and position count are inverse exactly on the representable positions. */
  lemma CountAndIndexAreInverse(file: LogFileId, index: u64, id: RecordId)
    ensures RecordIdAt(file, index) == At(id) <==> FileOf(id) == file && RecordCountThrough(id) == index + 1
    ensures RecordIdAt(file, index).At? <==> index < Positions(file)
    ensures RecordIdAt(file, index).SequenceExhausted? <==> file.number == MAX_FILE_NUMBER && 51_616 <= index < RECORDS_PER_FILE
  {
    RangesPartitionSequences(id, file);
    assert id.sequence == id.sequence / RECORDS_PER_FILE * RECORDS_PER_FILE + id.sequence % RECORDS_PER_FILE;
  }

  datatype FileRange = Files(files: seq<LogFileId>) | DifferentStreams | ReversedFiles

  function FilesThrough(first: LogFileId, last: LogFileId): (r: seq<LogFileId>)
    requires first.stream == last.stream && first.number <= last.number
    ensures |r| == last.number - first.number + 1
    ensures forall i :: 0 <= i < |r| ==> r[i] == LogFileId(first.stream, first.number + i)
    decreases last.number - first.number
  {
    // The successor is requested only below `last`, so never beyond the last representable file.
    if first == last then [first] else [first] + FilesThrough(NextFile(first), last)
  }

  lemma FilesListed(first: LogFileId, last: LogFileId)
    requires first.stream == last.stream && first.number <= last.number
    ensures forall f :: f in FilesThrough(first, last) <==> f.stream == first.stream && first.number <= f.number <= last.number
  {
    hide FilesThrough;
    var files := FilesThrough(first, last);
    forall f: LogFileId | f.stream == first.stream && first.number <= f.number <= last.number
      ensures f in files
    {
      assert files[f.number - first.number] == f;
    }
  }

  /** The files from one through another: every file between them once, in ascending order. */
  function IterTo(first: LogFileId, last: LogFileId): (r: FileRange)
    ensures r.DifferentStreams? <==> first.stream != last.stream
    ensures r.Files? ==> forall f :: f in r.files <==> f.stream == first.stream && first.number <= f.number <= last.number
    ensures r.Files? ==> forall i, j :: 0 <= i < j < |r.files| ==> r.files[i].number < r.files[j].number
    ensures r.ReversedFiles? <==> first.stream == last.stream && last.number < first.number
  {
    hide FilesThrough;
    if first.stream != last.stream then DifferentStreams
    else if first.number > last.number then ReversedFiles
    else
      FilesListed(first, last);
      Files(FilesThrough(first, last))
  }

  // ---------- Positions ----------

  function Advance(position: u64, length: RecordLength): u64
    requires position + length <= U64_MAX
  {
    position + length
  }

  function ToEnd(start: RecordStart, length: RecordLength): RecordEnd
    requires start.position + length <= U64_MAX
  {
    RecordEnd(start.id, Advance(start.position, length))
  }

  function NextRecordStart(end: RecordEnd): RecordStart
    requires end.id.sequence < U64_MAX
  {
    var next := NextRecordId(end.id);
    RecordStart(next, if FileOf(next) == FileOf(end.id) then end.position else 0)
  }

  function ToNext(start: RecordStart, length: RecordLength): RecordStart
    requires start.position + length <= U64_MAX && start.id.sequence < U64_MAX
  {
    NextRecordStart(ToEnd(start, length))
  }

  function Sum(lengths: seq<RecordLength>): nat {
    if lengths == [] then 0 else Sum(lengths[..|lengths| - 1]) + lengths[|lengths| - 1]
  }

  lemma {:induction false} SumBounds(lengths: seq<RecordLength>)
    ensures MIN_RECORD_LEN * |lengths| <= Sum(lengths) <= MAX_RECORD_LEN * |lengths|
  {
    if lengths != [] {
      SumBounds(lengths[..|lengths| - 1]);
    }
  }

  /** Where the record behind the given ones starts, computed record by record. */
  function Fold(file: LogFileId, lengths: seq<RecordLength>): (r: RecordStart)
    requires FirstRecordId(file).sequence + |lengths| <= U64_MAX
    ensures r.id == RecordId(file.stream, FirstRecordId(file).sequence + |lengths|)
    ensures r.position <= MAX_RECORD_LEN * (|lengths| % RECORDS_PER_FILE)
    decreases |lengths|
  {
    if lengths == [] then RecordStart(FirstRecordId(file), 0)
    else
      var previous := Fold(file, lengths[..|lengths| - 1]);
      StepWithinOrAcross(file.number, |lengths| - 1);
      ToNext(previous, lengths[|lengths| - 1])
  }

  lemma StepWithinOrAcross(number: LogFileNumber, k: nat)
    ensures (number * RECORDS_PER_FILE + k) % RECORDS_PER_FILE == k % RECORDS_PER_FILE
    ensures (number * RECORDS_PER_FILE + k) / RECORDS_PER_FILE == number + k / RECORDS_PER_FILE
    ensures (k + 1) / RECORDS_PER_FILE == k / RECORDS_PER_FILE
            <==> (k + 1) % RECORDS_PER_FILE == k % RECORDS_PER_FILE + 1
    ensures (k + 1) / RECORDS_PER_FILE != k / RECORDS_PER_FILE <==> (k + 1) % RECORDS_PER_FILE == 0
  {
  }

  /**
   Folding `ToNext` from a file's start over any number of records, across any number of files, puts the
   next record into its assigned file at the sum of the lengths since that file began.
   */
  lemma FoldPlacesRecords(file: LogFileId, lengths: seq<RecordLength>)
    requires FirstRecordId(file).sequence + |lengths| <= U64_MAX
    ensures var start := Fold(file, lengths);
            var inFile := |lengths| % RECORDS_PER_FILE;
            && FileOf(start.id) == LogFileId(file.stream, file.number + |lengths| / RECORDS_PER_FILE)
            && start.position == Sum(lengths[|lengths| - inFile..])
  {
    hide Sum, Fold;
    StepWithinOrAcross(file.number, |lengths|);
    FoldPosition(file, lengths);
  }

  lemma {:induction false} FoldPosition(file: LogFileId, lengths: seq<RecordLength>)
    requires FirstRecordId(file).sequence + |lengths| <= U64_MAX
    ensures Fold(file, lengths).position == Sum(lengths[|lengths| - |lengths| % RECORDS_PER_FILE..])
    decreases |lengths|
  {
    hide ToNext;
    var n := |lengths|;
    if n == 0 {
      assert lengths[0..] == [];
    } else {
      FoldPosition(file, lengths[..n - 1]);
      ToNextPosition(file.number, n - 1, Fold(file, lengths[..n - 1]), lengths[n - 1]);
      SinceBegin(n);
      SumSince(lengths, n % RECORDS_PER_FILE);
    }
  }

  lemma SinceBegin(n: nat)
    requires n > 0
    ensures n % RECORDS_PER_FILE > 0 ==> n - n % RECORDS_PER_FILE == (n - 1) - (n - 1) % RECORDS_PER_FILE
  {
  }

  lemma ToNextPosition(number: LogFileNumber, k: nat, start: RecordStart, length: RecordLength)
    requires start.id.sequence == number * RECORDS_PER_FILE + k < U64_MAX
    requires start.position + length <= U64_MAX
    ensures ToNext(start, length).position
         == if (k + 1) % RECORDS_PER_FILE == 0 then 0 else start.position + length
  {
    StepWithinOrAcross(number, k);
    StepWithinOrAcross(number, k + 1);
  }

  lemma SumSince(lengths: seq<RecordLength>, inFile: nat)
    requires 0 < |lengths| && inFile <= |lengths|
    ensures Sum(lengths[|lengths| - inFile..])
         == if inFile == 0 then 0 else Sum(lengths[..|lengths| - 1][|lengths| - inFile..]) + lengths[|lengths| - 1]
  {
    var since := lengths[|lengths| - inFile..];
    if inFile > 0 {
      assert since[..|since| - 1] == lengths[..|lengths| - 1][|lengths| - inFile..];
    }
  }

  // ---------- The greatest file number ----------

  ghost predicate IsMaximum(numbers: set<LogFileNumber>, maximum: Option<LogFileNumber>) {
    match maximum
    case None => numbers == {}
    case Some(m) => m in numbers && forall n :: n in numbers ==> n <= m
  }

  ghost function Maximum(numbers: set<LogFileNumber>): (r: Option<LogFileNumber>)
    ensures IsMaximum(numbers, r)
  {
    if numbers == {} then None
    else
      var n :| n in numbers;
      match Maximum(numbers - {n})
      case None =>
        assert numbers == {n};
        Some(n)
      case Some(m) =>
        assert forall k :: k in numbers ==> k == n || k in numbers - {n};
        Some(Max(m, n))
  }

  lemma MaximumIsUnique(numbers: set<LogFileNumber>, maximum: Option<LogFileNumber>)
    requires IsMaximum(numbers, maximum)
    ensures Maximum(numbers) == maximum
  {
  }
}
