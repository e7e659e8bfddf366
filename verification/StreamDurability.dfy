/**
 Durability of a whole stream: complete files in order, a last file cut off anywhere behind what was
 synchronized, and any earlier synchronized end as the checkpoint. Initialization recovers a prefix of the
 appended records that contains every synchronized one, and leaves the same kind of disk behind, so that
 appending, crashing and recovering can go on for ever.
 */
module StreamDurability {
  import opened Bytes
  import opened RecordProtocol
  import opened ByteDevice
  import opened Locations
  import opened IndexWriter
  import opened DenseIndex
  import opened LogFileValidator
  import opened IndexFileValidator
  import opened Storage
  import opened IndexedLogValidator
  import opened StreamInitializer
  import opened RestartableRecovery
  import opened RecoveredPrefix
  import opened InitOutcomes
  import opened CrashRecovery
  import IndexedLogWriter

  // ---------- Appended records and their files ----------

  /** The stream's records in order, from its first sequence number on. */
  ghost predicate Appended(stream: StreamId, records: seq<Record>) {
    && |records| <= U64_MAX + 1
    && forall i :: 0 <= i < |records| ==> IdOf(records[i]) == RecordId(stream, i)
  }

  lemma AppendedFits(stream: StreamId, records: seq<Record>)
    requires Appended(stream, records)
    ensures |records| <= U64_MAX + 1
  {
  }

  /** How many of the first `count` records of a stream are assigned to file `n`. */
  function Within(count: nat, n: LogFileNumber): (r: nat)
    ensures r <= RECORDS_PER_FILE && r <= count
  {
    Min(Max(count - n * RECORDS_PER_FILE, 0), RECORDS_PER_FILE)
  }

  /** The records assigned to file `n`. */
  function InFile(records: seq<Record>, n: LogFileNumber): (r: seq<Record>)
    ensures |r| == Within(|records|, n)
  {
    if n * RECORDS_PER_FILE >= |records| then []
    else records[n * RECORDS_PER_FILE..][..Within(|records|, n)]
  }

  lemma InFileIsInSequence(stream: StreamId, records: seq<Record>, n: LogFileNumber)
    requires Appended(stream, records)
    ensures InSequence(LogFileId(stream, n), InFile(records, n))
  {
    hide ValidFrame, IdOf;
  }

  lemma InFileOfPrefix(records: seq<Record>, m: nat, n: LogFileNumber)
    requires m <= |records|
    ensures InFile(records[..m], n) == InFile(records, n)[..Within(m, n)]
  {
    hide ValidFrame;
  }

  lemma FileOfCount(count: nat)
    requires 0 < count <= U64_MAX + 1
    ensures var n := (count - 1) / RECORDS_PER_FILE;
            0 <= n <= MAX_FILE_NUMBER && n * RECORDS_PER_FILE < count <= (n + 1) * RECORDS_PER_FILE
            && Within(count, n) == count - n * RECORDS_PER_FILE > 0
  {
  }

  /** End of the first `count` records: their last one's own file and position. */
  function StreamEnd(stream: StreamId, records: seq<Record>, count: nat): (r: Option<RecordEnd>)
    requires count <= |records| <= U64_MAX + 1
    ensures r == None <==> count == 0
    ensures r.Some? ==> r.value.id == RecordId(stream, count - 1)
  {
    hide ValidFrame, Concat;
    if count == 0 then None
    else
      FileOfCount(count);
      var n := (count - 1) / RECORDS_PER_FILE;
      EndAfter(LogFileId(stream, n), InFile(records, n), Within(count, n))
  }

  lemma EndInFile(stream: StreamId, records: seq<Record>, n: LogFileNumber, count: nat)
    requires Appended(stream, records) && n * RECORDS_PER_FILE < count <= |records| && count <= (n + 1) * RECORDS_PER_FILE
    ensures Within(count, n) == count - n * RECORDS_PER_FILE <= |InFile(records, n)|
    ensures FirstRecordId(LogFileId(stream, n)).sequence + Within(count, n) <= U64_MAX + 1
    ensures StreamEnd(stream, records, count) == EndAfter(LogFileId(stream, n), InFile(records, n), Within(count, n))
    ensures StreamEnd(stream, records, count).Some? && FileOf(StreamEnd(stream, records, count).value.id) == LogFileId(stream, n)
    ensures CompletePair(StreamEnd(stream, records, count)) <==> count == (n + 1) * RECORDS_PER_FILE
  {
    hide ValidFrame, Concat, InFile, Appended;
    AppendedFits(stream, records);
    FileOfCount(count);
    SameFile(count, n);
    CountInFile(LogFileId(stream, n), Within(count, n));
  }

  lemma SameFile(count: nat, n: LogFileNumber)
    requires n * RECORDS_PER_FILE < count <= (n + 1) * RECORDS_PER_FILE
    ensures (count - 1) / RECORDS_PER_FILE == n
  {
  }

  // ---------- What a crash leaves ----------

  /**
   One file's images: every synchronized record, no log byte that was not appended, and the index entries of the
   trusted records. Later entries may be missing or wrong, as an interrupted repair leaves them.
   */
  ghost predicate FileSurvives(records: seq<Record>, trusted: nat, synced: nat, log: seq<byte>, index: seq<byte>) {
    && trusted <= synced <= |records| <= RECORDS_PER_FILE
    && |Concat(records[..synced])| <= |log| && log <= Concat(records)
    && SurvivingIndex(EncodeIndex(Ends(records)), INDEX_ENTRY_LEN * trusted, index)
  }

  /** Whatever survives of the pair a writer was stopped with is such a pair of images. */
  lemma WriterImagesSurvive(w: IndexedLogWriter.PairWriter, trusted: nat, logImage: seq<byte>, indexImage: seq<byte>)
    requires w.Valid() && trusted <= w.syncedCount
    requires SurvivingLog(w.log.destination.contents, w.log.destination.synced, logImage)
    requires SurvivingIndex(w.index.file.contents, w.index.file.synced, indexImage)
    ensures FileSurvives(w.All(), trusted, w.syncedCount, logImage, indexImage)
  {
    hide Concat, Ends, EncodeIndex, EndAfter, InSequence;
    w.LogTotal();
    w.IndexTotal();
  }

  /**
   `records` were appended and the first `synced` of them synchronized. Files 0 through `top` exist, all but
   the last one complete and synchronized, and the checkpoint is the end of the first `trusted` records. Orphan
   indexes may lie above them.
   */
  ghost predicate Survives(stream: StreamId, records: seq<Record>, top: int, synced: nat, trusted: nat, disk: Disk) {
    && Appended(stream, records) && trusted <= synced <= |records|
    && -1 <= top <= MAX_FILE_NUMBER && top * RECORDS_PER_FILE <= synced && |records| <= (top + 1) * RECORDS_PER_FILE
    && disk.checkpoint == StreamEnd(stream, records, trusted)
    && forall n: LogFileNumber :: SurvivesAt(records, top, synced, trusted, disk, n)
  }

  ghost predicate SurvivesAt(records: seq<Record>, top: int, synced: nat, trusted: nat, disk: Disk, n: LogFileNumber) {
    if n <= top then
      n in disk.logs && FileSurvives(InFile(records, n), Within(trusted, n), Within(synced, n), disk.logs[n], IndexOf(disk, n))
    else n !in disk.logs
  }

  // ---------- Recovery of the files ----------

  lemma FileRecovers(file: LogFileId, records: seq<Record>, j: nat, synced: nat, log: seq<byte>, index: seq<byte>)
    returns (m: nat)
    requires FileSurvives(records, j, synced, log, index) && InSequence(file, records)
    ensures synced <= m <= |records|
    ensures RecoverPair(file, EndAfter(file, records, j), log, index)
         == PairRecovered(EndAfter(file, records, m), Concat(records[..m]), EncodeIndex(Ends(records[..m])))
  {
    hide Concat, Ends, EncodeIndex, EndAfter, RecoverLog, KeptLog, RepairIndex, SurvivingIndex, IdOf, ValidFrame;
    m := RecoverImages(file, records, j, synced, log, EncodeIndex(Ends(records)), INDEX_ENTRY_LEN * j, index);
  }

  /** The trusted end of file `n` covers its share of the trusted records. */
  lemma TrustedCount(stream: StreamId, records: seq<Record>, top: int, synced: nat, trusted: nat, disk: Disk, n: LogFileNumber)
    requires Survives(stream, records, top, synced, trusted, disk) && StartNumber(disk) <= n <= top
    ensures Within(trusted, n) <= Within(synced, n) <= |InFile(records, n)|
    ensures FirstRecordId(LogFileId(stream, n)).sequence + Within(trusted, n) <= U64_MAX + 1
    ensures TrustedIn(disk.checkpoint, n) == EndAfter(LogFileId(stream, n), InFile(records, n), Within(trusted, n))
    ensures trusted > 0 && StartNumber(disk) == n ==> Within(trusted, n) > 0
  {
    hide InFile, EndAfter, Appended, StreamEnd, SurvivesAt;
    AppendedFits(stream, records);
    NoneInFile(LogFileId(stream, n), InFile(records, n));
    if trusted > 0 {
      FileOfCount(trusted);
      var number: LogFileNumber := (trusted - 1) / RECORDS_PER_FILE;
      EndInFile(stream, records, number, trusted);
      assert StartNumber(disk) == number;
    }
  }

  lemma NoneInFile(file: LogFileId, own: seq<Record>)
    ensures FirstRecordId(file).sequence <= U64_MAX && EndAfter(file, own, 0) == None
  {
  }

  lemma FileInStreamRecovers(stream: StreamId, records: seq<Record>, top: int, synced: nat, trusted: nat, disk: Disk, n: LogFileNumber)
    returns (m: nat)
    requires Survives(stream, records, top, synced, trusted, disk) && StartNumber(disk) <= n <= top
    ensures Within(synced, n) <= m <= |InFile(records, n)|
    ensures FirstRecordId(LogFileId(stream, n)).sequence + m <= U64_MAX + 1
    ensures n in disk.logs && PairAt(stream, disk, n) == Prefix(LogFileId(stream, n), InFile(records, n), m)
    ensures trusted > 0 && StartNumber(disk) == n ==> m > 0
  {
    hide InFile, EndAfter, RecoverPair, FileSurvives, Appended, StartNumber, TrustedIn, InSequence;
    TrustedCount(stream, records, top, synced, trusted, disk, n);
    assert SurvivesAt(records, top, synced, trusted, disk, n);
    InFileIsInSequence(stream, records, n);
    SequenceFits(LogFileId(stream, n), InFile(records, n));
    m := FileRecovers(LogFileId(stream, n), InFile(records, n), Within(trusted, n), Within(synced, n), disk.logs[n], IndexOf(disk, n));
  }

  lemma SequenceFits(file: LogFileId, records: seq<Record>)
    requires InSequence(file, records)
    ensures FirstRecordId(file).sequence + |records| <= U64_MAX + 1
  {
  }

  /** A pair that holds exactly the first `m` records of its file. */
  function Prefix(file: LogFileId, records: seq<Record>, m: nat): PairRecovery
    requires m <= |records| && m <= RECORDS_PER_FILE && FirstRecordId(file).sequence + m <= U64_MAX + 1
  {
    PairRecovered(EndAfter(file, records, m), Concat(records[..m]), EncodeIndex(Ends(records[..m])))
  }

  // ---------- The walk ----------

  /** Where the walk ends if the last file keeps all records up to the stream's `m`-th. */
  function WalkTo(stream: StreamId, records: seq<Record>, top: LogFileNumber, m: nat): WalkResult
    requires Appended(stream, records) && top * RECORDS_PER_FILE <= m <= |records| && m <= (top + 1) * RECORDS_PER_FILE
  {
    Walked(StreamEnd(stream, records, m),
           if m == (top + 1) * RECORDS_PER_FILE then None
           else Some(Active(top, if m == top * RECORDS_PER_FILE then None else StreamEnd(stream, records, m))),
           top)
  }

  lemma {:induction false} SurvivingWalk(stream: StreamId, records: seq<Record>, top: LogFileNumber, synced: nat, trusted: nat,
                                         disk: Disk, number: LogFileNumber, recovered: Option<RecordEnd>, m: nat)
    requires Survives(stream, records, top, synced, trusted, disk) && StartNumber(disk) <= number <= top
    requires PrecedingComplete(stream, recovered, number - 1)
    requires (number == StartNumber(disk) && trusted > 0) || recovered == StreamEnd(stream, records, number * RECORDS_PER_FILE)
    requires top * RECORDS_PER_FILE <= m <= |records| && m <= (top + 1) * RECORDS_PER_FILE
    requires PairEndsAt(stream, records, disk, top, m)
    requires trusted > 0 && StartNumber(disk) == top ==> m > top * RECORDS_PER_FILE
    ensures Walk(stream, disk, number, top, recovered) == WalkTo(stream, records, top, m)
    decreases top - number
  {
    hide InFile, EndAfter, PairAt, StreamEnd, CompletePair, PrecedingComplete, StartNumber, Appended, SurvivesAt, Walk;
    AppendedFits(stream, records);
    if number < top {
      CompleteStep(stream, records, top, synced, trusted, disk, number);
      WalkPastComplete(stream, disk, number, top, recovered);
      var next := (number + 1) * RECORDS_PER_FILE;
      SurvivingWalk(stream, records, top, synced, trusted, disk, number + 1, StreamEnd(stream, records, next), m);
    } else {
      WalkAtMaximum(stream, disk, top, recovered);
      if m > top * RECORDS_PER_FILE {
        EndInFile(stream, records, top, m);
      } else {
        NoneIsPartial();
      }
    }
  }

  lemma NoneIsPartial()
    ensures !CompletePair(None)
  {
  }

  /** A file in front of the last one is found complete. */
  lemma CompleteStep(stream: StreamId, records: seq<Record>, top: LogFileNumber, synced: nat, trusted: nat, disk: Disk, number: LogFileNumber)
    requires Survives(stream, records, top, synced, trusted, disk) && StartNumber(disk) <= number < top
    ensures var next := (number + 1) * RECORDS_PER_FILE;
            && next <= |records| <= U64_MAX + 1 && number in disk.logs && PairAt(stream, disk, number).PairRecovered?
            && PairAt(stream, disk, number).end == StreamEnd(stream, records, next)
            && CompletePair(StreamEnd(stream, records, next))
            && PrecedingComplete(stream, StreamEnd(stream, records, next), number)
  {
    hide Concat, Ends, EncodeIndex, ValidFrame, IdOf, InFile, EndAfter;
    hide PairAt, StreamEnd, CompletePair, PrecedingComplete, StartNumber, Appended, SurvivesAt;
    AppendedFits(stream, records);
    var k := FileInStreamRecovers(stream, records, top, synced, trusted, disk, number);
    EndInFile(stream, records, number, (number + 1) * RECORDS_PER_FILE);
    CompletePrecedes(stream, disk, number);
  }

  /** Recovery of file `n` ends at the stream's `m`-th record. */
  ghost predicate PairEndsAt(stream: StreamId, records: seq<Record>, disk: Disk, n: LogFileNumber, m: nat)
    requires m <= |records| <= U64_MAX + 1
  {
    && n in disk.logs && PairAt(stream, disk, n).PairRecovered?
    && PairAt(stream, disk, n).end == if m <= n * RECORDS_PER_FILE then None else StreamEnd(stream, records, m)
  }

  lemma SurvivingMaximum(stream: StreamId, records: seq<Record>, top: int, synced: nat, trusted: nat, disk: Disk)
    requires Survives(stream, records, top, synced, trusted, disk)
    ensures Bound(disk) == top + 1
    ensures Discovered(stream, disk)
    ensures top >= 0 ==> StartNumber(disk) <= top && Maximum(disk.logs.Keys) == Some(top)
    ensures top < 0 ==> trusted == 0 && |records| == 0
  {
    hide InFile, EndAfter, StreamEnd, FileSurvives, Maximum;
    AppendedFits(stream, records);
    if top >= 0 {
      assert SurvivesAt(records, top, synced, trusted, disk, top);
      forall n: LogFileNumber | n in disk.logs
        ensures n <= top
      {
        assert SurvivesAt(records, top, synced, trusted, disk, n);
      }
      MaximumIsUnique(disk.logs.Keys, Some(top));
      if trusted > 0 {
        FileOfCount(trusted);
        EndInFile(stream, records, (trusted - 1) / RECORDS_PER_FILE, trusted);
      }
    } else {
      forall n: LogFileNumber
        ensures n !in disk.logs
      {
        assert SurvivesAt(records, top, synced, trusted, disk, n);
      }
      assert disk.logs.Keys == {};
      MaximumIsUnique(disk.logs.Keys, None);
    }
  }

  /** The whole walk keeps at least the synchronized records. */
  lemma SurvivingWalkAll(stream: StreamId, records: seq<Record>, top: LogFileNumber, synced: nat, trusted: nat, disk: Disk)
    returns (m: nat)
    requires Survives(stream, records, top, synced, trusted, disk)
    ensures synced <= m <= |records| && top * RECORDS_PER_FILE <= m <= (top + 1) * RECORDS_PER_FILE
    ensures Discovered(stream, disk) && WalkAll(stream, disk) == WalkTo(stream, records, top, m)
    ensures |InFile(records, top)| >= m - top * RECORDS_PER_FILE
    ensures FirstRecordId(LogFileId(stream, top)).sequence + m - top * RECORDS_PER_FILE <= U64_MAX + 1
    ensures top in disk.logs && PairAt(stream, disk, top) == Prefix(LogFileId(stream, top), InFile(records, top), m - top * RECORDS_PER_FILE)
  {
    hide InFile, EndAfter, PairAt, StreamEnd, PrecedingComplete, Appended, SurvivesAt, Walk, StartNumber;
    SurvivingMaximum(stream, records, top, synced, trusted, disk);
    AppendedFits(stream, records);
    var k := FileInStreamRecovers(stream, records, top, synced, trusted, disk, top);
    m := top * RECORDS_PER_FILE + k;
    if k > 0 {
      EndInFile(stream, records, top, m);
    }
    NoPredecessor(stream, StartNumber(disk) as int - 1);
    WalkAllIsWalk(stream, disk, top);
    SurvivingStart(stream, records, top, synced, trusted, disk);
    SurvivingWalk(stream, records, top, synced, trusted, disk, StartNumber(disk), None, m);
  }

  /** Without a checkpoint the walk starts in front of every record. */
  lemma SurvivingStart(stream: StreamId, records: seq<Record>, top: int, synced: nat, trusted: nat, disk: Disk)
    requires Survives(stream, records, top, synced, trusted, disk)
    ensures |records| <= U64_MAX + 1
    ensures trusted == 0 ==> StartNumber(disk) == 0 && StreamEnd(stream, records, 0) == None
    ensures StartNumber(disk) * RECORDS_PER_FILE <= trusted
  {
    hide InFile, EndAfter, SurvivesAt;
  }

  // ---------- The recovered stream ----------

  /** The pair holds exactly its file's records and their index. */
  ghost predicate ExactAt(records: seq<Record>, disk: Disk, n: LogFileNumber) {
    && n in disk.logs && disk.logs[n] == Concat(InFile(records, n))
    && n in disk.indexes && disk.indexes[n] == EncodeIndex(Ends(InFile(records, n)))
  }

  lemma ExactSurvives(records: seq<Record>, top: int, disk: Disk, n: LogFileNumber)
    requires n <= top && ExactAt(records, disk, n)
    ensures SurvivesAt(records, top, |records|, |records|, disk, n)
  {
    hide InFile, Concat, Ends, EncodeIndex, ValidFrame;
    var own := InFile(records, n);
    assert own[..|own|] == own;
  }

  /** A complete, synchronized file of a longer stream is the same file of the recovered one. */
  lemma UntouchedSurvives(records: seq<Record>, top: int, synced: nat, trusted: nat, before: Disk, m: nat, after: Disk, n: LogFileNumber)
    requires trusted <= synced <= m <= |records| && n < top && (n + 1) * RECORDS_PER_FILE <= trusted
    requires SurvivesAt(records, top, synced, trusted, before, n) && SameLog(before, after, n) && SameIndex(before, after, n)
    ensures SurvivesAt(records[..m], m / RECORDS_PER_FILE, m, m, after, n)
  {
    hide FileSurvives, InFile, ValidFrame;
    InFileOfPrefix(records, m, n);
    assert InFile(records, n)[..RECORDS_PER_FILE] == InFile(records, n);
  }

  lemma StreamEndOfPrefix(stream: StreamId, records: seq<Record>, m: nat)
    requires Appended(stream, records) && m <= |records|
    ensures Appended(stream, records[..m])
    ensures StreamEnd(stream, records[..m], m) == StreamEnd(stream, records, m)
  {
    hide InFile, ValidFrame, IdOf, Concat;
    if m > 0 {
      FileOfCount(m);
      var n: LogFileNumber := (m - 1) / RECORDS_PER_FILE;
      var own, k := InFile(records, n), Within(m, n);
      InFileOfPrefix(records, m, n);
      assert own[..k] + own[k..] == own;
      EndAfterPrefix(LogFileId(stream, n), own[..k], own[k..], k);
    }
  }

  /** The walk's result over all files, if there are any. */
  function WalkOf(stream: StreamId, records: seq<Record>, top: int, m: nat): (r: WalkResult)
    requires Appended(stream, records) && top * RECORDS_PER_FILE <= m <= |records| && m <= (top + 1) * RECORDS_PER_FILE
    requires -1 <= top <= MAX_FILE_NUMBER
    ensures r.Walked? && r.visited == top && (r.active == None <==> m == (top + 1) * RECORDS_PER_FILE)
  {
    if top < 0 then Walked(None, None, -1) else WalkTo(stream, records, top, m)
  }

  /** The recovered prefix of the stream: its first `m` records. */
  ghost predicate Keeps(stream: StreamId, records: seq<Record>, top: int, disk: Disk, m: nat) {
    && Appended(stream, records) && m <= |records| && -1 <= top <= MAX_FILE_NUMBER
    && top * RECORDS_PER_FILE <= m <= (top + 1) * RECORDS_PER_FILE
    && Discovered(stream, disk) && WalkAll(stream, disk) == WalkOf(stream, records, top, m)
    && (top >= 0 ==> KeepsLast(stream, records, top, disk, m))
  }

  /** The walk keeps at least the synchronized records. */
  lemma SurvivingPrefix(stream: StreamId, records: seq<Record>, top: int, synced: nat, trusted: nat, disk: Disk)
    returns (m: nat)
    requires Survives(stream, records, top, synced, trusted, disk)
    ensures synced <= m <= |records| <= U64_MAX + 1 && Keeps(stream, records, top, disk, m)
  {
    hide InFile, EndAfter, PairAt, StreamEnd, PrecedingComplete, Appended, SurvivesAt;
    hide WalkAll, FileSurvives, Maximum, Discovered, CompletePair, Prefix, WalkTo;
    SurvivingMaximum(stream, records, top, synced, trusted, disk);
    AppendedFits(stream, records);
    if top >= 0 {
      m := SurvivingWalkAll(stream, records, top, synced, trusted, disk);
    } else {
      m := 0;
      EmptyWalk(stream, disk);
    }
  }

  /** Every file is complete, and the next one's place is taken by an orphan index. */
  predicate Obstructed(disk: Disk, top: int, m: nat) {
    && -1 <= top < MAX_FILE_NUMBER && m == (top + 1) * RECORDS_PER_FILE
    && (top + 1) as LogFileNumber in disk.indexes
  }

  /** Initialization continues behind the `m`-th record, unless an orphan index is in the way. */
  lemma SurvivingInit(stream: StreamId, records: seq<Record>, top: int, synced: nat, trusted: nat, disk: Disk, m: nat)
    requires Survives(stream, records, top, synced, trusted, disk) && Keeps(stream, records, top, disk, m)
    ensures Obstructed(disk, top, m) ==> Init(stream, disk) == OrphanIndex(top + 1)
    ensures !Obstructed(disk, top, m) ==> Init(stream, disk).InitOk?
    ensures !Obstructed(disk, top, m) ==> ContinuesBehind(stream, records, m, Init(stream, disk))
  {
    hide Survives, PairAt, StreamEnd, WalkAll, WalkOf, Init;
    hide Discovered, KeepsLast, Bound, Published, CompletePair, Appended, ContinuesBehind;
    SurvivingMaximum(stream, records, top, synced, trusted, disk);
    AppendedFits(stream, records);
    SuccessFollowsWalk(stream, disk);
    RecoveredByWalk(stream, disk);
    if Init(stream, disk).InitOk? {
      WalkOfContinues(stream, records, top, m, Init(stream, disk));
    }
    if Obstructed(disk, top, m) {
      OrphanAfterWalk(stream, disk, top + 1);
    }
  }

  lemma WalkOfContinues(stream: StreamId, records: seq<Record>, top: int, m: nat, r: InitResult)
    requires Appended(stream, records) && top * RECORDS_PER_FILE <= m <= |records| <= U64_MAX + 1 && m <= (top + 1) * RECORDS_PER_FILE
    requires -1 <= top <= MAX_FILE_NUMBER && r.InitOk?
    requires var walk := WalkOf(stream, records, top, m);
             && r.recovered == walk.recovered && r.active.number == (if walk.active.Some? then top else top + 1)
             && r.active.end == if walk.active.Some? then walk.active.value.end else None
    ensures ContinuesBehind(stream, records, m, r)
  {
    hide StreamEnd, Appended;
    SameFileOfNext(m, top);
  }

  lemma RecoveredByWalk(stream: StreamId, disk: Disk)
    requires Discovered(stream, disk) && WalkAll(stream, disk).Walked?
    ensures Init(stream, disk).InitOk? ==> Init(stream, disk).recovered == WalkAll(stream, disk).recovered
  {
    hide WalkAll, Discovered, Init, Published;
    InitFollowsWalk(stream, disk);
  }

  /** The next append is record `m`. */
  ghost predicate ContinuesBehind(stream: StreamId, records: seq<Record>, m: nat, r: InitResult)
    requires m <= |records| <= U64_MAX + 1 && r.InitOk?
  {
    && r.recovered == StreamEnd(stream, records, m)
    && r.active.number == m / RECORDS_PER_FILE
    && r.active.end == if m % RECORDS_PER_FILE == 0 then None else StreamEnd(stream, records, m)
  }

  /** The last file keeps exactly its records among the stream's first `m`. */
  ghost predicate KeepsLast(stream: StreamId, records: seq<Record>, top: LogFileNumber, disk: Disk, m: nat) {
    && 0 <= m - top * RECORDS_PER_FILE <= |InFile(records, top)|
    && FirstRecordId(LogFileId(stream, top)).sequence + m - top * RECORDS_PER_FILE <= U64_MAX + 1
    && top in disk.logs
    && PairAt(stream, disk, top) == Prefix(LogFileId(stream, top), InFile(records, top), m - top * RECORDS_PER_FILE)
  }

  lemma NothingAbove(records: seq<Record>, top: int, synced: nat, trusted: nat, disk: Disk, n: LogFileNumber)
    requires n > top && SurvivesAt(records, top, synced, trusted, disk, n)
    ensures n !in disk.logs
  {
  }

  lemma EmptyWalk(stream: StreamId, disk: Disk)
    requires Discovered(stream, disk) && Bound(disk) == 0
    ensures WalkAll(stream, disk) == Walked(None, None, -1)
  {
  }

  lemma SameFileOfNext(m: nat, top: int)
    requires top * RECORDS_PER_FILE <= m <= (top + 1) * RECORDS_PER_FILE
    ensures m < (top + 1) * RECORDS_PER_FILE ==> m / RECORDS_PER_FILE == top && m % RECORDS_PER_FILE == m - top * RECORDS_PER_FILE
    ensures m == (top + 1) * RECORDS_PER_FILE ==> m / RECORDS_PER_FILE == top + 1 && m % RECORDS_PER_FILE == 0
  {
  }

  /** One file number of the recovered stream. */
  lemma RecoveredFileSurvives(stream: StreamId, records: seq<Record>, top: int, synced: nat, trusted: nat, disk: Disk, m: nat, n: LogFileNumber)
    requires Survives(stream, records, top, synced, trusted, disk) && synced <= m <= |records|
    requires Init(stream, disk).InitOk? && Init(stream, disk).active.number == m / RECORDS_PER_FILE
    requires top * RECORDS_PER_FILE <= m <= (top + 1) * RECORDS_PER_FILE
    requires top >= 0 ==> KeepsLast(stream, records, top, disk, m)
    ensures SurvivesAt(records[..m], m / RECORDS_PER_FILE, m, m, Init(stream, disk).disk, n)
    ensures StartNumber(disk) <= n <= m / RECORDS_PER_FILE ==> ExactAt(records[..m], Init(stream, disk).disk, n)
  {
    hide InFile, EndAfter, PairAt, StreamEnd, Appended, SurvivesAt;
    hide Init, FileSurvives, StartNumber, CompletePair, ExactAt, Bound, KeepsLast;
    var r := Init(stream, disk);
    SameFileOfNext(m, top);
    RecoveryLeavesCompleteFilesAndActiveOne(stream, disk, n);
    assert SurvivesAt(records, top, synced, trusted, disk, n);
    SurvivingMaximum(stream, records, top, synced, trusted, disk);
    SurvivingStart(stream, records, top, synced, trusted, disk);
    if n > r.active.number {
      NothingAbove(records, top, synced, trusted, disk, n);
      AboveSurvives(records[..m], m / RECORDS_PER_FILE, m, m, r.disk, n);
    } else if n < StartNumber(disk) {
      UntouchedSurvives(records, top, synced, trusted, disk, m, r.disk, n);
    } else {
      if n <= top {
        KeptExactly(stream, records, top, synced, trusted, disk, m, n);
        ExactOfPrefix(stream, records, m, r.disk, n);
      } else {
        NothingAbove(records, top, synced, trusted, disk, n);
        EmptyIsExact(records, m, r.disk, n);
      }
      ExactSurvives(records[..m], m / RECORDS_PER_FILE, r.disk, n);
    }
  }

  lemma AboveSurvives(records: seq<Record>, top: int, synced: nat, trusted: nat, disk: Disk, n: LogFileNumber)
    requires n > top && n !in disk.logs
    ensures SurvivesAt(records, top, synced, trusted, disk, n)
  {
  }

  lemma KeptExactly(stream: StreamId, records: seq<Record>, top: LogFileNumber, synced: nat, trusted: nat, disk: Disk, m: nat, n: LogFileNumber)
    requires Survives(stream, records, top, synced, trusted, disk) && synced <= m <= |records|
    requires StartNumber(disk) <= n <= top && KeepsLast(stream, records, top, disk, m)
    requires m <= (top + 1) * RECORDS_PER_FILE
    ensures n in disk.logs && Within(m, n) <= |InFile(records, n)|
    ensures FirstRecordId(LogFileId(stream, n)).sequence + Within(m, n) <= U64_MAX + 1
    ensures PairAt(stream, disk, n) == Prefix(LogFileId(stream, n), InFile(records, n), Within(m, n))
  {
    hide InFile, Prefix, PairAt, StreamEnd, Appended, SurvivesAt, StartNumber, IdOf, ValidFrame;
    if n < top {
      var k := FileInStreamRecovers(stream, records, top, synced, trusted, disk, n);
    }
  }

  lemma ExactOfPrefix(stream: StreamId, records: seq<Record>, m: nat, disk: Disk, n: LogFileNumber)
    requires m <= |records| && Within(m, n) <= |InFile(records, n)|
    requires FirstRecordId(LogFileId(stream, n)).sequence + Within(m, n) <= U64_MAX + 1
    requires RecoveredTo(disk, n, Prefix(LogFileId(stream, n), InFile(records, n), Within(m, n)))
    ensures ExactAt(records[..m], disk, n)
  {
    hide InFile, EndAfter, Concat, Ends, EncodeIndex;
    InFileOfPrefix(records, m, n);
  }

  lemma EmptyIsExact(records: seq<Record>, m: nat, disk: Disk, n: LogFileNumber)
    requires m <= |records| && m <= n * RECORDS_PER_FILE
    requires RecoveredTo(disk, n, PairRecovered(None, [], []))
    ensures ExactAt(records[..m], disk, n)
  {
  }

  /**
   Main theorem. Whatever a crash leaves of a stream, initialization recovers the first `m` appended records, every
   synchronized one among them, with exact files and indexes, and publishes their end. The disk it leaves is again
   one a crash can hit: a stream of exactly these records, all of them synchronized and trusted. Only an orphan
   index directly above complete files makes it fail.
   */
  lemma StreamSurvivesCrash(stream: StreamId, records: seq<Record>, top: int, synced: nat, trusted: nat, disk: Disk)
    returns (m: nat)
    requires Survives(stream, records, top, synced, trusted, disk)
    ensures synced <= m <= |records| <= U64_MAX + 1 && Keeps(stream, records, top, disk, m)
    ensures RecoversUnlessObstructed(stream, records, top, disk, m)
  {
    hide Keeps, Obstructed, Recovers, Survives, Init;
    m := SurvivingPrefix(stream, records, top, synced, trusted, disk);
    SurvivingInit(stream, records, top, synced, trusted, disk, m);
    if !Obstructed(disk, top, m) {
      StreamRecovers(stream, records, top, synced, trusted, disk, m);
    }
  }

  ghost predicate RecoversUnlessObstructed(stream: StreamId, records: seq<Record>, top: int, disk: Disk, m: nat)
    requires m <= |records| <= U64_MAX + 1
  {
    if Obstructed(disk, top, m) then Init(stream, disk) == OrphanIndex(top + 1) else Recovers(stream, records, disk, m)
  }

  lemma StreamRecovers(stream: StreamId, records: seq<Record>, top: int, synced: nat, trusted: nat, disk: Disk, m: nat)
    requires Survives(stream, records, top, synced, trusted, disk) && Keeps(stream, records, top, disk, m)
    requires synced <= m <= |records| <= U64_MAX + 1
    requires Init(stream, disk).InitOk? && ContinuesBehind(stream, records, m, Init(stream, disk))
    ensures Recovers(stream, records, disk, m)
  {
    hide Within, Prefix, KeepsLast, CompletePair, EndsStream, StartNumber, InFile, EndAfter, PairAt;
    hide StreamEnd, Appended, SurvivesAt, Init, FileSurvives, ExactAt, WalkOf, WalkAll, Discovered;
    StreamEndOfPrefix(stream, records, m);
    CheckpointIsRecoveredEnd(stream, disk);
    var r := Init(stream, disk);
    forall n: LogFileNumber
      ensures SurvivesAt(records[..m], m / RECORDS_PER_FILE, m, m, r.disk, n)
      ensures StartNumber(disk) <= n <= m / RECORDS_PER_FILE ==> ExactAt(records[..m], r.disk, n)
    {
      RecoveredFileSurvives(stream, records, top, synced, trusted, disk, m, n);
    }
  }

  ghost predicate Recovers(stream: StreamId, records: seq<Record>, disk: Disk, m: nat)
    requires m <= |records| <= U64_MAX + 1
  {
    var r := Init(stream, disk);
    && r.InitOk? && ContinuesBehind(stream, records, m, r)
    && Survives(stream, records[..m], r.active.number, m, m, r.disk)
    && forall n: LogFileNumber :: StartNumber(disk) <= n <= r.active.number ==> ExactAt(records[..m], r.disk, n)
  }
}
