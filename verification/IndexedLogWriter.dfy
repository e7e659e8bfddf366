/**
 The paired log/index writer: ordered appends, log output strictly before index output, and three
 progress endpoints.

 `Valid` holds after every call, including calls cut short anywhere by an error, a panic or
 cancellation. It is therefore also the invariant of every state a crash can leave behind.
 */
module IndexedLogWriter {
  import opened Bytes
  import opened RecordProtocol
  import opened ByteDevice
  import opened Locations
  import opened DenseIndex
  import opened RecordWriter
  import opened IndexWriter

  datatype PairState = Open | Poisoned | Finalized

  datatype AppendResult =
    | AcceptedEnd(end: RecordEnd, fileFull: bool)
    | Full
    | UnexpectedId(expected: RecordId, actual: RecordId)
    | AppendRefused(state: PairState)

  datatype PairOutput = PairDone | LogFailed(log: OutputResult) | IndexFailed(index: OutputResult) | PairRefused(state: PairState)

  datatype FinalizeResult = Completed(end: RecordEnd) | NotFull(count: u64) | NotSynchronized | FinalizeRefused(state: PairState)

  /** What the log's destination reported in an output call. */
  function LogReport(r: PairOutput): Outcome {
    if r.LogFailed? then Reported(r.log) else Done
  }

  /** What the index file reported in an output call. */
  function IndexReport(r: PairOutput): Outcome {
    if r.IndexFailed? then Reported(r.index) else Done
  }

  class PairWriter {
    const fileId: LogFileId
    var expectedRecordId: RecordId
    var recordCount: u64
    var bufferedEnd: Option<RecordEnd>
    var flushedEnd: Option<RecordEnd>
    var syncedEnd: Option<RecordEnd>
    const log: Writer
    const index: EntryWriter
    var state: PairState

    ghost const recovered: seq<Record>
    ghost var flushedCount: nat
    ghost var syncedCount: nat

    /** Every record of this file: the recovered ones and all accepted appends. */
    ghost function All(): seq<Record>
      reads log
    {
      recovered + log.records
    }

    ghost predicate Valid()
      reads this, log, log.destination, log.buffer, index, index.file
    {
      && log.destination != index.file
      && log.Valid() && index.Valid()
      && Accounted()
      && LogBeforeIndex()
      && Durable()
      && (state == Open ==> Settled())
      && (state == Finalized ==> recordCount == RECORDS_PER_FILE && syncedCount == |All()|)
    }

    /** Counters, endpoints and both output streams describe the same record sequence. */
    ghost predicate Accounted()
      reads this, log, index
    {
      && |All()| <= RECORDS_PER_FILE
      && InSequence(fileId, All())
      && log.base == Concat(recovered)
      && index.base == EncodeIndex(Ends(recovered))
      && Ends(recovered) + index.ends == Ends(All())
      && recordCount == |All()|
      && FirstRecordId(fileId).sequence + |All()| <= U64_MAX
      && expectedRecordId == RecordId(fileId.stream, FirstRecordId(fileId).sequence + |All()|)
      && syncedCount <= flushedCount <= |All()|
      && bufferedEnd == EndAfter(fileId, All(), |All()|)
      && flushedEnd == EndAfter(fileId, All(), flushedCount)
      && syncedEnd == EndAfter(fileId, All(), syncedCount)
    }

    /** Every complete entry in the index file ends a record whose bytes are all flushed in the log. */
    ghost predicate LogBeforeIndex()
      reads log, log.destination, index, index.file
    {
      forall k :: 0 <= k <= |All()| && INDEX_ENTRY_LEN * k <= |index.file.contents| ==>
        |Concat(All()[..k])| <= log.destination.flushed
    }

    /** What the endpoints promise about both destinations. */
    ghost predicate Durable()
      requires flushedCount <= |All()| && syncedCount <= |All()|
      reads this, log, log.destination, index.file
    {
      && |Concat(All()[..flushedCount])| <= log.destination.flushed
      && INDEX_ENTRY_LEN * flushedCount <= index.file.flushed
      && |Concat(All()[..syncedCount])| <= log.destination.synced
      && INDEX_ENTRY_LEN * syncedCount <= index.file.synced
    }

    /** Between calls an open pair has sent exactly the flushed records and entries. */
    ghost predicate Settled()
      requires flushedCount <= |All()| <= RECORDS_PER_FILE
      reads this, log, log.destination, index, index.file
    {
      && log.usable && index.usable
      && log.destination.contents == Concat(All()[..flushedCount])
      && index.file.contents == EncodeIndex(Ends(All()[..flushedCount]))
    }

    twostate predicate Untouched()
      reads this, log, log.destination, log.buffer, index, index.file
    {
      unchanged(this) && log.Untouched() && index.Untouched() && unchanged(log) && unchanged(index)
    }

    /** A fresh pair for empty files. */
    constructor New(fileId: LogFileId, logFile: Device, indexFile: Device)
      requires logFile != indexFile && logFile.Valid() && indexFile.Valid()
      requires logFile.contents == [] == indexFile.contents && logFile.AtEnd() && indexFile.AtEnd()
      ensures Valid() && state == Open && this.fileId == fileId
      ensures All() == [] && bufferedEnd == flushedEnd == syncedEnd == None
      ensures log.destination == logFile && index.file == indexFile
      ensures fresh(log) && fresh(log.buffer) && fresh(index)
    {
      this.fileId := fileId;
      expectedRecordId, recordCount := FirstRecordId(fileId), 0;
      bufferedEnd, flushedEnd, syncedEnd := None, None, None;
      log := new Writer(logFile);
      index := new EntryWriter(indexFile);
      state := Open;
      recovered, flushedCount, syncedCount := [], 0, 0;
      new;
      assert All() == [];
    }

    /** Resumes a recovered pair; `records` are what recovery established the log to hold. */
    constructor FromInitialized(fileId: LogFileId, logFile: Device, indexFile: Device, end: Option<RecordEnd>,
                                ghost records: seq<Record>)
      requires logFile != indexFile && logFile.Valid() && indexFile.Valid()
      requires |records| < RECORDS_PER_FILE && InSequence(fileId, records)
      requires FirstRecordId(fileId).sequence + |records| <= U64_MAX
      requires end == EndAfter(fileId, records, |records|)
      requires logFile.contents == Concat(records) && logFile.AtEnd()
      requires indexFile.contents == EncodeIndex(Ends(records)) && indexFile.AtEnd()
      requires logFile.synced == |logFile.contents| && indexFile.synced == |indexFile.contents|
      ensures Valid() && state == Open && this.fileId == fileId
      ensures All() == recovered == records && bufferedEnd == flushedEnd == syncedEnd == end
      ensures log.destination == logFile && index.file == indexFile
      ensures fresh(log) && fresh(log.buffer) && fresh(index)
    {
      hide Concat, Ends, EncodeIndex, ValidFrame;
      this.fileId := fileId;
      if end.Some? {
        CountInFile(fileId, |records|);
      }
      expectedRecordId := match end
                          case None => FirstRecordId(fileId)
                          case Some(e) => NextRecordId(e.id);
      recordCount := match end
                     case None => 0
                     case Some(e) => RecordCountThrough(e.id);
      bufferedEnd, flushedEnd, syncedEnd := end, end, end;
      log := new Writer(logFile);
      index := new EntryWriter(indexFile);
      state := Open;
      recovered, flushedCount, syncedCount := records, |records|, |records|;
      new;
      assert All() == records && records[..|records|] == records;
      assert Ends(recovered) + index.ends == Ends(All());
      AllPrefixesFit(records, logFile.flushed);
    }

    function IsFull(): bool
      reads this
    {
      recordCount == RECORDS_PER_FILE
    }

    /** Buffers a record and its end, or rejects it and changes nothing. */
    method WriteRecord(record: Record) returns (r: AppendResult)
      requires Valid()
      // accepting a record computes its successor, which panics for the last sequence number
      requires state == Open && IdOf(record) == expectedRecordId ==> expectedRecordId.sequence < U64_MAX
      modifies this, log`records, log.buffer, index`buffer, index`ends
      ensures Valid() && state == old(state)
      ensures flushedEnd == old(flushedEnd) && syncedEnd == old(syncedEnd)
      ensures r.AcceptedEnd? <==> old(state) == Open && old(|All()|) < RECORDS_PER_FILE && IdOf(record) == old(expectedRecordId)
      ensures !r.AcceptedEnd? ==> Untouched()
      ensures r.AcceptedEnd? ==> All() == old(All()) + [record]
      ensures r.AcceptedEnd? ==> bufferedEnd == Some(r.end) && r.fileFull == (|All()| == RECORDS_PER_FILE)
      ensures r.AppendRefused? <==> old(state) != Open
      ensures r.AppendRefused? ==> r.state == old(state)
      ensures r.Full? <==> old(state) == Open && old(|All()|) == RECORDS_PER_FILE
      ensures r.UnexpectedId? ==> r.expected == old(expectedRecordId) && r.actual == IdOf(record) != r.expected
    {
      hide Concat, Ends, EncodeIndex, ValidFrame, IdOf;
      if state != Open {
        return AppendRefused(state);
      }
      if IsFull() {
        return Full;
      }
      var expected := expectedRecordId;
      var actual := IdOf(record);
      if actual != expected {
        return UnexpectedId(expected, actual);
      }
      StartOfNext(fileId, All(), record);
      var start := StartAfter(fileId, bufferedEnd);
      var end := ToEnd(start, |record|);
      var nextExpected := NextRecordId(expected);
      Accept(record, end, nextExpected);
      r := AcceptedEnd(end, IsFull());
    }

    /** The two appends are one logical acceptance; the pair is poisoned while they are in progress. */
    method Accept(record: Record, end: RecordEnd, nextExpected: RecordId)
      requires Valid() && state == Open && |All()| < RECORDS_PER_FILE && IdOf(record) == expectedRecordId
      requires expectedRecordId.sequence < U64_MAX && nextExpected == NextRecordId(expectedRecordId)
      requires end.id == expectedRecordId && end.position == |Concat(All())| + |record|
      modifies this, log`records, log.buffer, index`buffer, index`ends
      ensures Valid() && state == Open && All() == old(All()) + [record]
      ensures bufferedEnd == Some(end) && flushedEnd == old(flushedEnd) && syncedEnd == old(syncedEnd)
    {
      hide Concat, Ends, EncodeIndex, ValidFrame, IdOf, FirstRecordId;
      hide InSequence, EncodeEntry, Writer.Valid, EntryWriter.Valid, EndAfter;
      ghost var before := All();
      OneMoreRecord(fileId, before, record, flushedCount);
      OneMoreRecord(fileId, before, record, syncedCount);
      state := Poisoned;
      var toLog := log.WriteRecord(record);
      var toIndex := index.Write(end.position);
      if toLog != Success || toIndex != Success {
        assert false;
      }
      recordCount := recordCount + 1;
      bufferedEnd := Some(end);
      expectedRecordId := nextExpected;
      state := Open;
      assert All() == before + [record];
      assert All()[..|All()|] == All();
      ConcatAssociates(Ends(recovered), old(index.ends), [end.position]);
    }

    /** Log output and its flush complete before any index output starts. */
    method Flush() returns (r: PairOutput)
      requires Valid()
      modifies this`state, this`flushedEnd, this`flushedCount
      modifies log`usable, log.buffer, log.destination, index`usable, index`buffer, index.file
      ensures Valid() && flushedCount >= old(flushedCount)
      ensures log.destination.synced == old(log.destination.synced) && index.file.synced == old(index.file.synced)
      ensures old(state) != Open ==> r == PairRefused(old(state)) && Untouched()
      ensures old(state) == Open ==> !r.PairRefused? && state == if r == PairDone then Open else Poisoned
      ensures r == PairDone ==> flushedEnd == bufferedEnd && flushedCount == |All()|
      ensures r != PairDone ==> flushedEnd == old(flushedEnd)
      ensures r.LogFailed? ==> unchanged(index.file)
      ensures old(state) == Open && old(bufferedEnd == flushedEnd) ==> r == PairDone && Untouched()
      ensures old(state) == Open && Smooth(old(log.destination.script)) && Smooth(old(index.file.script)) ==>
                r == PairDone && Smooth(log.destination.script) && Smooth(index.file.script)
      ensures Calls(old(log.destination.script), log.destination.script, LogReport(r))
      ensures Calls(old(index.file.script), index.file.script, IndexReport(r))
      ensures r.LogFailed? ==> LogReport(r) != Done
      ensures r.IndexFailed? ==> IndexReport(r) != Done
    {
      hide Concat, Ends, EncodeIndex, ValidFrame, IdOf, FirstRecordId, InSequence, EncodeEntry;
      hide EndAfter, Writer.Valid, EntryWriter.Valid, Smooth, Calls, CallOutcome, Writes;
      NothingMet(log.destination.script);
      NothingMet(index.file.script);
      if state != Open {
        return PairRefused(state);
      }
      SameEndSameCount(fileId, All(), |All()|, flushedCount);
      if bufferedEnd == flushedEnd {
        return PairDone;
      }
      state := Poisoned;
      var toLog := SendLog();
      if toLog != Success {
        return LogFailed(toLog);
      }
      var toIndex := SendIndex();
      if toIndex != Success {
        return IndexFailed(toIndex);
      }
      assert All()[..|All()|] == All();
      flushedEnd, flushedCount := bufferedEnd, |All()|;
      state := Open;
      r := PairDone;
    }

    /** Sends and flushes the record batch. */
    method SendLog() returns (r: OutputResult)
      requires Valid() && state == Poisoned && log.usable
      modifies log`usable, log.buffer, log.destination
      ensures Valid()
      ensures log.destination.synced == old(log.destination.synced)
      ensures r == Success ==> log.usable
      ensures r == Success ==> log.destination.contents == Concat(All())
      ensures r == Success ==> log.destination.flushed == |Concat(All())|
      ensures Smooth(old(log.destination.script)) ==> Smooth(log.destination.script) && r == Success
      ensures r != Unusable && Calls(old(log.destination.script), log.destination.script, Reported(r))
    {
      hide Concat, Ends, EncodeIndex, ValidFrame, IdOf, FirstRecordId, InSequence, EndAfter;
      hide Writer.Valid, EntryWriter.Valid, Smooth, Calls, CallOutcome, Writes;
      LogTotal();
      ghost var before := log.destination.script;
      r := log.FlushBuffer();
      ghost var sent := log.destination.script;
      TransfersAreCalls(before, sent, Reported(r));
      if r == Success {
        OneCall(sent);
        r := log.Flush();
        CallsThen(before, sent, log.destination.script, Reported(r));
      }
    }

    /** Sends and flushes the index batch, for a log that is completely flushed. */
    method SendIndex() returns (r: OutputResult)
      requires Valid() && state == Poisoned && index.usable
      requires log.destination.flushed == |Concat(All())|
      modifies index`usable, index`buffer, index.file
      ensures Valid()
      ensures index.file.synced == old(index.file.synced)
      ensures r == Success ==> index.usable
      ensures r == Success ==> index.file.contents == EncodeIndex(Ends(All()))
      ensures r == Success ==> index.file.flushed == |EncodeIndex(Ends(All()))|
      ensures Smooth(old(index.file.script)) ==> Smooth(index.file.script) && r == Success
      ensures r != Unusable && Calls(old(index.file.script), index.file.script, Reported(r))
    {
      hide Concat, Ends, EncodeIndex, ValidFrame, IdOf, FirstRecordId, InSequence, EndAfter;
      hide Writer.Valid, EntryWriter.Valid, Smooth, Calls, CallOutcome, Writes;
      AllPrefixesFit(All(), log.destination.flushed);
      IndexTotal();
      ghost var before := index.file.script;
      r := index.FlushBuffer();
      ghost var sent := index.file.script;
      TransfersAreCalls(before, sent, Reported(r));
      if r == Success {
        OneCall(sent);
        r := index.Flush();
        CallsThen(before, sent, index.file.script, Reported(r));
      }
    }

    lemma LogTotal()
      requires Accounted()
      ensures log.Total() == Concat(All())
    {
      hide Concat, ValidFrame;
      ConcatAppend(recovered, log.records);
    }

    lemma IndexTotal()
      requires Accounted()
      ensures index.Total() == EncodeIndex(Ends(All()))
    {
      hide Concat, ValidFrame, EncodeIndex, Ends;
      EncodeIndexAppend(Ends(recovered), index.ends);
    }

    /** Flushes, then makes the log durable before the index. */
    method SyncData() returns (r: PairOutput)
      requires Valid()
      modifies this`state, this`flushedEnd, this`flushedCount, this`syncedEnd, this`syncedCount
      modifies log`usable, log.buffer, log.destination, index`usable, index`buffer, index.file
      ensures Valid() && syncedCount >= old(syncedCount)
      ensures old(state) != Open ==> r == PairRefused(old(state)) && Untouched()
      ensures old(state) == Open ==> !r.PairRefused? && state == if r == PairDone then Open else Poisoned
      ensures r == PairDone ==> syncedEnd == flushedEnd == bufferedEnd && syncedCount == |All()|
      ensures r == PairDone ==>
                && log.destination.synced == |log.destination.contents|
                && index.file.synced == |index.file.contents|
      ensures r != PairDone ==> syncedEnd == old(syncedEnd) && index.file.synced == old(index.file.synced)
      ensures old(state) == Open && Smooth(old(log.destination.script)) && Smooth(old(index.file.script)) ==>
                r == PairDone && Smooth(log.destination.script) && Smooth(index.file.script)
      ensures Calls(old(log.destination.script), log.destination.script, LogReport(r))
      ensures Calls(old(index.file.script), index.file.script, IndexReport(r))
      ensures r.LogFailed? ==> LogReport(r) != Done
      ensures r.IndexFailed? ==> IndexReport(r) != Done
    {
      hide Concat, Ends, EncodeIndex, ValidFrame, IdOf, FirstRecordId, InSequence, EncodeEntry;
      hide EndAfter, Writer.Valid, EntryWriter.Valid, Smooth, Calls, CallOutcome, Writes;
      ghost var logScript, indexScript := log.destination.script, index.file.script;
      r := Flush();
      if r == PairDone {
        ghost var logFlushed, indexFlushed := log.destination.script, index.file.script;
        r := SyncBoth();
        CallsThen(logScript, logFlushed, log.destination.script, LogReport(r));
        CallsThen(indexScript, indexFlushed, index.file.script, IndexReport(r));
      }
    }

    /** Log first, then index; the synchronized end moves only after both. */
    method SyncBoth() returns (r: PairOutput)
      requires Valid() && state == Open && flushedCount == |All()| && flushedEnd == bufferedEnd
      modifies this`state, this`syncedEnd, this`syncedCount
      modifies log`usable, log.destination`synced, log.destination`script
      modifies index`usable, index.file`synced, index.file`script
      ensures Valid() && state == if r == PairDone then Open else Poisoned
      ensures !r.PairRefused? && syncedCount >= old(syncedCount)
      ensures r == PairDone ==> syncedEnd == flushedEnd && syncedCount == |All()|
      ensures r == PairDone ==>
                && log.destination.synced == |log.destination.contents|
                && index.file.synced == |index.file.contents|
      ensures r != PairDone ==> syncedEnd == old(syncedEnd) && index.file.synced == old(index.file.synced)
      ensures r.LogFailed? ==> index.file.script == old(index.file.script)
      ensures old(state) == Open && Smooth(old(log.destination.script)) && Smooth(old(index.file.script)) ==>
                r == PairDone && Smooth(log.destination.script) && Smooth(index.file.script)
      ensures Calls(old(log.destination.script), log.destination.script, LogReport(r))
      ensures Calls(old(index.file.script), index.file.script, IndexReport(r))
      ensures r.LogFailed? ==> LogReport(r) != Done
      ensures r.IndexFailed? ==> IndexReport(r) != Done
    {
      hide Concat, Ends, EncodeIndex, ValidFrame, IdOf, FirstRecordId, InSequence, EndAfter;
      hide Writer.Valid, EntryWriter.Valid, Smooth, Calls, CallOutcome, Writes;
      FullyFlushed();
      OneCall(log.destination.script);
      OneCall(index.file.script);
      NothingMet(index.file.script);
      state := Poisoned;
      var synced := log.SyncData();
      if synced != Success {
        return LogFailed(synced);
      }
      synced := index.SyncData();
      if synced != Success {
        return IndexFailed(synced);
      }
      syncedEnd, syncedCount := flushedEnd, flushedCount;
      state := Open;
      r := PairDone;
    }

    /** Once everything sent is flushed, the flushed marks cover the whole files. */
    lemma FullyFlushed()
      requires Valid() && flushedCount == |All()|
      ensures log.destination.flushed == |log.destination.contents|
      ensures index.file.flushed == |index.file.contents|
    {
      hide Concat, Ends, EncodeIndex, ValidFrame, IdOf, FirstRecordId, InSequence;
      LogTotal();
      IndexTotal();
      assert All()[..|All()|] == All();
    }

    /** Succeeds only when all 100,000 records are durable in both files. */
    method Finalize() returns (r: FinalizeResult)
      requires Valid()
      modifies this`state
      ensures Valid()
      ensures r.FinalizeRefused? <==> old(state) != Open
      ensures r.FinalizeRefused? ==> r.state == old(state)
      ensures r.NotFull? <==> old(state) == Open && |All()| < RECORDS_PER_FILE
      ensures r.NotFull? ==> r.count == |All()|
      ensures r.Completed? <==> old(state) == Open && |All()| == RECORDS_PER_FILE && syncedCount == |All()|
      ensures r.Completed? ==> Some(r.end) == bufferedEnd == syncedEnd && state == Finalized
      ensures r.Completed? ==>
                && log.destination.synced == |log.destination.contents| == |Concat(All())|
                && index.file.synced == |index.file.contents| == INDEX_ENTRY_LEN * RECORDS_PER_FILE
      ensures !r.Completed? ==> state == old(state)
    {
      hide Concat, Ends, EncodeIndex, ValidFrame, IdOf, FirstRecordId, InSequence, EndAfter;
      if state != Open {
        return FinalizeRefused(state);
      }
      if !IsFull() {
        return NotFull(recordCount);
      }
      SameEndSameCount(fileId, All(), |All()|, syncedCount);
      if syncedEnd != bufferedEnd {
        return NotSynchronized;
      }
      FullyFlushed();
      assert All()[..|All()|] == All();
      state := Finalized;
      r := Completed(bufferedEnd.value);
    }
  }

  // ---------- What the invariant says about the two files ----------

  /**
   Whatever a run was cut short in: every complete entry in the index file is the exclusive end of the record of
   its position, and the log file holds that record and everything in front of it, flushed.
   */
  lemma IndexNeverAheadOfLog(w: PairWriter, i: nat)
    requires w.Valid() && INDEX_ENTRY_LEN * (i + 1) <= |w.index.file.contents|
    ensures i < |w.All()|
    ensures var through := Concat(w.All()[..i + 1]);
            && EntryAt(w.index.file.contents, i) == Some(|through|)
            && |through| <= w.log.destination.flushed <= |w.log.destination.contents|
            && w.log.destination.contents[..|through|] == through
  {
    hide Concat, Ends, EncodeIndex, ValidFrame, IdOf, EntryAt, EndAfter, InSequence;
    w.LogTotal();
    w.IndexTotal();
    EntryOfPrefix(Ends(w.All()), w.index.file.contents, i);
    ConcatMonotone(w.All(), i + 1, i + 1);
  }

  /** In an open pair the buffered and the flushed end agree exactly when both buffers are empty. */
  lemma NothingBufferedExactly(w: PairWriter)
    requires w.Valid() && w.state == Open
    ensures w.bufferedEnd == w.flushedEnd <==> w.log.buffer.Contents() == [] && w.index.buffer == []
  {
    hide Concat, Ends, EncodeIndex, ValidFrame, IdOf, EndAfter, InSequence;
    var all := w.All();
    w.LogTotal();
    w.IndexTotal();
    SameEndSameCount(w.fileId, all, |all|, w.flushedCount);
    assert all[..|all|] == all;
    ConcatMonotone(all, w.flushedCount, |all|);
  }

  /** Counter, expected ID and buffered end belong to the records of the file, within the bounds of their lengths. */
  lemma CountersDescribeRecords(w: PairWriter)
    requires w.Valid()
    ensures w.recordCount == |w.All()| && w.expectedRecordId.sequence == FirstRecordId(w.fileId).sequence + |w.All()|
    ensures match w.bufferedEnd
            case None => w.All() == []
            case Some(end) =>
              && FileOf(end.id) == w.fileId && RecordCountThrough(end.id) == w.recordCount
              && end.position == |Concat(w.All())|
              && MIN_RECORD_LEN * w.recordCount <= end.position <= MAX_RECORD_LEN * w.recordCount
  {
    hide Concat, Ends, EncodeIndex, ValidFrame, IdOf;
    var all := w.All();
    assert all[..|all|] == all;
    ConcatBounds(all);
    if |all| > 0 {
      CountInFile(w.fileId, |all|);
    }
  }

  /** Different numbers of records never share an end. */
  lemma SameEndSameCount(file: LogFileId, records: seq<Record>, m: nat, n: nat)
    requires n <= m <= |records| && m <= RECORDS_PER_FILE
    requires FirstRecordId(file).sequence + m <= U64_MAX + 1
    ensures EndAfter(file, records, m) == EndAfter(file, records, n) <==> m == n
    ensures m > 0 ==> EndAfter(file, records, m).Some?
  {
    hide Concat, ValidFrame;
  }

  /** What one accepted append means for the streams and for an earlier endpoint. */
  lemma OneMoreRecord(file: LogFileId, before: seq<Record>, record: Record, count: nat)
    requires InSequence(file, before) && count <= |before| < RECORDS_PER_FILE
    requires FirstRecordId(file).sequence + |before| < U64_MAX
    requires IdOf(record) == RecordId(file.stream, FirstRecordId(file).sequence + |before|)
    ensures InSequence(file, before + [record])
    ensures Ends(before + [record]) == Ends(before) + [|Concat(before)| + |record|]
    ensures Concat(before + [record]) == Concat(before) + record
    ensures forall k :: 0 <= k <= |before| ==> (before + [record])[..k] == before[..k]
    ensures EndAfter(file, before + [record], count) == EndAfter(file, before, count)
  {
    hide Concat, Ends, ValidFrame, IdOf;
    ConcatLast(before, record);
    EndsLast(before, record);
    EndAfterPrefix(file, before, [record], count);
  }

  /** Start of the next append: behind the buffered end, or at the beginning of an empty file. */
  function StartAfter(file: LogFileId, bufferedEnd: Option<RecordEnd>): RecordStart
    requires bufferedEnd.Some? ==> bufferedEnd.value.id.sequence < U64_MAX
  {
    match bufferedEnd
    case Some(end) => NextRecordStart(end)
    case None => RecordStart(FirstRecordId(file), 0)
  }

  /** The computed start is the end of everything before it, and adding a record cannot overflow. */
  lemma StartOfNext(file: LogFileId, records: seq<Record>, record: Record)
    requires |records| < RECORDS_PER_FILE && FirstRecordId(file).sequence + |records| < U64_MAX
    ensures var start := StartAfter(file, EndAfter(file, records, |records|));
            && start.id == RecordId(file.stream, FirstRecordId(file).sequence + |records|)
            && start.position == |Concat(records)|
    ensures MIN_RECORD_LEN <= |record| <= MAX_RECORD_LEN
    ensures |Concat(records)| + |record| <= U64_MAX
  {
    hide Concat, ValidFrame;
    RecordIsNotEmpty(record);
    ConcatBounds(records);
    assert records[..|records|] == records;
    if |records| > 0 {
      CountInFile(file, |records|);
      CountInFile(file, |records| + 1);
    }
  }

  lemma AllPrefixesFit(records: seq<Record>, flushed: nat)
    requires |Concat(records)| <= flushed
    ensures forall k :: 0 <= k <= |records| ==> |Concat(records[..k])| <= flushed
  {
    hide Concat, ValidFrame;
    forall k | 0 <= k <= |records|
      ensures |Concat(records[..k])| <= flushed
    {
      ConcatMonotone(records, k, k);
    }
  }
}
