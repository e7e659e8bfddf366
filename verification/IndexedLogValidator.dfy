/**
 Recovery of one stored pair: open, validate the log, repair the index from what the log validation found,
 and decide whether the file is complete or continues to be appended to.
 */
module IndexedLogValidator {
  import opened Bytes
  import opened RecordProtocol
  import opened ByteDevice
  import opened Locations
  import opened IndexWriter
  import opened LogFileValidator
  import opened IndexFileValidator
  import opened Storage

  datatype PairRecovery =
    | PairRecovered(end: Option<RecordEnd>, log: seq<byte>, index: seq<byte>)
    | PairRejected
    | PairPanics

  /** Recovery of a pair as a function of the bytes of both files. */
  function RecoverPair(file: LogFileId, trusted: Option<RecordEnd>, log: seq<byte>, index: seq<byte>): PairRecovery {
    match RecoverLog(file, trusted, log)
    case InvalidStart => PairRejected
    case LogPanic => PairPanics
    case LogRecovered(end, suffixEnds, _) =>
      match RepairIndex(trusted, suffixEnds, index)
      case Repaired(repaired) => PairRecovered(end, KeptLog(file, trusted, log), repaired)
      case _ => PairRejected
  }

  predicate CompletePair(end: Option<RecordEnd>) {
    end.Some? && RecordCountThrough(end.value.id) == RECORDS_PER_FILE
  }

  /**
   A pair is refused exactly when its trusted end cannot be one of the log's, or is not the one stored in the index. An
   overfull last file panics before its index is looked at.
   */
  lemma PairRejectedExactly(file: LogFileId, trusted: Option<RecordEnd>, log: seq<byte>, index: seq<byte>)
    ensures RecoverPair(file, trusted, log, index) == PairRejected
            <==> || !CoversPrefix(file, trusted, log)
                 || (!OverfullLastFile(file, trusted, log) && !StoresTrustedEnd(trusted, index))
    ensures RecoverPair(file, trusted, log, index) == PairPanics <==> OverfullLastFile(file, trusted, log)
  {
    hide RecoverLog, RepairIndex, KeptLog, OverfullLastFile, StoresTrustedEnd, CoversPrefix;
    StartRefusedExactly(file, trusted, log);
    RecoveryPanicsExactly(file, trusted, log);
    match RecoverLog(file, trusted, log)
    case LogRecovered(end, suffixEnds, _) =>
      RecoveredEndIsPlausible(file, trusted, log);
      RepairedExactly(trusted, suffixEnds, index);
    case _ =>
  }

  /** How far recovery of one pair may have come when it was stopped. */
  ghost predicate PairInProgress(file: LogFileId, trusted: Option<RecordEnd>,
                                 log0: seq<byte>, index0: seq<byte>, log1: seq<byte>, index1: seq<byte>) {
    || (log1 == log0 && index1 == index0)
    || (log1 == KeptLog(file, trusted, log0)
        && (index1 == index0
            || (RecoverLog(file, trusted, log0).LogRecovered?
                && PartlyRepaired(trusted, RecoverLog(file, trusted, log0).suffixEnds, index0, index1))))
  }

  /** Recovery of a pair gives the same result from wherever an earlier attempt was stopped. */
  lemma PairIsRestartable(file: LogFileId, trusted: Option<RecordEnd>,
                          log0: seq<byte>, index0: seq<byte>, log1: seq<byte>, index1: seq<byte>)
    requires PairInProgress(file, trusted, log0, index0, log1, index1)
    ensures RecoverPair(file, trusted, log1, index1) == RecoverPair(file, trusted, log0, index0)
  {
    hide RepairIndex, PartlyRepaired;
    var r := RecoverLog(file, trusted, log0);
    if r.LogRecovered? {
      RecoveryKeepsSuffix(file, trusted, log0);
      if index1 != index0 {
        RepairIsRestartable(trusted, r.suffixEnds, index0, index1);
      }
    }
  }

  lemma RecoveryKeepsSuffix(file: LogFileId, trusted: Option<RecordEnd>, log: seq<byte>)
    requires RecoverLog(file, trusted, log).LogRecovered?
    ensures var r, kept := RecoverLog(file, trusted, log), KeptLog(file, trusted, log);
            && RecoverLog(file, trusted, kept) == LogRecovered(r.end, r.suffixEnds, None)
            && KeptLog(file, trusted, kept) == kept
  {
    RecoveryIsIdempotent(file, trusted, log);
  }

  /** A finished recovery counts as one in progress. */
  lemma FinishedPairIsInProgress(file: LogFileId, trusted: Option<RecordEnd>, log: seq<byte>, index: seq<byte>)
    requires RecoverPair(file, trusted, log, index).PairRecovered?
    ensures var r := RecoverPair(file, trusted, log, index);
            PairInProgress(file, trusted, log, index, r.log, r.index)
  {
    hide KeptLog, RecoverLog, EncodeIndex, TrustedEntryMatches;
  }

  /** Recovering once more from the recovered end leaves both files as they are. */
  lemma PairFromRecoveredEnd(file: LogFileId, trusted: Option<RecordEnd>, log: seq<byte>, index: seq<byte>)
    requires RecoverPair(file, trusted, log, index).PairRecovered?
    ensures var r := RecoverPair(file, trusted, log, index);
            RecoverPair(file, r.end, r.log, r.index) == r
  {
    hide RecoverLog, KeptLog, EncodeIndex, EntryAt, Plausible;
    var r := RecoverPair(file, trusted, log, index);
    RecoveryFromRecoveredEnd(file, trusted, log);
    RecoveredEndIsPlausible(file, trusted, log);
    ScanEndInFile(file, trusted, log);
    var found := RecoverLog(file, trusted, log);
    RecoveredIndexIsFull(file, trusted, log, found.suffixEnds, index);
    assert EncodeIndex([]) == [] by { NoEntries(); }
    assert r.index[..|r.index|] + [] == r.index;
  }

  lemma NoEntries()
    ensures EncodeIndex([]) == []
  {
  }

  /** After a repair the index holds exactly the recovered records' entries, the last one for the recovered end. */
  lemma RecoveredIndexIsFull(file: LogFileId, trusted: Option<RecordEnd>, log: seq<byte>, suffixEnds: seq<u64>, index: seq<byte>)
    requires RecoverLog(file, trusted, log).LogRecovered? && suffixEnds == RecoverLog(file, trusted, log).suffixEnds
    requires RepairIndex(trusted, suffixEnds, index).Repaired?
    ensures var end, repaired := RecoverLog(file, trusted, log).end, RepairIndex(trusted, suffixEnds, index).index;
            && |repaired| == TrustedPrefixLength(end)
            && TrustedEntryMatches(end, repaired)
  {
    hide RecoverLog, EncodeIndex, EntryAt, Plausible;
    var r := RecoverLog(file, trusted, log);
    var repaired := RepairIndex(trusted, suffixEnds, index).index;
    RecoveredEndIsPlausible(file, trusted, log);
    if suffixEnds == [] {
      SameEndWithoutSuffix(file, trusted, log);
      assert repaired == index[..TrustedPrefixLength(trusted)] + EncodeIndex([]);
      NoEntries();
      if trusted.Some? {
        EntryInPrefix(repaired, index, CountOf(trusted), CountOf(trusted) - 1);
      }
    } else {
      LastSuffixEnd(file, trusted, log);
      LastEntry(index[..TrustedPrefixLength(trusted)], CountOf(trusted), suffixEnds);
    }
  }

  lemma SameEndWithoutSuffix(file: LogFileId, trusted: Option<RecordEnd>, log: seq<byte>)
    requires RecoverLog(file, trusted, log).LogRecovered? && RecoverLog(file, trusted, log).suffixEnds == []
    ensures RecoverLog(file, trusted, log).end == trusted
  {
    hide Parse, ValidFrame, IdOf;
  }

  /** The last new end is the recovered end. */
  lemma LastSuffixEnd(file: LogFileId, trusted: Option<RecordEnd>, log: seq<byte>)
    requires RecoverLog(file, trusted, log).LogRecovered? && RecoverLog(file, trusted, log).suffixEnds != []
    ensures var r := RecoverLog(file, trusted, log);
            r.end.Some? && r.end.value.position == r.suffixEnds[|r.suffixEnds| - 1]
  {
    hide Parse, ValidFrame, IdOf, Scan;
    ScanLastEnd(file, trusted, CountOf(trusted), Parse(log[EndPositionOf(trusted)..]), |log|);
  }

  lemma {:induction false} ScanLastEnd(file: LogFileId, end: Option<RecordEnd>, count: nat, parsed: Parsed, fileEnd: nat)
    requires Plausible(file, end, count) && count <= RECORDS_PER_FILE
    requires Scan(file, end, count, parsed, fileEnd).Scanned?
    requires Scan(file, end, count, parsed, fileEnd).suffixEnds != []
    ensures var r := Scan(file, end, count, parsed, fileEnd);
            r.end.Some? && r.end.value.position == r.suffixEnds[|r.suffixEnds| - 1]
    decreases |parsed.records|
  {
    hide ValidFrame, IdOf;
    var record := parsed.records[0];
    RecordIsNotEmpty(record);
    NextEndIsPlausible(file, end, count, |record|);
    var next := Some(ToEnd(Expected(file, end), |record|));
    var rest := Parsed(parsed.records[1..], parsed.ending);
    var r := Scan(file, next, count + 1, rest, fileEnd);
    if r.suffixEnds != [] {
      ScanLastEnd(file, next, count + 1, rest, fileEnd);
    }
  }

  lemma LastEntry(prefix: seq<byte>, count: nat, suffixEnds: seq<u64>)
    requires suffixEnds != [] && |prefix| == INDEX_ENTRY_LEN * count
    ensures EntryAt(prefix + EncodeIndex(suffixEnds), count + |suffixEnds| - 1) == Some(suffixEnds[|suffixEnds| - 1])
  {
    hide EncodeIndex, EntryAt;
    EntryBehindPrefix(prefix, count, EncodeIndex(suffixEnds), |suffixEnds| - 1);
    EntryOfPrefix(suffixEnds, EncodeIndex(suffixEnds), |suffixEnds| - 1);
  }

  lemma EntryBehindPrefix(prefix: seq<byte>, count: nat, index: seq<byte>, i: nat)
    requires |prefix| == INDEX_ENTRY_LEN * count && INDEX_ENTRY_LEN * (i + 1) <= |index|
    ensures EntryAt(prefix + index, count + i) == EntryAt(index, i)
  {
    hide DecodeEntry;
    var at: nat := INDEX_ENTRY_LEN * i;
    assert INDEX_ENTRY_LEN * (count + i) == |prefix| + at;
    assert (prefix + index)[|prefix| + at..|prefix| + at + INDEX_ENTRY_LEN] == index[at..at + INDEX_ENTRY_LEN];
  }

  // ---------- The operation ----------

  datatype PairValidation =
    | CompleteFile(lastEnd: RecordEnd)
    | PartialFile(end: Option<RecordEnd>, log: Device, index: Device)
    | LogNotFound
    | ContentRejected
    | Panicked
    | PairStopped(outcome: Outcome)

  /** What the two validations reported, and the scripts they left and passed through. */
  datatype PairTrace = PairTrace(log: LogValidation, scanned: seq<IoStep>, validated: seq<IoStep>,
                                 index: IndexValidation, checked: seq<IoStep>, written: seq<IoStep>, repaired: seq<IoStep>)

  /** The operations on both files up to each result: the index is not touched before the log is valid. */
  ghost predicate PairSteps(log0: seq<IoStep>, index0: seq<IoStep>, t: PairTrace, log1: seq<IoStep>, index1: seq<IoStep>,
                            r: PairValidation) {
    && LogSteps(log0, t.scanned, t.validated, t.log)
    && if !t.log.ValidatedLog? then
         && log1 == t.validated && index1 == index0
         && match r
            case ContentRejected => t.log.BadStart?
            case Panicked => t.log.LogPanicked?
            case PairStopped(outcome) => outcome == LogOutcome(t.log) != Done
            case _ => false
       else
         && IndexSteps(index0, t.checked, t.written, t.repaired, t.index)
         && if !t.index.ValidatedIndex? then
              && log1 == t.validated && index1 == t.repaired
              && match r
                 case ContentRejected => t.index.IndexRejected?
                 case PairStopped(outcome) => outcome == IndexOutcome(t.index) != Done
                 case _ => false
            else
              PositioningSteps(t.validated, t.repaired, log1, index1, r)
  }

  /** A complete file is left alone; otherwise the log's position is set, and then the index's. */
  predicate PositioningSteps(log0: seq<IoStep>, index0: seq<IoStep>, log1: seq<IoStep>, index1: seq<IoStep>, r: PairValidation) {
    var forLog, forIndex := CallOutcome(FirstStep(log0)), CallOutcome(FirstStep(index0));
    match r
    case CompleteFile(_) => log1 == log0 && index1 == index0
    case PartialFile(_, _, _) => log1 == Rest(log0) && index1 == Rest(index0) && forLog == forIndex == Done
    case PairStopped(outcome) =>
      && log1 == Rest(log0) && outcome != Done
      && if forLog == Done then index1 == Rest(index0) && outcome == forIndex else index1 == index0 && outcome == forLog
    case _ => false
  }

  /** Nothing is called after an error or abandonment on either file, and that is what stops the recovery. */
  lemma PairStepsAreCalls(log0: seq<IoStep>, index0: seq<IoStep>, t: PairTrace, log1: seq<IoStep>, index1: seq<IoStep>,
                          r: PairValidation)
    requires PairSteps(log0, index0, t, log1, index1, r)
    ensures !r.PairStopped? ==> Calls(log0, log1, Done) && Calls(index0, index1, Done)
    ensures r.PairStopped? ==>
              || (Calls(log0, log1, r.outcome) && Calls(index0, index1, Done))
              || (Calls(log0, log1, Done) && Calls(index0, index1, r.outcome))
  {
    hide LogSteps, IndexSteps, Calls;
    LogStepsAreCalls(log0, t.scanned, t.validated, t.log);
    NothingMet(index0);
    if t.log.ValidatedLog? {
      IndexStepsAreCalls(index0, t.checked, t.written, t.repaired, t.index);
      if t.index.ValidatedIndex? && !r.CompleteFile? {
        OneCall(t.validated);
        OneCall(t.repaired);
        CallsThen(log0, t.validated, log1, CallOutcome(FirstStep(t.validated)));
        if index1 != t.repaired {
          CallsThen(index0, t.repaired, index1, CallOutcome(FirstStep(t.repaired)));
        }
      }
    }
  }

  /** Only the pair of this number may differ, and only as far as its recovery can have come. */
  ghost predicate OnlyPairChanged(stream: StreamId, number: LogFileNumber, trusted: Option<RecordEnd>, before: Disk, after: Disk) {
    && number in before.logs && number in after.logs
    && after.logs == before.logs[number := after.logs[number]]
    && (after.indexes == before.indexes || (number in after.indexes && after.indexes == before.indexes[number := after.indexes[number]]))
    && after.checkpoint == before.checkpoint && after.staging == before.staging
    && PairInProgress(LogFileId(stream, number), trusted, before.logs[number], IndexOf(before, number),
                      after.logs[number], IndexOf(after, number))
  }

  /** What each result says about the pair. */
  ghost predicate Reports(stream: StreamId, number: LogFileNumber, trusted: Option<RecordEnd>, before: Disk, after: Disk,
                          r: PairValidation)
    requires number in before.logs && number in after.logs
  {
    var recovery := RecoverPair(LogFileId(stream, number), trusted, before.logs[number], IndexOf(before, number));
    match r
    case CompleteFile(end) =>
      && number in after.indexes && CompletePair(Some(end))
      && recovery == PairRecovered(Some(end), after.logs[number], after.indexes[number])
    case PartialFile(end, _, _) =>
      && number in after.indexes && !CompletePair(end)
      && recovery == PairRecovered(end, after.logs[number], after.indexes[number])
    case ContentRejected => recovery == PairRejected
    case Panicked => recovery == PairPanics
    case LogNotFound => false
    case PairStopped(outcome) => outcome != Done
  }

  method Validate(storage: StreamStorage, number: LogFileNumber, lastTrusted: Option<RecordEnd>) returns (r: PairValidation)
    modifies storage
    ensures r.LogNotFound? ==> number !in old(storage.disk).logs
    ensures number !in old(storage.disk).logs ==>
              storage.disk == old(storage.disk) && (r.LogNotFound? || (r.PairStopped? && r.outcome != Done))
    ensures number in old(storage.disk).logs ==>
              && OnlyPairChanged(storage.stream, number, lastTrusted, old(storage.disk), storage.disk)
              && Reports(storage.stream, number, lastTrusted, old(storage.disk), storage.disk, r)
    ensures r.PartialFile? ==>
              && fresh(r.log) && fresh(r.index) && r.log != r.index && r.log.Valid() && r.index.Valid()
              && r.log.AtEnd() && r.index.AtEnd()
              && r.log.contents == storage.disk.logs[number] && r.index.contents == storage.disk.indexes[number]
              && r.log.synced == |r.log.contents| && r.index.synced == |r.index.contents|
    ensures r.PairStopped? ==> r.outcome != Done
    ensures ValidationSteps(old(storage.script), storage.script, r)
    ensures number !in old(storage.disk).logs && r.PairStopped? ==> storage.script == Rest(old(storage.script))
    ensures Smooth(old(storage.script)) ==> Smooth(storage.script) && !r.PairStopped?
  {
    hide RecoverLog, KeptLog, RepairIndex, TrustedEntryMatches, EncodeIndex, PartlyRepaired, Smooth, PairSteps, Operations;
    var opening := Open(storage, number);
    if opening.Stopped? {
      return PairStopped(opening.outcome);
    }
    if opening.Missing? {
      return LogNotFound;
    }
    ghost var before := storage.disk;
    var log, index := opening.log, opening.index;
    ghost var trace;
    r, trace := Recover(LogFileId(storage.stream, number), lastTrusted, log, index);
    storage.disk := storage.disk.(logs := storage.disk.logs[number := log.contents],
                                  indexes := storage.disk.indexes[number := index.contents]);
    IndexOfUpdate(before, number, index.contents);
  }

  /** Opening a pair takes three operations; what stops it is what the last one reported. */
  ghost predicate ValidationSteps(before: seq<IoStep>, after: seq<IoStep>, r: PairValidation) {
    || (after == Behind(before, 3) && Operations(before, after, Done) && !r.LogNotFound?)
    || (after == Rest(before) && Operations(before, after, Done) && r.LogNotFound?)
    || (r.PairStopped? && Operations(before, after, r.outcome))
  }

  lemma IndexOfUpdate(disk: Disk, number: LogFileNumber, index: seq<byte>)
    ensures IndexOf(disk.(indexes := disk.indexes[number := index]), number) == index
  {
  }

  datatype Opening = Opened(log: Device, index: Device) | Missing | Stopped(outcome: Outcome)

  /** Opens the log, then opens or creates the index and synchronizes its directory. */
  method Open(storage: StreamStorage, number: LogFileNumber) returns (r: Opening)
    modifies storage
    ensures r.Missing? ==> number !in old(storage.disk).logs
    ensures number !in old(storage.disk).logs ==> storage.disk == old(storage.disk) && !r.Opened?
    ensures storage.disk.logs == old(storage.disk).logs && storage.disk.checkpoint == old(storage.disk).checkpoint
    ensures storage.disk.staging == old(storage.disk).staging
    ensures IndexOf(storage.disk, number) == IndexOf(old(storage.disk), number)
    ensures || storage.disk.indexes == old(storage.disk).indexes
            || (number in storage.disk.indexes
                && storage.disk.indexes == old(storage.disk).indexes[number := storage.disk.indexes[number]])
    ensures r.Stopped? ==> r.outcome != Done && Operations(old(storage.script), storage.script, r.outcome)
    ensures !r.Stopped? ==> Operations(old(storage.script), storage.script, Done)
    ensures number !in old(storage.disk).logs ==> storage.script == Rest(old(storage.script))
    ensures r.Opened? ==> storage.script == Behind(old(storage.script), 3)
    ensures r.Opened? ==>
              && fresh(r.log) && fresh(r.index) && r.log != r.index && r.log.Valid() && r.index.Valid()
              && r.log.contents == storage.disk.logs[number] && r.log.flushed == |r.log.contents|
              && r.index.contents == IndexOf(storage.disk, number) && r.index.flushed == |r.index.contents|
    ensures Smooth(old(storage.script)) ==>
              Smooth(storage.script) && !r.Stopped? && (r.Opened? ==> Smooth(r.log.script) && Smooth(r.index.script))
  {
    hide Operations, Smooth, Behind, Rest, FirstStep;
    ThreeSteps(storage.script);
    OneCall(storage.script);
    var outcome, effect := storage.Operate();  // open the log
    if outcome != Done {
      return Stopped(outcome);
    }
    if number !in storage.disk.logs {
      return Missing;
    }
    OperationNext(old(storage.script), storage.script);
    outcome, effect := storage.Operate();  // open or create the index
    if effect && number !in storage.disk.indexes {
      storage.disk := storage.disk.(indexes := storage.disk.indexes[number := []]);
    }
    if outcome != Done {
      return Stopped(outcome);
    }
    OperationNext(old(storage.script), storage.script);
    outcome, effect := storage.Operate();  // synchronize the directory
    if outcome != Done {
      return Stopped(outcome);
    }
    var logScript: seq<IoStep>, indexScript: seq<IoStep> :| Smooth(storage.script) ==> Smooth(logScript) && Smooth(indexScript);
    var log := new Device(storage.disk.logs[number], logScript);
    var index := new Device(IndexOf(storage.disk, number), indexScript);
    r := Opened(log, index);
  }

  /** The two validations and the positioning for appends, on opened files. */
  method Recover(file: LogFileId, lastTrusted: Option<RecordEnd>, log: Device, index: Device)
    returns (r: PairValidation, ghost trace: PairTrace)
    requires log != index && log.Valid() && index.Valid()
    requires log.flushed == |log.contents| && index.flushed == |index.contents|
    modifies log, index
    ensures PairInProgress(file, lastTrusted, old(log.contents), old(index.contents), log.contents, index.contents)
    ensures r.CompleteFile? ==> CompletePair(Some(r.lastEnd))
    ensures r.PartialFile? ==> !CompletePair(r.end)
    ensures var recovery := RecoverPair(file, lastTrusted, old(log.contents), old(index.contents));
            && (r.CompleteFile? ==> recovery == PairRecovered(Some(r.lastEnd), log.contents, index.contents))
            && (r.PartialFile? ==> recovery == PairRecovered(r.end, log.contents, index.contents))
    ensures r.ContentRejected? ==> RecoverPair(file, lastTrusted, old(log.contents), old(index.contents)) == PairRejected
    ensures r.Panicked? ==> RecoverPair(file, lastTrusted, old(log.contents), old(index.contents)) == PairPanics
    ensures !r.LogNotFound? && (r.PairStopped? ==> r.outcome != Done)
    ensures r.PartialFile? ==>
              && r.log == log && r.index == index && log.Valid() && index.Valid() && log.AtEnd() && index.AtEnd()
              && log.synced == |log.contents| && index.synced == |index.contents|
    ensures PairSteps(old(log.script), old(index.script), trace, log.script, index.script, r)
    ensures Smooth(old(log.script)) && Smooth(old(index.script)) ==> !r.PairStopped?
  {
    hide RecoverLog, KeptLog, RepairIndex, TrustedEntryMatches, EncodeIndex, PartlyRepaired, Smooth, LogSteps, IndexSteps;
    hide Reads, Operations;
    ghost var log0, index0 := log.contents, index.contents;
    UnrepairedIndex(lastTrusted, index0);
    var validated;
    ghost var scanned;
    validated, scanned := LogFileValidator.Validate(log, file, lastTrusted);
    trace := PairTrace(validated, scanned, log.script, IndexIoFailed, [], [], []);
    match validated {
      case BadStart => return ContentRejected, trace;
      case LogPanicked => return Panicked, trace;
      case LogIoFailed => return PairStopped(Failed), trace;
      case LogAbandoned => return PairStopped(Abandoned), trace;
      case ValidatedLog(_, _, _) =>
    }
    var repaired;
    ghost var checked, written;
    repaired, checked, written := IndexFileValidator.Validate(index, lastTrusted, validated.suffixEnds);
    trace := trace.(index := repaired, checked := checked, written := written, repaired := index.script);
    match repaired {
      case IndexRejected(_) => return ContentRejected, trace;
      case IndexIoFailed => return PairStopped(Failed), trace;
      case IndexAbandoned => return PairStopped(Abandoned), trace;
      case ValidatedIndex =>
    }
    var end := validated.end;
    var recordCount := CountOf(end);
    if end.Some? && recordCount == RECORDS_PER_FILE {
      return CompleteFile(end.value), trace;
    }
    var outcome := log.Seek(EndPositionOf(end));
    if outcome != Done {
      return PairStopped(outcome), trace;
    }
    outcome := index.Seek(recordCount * INDEX_ENTRY_LEN);
    if outcome != Done {
      return PairStopped(outcome), trace;
    }
    RecoveredIndexIsFull(file, lastTrusted, log0, validated.suffixEnds, index0);
    r := PartialFile(end, log, index);
  }

  lemma UnrepairedIndex(trusted: Option<RecordEnd>, index: seq<byte>)
    ensures forall suffixEnds :: PartlyRepaired(trusted, suffixEnds, index, index)
  {
    hide RepairIndex;
  }
}
