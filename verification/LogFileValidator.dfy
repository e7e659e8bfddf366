/**
 Recovery of one log file: keep the trusted prefix and every following record that is valid and next in
 sequence, cut off the rest.

 `Scan` is the result as a function of the one-shot parse of the bytes behind the trusted end.
 `ScanRecords` computes it with the incremental reader; `Validate` adds the start checks, the truncation and
 the synchronization.
 */
module LogFileValidator {
  import opened Bytes
  import opened RecordProtocol
  import opened ByteDevice
  import opened RecordReader
  import opened Locations
  import opened DenseIndex

  datatype TailError =
    | BadRecord(error: ReadError)
    | UnexpectedRecordId(expected: RecordId, actual: RecordId)
    | ExtraData

  datatype ScanResult =
    | Scanned(end: Option<RecordEnd>, suffixEnds: seq<u64>, tail: Option<TailError>)
    | SequencePanic     // the successor of sequence u64::MAX was requested
    | ScanReadFailed
    | ScanAbandoned

  /** A file-local end describes `count` records of this file at a position they can have. */
  predicate Plausible(file: LogFileId, end: Option<RecordEnd>, count: nat) {
    match end
    case None => count == 0
    case Some(e) =>
      && FileOf(e.id) == file
      && RecordCountThrough(e.id) == count
      && MIN_RECORD_LEN * count <= e.position <= MAX_RECORD_LEN * count
  }

  function EndPositionOf(end: Option<RecordEnd>): u64 {
    match end
    case None => 0
    case Some(e) => e.position
  }

  function CountOf(end: Option<RecordEnd>): (r: u64)
    ensures r <= RECORDS_PER_FILE
  {
    match end
    case None => 0
    case Some(e) => RecordCountThrough(e.id)
  }

  /** Identity and position the next accepted record must have. */
  function Expected(file: LogFileId, end: Option<RecordEnd>): RecordStart
    requires end.Some? ==> end.value.id.sequence < U64_MAX
  {
    match end
    case None => RecordStart(FirstRecordId(file), 0)
    case Some(e) => RecordStart(NextRecordId(e.id), e.position)
  }

  predicate Exhausts(end: Option<RecordEnd>) {
    end.Some? && end.value.id.sequence == U64_MAX
  }

  lemma NextEndIsPlausible(file: LogFileId, end: Option<RecordEnd>, count: nat, length: RecordLength)
    requires Plausible(file, end, count) && count < RECORDS_PER_FILE && !Exhausts(end)
    ensures Expected(file, end).position + length <= U64_MAX
    ensures Plausible(file, Some(ToEnd(Expected(file, end), length)), count + 1)
  {
    if end.Some? {
      var s := end.value.id.sequence;
      assert s == file.number * RECORDS_PER_FILE + (count - 1);
      assert s + 1 == file.number * RECORDS_PER_FILE + count;
    }
  }

  /** The scan as a function of what follows the accepted end. */
  function Scan(file: LogFileId, end: Option<RecordEnd>, count: nat, parsed: Parsed, fileEnd: nat): (r: ScanResult)
    requires Plausible(file, end, count) && count <= RECORDS_PER_FILE
    ensures r.Scanned? || r == SequencePanic
    ensures r.Scanned? ==> count + |r.suffixEnds| <= RECORDS_PER_FILE
    ensures r.Scanned? ==> Plausible(file, r.end, count + |r.suffixEnds|)
    decreases |parsed.records|
  {
    hide ValidFrame, IdOf;
    if count == RECORDS_PER_FILE then
      Scanned(end, [], if end.value.position < fileEnd then Some(ExtraData) else None)
    else if parsed.records == [] then
      Scanned(end, [], match parsed.ending
                       case CleanEnd => None
                       case Broken(error) => Some(BadRecord(error)))
    else if Exhausts(end) then SequencePanic
    else
      var record := parsed.records[0];
      var start := Expected(file, end);
      if IdOf(record) != start.id then Scanned(end, [], Some(UnexpectedRecordId(start.id, IdOf(record))))
      else
        RecordIsNotEmpty(record);
        NextEndIsPlausible(file, end, count, |record|);
        var next := ToEnd(start, |record|);
        var rest := Scan(file, Some(next), count + 1, Parsed(parsed.records[1..], parsed.ending), fileEnd);
        if rest.Scanned? then Scanned(rest.end, [next.position] + rest.suffixEnds, rest.tail) else rest
  }

  // ---------- What the scan keeps ----------

  /** Records that continue the file behind its first `count` records. */
  ghost predicate Continues(file: LogFileId, count: nat, records: seq<Record>) {
    && FirstRecordId(file).sequence + count + |records| <= U64_MAX + 1
    && forall i :: 0 <= i < |records| ==>
         IdOf(records[i]) == RecordId(file.stream, FirstRecordId(file).sequence + count + i)
  }

  /** Length of the longest run of records that continue the file and still have a position in it. */
  function AcceptedRun(file: LogFileId, count: nat, records: seq<Record>): (k: nat)
    requires count <= RECORDS_PER_FILE
    ensures k <= |records| && count + k <= RECORDS_PER_FILE
    decreases |records|
  {
    hide ValidFrame, IdOf;
    if count == RECORDS_PER_FILE || records == [] || FirstRecordId(file).sequence + count > U64_MAX then 0
    else if IdOf(records[0]) != RecordId(file.stream, FirstRecordId(file).sequence + count) then 0
    else 1 + AcceptedRun(file, count + 1, records[1..])
  }

  lemma {:induction false} AcceptedRunIsLongest(file: LogFileId, count: nat, records: seq<Record>)
    requires count <= RECORDS_PER_FILE && FirstRecordId(file).sequence + count <= U64_MAX + 1
    ensures var k := AcceptedRun(file, count, records);
            && Continues(file, count, records[..k])
            && (k < |records| && count + k < RECORDS_PER_FILE ==> !Continues(file, count, records[..k + 1]))
    decreases |records|
  {
    hide ValidFrame, IdOf;
    var k := AcceptedRun(file, count, records);
    if k > 0 {
      AcceptedRunIsLongest(file, count + 1, records[1..]);
      ShiftRun(file, count, records, k - 1);
      if k < |records| {
        ShiftRun(file, count, records, k);
      }
    } else if records != [] {
      assert records[..1][0] == records[0];
      assert FirstRecordId(file).sequence + count + |records[..1]| == FirstRecordId(file).sequence + count + 1;
    }
  }

  /** The scan accepts exactly that run, up to the position its lengths add up to. */
  lemma {:induction false} ScanKeepsLongestRun(file: LogFileId, end: Option<RecordEnd>, count: nat, parsed: Parsed, fileEnd: nat)
    requires Plausible(file, end, count) && count <= RECORDS_PER_FILE
    requires Scan(file, end, count, parsed, fileEnd).Scanned?
    ensures var r := Scan(file, end, count, parsed, fileEnd);
            var k := AcceptedRun(file, count, parsed.records);
            && |r.suffixEnds| == k
            && EndPositionOf(r.end) == EndPositionOf(end) + |Concat(parsed.records[..k])|
    decreases |parsed.records|
  {
    hide ValidFrame, IdOf, Plausible, Expected, AtLastSequence, Concat;
    var k := AcceptedRun(file, count, parsed.records);
    NothingConcatenated(parsed.records);
    LastSequence(file, end, count);
    if !Exhausts(end) && count < RECORDS_PER_FILE {
      NextInSequence(file, end, count);
      if k > 0 {
        var record := parsed.records[0];
        RecordIsNotEmpty(record);
        NextEndIsPlausible(file, end, count, |record|);
        var rest := Parsed(parsed.records[1..], parsed.ending);
        ScanKeepsLongestRun(file, Some(ToEnd(Expected(file, end), |record|)), count + 1, rest, fileEnd);
        ConcatFirst(parsed.records, k - 1);
      }
    }
  }

  /** The scan panics exactly when the run reaches sequence u64::MAX and one more record follows. */
  lemma {:induction false} ScanPanicsAtExhaustion(file: LogFileId, end: Option<RecordEnd>, count: nat, parsed: Parsed, fileEnd: nat)
    requires Plausible(file, end, count) && count <= RECORDS_PER_FILE
    ensures var k := AcceptedRun(file, count, parsed.records);
            Scan(file, end, count, parsed, fileEnd) == SequencePanic
            <==> AtLastSequence(file, count + k) && count + k < RECORDS_PER_FILE && k < |parsed.records|
    decreases |parsed.records|
  {
    hide ValidFrame, IdOf, Plausible, Expected;
    LastSequence(file, end, count);
    if !Exhausts(end) && count < RECORDS_PER_FILE {
      NextInSequence(file, end, count);
      if AcceptedRun(file, count, parsed.records) > 0 {
        var record := parsed.records[0];
        RecordIsNotEmpty(record);
        NextEndIsPlausible(file, end, count, |record|);
        var rest := Parsed(parsed.records[1..], parsed.ending);
        ScanPanicsAtExhaustion(file, Some(ToEnd(Expected(file, end), |record|)), count + 1, rest, fileEnd);
      }
    }
  }

  /** Each accepted end is the previous one plus the record's length. */
  lemma {:induction false} ScanEnds(file: LogFileId, end: Option<RecordEnd>, count: nat, parsed: Parsed, fileEnd: nat, i: nat)
    requires Plausible(file, end, count) && count <= RECORDS_PER_FILE
    requires Scan(file, end, count, parsed, fileEnd).Scanned?
    requires i < |Scan(file, end, count, parsed, fileEnd).suffixEnds|
    ensures i < |parsed.records|
    ensures Scan(file, end, count, parsed, fileEnd).suffixEnds[i]
         == EndPositionOf(end) + |Concat(parsed.records[..i + 1])|
    decreases |parsed.records|
  {
    hide ValidFrame, IdOf, Concat;
    var record := parsed.records[0];
    RecordIsNotEmpty(record);
    NextInSequence(file, end, count);
    NextEndIsPlausible(file, end, count, |record|);
    var rest := Parsed(parsed.records[1..], parsed.ending);
    NothingConcatenated(rest.records);
    if i > 0 {
      ScanEnds(file, Some(ToEnd(Expected(file, end), |record|)), count + 1, rest, fileEnd, i - 1);
    }
    ConcatFirst(parsed.records, i);
  }

  /** The first `count` positions of the file are all it has. */
  predicate AtLastSequence(file: LogFileId, count: nat) {
    FirstRecordId(file).sequence + count == U64_MAX + 1
  }

  lemma LastSequence(file: LogFileId, end: Option<RecordEnd>, count: nat)
    requires Plausible(file, end, count) && count <= RECORDS_PER_FILE
    ensures Exhausts(end) <==> AtLastSequence(file, count)
  {
  }

  lemma NextInSequence(file: LogFileId, end: Option<RecordEnd>, count: nat)
    requires Plausible(file, end, count) && count < RECORDS_PER_FILE && !Exhausts(end)
    ensures FirstRecordId(file).sequence + count <= U64_MAX
    ensures Expected(file, end).id == RecordId(file.stream, FirstRecordId(file).sequence + count)
    ensures Expected(file, end).position == EndPositionOf(end)
  {
  }

  lemma ShiftRun(file: LogFileId, count: nat, records: seq<Record>, m: nat)
    requires m < |records| && FirstRecordId(file).sequence + count <= U64_MAX
    requires IdOf(records[0]) == RecordId(file.stream, FirstRecordId(file).sequence + count)
    ensures Continues(file, count + 1, records[1..][..m]) <==> Continues(file, count, records[..m + 1])
  {
    hide ValidFrame, IdOf, FirstRecordId;
    var shorter, longer := records[1..][..m], records[..m + 1];
    assert longer[1..] == shorter && longer[0] == records[0];
    if Continues(file, count + 1, shorter) {
      forall i | 0 <= i < |longer|
        ensures IdOf(longer[i]) == RecordId(file.stream, FirstRecordId(file).sequence + count + i)
      {
        if i > 0 {
          assert longer[i] == shorter[i - 1];
        }
      }
    }
    if Continues(file, count, longer) {
      forall i | 0 <= i < |shorter|
        ensures IdOf(shorter[i]) == RecordId(file.stream, FirstRecordId(file).sequence + (count + 1) + i)
      {
        assert shorter[i] == longer[i + 1];
      }
    }
  }

  lemma ConcatFirst(records: seq<Record>, i: nat)
    requires i < |records|
    ensures |Concat(records[..i + 1])| == |records[0]| + |Concat(records[1..][..i])|
  {
    hide ValidFrame;
    assert records[..i + 1][0] == records[0] && records[..i + 1][1..] == records[1..][..i];
  }

  lemma NothingConcatenated(records: seq<Record>)
    ensures Concat(records[..0]) == []
  {
  }

  // ---------- The scan with the incremental reader ----------

  /** Where the scan stops without looking at another record. */
  lemma ScanStops(file: LogFileId, end: Option<RecordEnd>, count: nat, parsed: Parsed, fileEnd: nat)
    requires Plausible(file, end, count) && count <= RECORDS_PER_FILE
    ensures var r := Scan(file, end, count, parsed, fileEnd);
            if count == RECORDS_PER_FILE then
              end.Some? && r == Scanned(end, [], if end.value.position < fileEnd then Some(ExtraData) else None)
            else if parsed == Parsed([], CleanEnd) then r == Scanned(end, [], None)
            else parsed.records == [] ==> r == Scanned(end, [], Some(BadRecord(parsed.ending.error)))
  {
    hide ValidFrame, IdOf;
  }

  /** What the scan says about the reads it made. */
  function ScanReport(r: ScanResult): Outcome {
    match r
    case ScanReadFailed => Failed
    case ScanAbandoned => Abandoned
    case _ => Done
  }

  /** Reads batches until the file is full, the input ends, or a record does not fit. */
  method ScanRecords(source: Device, file: LogFileId, lastTrusted: Option<RecordEnd>, fileEnd: nat) returns (r: ScanResult)
    requires source.Valid() && Plausible(file, lastTrusted, CountOf(lastTrusted))
    modifies source`cursor, source`script
    ensures source.Valid()
    ensures r == Scan(file, lastTrusted, CountOf(lastTrusted), Parse(old(source.Unread())), fileEnd)
            || r.ScanReadFailed? || r.ScanAbandoned?
    ensures Reads(old(source.script), source.script, ScanReport(r))
    ensures Faultless(old(source.script)) ==> r.Scanned? || r.SequencePanic?
    ensures Smooth(old(source.script)) ==> Smooth(source.script)
  {
    hide Parse, ValidFrame, IdOf, Scan, Faultless, Smooth, Expected, Reads;
    NothingMet(source.script);
    var reader := new Reader(source);
    var count: nat := CountOf(lastTrusted);
    var validatedEnd := lastTrusted;
    var suffixEnds := [];
    ghost var goal := Scan(file, lastTrusted, count, Parse(reader.stream), fileEnd);
    while true
      invariant fresh(reader) && reader.source == source && reader.Valid()
      invariant Plausible(file, validatedEnd, count) && count <= RECORDS_PER_FILE
      invariant count < RECORDS_PER_FILE ==> reader.batch == [] && reader.state == Active
      invariant goal == Prepended(suffixEnds, Scan(file, validatedEnd, count, Parse(reader.Remaining()), fileEnd))
      invariant Faultless(old(source.script)) ==> Faultless(source.script)
      invariant Smooth(old(source.script)) ==> Smooth(source.script)
      invariant Reads(old(source.script), source.script, Done)
      decreases |reader.Remaining()|
    {
      ScanStops(file, validatedEnd, count, Parse(reader.Remaining()), fileEnd);
      if count == RECORDS_PER_FILE {
        return Scanned(validatedEnd, suffixEnds, if validatedEnd.value.position < fileEnd then Some(ExtraData) else None);
      }
      ghost var steps := source.script;
      var wait := reader.WaitToRead();
      ReadsThen(old(source.script), steps, source.script, ReadsReported(wait));
      match wait {
        case Ready(available) =>
          if !available {
            ParseNothing();
            return Scanned(validatedEnd, suffixEnds, None);
          }
        case Invalid(error) => return Scanned(validatedEnd, suffixEnds, Some(BadRecord(error)));
        case IoError => return ScanReadFailed;
        case AlreadyFailed => assert false;
        case Cancelled => return ScanAbandoned;
      }
      var newEnds, verdict;
      ghost var end0, count0, ends0 := validatedEnd, count, suffixEnds;
      validatedEnd, count, newEnds, verdict := DrainBatch(reader, file, validatedEnd, count, fileEnd);
      suffixEnds := suffixEnds + newEnds;
      if verdict.Some? {
        PrependedTwice(ends0, newEnds, verdict.value);
        return Prepended(suffixEnds, verdict.value);
      }
      PrependedTwice(ends0, newEnds, Scan(file, validatedEnd, count, Parse(reader.Remaining()), fileEnd));
    }
  }

  /** Accepts records of one validated batch until it is empty, the file is full, or a record does not fit. */
  method DrainBatch(reader: Reader, file: LogFileId, end0: Option<RecordEnd>, count0: nat, ghost fileEnd: nat)
    returns (end: Option<RecordEnd>, count: nat, suffixEnds: seq<u64>, verdict: Option<ScanResult>)
    requires reader.Valid() && reader.state == Active && reader.batch != []
    requires Plausible(file, end0, count0) && count0 < RECORDS_PER_FILE
    modifies reader
    ensures reader.Valid() && reader.state == Active && |reader.Remaining()| < old(|reader.Remaining()|)
    ensures Plausible(file, end, count) && count <= RECORDS_PER_FILE
    ensures verdict == None && count < RECORDS_PER_FILE ==> reader.batch == []
    ensures Scan(file, end0, count0, Parse(old(reader.Remaining())), fileEnd)
         == Prepended(suffixEnds, match verdict
                                  case Some(v) => v
                                  case None => Scan(file, end, count, Parse(reader.Remaining()), fileEnd))
    ensures verdict.Some? ==> verdict.value.Scanned? || verdict.value == SequencePanic
  {
    hide Parse, ValidFrame, IdOf;
    end, count, suffixEnds, verdict := end0, count0, [], None;
    ghost var goal := Scan(file, end0, count0, Parse(reader.Remaining()), fileEnd);
    ghost var before := |reader.Remaining()|;
    PrependedNothing(goal);
    while count < RECORDS_PER_FILE
      invariant reader.Valid() && reader.state == Active
      invariant Plausible(file, end, count) && count <= RECORDS_PER_FILE
      invariant if count == count0 then reader.batch != [] && |reader.Remaining()| == before else |reader.Remaining()| < before
      invariant goal == Prepended(suffixEnds, Scan(file, end, count, Parse(reader.Remaining()), fileEnd))
      invariant count >= count0
      decreases RECORDS_PER_FILE - count
    {
      ghost var undelivered := Parse(reader.Remaining());
      var next := reader.TryReadNext();
      if !next.Next? {
        return;
      }
      var record := next.record;
      RecordIsNotEmpty(record);
      assert undelivered.records[0] == record && undelivered.records[1..] == Parse(reader.Remaining()).records;
      if Exhausts(end) {
        verdict := Some(SequencePanic);
        return;
      }
      var start := Expected(file, end);
      NextEndIsPlausible(file, end, count, |record|);
      if IdOf(record) != start.id {
        verdict := Some(Scanned(end, [], Some(UnexpectedRecordId(start.id, IdOf(record)))));
        return;
      }
      var newEnd := ToEnd(start, |record|);
      PrependedStep(suffixEnds, newEnd.position, Scan(file, Some(newEnd), count + 1, Parse(reader.Remaining()), fileEnd));
      end, suffixEnds, count := Some(newEnd), suffixEnds + [newEnd.position], count + 1;
    }
  }

  lemma PrependedNothing(r: ScanResult)
    ensures Prepended([], r) == r
  {
    if r.Scanned? {
      assert [] + r.suffixEnds == r.suffixEnds;
    }
  }

  lemma PrependedTwice(a: seq<u64>, b: seq<u64>, r: ScanResult)
    ensures Prepended(a, Prepended(b, r)) == Prepended(a + b, r)
  {
    if r.Scanned? {
      ConcatAssociates(a, b, r.suffixEnds);
    }
  }

  function Prepended(ends: seq<u64>, r: ScanResult): ScanResult {
    if r.Scanned? then r.(suffixEnds := ends + r.suffixEnds) else r
  }

  lemma PrependedStep(ends: seq<u64>, next: u64, r: ScanResult)
    ensures Prepended(ends, if r.Scanned? then Scanned(r.end, [next] + r.suffixEnds, r.tail) else r)
         == Prepended(ends + [next], r)
  {
    if r.Scanned? {
      ConcatAssociates(ends, [next], r.suffixEnds);
    }
  }

  // ---------- Validation of a file ----------

  datatype LogRecovery =
    | InvalidStart
    | LogPanic
    | LogRecovered(end: Option<RecordEnd>, suffixEnds: seq<u64>, tail: Option<TailError>)

  /** The trusted end can describe a prefix of these bytes. */
  predicate ValidStart(file: LogFileId, trusted: Option<RecordEnd>, bytes: seq<byte>) {
    && Plausible(file, trusted, CountOf(trusted))
    && EndPositionOf(trusted) <= |bytes|
  }

  /** Recovery of a log as a function of its bytes. */
  function RecoverLog(file: LogFileId, trusted: Option<RecordEnd>, bytes: seq<byte>): LogRecovery {
    if !ValidStart(file, trusted, bytes) then InvalidStart
    else
      match Scan(file, trusted, CountOf(trusted), Parse(bytes[EndPositionOf(trusted)..]), |bytes|)
      case Scanned(end, suffixEnds, tail) => LogRecovered(end, suffixEnds, tail)
      case _ => LogPanic
  }

  /** The trusted end lies in this file and in its bytes, at a position its records can add up to. */
  predicate CoversPrefix(file: LogFileId, trusted: Option<RecordEnd>, bytes: seq<byte>) {
    match trusted
    case None => true
    case Some(end) =>
      var n := end.id.sequence % 100_000 + 1;
      && end.id.stream == file.stream && end.id.sequence / 100_000 == file.number
      && 16 * n <= end.position <= 65_535 * n && end.position <= |bytes|
  }

  /** Recovery refuses a trusted end exactly when it cannot be one of this file's. */
  lemma StartRefusedExactly(file: LogFileId, trusted: Option<RecordEnd>, bytes: seq<byte>)
    ensures RecoverLog(file, trusted, bytes) == InvalidStart <==> !CoversPrefix(file, trusted, bytes)
  {
    hide Parse, Scan;
  }

  /** The bytes recovery keeps; those of a log it does not accept stay as they are. */
  function KeptLog(file: LogFileId, trusted: Option<RecordEnd>, bytes: seq<byte>): seq<byte> {
    match RecoverLog(file, trusted, bytes)
    case LogRecovered(end, _, _) => if EndPositionOf(end) <= |bytes| then bytes[..EndPositionOf(end)] else bytes
    case _ => bytes
  }

  datatype LogValidation =
    | ValidatedLog(end: Option<RecordEnd>, suffixEnds: seq<u64>, removedTail: Option<TailError>)
    | BadStart
    | LogPanicked
    | LogIoFailed
    | LogAbandoned

  function LogOutcome(r: LogValidation): Outcome {
    match r
    case LogIoFailed => Failed
    case LogAbandoned => Abandoned
    case _ => Done
  }

  /** The length is read and the position set. */
  ghost predicate Positioned(before: seq<IoStep>, after: seq<IoStep>) {
    after == Rest(Rest(before)) && Operations(before, after, Done)
  }

  /** The operations up to each result; those of the scan end at `scanned`. */
  ghost predicate LogSteps(before: seq<IoStep>, scanned: seq<IoStep>, after: seq<IoStep>, r: LogValidation) {
    var start := Rest(Rest(before));
    match r
    case ValidatedLog(_, _, tail) =>
      && Positioned(before, start) && Reads(start, scanned, Done) && Operations(scanned, after, Done)
      && after == if tail.Some? then Rest(Rest(scanned)) else Rest(scanned)
    case BadStart => Operations(before, after, Done)
    case LogPanicked => Positioned(before, start) && Reads(start, scanned, Done) && after == scanned
    case _ =>
      || Operations(before, after, LogOutcome(r))
      || (Positioned(before, start) && Reads(start, scanned, LogOutcome(r)) && after == scanned)
      || (Positioned(before, start) && Reads(start, scanned, Done) && Operations(scanned, after, LogOutcome(r)))
  }

  lemma LogStepsAreCalls(before: seq<IoStep>, scanned: seq<IoStep>, after: seq<IoStep>, r: LogValidation)
    requires LogSteps(before, scanned, after, r)
    ensures Calls(before, after, LogOutcome(r))
  {
    hide Operations, Reads, Calls;
    var start := Rest(Rest(before));
    if Operations(before, after, LogOutcome(r)) {
      OperationsAreCalls(before, after, LogOutcome(r));
    } else {
      OperationsAreCalls(before, start, Done);
      if Reads(start, scanned, LogOutcome(r)) && after == scanned {
        TransfersAreCalls(start, scanned, LogOutcome(r));
        CallsThen(before, start, after, LogOutcome(r));
      } else {
        TransfersAreCalls(start, scanned, Done);
        CallsThen(before, start, scanned, Done);
        OperationsAreCalls(scanned, after, LogOutcome(r));
        CallsThen(before, scanned, after, LogOutcome(r));
      }
    }
  }

  /** Scans, truncates and synchronizes; trusted bytes are neither read nor changed. */
  method Validate(device: Device, file: LogFileId, lastTrusted: Option<RecordEnd>)
    returns (r: LogValidation, ghost scanned: seq<IoStep>)
    requires device.Valid() && device.flushed == |device.contents|
    modifies device
    ensures device.Valid() && device.flushed == |device.contents|
    ensures device.contents == old(device.contents)
            || device.contents == KeptLog(file, lastTrusted, old(device.contents))
    ensures r.ValidatedLog? ==>
              && RecoverLog(file, lastTrusted, old(device.contents)) == LogRecovered(r.end, r.suffixEnds, r.removedTail)
              && device.contents == KeptLog(file, lastTrusted, old(device.contents))
              && |device.contents| == EndPositionOf(r.end)
              && device.synced == |device.contents|
    ensures r.BadStart? ==> RecoverLog(file, lastTrusted, old(device.contents)) == InvalidStart
    ensures r.LogPanicked? ==> RecoverLog(file, lastTrusted, old(device.contents)) == LogPanic
    ensures r.BadStart? || r.LogPanicked? ==> device.contents == old(device.contents)
    ensures LogSteps(old(device.script), scanned, device.script, r)
    ensures device.contents != old(device.contents) ==> Reads(Rest(Rest(old(device.script))), scanned, Done)
    ensures Smooth(old(device.script)) ==> Smooth(device.script) && !r.LogIoFailed? && !r.LogAbandoned?
  {
    hide Parse, Scan, Reads, Operations, Smooth;
    scanned := device.script;
    NothingMet(device.script);
    OneCall(device.script);
    if lastTrusted.Some? && FileOf(lastTrusted.value.id) != file {
      return BadStart, scanned;
    }
    var outcome, fileEnd := device.Length();
    if outcome != Done {
      return Stopped(outcome), scanned;
    }
    var startPosition := EndPositionOf(lastTrusted);
    var trustedCount := CountOf(lastTrusted);
    if startPosition > fileEnd
       || startPosition < trustedCount * MIN_RECORD_LEN || startPosition > trustedCount * MAX_RECORD_LEN {
      return BadStart, scanned;
    }
    ghost var measured := device.script;
    outcome := device.Seek(startPosition);
    OneCall(measured);
    OperationsThen(old(device.script), measured, device.script, outcome);
    scanned := device.script;
    if outcome != Done {
      return Stopped(outcome), scanned;
    }
    var scan := ScanRecords(device, file, lastTrusted, fileEnd);
    scanned := device.script;
    NothingMet(scanned);
    match scan {
      case SequencePanic => return LogPanicked, scanned;
      case ScanReadFailed => return LogIoFailed, scanned;
      case ScanAbandoned => return LogAbandoned, scanned;
      case Scanned(_, _, _) =>
    }
    ScanEndInFile(file, lastTrusted, device.contents);
    outcome := Keep(device, EndPositionOf(scan.end), scan.tail.Some?);
    if outcome != Done {
      return Stopped(outcome), scanned;
    }
    r := ValidatedLog(scan.end, scan.suffixEnds, scan.tail);
  }

  /** Cuts off what lies behind `length`, if anything does, and synchronizes. */
  method Keep(device: Device, length: nat, cut: bool) returns (r: Outcome)
    requires device.Valid() && device.flushed == |device.contents| && length <= |device.contents|
    modifies device
    ensures device.Valid() && device.flushed == |device.contents|
    ensures device.contents == old(device.contents) || (cut && device.contents == Resized(old(device.contents), length))
    ensures r == Done ==> device.contents == (if cut then Resized(old(device.contents), length) else old(device.contents))
    ensures r == Done ==> device.synced == |device.contents|
    ensures Operations(old(device.script), device.script, r)
    ensures r == Done ==> device.script == if cut then Rest(Rest(old(device.script))) else Rest(old(device.script))
    ensures Smooth(old(device.script)) ==> Smooth(device.script) && r == Done
  {
    hide Operations, Smooth;
    NothingMet(device.script);
    OneCall(device.script);
    if cut {
      r := device.SetLength(length);
      if r != Done {
        return;
      }
    }
    ghost var steps := device.script;
    r := device.SyncData();
    OneCall(steps);
    OperationsThen(old(device.script), steps, device.script, r);
  }

  function Stopped(outcome: Outcome): LogValidation {
    if outcome.Abandoned? then LogAbandoned else LogIoFailed
  }

  /** The accepted end lies in the file, behind the trusted end, and is the file's end unless a tail is reported. */
  lemma ScanEndInFile(file: LogFileId, trusted: Option<RecordEnd>, bytes: seq<byte>)
    requires RecoverLog(file, trusted, bytes).LogRecovered?
    ensures var r := RecoverLog(file, trusted, bytes);
            && EndPositionOf(trusted) <= EndPositionOf(r.end) <= |bytes|
            && (r.tail == None <==> EndPositionOf(r.end) == |bytes|)
            && (r.end == None ==> trusted == None && r.suffixEnds == [])
  {
    hide Parse, Concat, ValidFrame, IdOf, Plausible;
    var start := EndPositionOf(trusted);
    var parsed := Parse(bytes[start..]);
    ParseIsSound(bytes[start..]);
    ScanKeepsLongestRun(file, trusted, CountOf(trusted), parsed, |bytes|);
    ConcatMonotone(parsed.records, AcceptedRun(file, CountOf(trusted), parsed.records), |parsed.records|);
    assert parsed.records[..|parsed.records|] == parsed.records;
    ScanTail(file, trusted, CountOf(trusted), parsed, |bytes|);
  }

  /** What lies behind the accepted records: bytes after a full file, a record with the wrong identity, or no record. */
  predicate IsTail(file: LogFileId, count: nat, rest: seq<Record>, ending: Ending, moreBytes: bool, tail: Option<TailError>) {
    if count == 100_000 then tail == if moreBytes then Some(ExtraData) else None
    else if rest != [] then
      && tail.Some? && tail.value.UnexpectedRecordId?
      && tail.value.expected.stream == file.stream
      && tail.value.expected.sequence == FirstRecordId(file).sequence + count
      && tail.value.actual == IdOf(rest[0])
    else tail == match ending
                 case CleanEnd => None
                 case Broken(error) => Some(BadRecord(error))
  }

  /** The tail that a scan reports. */
  lemma {:induction false} ScanTail(file: LogFileId, end: Option<RecordEnd>, count: nat, parsed: Parsed, fileEnd: nat)
    requires Plausible(file, end, count) && count <= RECORDS_PER_FILE
    requires Scan(file, end, count, parsed, fileEnd).Scanned?
    ensures var r := Scan(file, end, count, parsed, fileEnd);
            var k := AcceptedRun(file, count, parsed.records);
            && IsTail(file, count + k, parsed.records[k..], parsed.ending, EndPositionOf(r.end) < fileEnd, r.tail)
            && (r.end == None ==> end == None && k == 0)
    decreases |parsed.records|
  {
    hide ValidFrame, IdOf, Plausible, Expected;
    var k := AcceptedRun(file, count, parsed.records);
    ScanStops(file, end, count, parsed, fileEnd);
    LastSequence(file, end, count);
    if !Exhausts(end) && count < RECORDS_PER_FILE {
      NextInSequence(file, end, count);
      if k > 0 {
        var record := parsed.records[0];
        RecordIsNotEmpty(record);
        NextEndIsPlausible(file, end, count, |record|);
        ScanTail(file, Some(ToEnd(Expected(file, end), |record|)), count + 1, Parsed(parsed.records[1..], parsed.ending), fileEnd);
      }
    }
  }

  // ---------- Sequence exhaustion ----------

  /** All positions the last file has behind the trusted end. */
  const LAST_FILE_POSITIONS: nat := 51_616

  /** The last representable file holds all of its 51,616 records and at least one more valid frame follows them. */
  ghost predicate OverfullLastFile(file: LogFileId, trusted: Option<RecordEnd>, bytes: seq<byte>) {
    && file.number == MAX_FILE_NUMBER && ValidStart(file, trusted, bytes)
    && var records, missing := Parse(bytes[EndPositionOf(trusted)..]).records, LAST_FILE_POSITIONS - CountOf(trusted);
       |records| > missing && Continues(file, CountOf(trusted), records[..missing])
  }

  /** When recovery of a log panics: no other log makes it request the successor of sequence u64::MAX. */
  lemma RecoveryPanicsExactly(file: LogFileId, trusted: Option<RecordEnd>, bytes: seq<byte>)
    ensures RecoverLog(file, trusted, bytes) == LogPanic <==> OverfullLastFile(file, trusted, bytes)
  {
    hide Parse, ValidFrame, IdOf, Scan;
    if ValidStart(file, trusted, bytes) {
      ValidRecoveryPanics(file, trusted, bytes);
    }
  }

  lemma ValidRecoveryPanics(file: LogFileId, trusted: Option<RecordEnd>, bytes: seq<byte>)
    requires ValidStart(file, trusted, bytes)
    ensures RecoverLog(file, trusted, bytes) == LogPanic <==> OverfullLastFile(file, trusted, bytes)
  {
    hide Parse, ValidFrame, IdOf, Scan;
    var count: nat := CountOf(trusted);
    var parsed := Parse(bytes[EndPositionOf(trusted)..]);
    var k := AcceptedRun(file, count, parsed.records);
    ScanPanicsAtExhaustion(file, trusted, count, parsed, |bytes|);
    AcceptedRunIsLongest(file, count, parsed.records);
    PositionsLeft(file, count, k);
    if file.number == MAX_FILE_NUMBER {
      var missing := LAST_FILE_POSITIONS - count;
      if |parsed.records| > missing && Continues(file, count, parsed.records[..missing]) && k < missing {
        ShorterRun(file, count, parsed.records, k + 1, missing);
      }
    }
  }

  lemma PositionsLeft(file: LogFileId, count: nat, k: nat)
    requires count + k <= RECORDS_PER_FILE
    ensures AtLastSequence(file, count + k) && count + k < RECORDS_PER_FILE
            <==> file.number == MAX_FILE_NUMBER && count + k == LAST_FILE_POSITIONS
  {
  }

  lemma ShorterRun(file: LogFileId, count: nat, records: seq<Record>, i: nat, j: nat)
    requires i <= j <= |records| && Continues(file, count, records[..j])
    ensures Continues(file, count, records[..i])
  {
    hide ValidFrame, IdOf, FirstRecordId;
    assert forall n :: 0 <= n < i ==> records[..i][n] == records[..j][n];
  }

  /** A witness: the trusted end covers the very last record, and one more valid frame follows it. */
  lemma LastFileRecoveryCanPanic(stream: StreamId, trustedBytes: seq<byte>, extra: Record)
    requires |trustedBytes| == MIN_RECORD_LEN * LAST_FILE_POSITIONS
    ensures RecoverLog(LogFileId(stream, MAX_FILE_NUMBER),
                       Some(RecordEnd(RecordId(stream, U64_MAX), |trustedBytes|)),
                       trustedBytes + extra) == LogPanic
  {
    hide ValidFrame, Parse;
    var bytes := trustedBytes + extra;
    assert bytes[|trustedBytes|..] == extra == extra + [];
    ParseRecord(extra, []);
  }

  // ---------- Recovering again what recovery kept ----------

  /** The accepted records on their own scan to the same result, without a tail. */
  lemma {:induction false} ScanOfKept(file: LogFileId, end: Option<RecordEnd>, count: nat, parsed: Parsed, fileEnd: nat)
    requires Plausible(file, end, count) && count <= RECORDS_PER_FILE
    requires Scan(file, end, count, parsed, fileEnd).Scanned?
    ensures var r := Scan(file, end, count, parsed, fileEnd);
            var k := AcceptedRun(file, count, parsed.records);
            && Scan(file, end, count, Parsed(parsed.records[..k], CleanEnd), EndPositionOf(r.end))
            == Scanned(r.end, r.suffixEnds, None)
    decreases |parsed.records|
  {
    hide ValidFrame, IdOf, Plausible, Expected;
    var k := AcceptedRun(file, count, parsed.records);
    ScanStops(file, end, count, parsed, fileEnd);
    LastSequence(file, end, count);
    if !Exhausts(end) && count < RECORDS_PER_FILE {
      NextInSequence(file, end, count);
      if k > 0 {
        var record := parsed.records[0];
        RecordIsNotEmpty(record);
        NextEndIsPlausible(file, end, count, |record|);
        var rest := Parsed(parsed.records[1..], parsed.ending);
        ScanOfKept(file, Some(ToEnd(Expected(file, end), |record|)), count + 1, rest, fileEnd);
        assert parsed.records[..k][0] == record && parsed.records[..k][1..] == rest.records[..k - 1];
      }
    }
  }

  /** Recovering the kept bytes from the same trusted end finds the same ends and nothing to remove. */
  lemma RecoveryIsIdempotent(file: LogFileId, trusted: Option<RecordEnd>, bytes: seq<byte>)
    requires RecoverLog(file, trusted, bytes).LogRecovered?
    ensures var r := RecoverLog(file, trusted, bytes);
            && RecoverLog(file, trusted, KeptLog(file, trusted, bytes)) == LogRecovered(r.end, r.suffixEnds, None)
            && KeptLog(file, trusted, KeptLog(file, trusted, bytes)) == KeptLog(file, trusted, bytes)
  {
    hide Parse, Concat, ValidFrame, IdOf, Plausible, Scan;
    var r, kept := RecoverLog(file, trusted, bytes), KeptLog(file, trusted, bytes);
    var start: nat, count: nat := EndPositionOf(trusted), CountOf(trusted);
    var parsed := Parse(bytes[start..]);
    var k := AcceptedRun(file, count, parsed.records);
    ScanEndInFile(file, trusted, bytes);
    ScanKeepsLongestRun(file, trusted, count, parsed, |bytes|);
    KeptIsAccepted(bytes[start..], k);
    assert kept[start..] == bytes[start..][..EndPositionOf(r.end) - start];
    ScanOfKept(file, trusted, count, parsed, |bytes|);
    assert kept[..|kept|] == kept;
  }

  /** The bytes of the first `k` parsed records parse to exactly these. */
  lemma KeptIsAccepted(tail: seq<byte>, k: nat)
    requires k <= |Parse(tail).records|
    ensures |Concat(Parse(tail).records[..k])| <= |tail|
    ensures tail[..|Concat(Parse(tail).records[..k])|] == Concat(Parse(tail).records[..k])
    ensures Parse(tail[..|Concat(Parse(tail).records[..k])|]) == Parsed(Parse(tail).records[..k], CleanEnd)
  {
    hide Parse, Concat, ValidFrame;
    var records := Parse(tail).records;
    ParseIsSound(tail);
    ConcatMonotone(records, k, |records|);
    assert records[..|records|] == records;
    ParseRecords(records[..k], []);
    ParseNothing();
    assert Concat(records[..k]) + [] == Concat(records[..k]);
    assert records[..k] + [] == records[..k];
  }

  /** Trusting the recovered end itself finds nothing new and nothing to remove. */
  lemma RecoveryFromRecoveredEnd(file: LogFileId, trusted: Option<RecordEnd>, bytes: seq<byte>)
    requires RecoverLog(file, trusted, bytes).LogRecovered?
    ensures var r, kept := RecoverLog(file, trusted, bytes), KeptLog(file, trusted, bytes);
            && RecoverLog(file, r.end, kept) == LogRecovered(r.end, [], None)
            && KeptLog(file, r.end, kept) == kept
  {
    var r, kept := RecoverLog(file, trusted, bytes), KeptLog(file, trusted, bytes);
    ScanEndInFile(file, trusted, bytes);
    RecoveredEndIsPlausible(file, trusted, bytes);
    assert kept[EndPositionOf(r.end)..] == [];
    ParseNothing();
    assert kept[..|kept|] == kept;
  }

  lemma RecoveredEndIsPlausible(file: LogFileId, trusted: Option<RecordEnd>, bytes: seq<byte>)
    requires RecoverLog(file, trusted, bytes).LogRecovered?
    ensures var r := RecoverLog(file, trusted, bytes);
            && Plausible(file, r.end, CountOf(r.end))
            && CountOf(r.end) == CountOf(trusted) + |r.suffixEnds| <= RECORDS_PER_FILE
  {
    hide Parse;
  }
}
