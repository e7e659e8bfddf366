/**
 The incremental record reader, and the proof that it refines the one-shot parse.

 `stream` (ghost) is everything the source will ever deliver and `delivered` the records handed out so
 far. The class invariant says that, whatever the chunk sizes, interruptions and cancelled waits
 were, parsing the undelivered bytes continues the parse of the whole stream.
 */
module RecordReader {
  import opened Bytes
  import opened Crc32c
  import opened RecordProtocol
  import opened ByteDevice

  const INITIAL_BUFFER_CAPACITY: nat := 65536

  datatype ReaderState = Active | Finished | ReaderDown

  datatype Prepared = Batch(available: bool) | Rejected(error: ReadError)

  datatype WaitResult =
    | Ready(available: bool)
    | Invalid(error: ReadError)
    | IoError
    | AlreadyFailed
    | Cancelled

  /** What a wait says about the reads it made. */
  function ReadsReported(r: WaitResult): Outcome {
    match r
    case IoError => Failed
    case Cancelled => Abandoned
    case _ => Done
  }

  datatype NextResult = Next(record: Record) | Exhausted | ReaderFailed

  /** How a complete reading run ends. */
  datatype RunEnd = Ended(ending: Ending) | SourceFailed

  class Reader {
    const source: Device
    var buffer: seq<byte>
    var capacity: nat
    var pendingLength: Option<nat>
    var batch: seq<byte>
    var batchOffset: nat
    var state: ReaderState

    ghost const stream: seq<byte>
    ghost var delivered: seq<Record>

    /** Everything received or still to come that has not been delivered. */
    ghost function Remaining(): seq<byte>
      requires batchOffset <= |batch|
      reads this, source
    {
      batch[batchOffset..] + buffer + source.Unread()
    }

    ghost predicate Valid()
      reads this, source
    {
      && source.Valid()
      && |buffer| <= capacity
      && batchOffset <= |batch|
      && (batch == [] || batchOffset < |batch|)
      && Parse(batch[batchOffset..]).ending == CleanEnd
      && (state != Active ==> batch == [])
      && (state == Active ==> PendingIsValidated(pendingLength, buffer))
      && (state == Finished ==> Remaining() == [])
      && Parse(stream) == Parsed(delivered + Parse(Remaining()).records, Parse(Remaining()).ending)
    }

    constructor (source: Device)
      requires source.Valid()
      ensures Valid() && this.source == source && fresh(this)
      ensures stream == source.Unread() && delivered == [] && Remaining() == stream
      ensures state == Active
    {
      hide Parse, ValidFrame, Examine, HeaderAccepted, ReadLength;
      this.source := source;
      buffer, capacity, pendingLength := [], INITIAL_BUFFER_CAPACITY, None;
      batch, batchOffset, state := [], 0, Active;
      stream, delivered := source.Unread(), [];
      new;
      assert batch[batchOffset..] + buffer + source.Unread() == stream;
      ParseNothing();
    }

    /** The next record of the prepared batch, without touching the source. */
    method TryReadNext() returns (r: NextResult)
      requires Valid()
      modifies this
      ensures Valid() && state == old(state)
      ensures r.ReaderFailed? <==> state == ReaderDown
      ensures r.Exhausted? <==> old(batch) == [] && state != ReaderDown
      ensures !r.Next? ==> Remaining() == old(Remaining()) && delivered == old(delivered) && batch == []
      ensures r.Next? ==> old(Remaining()) == r.record + Remaining()
      ensures r.Next? ==> delivered == old(delivered) + [r.record]
      ensures r.Next? ==> Parse(old(Remaining())).records == [r.record] + Parse(Remaining()).records
      ensures r.Next? ==> Parse(old(Remaining())).ending == Parse(Remaining()).ending
    {
      hide Parse, ValidFrame, Examine, ReadLength, HeaderAccepted, PendingIsValidated;
      if state == ReaderDown {
        return ReaderFailed;
      }
      if batch == [] {
        return Exhausted;
      }
      ghost var unread := batch[batchOffset..];
      FirstOfBatch(unread);
      var start := batchOffset;
      BatchHeader(unread);
      var length := ReadLength(batch[start..]);
      var end := start + length;
      var record := batch[start..end];
      assert record == unread[..length];
      if end == |batch| {
        batch, batchOffset := [], 0;
        ParseNothing();
        assert unread[length..] == batch[batchOffset..];
      } else {
        batchOffset := end;
        assert unread[length..] == batch[batchOffset..];
      }
      ParseRecord(record, Remaining());
      TakeFront(unread, length, buffer, source.Unread());
      ConcatAssociates(delivered, [record], Parse(Remaining()).records);
      delivered := delivered + [record];
      r := Next(record);
    }

    /** Validates the complete prefix of the buffer and publishes it as one batch. */
    method PrepareBatch() returns (r: Prepared)
      requires Valid() && state == Active && batch == []
      modifies this
      ensures |buffer| <= capacity && batchOffset <= |batch| && (batch == [] || batchOffset < |batch|)
      ensures Remaining() == old(Remaining()) && delivered == old(delivered) && state == old(state)
      ensures Parse(batch[batchOffset..]).ending == CleanEnd
      ensures PendingIsValidated(pendingLength, buffer)
      ensures r.Batch? ==> (r.available <==> batch != [])
      ensures r.Batch? ==> !Examine(buffer).Complete?
      ensures r.Batch? && !r.available ==> Starved(pendingLength, buffer)
      ensures r.Rejected? ==> batch == [] && Examine(buffer) == Bad(r.error)
    {
      hide Parse, ReadLength, ReadStreamId, ReadCrc, ComputeCrc;
      ParseNothing();
      var validatedLen := 0;
      var error: Option<ReadError> := None;
      assert buffer[..0] == [] && buffer[0..] == buffer;
      while true
        invariant validatedLen <= |buffer|
        invariant buffer == old(buffer) && batch == [] && batchOffset == old(batchOffset) && capacity == old(capacity)
        invariant state == old(state) && delivered == old(delivered)
        invariant Parse(buffer[..validatedLen]).ending == CleanEnd
        invariant PendingIsValidated(pendingLength, buffer[validatedLen..])
        decreases |buffer| - validatedLen
      {
        var remaining := buffer[validatedLen..];
        var length;
        match pendingLength {
          case Some(known) => length := known;
          case None =>
            if |remaining| < HEADER_LEN {
              break;
            }
            var declared := ReadLength(remaining);
            if declared < MIN_RECORD_LEN {
              error := Some(InvalidLength(declared));
              break;
            }
            if ReadStreamId(remaining) >= 4096 {
              error := Some(InvalidStreamId(ReadStreamId(remaining)));
              break;
            }
            pendingLength := Some(declared);
            length := declared;
        }
        if |remaining| < length {
          break;
        }
        var frame := remaining[..length];
        var stored := ReadCrc(frame);
        var computed := ComputeCrc(frame);
        if stored != computed {
          error := Some(CrcMismatch(stored, computed));
          break;
        }
        assert Examine(remaining) == Complete(length);
        ParseOneMore(buffer, validatedLen, length);
        validatedLen := validatedLen + length;
        pendingLength := None;
      }
      assert error == None ==> Starved(pendingLength, buffer[validatedLen..]);
      assert error.Some? ==> Examine(buffer[validatedLen..]) == Bad(error.value);
      if validatedLen == 0 {
        assert buffer[0..] == buffer;
        match error {
          case Some(e) => return Rejected(e);
          case None => return Batch(false);
        }
      }
      batch, buffer, capacity := buffer[..validatedLen], buffer[validatedLen..], capacity - validatedLen;
      batchOffset := 0;
      assert batch[batchOffset..] == batch;
      assert batch + buffer == old(buffer);
      r := Batch(true);
    }

    /** Makes room for `additional` more bytes; how much more than that is the allocator's choice. */
    method Reserve(additional: nat)
      requires |buffer| <= capacity
      modifies this`capacity
      ensures capacity - |buffer| >= additional
    {
      if capacity - |buffer| < additional {
        var surplus :| surplus >= 0;
        capacity := |buffer| + additional + surplus;
      }
    }

    /** Waits until a validated record is available, the input has ended, or something is wrong. */
    method WaitToRead() returns (r: WaitResult)
      requires Valid()
      modifies this, source`cursor, source`script
      ensures Valid()
      ensures Remaining() == old(Remaining()) && delivered == old(delivered)
      ensures r == Ready(true) ==> batch != [] && state == Active
      ensures r == Ready(true) ==> Parse(Remaining()).records != []
      ensures r == Ready(false) ==> state == Finished && Remaining() == []
      ensures r.Invalid? ==> state == ReaderDown && Parse(Remaining()) == Parsed([], Broken(r.error))
      ensures r.IoError? ==> state == ReaderDown
      ensures r.AlreadyFailed? <==> old(state) == ReaderDown
      ensures old(state) == Finished ==> r == Ready(false)
      ensures r.Cancelled? ==> state == Active && batch == [] && |source.script| < |old(source.script)|
      ensures Reads(old(source.script), source.script, ReadsReported(r))
      ensures |source.script| <= |old(source.script)|
      ensures Faultless(old(source.script)) ==> Faultless(source.script) && !r.IoError? && !r.Cancelled?
      ensures NeverFails(old(source.script)) ==> NeverFails(source.script) && !r.IoError?
      ensures Smooth(old(source.script)) ==> Smooth(source.script)
    {
      hide Parse, Examine, HeaderAccepted, ValidFrame, Starved, PendingIsValidated;
      hide Faultless, NeverFails, Smooth, ReadLength, Reads;
      NothingMet(source.script);
      if state == Finished {
        return Ready(false);
      }
      if state == ReaderDown {
        return AlreadyFailed;
      }
      if batch != [] {
        FirstOfBatch(batch[batchOffset..]);
        BatchThenRest(batch[batchOffset..], buffer, source.Unread());
        return Ready(true);
      }
      while true
        invariant Valid() && state == Active && batch == []
        invariant Remaining() == old(Remaining()) && delivered == old(delivered)
        invariant |source.script| <= |old(source.script)|
        invariant Reads(old(source.script), source.script, Done)
        invariant Faultless(old(source.script)) ==> Faultless(source.script)
        invariant NeverFails(old(source.script)) ==> NeverFails(source.script)
        invariant Smooth(old(source.script)) ==> Smooth(source.script)
        decreases |source.script| + |source.Unread()|
      {
        var prepared := PrepareBatch();
        if prepared.Rejected? {
          state := ReaderDown;
          RejectedFrame(buffer, source.Unread());
          assert Remaining() == buffer + source.Unread();
          return Invalid(prepared.error);
        }
        if prepared.available {
          FirstOfBatch(batch[batchOffset..]);
          BatchThenRest(batch[batchOffset..], buffer, source.Unread());
          return Ready(true);
        }
        ghost var steps := source.script;
        var refilled := Refill();
        ReadsThen(old(source.script), steps, source.script, if refilled.Some? then ReadsReported(refilled.value) else Done);
        if refilled.Some? {
          return refilled.value;
        }
      }
    }

    /** A read of zero bytes: a clean end between records, or a truncated header or record. */
    method EndOfInput() returns (r: WaitResult)
      requires Valid() && state == Active && batch == [] && Starved(pendingLength, buffer)
      requires source.Unread() == []
      modifies this`state
      ensures Valid() && Remaining() == old(Remaining())
      ensures r.Ready? ==> !r.available && state == Finished && Remaining() == []
      ensures r.Invalid? ==> state == ReaderDown && Parse(Remaining()) == Parsed([], Broken(r.error))
      ensures r.Ready? || r.Invalid?
    {
      hide Parse, Examine, ValidFrame, Starved;
      assert Remaining() == buffer;
      if buffer == [] {
        state := Finished;
        return Ready(false);
      }
      state := ReaderDown;
      TruncatedTail(pendingLength, buffer);
      r := match pendingLength
           case Some(expected) => Invalid(TruncatedRecord(expected, |buffer|))
           case None => Invalid(TruncatedHeader(|buffer|));
    }

    /** Puts received bytes behind the unfinished frame. */
    method Absorb(bytes: seq<byte>)
      requires source.Valid() && |buffer| + |bytes| <= capacity
      requires state == Active && batch == [] && batchOffset == 0 && PendingIsValidated(pendingLength, buffer)
      requires Parse([]).ending == CleanEnd
      requires var rest := Parse(buffer + (bytes + source.Unread()));
               Parse(stream) == Parsed(delivered + rest.records, rest.ending)
      modifies this`buffer
      ensures Valid() && Remaining() == old(buffer) + (bytes + source.Unread())
    {
      hide Parse, Examine, ValidFrame, ReadLength, HeaderAccepted, PendingIsValidated;
      PendingStaysValidated(pendingLength, buffer, bytes);
      ConcatAssociates(buffer, bytes, source.Unread());
      buffer := buffer + bytes;
      assert batch[batchOffset..] == [] && [] + buffer == buffer;
    }

    /** One read behind an unfinished frame; no result means that the wait goes on. */
    method Refill() returns (r: Option<WaitResult>)
      requires Valid() && state == Active && batch == [] && Starved(pendingLength, buffer)
      modifies this, source`cursor, source`script
      ensures Valid() && batch == []
      ensures Remaining() == old(Remaining()) && delivered == old(delivered)
      ensures r == None ==> state == Active
      ensures r == None ==> |source.script| + |source.Unread()| < |old(source.script)| + |old(source.Unread())|
      ensures r != None && r.value.Ready? ==> !r.value.available && state == Finished && Remaining() == []
      ensures r != None && r.value.Invalid? ==> Parse(Remaining()) == Parsed([], Broken(r.value.error))
      ensures r != None && (r.value.Invalid? || r.value.IoError?) ==> state == ReaderDown
      ensures r != None && r.value.Cancelled? ==> state == Active && |source.script| < |old(source.script)|
      ensures r != None ==> !r.value.AlreadyFailed?
      ensures Reads(old(source.script), source.script, if r.Some? then ReadsReported(r.value) else Done)
      ensures |source.script| <= |old(source.script)|
      ensures Faultless(old(source.script)) ==> Faultless(source.script)
      ensures Faultless(old(source.script)) && r != None ==> r.value.Ready? || r.value.Invalid?
      ensures NeverFails(old(source.script)) ==> NeverFails(source.script) && (r != None ==> !r.value.IoError?)
      ensures Smooth(old(source.script)) ==> Smooth(source.script)
    {
      hide Parse, Examine, ValidFrame, ReadLength, ReadStreamId, HeaderAccepted;
      hide PendingIsValidated, Faultless, NeverFails, Smooth, Reads;
      var required := if pendingLength.Some? then pendingLength.value else HEADER_LEN;
      // The reservation cannot underflow, and the read has room for at least one byte.
      assert required > |buffer|;
      Reserve(required - |buffer|);
      var spare := capacity - |buffer|;
      ghost var unread := source.Unread();
      assert batch[batchOffset..] == [];
      assert Remaining() == buffer + unread;
      var received := source.Read(spare);
      OneRead(old(source.script));
      match received
      case Received(bytes) =>
        if bytes == [] {
          var ended := EndOfInput();
          return Some(ended);
        }
        Absorb(bytes);
        r := None;
      case ReadInterrupted => r := None;
      case ReadFailed =>
        state := ReaderDown;
        r := Some(IoError);
      case ReadAbandoned => r := Some(Cancelled);
    }
  }

  /** A remembered length belongs to the frame at the start of the buffer, whose header is accepted. */
  ghost predicate PendingIsValidated(pendingLength: Option<nat>, buffer: seq<byte>) {
    pendingLength.Some? ==> HeaderAccepted(buffer) && ReadLength(buffer) == pendingLength.value
  }

  /** The buffer's first frame is incomplete, for want of a header or of the rest of a known length. */
  ghost predicate Starved(pendingLength: Option<nat>, buffer: seq<byte>) {
    match pendingLength
    case Some(length) => HeaderAccepted(buffer) && ReadLength(buffer) == length && |buffer| < length
    case None => |buffer| < HEADER_LEN
  }

  lemma TakeFront(unread: seq<byte>, length: nat, buffer: seq<byte>, rest: seq<byte>)
    requires length <= |unread|
    ensures unread + buffer + rest == unread[..length] + (unread[length..] + buffer + rest)
  {
    assert unread == unread[..length] + unread[length..];
  }

  /** One more complete frame extends a validated prefix. */
  lemma ParseOneMore(buffer: seq<byte>, validatedLen: nat, length: nat)
    requires validatedLen <= |buffer|
    requires Parse(buffer[..validatedLen]).ending == CleanEnd
    requires Examine(buffer[validatedLen..]) == Complete(length)
    ensures validatedLen + length <= |buffer|
    ensures Parse(buffer[..validatedLen + length]).ending == CleanEnd
  {
    hide Parse, Examine, ValidFrame;
    var frame: Record := buffer[validatedLen..][..length];
    ParseNothing();
    ParseRecord(frame, []);
    assert frame + [] == frame;
    ParseAppend(buffer[..validatedLen], frame);
    assert buffer[..validatedLen + length] == buffer[..validatedLen] + frame;
  }

  /** A nonempty validated batch starts with a record, and the rest is again validated. */
  lemma FirstOfBatch(batch: seq<byte>)
    requires batch != [] && Parse(batch).ending == CleanEnd
    ensures |batch| >= HEADER_LEN && MIN_RECORD_LEN <= ReadLength(batch) <= |batch|
    ensures ValidFrame(batch[..ReadLength(batch)])
    ensures Parse(batch[ReadLength(batch)..]).ending == CleanEnd
    ensures Parse(batch).records != []
  {
    hide ReadLength, ValidFrame, ReadCrc, ComputeCrc, ReadStreamId;
  }

  lemma BatchHeader(batch: seq<byte>)
    requires |batch| >= HEADER_LEN
    ensures ReadLength(batch) <= MAX_RECORD_LEN
  {
  }

  lemma BatchThenRest(batch: seq<byte>, buffer: seq<byte>, unread: seq<byte>)
    requires Parse(batch).ending == CleanEnd && Parse(batch).records != []
    ensures Parse(batch + buffer + unread).records != []
  {
    hide Parse;
    ParseAppend(batch, buffer + unread);
    ConcatAssociates(batch, buffer, unread);
  }

  lemma RejectedFrame(buffer: seq<byte>, unread: seq<byte>)
    requires Examine(buffer).Bad?
    ensures Parse(buffer + unread) == Parsed([], Broken(Examine(buffer).error))
  {
    hide Examine;
    ExamineIsStable(buffer, unread);
  }

  lemma PendingStaysValidated(pendingLength: Option<nat>, buffer: seq<byte>, bytes: seq<byte>)
    requires PendingIsValidated(pendingLength, buffer)
    ensures PendingIsValidated(pendingLength, buffer + bytes)
  {
    hide ReadLength, ReadStreamId;
    if pendingLength.Some? {
      HeaderOfPrefix(buffer + bytes, |buffer|);
      assert (buffer + bytes)[..|buffer|] == buffer;
    }
  }

  lemma TruncatedTail(pendingLength: Option<nat>, buffer: seq<byte>)
    requires Starved(pendingLength, buffer) && buffer != []
    ensures Parse(buffer) == Parsed([], Broken(match pendingLength
                                               case Some(length) => TruncatedRecord(length, |buffer|)
                                               case None => TruncatedHeader(|buffer|)))
  {
    hide ReadLength, ReadStreamId, ReadCrc, ComputeCrc;
  }

  /** Reading that repeats abandoned waits: it ends with the first error, and only an error makes it fail. */
  ghost predicate ReadsOn(before: seq<IoStep>, after: seq<IoStep>, failed: bool) {
    && LeftOf(before, after)
    && var met := Met(before, after);
       && (forall i :: 0 <= i < |met| - 1 ==> !met[i].Fail?)
       && (failed <==> met != [] && met[|met| - 1].Fail?)
  }

  lemma NothingRead(script: seq<IoStep>)
    ensures ReadsOn(script, script, false)
  {
  }

  lemma WaitedOnce(a: seq<IoStep>, b: seq<IoStep>, c: seq<IoStep>, r: Outcome)
    requires ReadsOn(a, b, false) && Reads(b, c, r)
    ensures ReadsOn(a, c, r == Failed)
  {
    MetTwice(a, b, c);
  }

  /**
   The documented reading loop, repeating cancelled waits: for every schedule of the source it delivers
   exactly the records of the one-shot parse and reports exactly its ending, unless the source reports an error;
   even then it yields a prefix of them.
   */
  method ReadAll(source: Device) returns (records: seq<Record>, end: RunEnd)
    requires source.Valid()
    modifies source`cursor, source`script
    ensures source.Valid()
    ensures end.Ended? ==> Parse(old(source.Unread())) == Parsed(records, end.ending)
    ensures records <= Parse(old(source.Unread())).records
    ensures ReadsOn(old(source.script), source.script, end == SourceFailed)
    ensures NeverFails(old(source.script)) ==> end.Ended?
  {
    hide Parse, ValidFrame, ReadsOn, Reads;
    NothingRead(source.script);
    var reader := new Reader(source);
    records := [];
    ghost var stream := reader.stream;
    while true
      invariant fresh(reader) && reader.source == source && reader.Valid() && reader.stream == stream
      invariant stream == old(source.Unread())
      invariant records == reader.delivered && reader.batch == [] && reader.state == Active
      invariant NeverFails(old(source.script)) ==> NeverFails(source.script)
      invariant ReadsOn(old(source.script), source.script, false)
      decreases |reader.Remaining()| + |source.script|
    {
      ghost var steps := source.script;
      var wait := reader.WaitToRead();
      WaitedOnce(old(source.script), steps, source.script, ReadsReported(wait));
      match wait {
        case Ready(available) =>
          if !available {
            ParseNothing();
            assert records + [] == records;
            return records, Ended(CleanEnd);
          }
        case Invalid(error) =>
          assert records + [] == records;
          return records, Ended(Broken(error));
        case IoError => return records, SourceFailed;
        case AlreadyFailed => assert false;
        case Cancelled => continue;
      }
      ghost var before, script := |reader.Remaining()|, source.script;
      var next := reader.TryReadNext();
      RecordIsNotEmpty(next.record);
      while next.Next?
        invariant reader.source == source && reader.Valid() && reader.stream == stream
        invariant reader.state == Active
        invariant next.Next? ==> reader.delivered == records + [next.record]
        invariant !next.Next? ==> reader.delivered == records && reader.batch == []
        invariant |reader.Remaining()| < before && source.script == script
        decreases |reader.Remaining()|, next.Next?
      {
        records := records + [next.record];
        next := reader.TryReadNext();
        if next.Next? {
          RecordIsNotEmpty(next.record);
        }
      }
    }
  }
}
