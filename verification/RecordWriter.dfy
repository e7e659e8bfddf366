/**
 The buffered record writer: append, send, flush and synchronize, with a flag that forbids any
 further output once one output operation did not complete.

 Of everything ever appended, the first `Sent()` bytes have left the buffer. The class invariant says
 that the destination holds a prefix of the appended bytes reaching at least that far, that the buffer
 holds exactly the rest, and that a usable writer has neither lost nor repeated a byte.
 */
module RecordWriter {
  import opened Bytes
  import opened RecordProtocol
  import opened ByteDevice
  import opened RecordBuilder

  datatype CallbackEnd = ReturnsOk | ReturnsErr | Panics

  /**
   What a serialization callback does: the chunks it tries to write, whatever it does about a
   rejection, and how it ends.
   */
  datatype BodyCallback = BodyCallback(chunks: seq<seq<byte>>, end: CallbackEnd)

  datatype WriteResult = Appended | BuildFailed | SerializeFailed | CallbackPanicked | WriterUnusable

  datatype OutputResult = Success | IoFailed | Unusable | OutputAbandoned

  function Flatten(chunks: seq<seq<byte>>): seq<byte> {
    if chunks == [] then [] else Flatten(chunks[..|chunks| - 1]) + chunks[|chunks| - 1]
  }

  lemma {:induction false} FlattenGrows(chunks: seq<seq<byte>>, i: nat)
    requires i <= |chunks|
    ensures |Flatten(chunks[..i])| <= |Flatten(chunks)|
    decreases |chunks| - i
  {
    if i < |chunks| {
      assert chunks[..i + 1][..i] == chunks[..i];
      FlattenGrows(chunks, i + 1);
    } else {
      assert chunks[..i] == chunks;
    }
  }

  function ToOutput(outcome: Outcome): OutputResult {
    match outcome
    case Done => Success
    case Failed => IoFailed
    case Abandoned => OutputAbandoned
  }

  /** What the destination reported; an unusable writer does not ask it. */
  function Reported(r: OutputResult): Outcome {
    match r
    case Success => Done
    case Unusable => Done
    case IoFailed => Failed
    case OutputAbandoned => Abandoned
  }

  class Writer {
    const destination: Device
    const buffer: ByteBuffer
    var usable: bool

    ghost const base: seq<byte>
    ghost var records: seq<Record>

    /** Everything the destination should end up holding. */
    ghost function Total(): seq<byte>
      reads this
    {
      base + Concat(records)
    }

    ghost predicate Valid()
      reads this, destination, buffer
    {
      && destination.Valid() && destination.AtEnd() && buffer.Valid()
      && base <= destination.contents <= Total()
      && buffer.len <= |Total()|
      && Sent() <= |destination.contents|
      && Total()[Sent()..] == buffer.Contents()
      && (usable ==> Sent() == |destination.contents|)
    }

    ghost function Sent(): nat
      requires buffer.len <= |Total()|
      reads this, buffer
    {
      |Total()| - buffer.len
    }

    /** Nothing the outside world can see, and nothing that could still be sent, has changed. */
    twostate predicate Untouched()
      reads this, destination, buffer
    {
      unchanged(destination) && unchanged(buffer) && usable == old(usable) && records == old(records)
    }

    constructor (destination: Device)
      requires destination.Valid() && destination.AtEnd()
      ensures Valid() && fresh(this) && fresh(buffer) && this.destination == destination
      ensures usable && records == [] && base == destination.contents && buffer.Contents() == []
    {
      hide ValidFrame;
      this.destination := destination;
      buffer := new ByteBuffer(MAX_RECORD_LEN);
      usable := true;
      base, records := destination.contents, [];
      new;
      assert Total() == base + [] == base;
    }

    /** Appends one new record, or nothing at all. */
    method Write(id: RecordId, callback: BodyCallback) returns (r: WriteResult)
      requires Valid()
      modifies this`records, buffer
      ensures Valid()
      ensures !old(usable) ==> r == WriterUnusable && Untouched()
      ensures old(usable) && callback.end.Panics? ==> r == CallbackPanicked
      ensures old(usable) && !callback.end.Panics? ==>
                (r == BuildFailed <==> |Flatten(callback.chunks)| > MAX_PAYLOAD_LEN)
      ensures old(usable) && callback.end.ReturnsErr? ==> r == BuildFailed || r == SerializeFailed
      ensures old(usable) && callback.end.ReturnsOk? ==> r == BuildFailed || r == Appended
      ensures r != Appended ==> records == old(records) && buffer.Contents() == old(buffer.Contents())
      ensures r == Appended ==> records == old(records) + [Encode(id, Flatten(callback.chunks))]
      ensures r == Appended ==> buffer.Contents() == old(buffer.Contents()) + Encode(id, Flatten(callback.chunks))
    {
      hide ValidFrame, Encode, Concat;
      if !usable {
        return WriterUnusable;
      }
      var builder := new Builder(buffer);
      var chunks := callback.chunks;
      for i := 0 to |chunks|
        invariant fresh(builder) && builder.buffer == buffer && builder.Valid()
        invariant buffer.Contents() == old(buffer.Contents())
        invariant records == old(records) && usable
        invariant builder.error <==> |Flatten(chunks[..i])| > MAX_PAYLOAD_LEN
        invariant !builder.error ==> builder.Payload() == Flatten(chunks[..i])
      {
        assert chunks[..i + 1][..i] == chunks[..i];
        var _ := builder.Write(chunks[i]);
      }
      assert chunks[..|chunks|] == chunks;
      match callback.end {
        case Panics =>
          builder.Drop();
          return CallbackPanicked;
        case ReturnsErr =>
          var check := builder.FlushChecked();
          builder.Drop();
          return if check == PayloadTooLarge then BuildFailed else SerializeFailed;
        case ReturnsOk =>
      }
      var finish := builder.Finish(id);
      builder.Drop();
      if finish == PayloadTooLarge {
        return BuildFailed;
      }
      ghost var record: Record := Encode(id, Flatten(chunks));
      Append(record);
      r := Appended;
    }

    /** Bookkeeping for a record whose bytes have just been added to the buffer. */
    ghost method Append(record: Record)
      requires destination.Valid() && destination.AtEnd() && buffer.Valid()
      requires base <= destination.contents <= Total() && buffer.len >= |record|
      requires buffer.len - |record| <= |Total()|
      requires usable && |Total()| - (buffer.len - |record|) == |destination.contents|
      requires buffer.Contents() == Total()[|destination.contents|..] + record
      modifies this`records
      ensures Valid() && records == old(records) + [record]
    {
      hide ValidFrame, Concat;
      ConcatLast(records, record);
      ConcatAssociates(base, Concat(records), record);
      records := records + [record];
      assert Total() == old(Total()) + record;
    }

    /** Appends an existing record's complete encoding. */
    method WriteRecord(record: Record) returns (r: OutputResult)
      requires Valid()
      modifies this`records, buffer
      ensures Valid()
      ensures r == if old(usable) then Success else Unusable
      ensures !old(usable) ==> Untouched()
      ensures old(usable) ==> records == old(records) + [record]
      ensures old(usable) ==> buffer.Contents() == old(buffer.Contents()) + record
    {
      hide ValidFrame, Concat;
      if !usable {
        return Unusable;
      }
      buffer.Extend(record);
      Append(record);
      r := Success;
    }

    /** Sends the whole buffer, then clears it. */
    method FlushBuffer() returns (r: OutputResult)
      requires Valid()
      modifies this`usable, buffer, destination
      ensures Valid()
      ensures !old(usable) ==> r == Unusable && Untouched()
      ensures old(usable) ==> usable == (r == Success) && r != Unusable
      ensures old(usable) && old(buffer.len) == 0 ==> r == Success && Untouched()
      ensures r == Success ==> buffer.len == 0 && destination.contents == Total()
      ensures r != Success ==> buffer.Contents() == old(buffer.Contents())
      ensures old(destination.contents) <= destination.contents
      ensures destination.flushed == old(destination.flushed) && destination.synced == old(destination.synced)
      ensures Faultless(old(destination.script)) ==> Faultless(destination.script) && (old(usable) ==> r == Success)
      ensures Smooth(old(destination.script)) ==> Smooth(destination.script) && (old(usable) ==> r == Success)
      ensures Writes(old(destination.script), destination.script, Reported(r))
    {
      hide ValidFrame, Concat, Writes;
      NothingMet(destination.script);
      if !usable {
        return Unusable;
      }
      if buffer.len == 0 {
        assert Total()[Sent()..] == [];
        return Success;
      }
      usable := false;
      ghost var sent := destination.contents;
      assert Total() == sent + buffer.Contents() by {
        assert Total()[..Sent()] == sent;
        assert Total() == Total()[..Sent()] + Total()[Sent()..];
      }
      var outcome := destination.WriteAll(buffer.Contents());
      if outcome != Done {
        return ToOutput(outcome);
      }
      buffer.Truncate(0);
      usable := true;
      assert Total()[Sent()..] == [];
      r := Success;
    }

    /** Completes the destination's own buffering; the writer's buffer is not sent. */
    method Flush() returns (r: OutputResult)
      requires Valid()
      modifies this`usable, destination`flushed, destination`script
      ensures Valid()
      ensures !old(usable) ==> r == Unusable && Untouched()
      ensures old(usable) ==> usable == (r == Success) && r != Unusable
      ensures destination.flushed == if r == Success then |destination.contents| else old(destination.flushed)
      ensures destination.flushed >= old(destination.flushed)
      ensures Smooth(old(destination.script)) ==> Smooth(destination.script) && (old(usable) ==> r == Success)
      ensures old(usable) ==> r == ToOutput(CallOutcome(FirstStep(old(destination.script))))
      ensures old(usable) ==> destination.script == Rest(old(destination.script))
    {
      if !usable {
        return Unusable;
      }
      usable := false;
      var outcome := destination.Flush();
      usable := outcome.Done?;
      r := ToOutput(outcome);
    }

    /** Makes what the destination has flushed durable. */
    method SyncData() returns (r: OutputResult)
      requires Valid()
      modifies this`usable, destination`synced, destination`script
      ensures Valid()
      ensures !old(usable) ==> r == Unusable && Untouched()
      ensures old(usable) ==> usable == (r == Success) && r != Unusable
      ensures destination.synced == if r == Success then destination.flushed else old(destination.synced)
      ensures destination.synced >= old(destination.synced)
      ensures Smooth(old(destination.script)) ==> Smooth(destination.script) && (old(usable) ==> r == Success)
      ensures old(usable) ==> r == ToOutput(CallOutcome(FirstStep(old(destination.script))))
      ensures old(usable) ==> destination.script == Rest(old(destination.script))
    {
      if !usable {
        return Unusable;
      }
      usable := false;
      var outcome := destination.SyncData();
      usable := outcome.Done?;
      r := ToOutput(outcome);
    }
  }
}
