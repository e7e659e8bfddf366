/**
 A growable byte buffer with spare capacity, and the builder that assembles one record in it.

 While a record is under construction its bytes lie beyond the buffer's readable length. Only a
 successful `Finish` moves that length, so nothing but a complete frame ever becomes readable.
 */
module RecordBuilder {
  import opened Bytes
  import opened Crc32c
  import opened RecordProtocol

  class ByteBuffer {
    var storage: seq<byte>
    var len: nat

    ghost predicate Valid()
      reads this
    {
      len <= |storage|
    }

    /** The readable bytes. */
    function Contents(): seq<byte>
      requires Valid()
      reads this
    {
      storage[..len]
    }

    constructor (capacity: nat)
      ensures Valid() && Contents() == []
    {
      storage, len := seq(capacity, i => 0), 0;
    }

    method Reserve(additional: nat)
      requires Valid()
      modifies this
      ensures Valid() && Contents() == old(Contents()) && len == old(len)
      ensures |storage| - len >= additional
    {
      if |storage| - len < additional {
        var capacity :| capacity >= len + additional;
        storage := storage[..len] + seq(capacity - len, i => 0);
      }
    }

    /** Stores bytes at an offset without changing the readable length. */
    method Store(at: nat, bytes: seq<byte>)
      requires Valid() && at + |bytes| <= |storage|
      modifies this`storage
      ensures |storage| == |old(storage)|
      ensures storage[..at] == old(storage)[..at]
      ensures storage[at..at + |bytes|] == bytes
      ensures storage[at + |bytes|..] == old(storage)[at + |bytes|..]
    {
      storage := storage[..at] + bytes + storage[at + |bytes|..];
    }

    method Extend(bytes: seq<byte>)
      requires Valid()
      modifies this
      ensures Valid() && Contents() == old(Contents()) + bytes
    {
      Reserve(|bytes|);
      Store(len, bytes);
      assert storage[..len + |bytes|] == storage[..len] + storage[len..len + |bytes|];
      len := len + |bytes|;
    }

    method Truncate(length: nat)
      requires Valid()
      modifies this`len
      ensures Valid() && Contents() == old(Contents())[..Min(length, old(len))]
    {
      len := Min(length, len);
    }
  }

  datatype BuildResult = Built | PayloadTooLarge

  class Builder {
    const buffer: ByteBuffer
    const start: nat
    var payloadLen: nat
    var error: bool
    var finished: bool

    ghost predicate Valid()
      reads this, buffer
    {
      && buffer.Valid()
      && buffer.len == start
      && |buffer.storage| - start >= MAX_RECORD_LEN
      && payloadLen <= MAX_PAYLOAD_LEN
      && !finished
    }

    /** The body bytes accepted so far; they lie in the spare region. */
    function Payload(): seq<byte>
      requires Valid()
      reads this, buffer
    {
      buffer.storage[start + HEADER_LEN..start + HEADER_LEN + payloadLen]
    }

    constructor (buffer: ByteBuffer)
      requires buffer.Valid()
      modifies buffer
      ensures Valid() && this.buffer == buffer && buffer.Contents() == old(buffer.Contents())
      ensures Payload() == [] && !error
    {
      this.buffer := buffer;
      start := buffer.len;
      payloadLen, error, finished := 0, false, false;
      new;
      buffer.Reserve(MAX_RECORD_LEN);
    }

    /** Accepts the whole chunk or nothing; the first rejection is sticky. */
    method Write(bytes: seq<byte>) returns (r: BuildResult)
      requires Valid()
      modifies this, buffer
      ensures Valid() && buffer.Contents() == old(buffer.Contents())
      ensures r.Built? <==> !old(error) && |old(Payload())| + |bytes| <= MAX_PAYLOAD_LEN
      ensures Payload() == old(Payload()) + if r.Built? then bytes else []
      ensures error == !r.Built?
    {
      if error {
        return PayloadTooLarge;
      }
      if |bytes| > MAX_PAYLOAD_LEN - payloadLen {
        error := true;
        return PayloadTooLarge;
      }
      ghost var before := buffer.storage;
      var at := start + HEADER_LEN + payloadLen;
      buffer.Store(at, bytes);
      assert buffer.storage[..start] == before[..at][..start] == before[..start];
      assert buffer.storage[start + HEADER_LEN..at] == buffer.storage[..at][start + HEADER_LEN..];
      payloadLen := payloadLen + |bytes|;
      assert Payload() == buffer.storage[start + HEADER_LEN..at] + buffer.storage[at..at + |bytes|];
      r := Built;
    }

    /** Serializer-level flush only reports a retained rejection. */
    method FlushChecked() returns (r: BuildResult)
      requires Valid()
      ensures r.Built? <==> !error
    {
      r := if error then PayloadTooLarge else Built;
    }

    /** Fills in header and trailer, then publishes the complete frame by moving the readable length. */
    method Finish(id: RecordId) returns (r: BuildResult)
      requires Valid()
      modifies this, buffer
      ensures buffer.Valid()
      ensures r.Built? <==> !old(error)
      ensures finished == r.Built?
      ensures |old(Payload())| <= MAX_PAYLOAD_LEN
      ensures buffer.Contents() == old(buffer.Contents()) + if r.Built? then Encode(id, old(Payload())) else []
      ensures !r.Built? ==> Valid()
    {
      hide Checksum, EncodeHeader, ValidFrame, WordBytes;
      if error {
        return PayloadTooLarge;
      }
      ghost var contents, payload := buffer.Contents(), Payload();
      var length := payloadLen + MIN_RECORD_LEN;
      ghost var header := EncodeHeader(length, id);
      buffer.Store(start, EncodeHeader(length, id));
      assert buffer.storage[start..start + HEADER_LEN] == header;
      assert buffer.storage[start + HEADER_LEN..start + length - CRC_LEN] == payload by {
        assert buffer.storage[start + HEADER_LEN..][..payloadLen] == payload;
      }
      var content := buffer.storage[start..start + length - CRC_LEN];
      assert content == header + payload;
      ghost var before := buffer.storage;
      buffer.Store(start + length - CRC_LEN, WordBytes(Checksum(content)));
      assert buffer.storage[..start + length - CRC_LEN] == before[..start + length - CRC_LEN];
      assert before[..start + length - CRC_LEN] == contents + content;
      buffer.len := start + length;
      assert buffer.storage[..start + length]
          == buffer.storage[..start + length - CRC_LEN] + buffer.storage[start + length - CRC_LEN..start + length];
      ConcatAssociates(contents, content, WordBytes(Checksum(content)));
      finished := true;
      r := Built;
    }

    /** Dropping an unfinished builder rolls its record back. */
    method Drop()
      requires buffer.Valid() && (finished || Valid())
      modifies buffer
      ensures buffer.Valid() && buffer.Contents() == old(buffer.Contents())
    {
      if !finished {
        buffer.Truncate(start);
      }
    }
  }
}
