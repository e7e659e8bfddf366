/**
 Record frames: layout, codec, and the one-shot parse of a complete byte stream.

 A frame is length (2 bytes), stream ID (2), sequence number (8), body, CRC-32C trailer (4).
 All fields are little-endian; the length counts the whole frame; the checksum covers everything
 before the trailer.
 */
module RecordProtocol {
  import opened Bytes
  import opened Crc32c

  const HEADER_LEN: nat := 12
  const CRC_LEN: nat := 4
  const MIN_RECORD_LEN: nat := 16
  const MAX_RECORD_LEN: nat := 65535
  const MAX_PAYLOAD_LEN: nat := 65519

  type StreamId = x: int | 0 <= x < 4096

  datatype RecordId = RecordId(stream: StreamId, sequence: u64)

  datatype ReadError =
    | TruncatedHeader(actual: nat)
    | InvalidLength(declared: nat)
    | InvalidStreamId(value: nat)
    | TruncatedRecord(expected: nat, actual: nat)
    | CrcMismatch(stored: Word, computed: Word)

  // ---------- Field decoders; they read raw bytes without validating them ----------

  function ReadLength(header: seq<byte>): (r: nat)
    requires |header| >= HEADER_LEN
    ensures r <= MAX_RECORD_LEN
  {
    FieldWidths();
    FromLittleEndian(header[0..2])
  }

  function ReadStreamId(header: seq<byte>): (r: u16)
    requires |header| >= HEADER_LEN
  {
    FieldWidths();
    FromLittleEndian(header[2..4])
  }

  function ReadSequence(header: seq<byte>): (r: u64)
    requires |header| >= HEADER_LEN
  {
    FieldWidths();
    FromLittleEndian(header[4..12])
  }

  function ReadBody(frame: seq<byte>): seq<byte>
    requires |frame| >= MIN_RECORD_LEN
  {
    frame[HEADER_LEN..|frame| - CRC_LEN]
  }

  function ReadCrc(frame: seq<byte>): Word
    requires |frame| >= CRC_LEN
  {
    BitStream(frame[|frame| - CRC_LEN..])
  }

  function ComputeCrc(frame: seq<byte>): Word
    requires |frame| >= CRC_LEN
  {
    Checksum(frame[..|frame| - CRC_LEN])
  }

  // ---------- Encoding ----------

  function EncodeHeader(length: nat, id: RecordId): (r: seq<byte>)
    ensures |r| == HEADER_LEN
  {
    LittleEndian(length, 2) + LittleEndian(id.stream, 2) + LittleEndian(id.sequence, 8)
  }

  function EncodeFrame(id: RecordId, body: seq<byte>): (r: seq<byte>)
    ensures |r| == MIN_RECORD_LEN + |body|
  {
    var content := EncodeHeader(MIN_RECORD_LEN + |body|, id) + body;
    content + WordBytes(Checksum(content))
  }

  /** The header's length and stream ID are acceptable. */
  predicate HeaderAccepted(s: seq<byte>) {
    && |s| >= HEADER_LEN
    && ReadLength(s) >= MIN_RECORD_LEN
    && ReadStreamId(s) < 4096
  }

  predicate ValidFrame(frame: seq<byte>) {
    && HeaderAccepted(frame)
    && ReadLength(frame) == |frame|
    && ReadCrc(frame) == ComputeCrc(frame)
  }

  /** A completed record is its encoding: one valid frame. */
  type Record = frame: seq<byte> | ValidFrame(frame) witness Encode(RecordId(0, 0), [])

  /** Decoding undoes encoding. */
  function Encode(id: RecordId, body: seq<byte>): (r: seq<byte>)
    requires |body| <= MAX_PAYLOAD_LEN
    ensures ValidFrame(r) && |r| == MIN_RECORD_LEN + |body|
    ensures FrameId(r) == id && ReadBody(r) == body
  {
    EncodedFields(id, body);
    EncodedTrailer(id, body);
    EncodeFrame(id, body)
  }

  function FrameId(frame: seq<byte>): RecordId
    requires HeaderAccepted(frame)
  {
    RecordId(ReadStreamId(frame), ReadSequence(frame))
  }

  /** The identity a record carries. */
  function IdOf(record: Record): RecordId {
    FrameId(record)
  }

  lemma EncodedFields(id: RecordId, body: seq<byte>)
    requires |body| <= MAX_PAYLOAD_LEN
    ensures var f := EncodeFrame(id, body);
            && ReadLength(f) == |f| && ReadStreamId(f) == id.stream && ReadSequence(f) == id.sequence
            && ReadBody(f) == body
  {
    hide Checksum, LittleEndian, FromLittleEndian, Pow256;
    var f := EncodeFrame(id, body);
    FieldWidths();
    assert f[0..2] == LittleEndian(|f|, 2);
    assert f[2..4] == LittleEndian(id.stream, 2);
    assert f[4..12] == LittleEndian(id.sequence, 8);
    DecodeEncode(|f|, 2);
    DecodeEncode(id.stream, 2);
    DecodeEncode(id.sequence, 8);
    assert f[HEADER_LEN..|f| - CRC_LEN] == body;
  }

  lemma EncodedTrailer(id: RecordId, body: seq<byte>)
    ensures var f := EncodeFrame(id, body); ReadCrc(f) == ComputeCrc(f)
  {
    hide Checksum, EncodeHeader, BitStream, WordBytes;
    var f := EncodeFrame(id, body);
    var content := EncodeHeader(|f|, id) + body;
    assert f[..|f| - CRC_LEN] == content;
    assert f[|f| - CRC_LEN..] == WordBytes(Checksum(content));
    WordOfBytes(Checksum(content));
  }

  /** Encoding undoes decoding: a record is the encoding of what it decodes to. */
  lemma RecordIsEncoded(frame: Record)
    ensures |ReadBody(frame)| <= MAX_PAYLOAD_LEN
    ensures frame == Encode(FrameId(frame), ReadBody(frame))
  {
    hide Checksum, LittleEndian, FromLittleEndian, BitStream, WordBytes, Pow256;
    var content, trailer := frame[..|frame| - CRC_LEN], frame[|frame| - CRC_LEN..];
    assert content == EncodeHeader(|frame|, FrameId(frame)) + ReadBody(frame) by {
      DecodedHeader(frame);
    }
    WordOfBytes(Checksum(content));
    BitStreamIsInjective(trailer, WordBytes(Checksum(content)));
    assert frame == content + trailer;
  }

  lemma DecodedHeader(frame: seq<byte>)
    requires HeaderAccepted(frame) && ReadLength(frame) == |frame|
    ensures frame[..12] == EncodeHeader(|frame|, FrameId(frame))
  {
    hide LittleEndian, FromLittleEndian, Pow256;
    EncodeDecode(frame[0..2]);
    EncodeDecode(frame[2..4]);
    EncodeDecode(frame[4..12]);
    assert frame[..12] == frame[0..2] + frame[2..4] + frame[4..12];
  }

  // ---------- One frame at the start of a byte string ----------

  datatype Lookahead =
    | NeedHeader
    | NeedFrame(length: nat)
    | Bad(error: ReadError)
    | Complete(length: nat)

  /** What the first bytes of `s` are, checked in the order in which a reader meets the fields. */
  function Examine(s: seq<byte>): (r: Lookahead)
    ensures r.NeedHeader? <==> |s| < HEADER_LEN
    ensures r.NeedFrame? ==> HeaderAccepted(s) && |s| < r.length == ReadLength(s)
    ensures r.Complete? ==> MIN_RECORD_LEN <= r.length <= |s| && ValidFrame(s[..r.length])
  {
    if |s| < HEADER_LEN then NeedHeader
    else if ReadLength(s) < MIN_RECORD_LEN then Bad(InvalidLength(ReadLength(s)))
    else if ReadStreamId(s) >= 4096 then Bad(InvalidStreamId(ReadStreamId(s)))
    else if |s| < ReadLength(s) then NeedFrame(ReadLength(s))
    else
      var frame := s[..ReadLength(s)];
      if ReadCrc(frame) != ComputeCrc(frame) then Bad(CrcMismatch(ReadCrc(frame), ComputeCrc(frame)))
      else
        HeaderOfPrefix(s, ReadLength(s));
        Complete(ReadLength(s))
  }

  /** The header fields depend on the first twelve bytes only. */
  lemma HeaderOfPrefix(s: seq<byte>, n: nat)
    requires HEADER_LEN <= n <= |s|
    ensures ReadLength(s[..n]) == ReadLength(s)
    ensures ReadStreamId(s[..n]) == ReadStreamId(s)
    ensures ReadSequence(s[..n]) == ReadSequence(s)
  {
    assert s[..n][0..2] == s[0..2] && s[..n][2..4] == s[2..4] && s[..n][4..12] == s[4..12];
  }

  /** A verdict on the first frame never changes when more bytes arrive. */
  lemma ExamineIsStable(s: seq<byte>, t: seq<byte>)
    ensures Examine(s).Bad? || Examine(s).Complete? ==> Examine(s + t) == Examine(s)
  {
    hide ReadLength, ReadStreamId, ReadCrc, ComputeCrc, ReadSequence, ValidFrame;
    if |s| >= HEADER_LEN {
      HeaderOfPrefix(s + t, |s|);
      assert (s + t)[..|s|] == s;
      if ReadLength(s) <= |s| {
        assert (s + t)[..ReadLength(s)] == s[..ReadLength(s)];
      }
    }
  }

  lemma RecordIsComplete(frame: Record)
    ensures Examine(frame) == Complete(|frame|)
  {
    hide ReadLength, ReadStreamId, ReadCrc, ComputeCrc, ReadSequence;
    assert frame[..|frame|] == frame;
  }

  // ---------- The one-shot parse ----------

  datatype Ending = CleanEnd | Broken(error: ReadError)

  datatype Parsed = Parsed(records: seq<Record>, ending: Ending)

  /** All records of a complete stream up to the first defect, and how the stream ends. */
  function Parse(s: seq<byte>): Parsed
    decreases |s|
  {
    hide ReadStreamId, ReadSequence, ReadCrc, ComputeCrc;
    if s == [] then Parsed([], CleanEnd)
    else
      match Examine(s)
      case NeedHeader => Parsed([], Broken(TruncatedHeader(|s|)))
      case NeedFrame(length) => Parsed([], Broken(TruncatedRecord(length, |s|)))
      case Bad(error) => Parsed([], Broken(error))
      case Complete(length) =>
        var rest := Parse(s[length..]);
        Parsed([s[..length]] + rest.records, rest.ending)
  }

  function Concat(records: seq<Record>): seq<byte> {
    if records == [] then [] else records[0] + Concat(records[1..])
  }

  lemma {:induction false} ConcatAppend(a: seq<Record>, b: seq<Record>)
    ensures Concat(a + b) == Concat(a) + Concat(b)
  {
    hide ValidFrame;
    if a == [] {
      assert a + b == b;
    } else {
      ConcatAppend(a[1..], b);
      assert (a + b)[1..] == a[1..] + b;
      ConcatAssociates(a[0], Concat(a[1..]), Concat(b));
    }
  }

  lemma ConcatLast(records: seq<Record>, record: Record)
    ensures Concat(records + [record]) == Concat(records) + record
  {
    hide ValidFrame;
    ConcatAppend(records, [record]);
    assert Concat([record]) == record;
  }

  /** A record at the front is parsed off, whatever follows. */
  lemma ParseRecord(record: Record, t: seq<byte>)
    ensures Parse(record + t) == Parsed([record] + Parse(t).records, Parse(t).ending)
  {
    hide Examine, ValidFrame;
    RecordIsComplete(record);
    ExamineIsStable(record, t);
    RecordIsNotEmpty(record);
    assert (record + t)[..|record|] == record && (record + t)[|record|..] == t;
  }

  lemma RecordIsNotEmpty(record: Record)
    ensures MIN_RECORD_LEN <= |record| <= MAX_RECORD_LEN
  {
  }

  /** Records in front of any bytes parse to themselves followed by the rest's parse. */
  lemma {:induction false} ParseRecords(records: seq<Record>, t: seq<byte>)
    ensures Parse(Concat(records) + t) == Parsed(records + Parse(t).records, Parse(t).ending)
  {
    hide ValidFrame, Parse;
    if records == [] {
      assert Concat(records) + t == t;
    } else {
      ParseRecords(records[1..], t);
      ParseRecord(records[0], Concat(records[1..]) + t);
      ConcatAssociates(records[0], Concat(records[1..]), t);
      assert records + Parse(t).records == [records[0]] + (records[1..] + Parse(t).records);
    }
  }

  /** What is parsed is a prefix of the stream, and a clean end leaves nothing over. */
  lemma {:induction false} ParseIsSound(s: seq<byte>)
    ensures Concat(Parse(s).records) <= s
    ensures Parse(s).ending == CleanEnd <==> Concat(Parse(s).records) == s
    decreases |s|
  {
    hide Examine, ValidFrame;
    if s != [] && Examine(s).Complete? {
      var length := Examine(s).length;
      ParseIsSound(s[length..]);
      assert Parse(s).records[1..] == Parse(s[length..]).records;
      assert s == s[..length] + s[length..];
    }
  }

  /** Appending bytes behind a cleanly ending stream parses them separately. */
  lemma ParseAppend(a: seq<byte>, b: seq<byte>)
    requires Parse(a).ending == CleanEnd
    ensures Parse(a + b) == Parsed(Parse(a).records + Parse(b).records, Parse(b).ending)
  {
    hide Parse, Concat;
    ParseIsSound(a);
    ParseRecords(Parse(a).records, b);
  }

  predicate Truncated(ending: Ending) {
    ending.Broken? ==> ending.error.TruncatedHeader? || ending.error.TruncatedRecord?
  }

  /** A prefix of a record sequence parses to the records that fit in it, and never to anything else. */
  lemma {:induction false} ParsePrefix(records: seq<Record>, s: seq<byte>)
    requires s <= Concat(records)
    ensures Parse(s).records <= records
    ensures Truncated(Parse(s).ending)
    ensures forall k :: 0 <= k <= |records| && |Concat(records[..k])| <= |s| ==> k <= |Parse(s).records|
    decreases |records|
  {
    hide ValidFrame, Parse;
    if records == [] {
      ParseRecords(records, []);
      assert Parse([]) == Parsed([], CleanEnd) by { ParseNothing(); }
    } else {
      var first, rest := records[0], records[1..];
      PrefixOfConcat(first, Concat(rest), s);
      if |s| < |first| {
        PrefixOfRecord(first, s);
        forall k | 0 < k <= |records|
          ensures |Concat(records[..k])| > |s|
        {
          assert records[..k][0] == first;
        }
      } else {
        var tail := s[|first|..];
        assert s == first + tail;
        ParsePrefix(rest, tail);
        ParseRecord(first, tail);
        forall k | 0 < k <= |records|
          ensures |Concat(records[..k])| == |first| + |Concat(rest[..k - 1])|
        {
          assert records[..k][0] == first && records[..k][1..] == rest[..k - 1];
        }
      }
    }
  }

  lemma ParseNothing()
    ensures Parse([]) == Parsed([], CleanEnd)
  {
  }

  /** A strict prefix of one frame contains no record and is diagnosed as truncated. */
  lemma PrefixOfRecord(record: Record, s: seq<byte>)
    requires s < record
    ensures Parse(s).records == []
    ensures Truncated(Parse(s).ending)
  {
    hide ReadLength, ReadStreamId, ReadCrc, ComputeCrc, ReadSequence;
    if |s| >= HEADER_LEN {
      HeaderOfPrefix(record, |s|);
      assert record[..|s|] == s;
    }
  }

  // ---------- Corruption ----------

  /** No other frame within a four-byte burst of a record is valid, even one with a changed trailer. */
  lemma BurstIsDetected(record: Record, damaged: seq<byte>, at: nat)
    requires DifferInBurst(record, damaged, at) && damaged != record
    ensures !ValidFrame(damaged)
  {
    hide ValidFrame, State, Residue;
    if ValidFrame(damaged) {
      FrameLeavesResidue(record);
      FrameLeavesResidue(damaged);
      BurstChangesState(record, damaged, at);
    }
  }

  lemma FrameLeavesResidue(record: Record)
    ensures State(Ones(), record) == Residue()
  {
    hide State, Residue, Checksum, ReadLength, ReadStreamId, ReadSequence, BitStream;
    var content, trailer := record[..|record| - CRC_LEN], record[|record| - CRC_LEN..];
    assert record == content + trailer;
    TrailerLeavesResidue(content, trailer);
  }

  /**
   A stream in which one frame is damaged within four consecutive bytes, length field intact:
   everything before the damaged frame is delivered, nothing after it, and the ending names the
   stream ID or the checksum.
   */
  lemma DamagedStream(before: seq<Record>, record: Record, damaged: seq<byte>, at: nat, after: seq<byte>)
    requires DifferInBurst(record, damaged, at) && damaged != record && damaged[..2] == record[..2]
    ensures var p := Parse(Concat(before) + damaged + after);
            && p.records == before
            && p.ending.Broken? && (p.ending.error.InvalidStreamId? || p.ending.error.CrcMismatch?)
  {
    hide Concat, Examine, ValidFrame;
    BurstIsDetected(record, damaged, at);
    DamagedFrame(record, damaged);
    ExamineIsStable(damaged, after);
    ParseRecords(before, damaged + after);
    ConcatAssociates(Concat(before), damaged, after);
  }

  lemma DamagedFrame(record: Record, damaged: seq<byte>)
    requires |damaged| == |record| && damaged[..2] == record[..2] && !ValidFrame(damaged)
    ensures Examine(damaged).Bad? && (Examine(damaged).error.InvalidStreamId? || Examine(damaged).error.CrcMismatch?)
  {
    hide ReadStreamId, ReadCrc, ComputeCrc, ReadSequence, FromLittleEndian;
    assert damaged[0..2] == damaged[..2] && record[0..2] == record[..2];
    assert damaged[..|damaged|] == damaged;
  }
}
