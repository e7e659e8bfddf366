/**
 The frame format written out byte by byte, and that the codec and the one-shot parse implement it: which byte
 strings are frames, what encoding produces, and what each defective stream is reported as.
 */
module FrameLayout {
  import opened Bytes
  import opened Crc32c
  import opened PolynomialDivision
  import opened RecordProtocol

  function Pair(low: nat, high: nat): nat {
    low + 256 * high
  }

  function LengthField(s: seq<byte>): nat
    requires |s| >= 12
  {
    Pair(s[0], s[1])
  }

  function StreamField(s: seq<byte>): nat
    requires |s| >= 12
  {
    Pair(s[2], s[3])
  }

  /** The last four bytes as the bits of a checksum. */
  function TrailerField(frame: seq<byte>): Word
    requires |frame| >= 4
  {
    BitStream(frame[|frame| - 4..])
  }

  /** The checksum of everything in front of the trailer, by polynomial division. */
  function Division(frame: seq<byte>): Word
    requires |frame| >= 4
  {
    Complement(Remainder(Dividend(Complement(Zeros(32)), BitStream(frame[..|frame| - 4]))))
  }

  predicate IsFrame(frame: seq<byte>) {
    && |frame| >= 16
    && LengthField(frame) == |frame|
    && StreamField(frame) < 4096
    && TrailerField(frame) == Division(frame)
  }

  lemma TwoBytes(bytes: seq<byte>)
    requires |bytes| == 2
    ensures FromLittleEndian(bytes) == Pair(bytes[0], bytes[1])
  {
    assert bytes[1..][1..] == [];
    assert FromLittleEndian(bytes[1..]) == bytes[1];
  }

  lemma HeaderFields(s: seq<byte>)
    requires |s| >= 12
    ensures ReadLength(s) == LengthField(s) && ReadStreamId(s) == StreamField(s)
  {
    hide FromLittleEndian;
    TwoBytes(s[0..2]);
    TwoBytes(s[2..4]);
  }

  lemma TrailerFields(frame: seq<byte>)
    requires |frame| >= 4
    ensures ReadCrc(frame) == TrailerField(frame) && ComputeCrc(frame) == Division(frame)
  {
    hide Checksum, Remainder, Dividend, BitStream;
    ChecksumIsRemainder(frame[..|frame| - 4], Zeros(32));
  }

  /** The codec's frames are exactly these. */
  lemma FramesAreValid(frame: seq<byte>)
    ensures ValidFrame(frame) <==> IsFrame(frame)
  {
    hide ReadLength, ReadStreamId, ReadCrc, ComputeCrc, LengthField, StreamField, TrailerField, Division;
    if |frame| >= 16 {
      HeaderFields(frame);
      TrailerFields(frame);
    } else if |frame| >= 12 {
      HeaderFields(frame);
    }
  }

  /** Every byte an encoding puts in front of and behind the body. */
  lemma EncodedBytes(id: RecordId, body: seq<byte>)
    requires |body| <= 65_519
    ensures var f := Encode(id, body);
            && |f| == 16 + |body| && IsFrame(f)
            && f[..4] == [|f| % 256, |f| / 256, id.stream % 256, id.stream / 256]
            && f[4..12] == [id.sequence % 256, id.sequence / 0x100 % 256, id.sequence / 0x1_0000 % 256,
                            id.sequence / 0x100_0000 % 256, id.sequence / 0x1_0000_0000 % 256,
                            id.sequence / 0x100_0000_0000 % 256, id.sequence / 0x1_0000_0000_0000 % 256,
                            id.sequence / 0x100_0000_0000_0000]
            && f[12..12 + |body|] == body
  {
    hide IsFrame, LittleEndian, EncodeFrame, ValidFrame, ReadLength, ReadStreamId, ReadSequence;
    var f := Encode(id, body);
    FramesAreValid(f);
    EncodedHeader(id, body);
    assert f[12..12 + |body|] == body;
    assert f[..4] == f[..2] + f[2..4];
    TwoByteField(|f|);
    TwoByteField(id.stream);
    EightBytes(id.sequence);
  }

  lemma EncodedHeader(id: RecordId, body: seq<byte>)
    requires |body| <= MAX_PAYLOAD_LEN
    ensures var f := Encode(id, body);
            f[..2] == LittleEndian(|f|, 2) && f[2..4] == LittleEndian(id.stream, 2) && f[4..12] == LittleEndian(id.sequence, 8)
  {
    hide LittleEndian, ValidFrame, ReadLength, ReadStreamId, ReadSequence, Checksum, WordBytes;
  }

  lemma TwoByteField(n: nat)
    requires n < 65_536
    ensures LittleEndian(n, 2) == [n % 256, n / 256]
  {
    assert LittleEndian(n / 256, 1) == [n / 256 % 256] + LittleEndian(n / 256 / 256, 0);
  }

  // ---------- What a defective stream is reported as ----------

  /** How a stream ends whose rest does not start with a frame: the first field that is wrong or missing. */
  function EndingOf(rest: seq<byte>): Ending {
    if rest == [] then CleanEnd
    else if |rest| < 12 then Broken(TruncatedHeader(|rest|))
    else if LengthField(rest) < 16 then Broken(InvalidLength(LengthField(rest)))
    else if StreamField(rest) >= 4096 then Broken(InvalidStreamId(StreamField(rest)))
    else if |rest| < LengthField(rest) then Broken(TruncatedRecord(LengthField(rest), |rest|))
    else
      var frame := rest[..LengthField(rest)];
      Broken(CrcMismatch(TrailerField(frame), Division(frame)))
  }

  predicate StartsWithFrame(s: seq<byte>) {
    |s| >= 12 && LengthField(s) <= |s| && IsFrame(s[..LengthField(s)])
  }

  /** The parse stops at the first place where no frame starts, and names what is wrong there. */
  lemma {:induction false} ParseEndsExactly(s: seq<byte>)
    ensures var p := Parse(s);
            && Concat(p.records) <= s
            && var rest := s[|Concat(p.records)|..];
               !StartsWithFrame(rest) && p.ending == EndingOf(rest)
    decreases |s|
  {
    hide Examine, ValidFrame, StartsWithFrame, EndingOf;
    ExaminedExactly(s);
    if s != [] && Examine(s).Complete? {
      var length := Examine(s).length;
      ParseEndsExactly(s[length..]);
      var p, rest := Parse(s), Parse(s[length..]);
      assert p.records[1..] == rest.records;
      assert s == s[..length] + s[length..];
      assert s[|Concat(p.records)|..] == s[length..][|Concat(rest.records)|..];
    } else {
      assert Concat([]) == [] && s[0..] == s;
    }
  }

  lemma ExaminedExactly(s: seq<byte>)
    ensures Examine(s).Complete? <==> StartsWithFrame(s)
    ensures !Examine(s).Complete? ==> Parse(s) == Parsed([], EndingOf(s))
  {
    hide ValidFrame, IsFrame, ReadLength, ReadStreamId, ReadCrc, ComputeCrc;
    hide LengthField, StreamField, TrailerField, Division;
    if |s| >= 12 {
      HeaderFields(s);
      if 16 <= ReadLength(s) <= |s| {
        var frame := s[..ReadLength(s)];
        FramesAreValid(frame);
        TrailerFields(frame);
        AcceptedFrame(s);
      } else {
        ShortFrame(s);
      }
    }
  }

  lemma AcceptedFrame(s: seq<byte>)
    requires |s| >= 12 && 16 <= ReadLength(s) <= |s|
    ensures var frame := s[..ReadLength(s)];
            ValidFrame(frame) <==> ReadStreamId(s) < 4096 && ReadCrc(frame) == ComputeCrc(frame)
  {
    hide ReadLength, ReadStreamId, ReadSequence, ReadCrc, ComputeCrc;
    HeaderOfPrefix(s, ReadLength(s));
  }

  lemma ShortFrame(s: seq<byte>)
    requires |s| >= 12 && !(16 <= LengthField(s) <= |s|)
    ensures !StartsWithFrame(s)
  {
  }
}
