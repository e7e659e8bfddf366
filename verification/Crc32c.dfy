/**
 CRC-32C (section 12.1 of RFC 3720) by its bitwise definition, and what makes it a useful
 frame check: one step of the register is injective and xor-linear, so damage confined to 32
 consecutive bits never goes unnoticed, however long the content is.

 A machine word is its sequence of bits, least significant first.
 */
module Crc32c {
  import opened Bytes

  type Bits = seq<bool>
  type Word = w: Bits | |w| == 32 witness Zeros(32)

  function Zeros(count: nat): (r: Bits)
    ensures |r| == count && forall i :: 0 <= i < count ==> !r[i]
  {
    if count == 0 then [] else [false] + Zeros(count - 1)
  }

  function BitsOf(n: nat, width: nat): (r: Bits)
    ensures |r| == width
    decreases n, width
  {
    if width == 0 then [] else [n % 2 == 1] + BitsOf(n / 2, width - 1)
  }

  function Pow2(width: nat): nat {
    if width == 0 then 1 else 2 * Pow2(width - 1)
  }

  function FromBits(bits: Bits): (n: nat)
    ensures n < Pow2(|bits|)
  {
    if bits == [] then 0 else (if bits[0] then 1 else 0) + 2 * FromBits(bits[1..])
  }

  function Xor(a: Bits, b: Bits): (r: Bits)
    requires |a| == |b|
    ensures |r| == |a| && forall i :: 0 <= i < |r| ==> (r[i] <==> a[i] != b[i])
  {
    if a == [] then [] else [a[0] != b[0]] + Xor(a[1..], b[1..])
  }

  function Complement(a: Bits): (r: Bits)
    ensures |r| == |a| && forall i :: 0 <= i < |a| ==> (r[i] <==> !a[i])
  {
    if a == [] then [] else [!a[0]] + Complement(a[1..])
  }

  /** Zero-extension to a word. */
  function Extend(bits: Bits): (r: Word)
    requires |bits| <= 32
  {
    bits + Zeros(32 - |bits|)
  }

  /** All ones, the register's initial value. */
  function Ones(): Word {
    Complement(Zeros(32))
  }

  /** The reflected generator polynomial 0x82f6_3b78, given by its little-endian bytes. */
  function Polynomial(): (r: Word)
    ensures r[31]
  {
    var bytes: seq<byte> := [0x78, 0x3b, 0xf6, 0x82];
    TopBit(bytes);
    BitStream(bytes)
  }

  lemma TopBit(bytes: seq<byte>)
    requires |bytes| == 4 && bytes[3] == 0x82
    ensures |BitStream(bytes)| == 32 && BitStream(bytes)[31]
  {
    FourBytes(bytes);
    var top := BitsOf(0x82, 8);
    assert top[7] == BitsOf(0x41, 7)[6] == BitsOf(0x20, 6)[5] == BitsOf(0x10, 5)[4] == BitsOf(8, 4)[3];
    assert BitsOf(8, 4)[3] == BitsOf(4, 3)[2] == BitsOf(2, 2)[1] == BitsOf(1, 1)[0];
    assert BitStream(bytes)[31] == top[7];
  }

  /** One shift of the register. */
  function Step(crc: Word): Word {
    var shifted := crc[1..] + [false];
    if crc[0] then Xor(shifted, Polynomial()) else shifted
  }

  function Steps(crc: Word, count: nat): Word
    decreases count, crc
  {
    if count == 0 then crc else Steps(Step(crc), count - 1)
  }

  function Absorb(crc: Word, b: byte): Word {
    var bits := BitsOf(b, 8);
    Steps(Xor(crc, Extend(bits)), |bits|)
  }

  /** The register after absorbing the whole content, starting from `crc`. */
  function State(crc: Word, content: seq<byte>): Word
    decreases |content|
  {
    if content == [] then crc else State(Absorb(crc, content[0]), content[1..])
  }

  function Checksum(content: seq<byte>): Word {
    Complement(State(Ones(), content))
  }

  /** The reference loop over a mutable register computes the checksum. */
  method ReferenceCrc(bytes: seq<byte>) returns (crc: Word)
    ensures crc == Checksum(bytes)
  {
    crc := Ones();
    for i := 0 to |bytes|
      invariant State(crc, bytes[i..]) == State(Ones(), bytes)
    {
      crc := AbsorbByte(crc, bytes[i]);
      assert bytes[i..][1..] == bytes[i + 1..];
    }
    crc := Complement(crc);
  }

  /** The inner loop: one conditional xor-shift for each of the byte's eight bits. */
  method AbsorbByte(before: Word, b: byte) returns (crc: Word)
    ensures crc == Absorb(before, b)
  {
    crc := Xor(before, Extend(BitsOf(b, 8)));
    for j := 0 to 8
      invariant Steps(crc, 8 - j) == Absorb(before, b)
    {
      assert Steps(crc, 8 - j) == Steps(Step(crc), 7 - j);
      ghost var stepped := Step(crc);
      if !crc[0] {
        crc := crc[1..] + [false];
      } else {
        crc := Xor(crc[1..] + [false], Polynomial());
      }
      assert crc == stepped;
    }
  }

  // ---------- The register is injective, and byte-wise absorption is bit-serial ----------

  lemma StepIsInjective(a: Word, b: Word)
    requires Step(a) == Step(b)
    ensures a == b
  {
    forall i | 0 <= i < 32
      ensures a[i] == b[i]
    {
      StepDeterminesBit(a, b, i);
    }
  }

  lemma StepDeterminesBit(a: Word, b: Word, i: nat)
    requires Step(a) == Step(b) && i < 32
    ensures a[i] == b[i]
  {
    StepBit(a, 31);
    StepBit(b, 31);
    if i > 0 {
      StepBit(a, i - 1);
      StepBit(b, i - 1);
    }
  }

  lemma StepBit(crc: Word, i: nat)
    requires i < 32
    ensures Step(crc)[i] <==> (i < 31 && crc[i + 1]) != (crc[0] && Polynomial()[i])
  {
  }

  lemma {:induction false} StepsIsInjective(a: Word, b: Word, count: nat)
    requires Steps(a, count) == Steps(b, count)
    ensures a == b
    decreases count
  {
    if count == 0 {
    } else {
      StepsIsInjective(Step(a), Step(b), count - 1);
      StepIsInjective(a, b);
    }
  }

  lemma XorIsInjective(a: Bits, b: Bits, c: Bits)
    requires |a| == |b| == |c| && (Xor(a, c) == Xor(b, c) || Xor(c, a) == Xor(c, b))
    ensures a == b
  {
    forall i | 0 <= i < |a|
      ensures a[i] == b[i]
    {
      assert Xor(a, c)[i] == (a[i] != c[i]) && Xor(b, c)[i] == (b[i] != c[i]);
      assert Xor(c, a)[i] == (c[i] != a[i]) && Xor(c, b)[i] == (c[i] != b[i]);
    }
  }

  function FeedBit(crc: Word, bit: bool): Word {
    Step(Xor(crc, Extend([bit])))
  }

  /** The register after feeding single bits, first bit first. */
  function Feed(crc: Word, bits: Bits): Word
    decreases |bits|
  {
    if bits == [] then crc else Feed(FeedBit(crc, bits[0]), bits[1..])
  }

  /** Bits still to come can be folded into the register before the current step. */
  lemma FoldAhead(crc: Word, bits: Bits)
    requires 0 < |bits| <= 32
    ensures Step(Xor(crc, Extend(bits))) == Xor(FeedBit(crc, bits[0]), Extend(bits[1..]))
  {
    var folded, single := Xor(crc, Extend(bits)), Xor(crc, Extend([bits[0]]));
    assert folded[0] == single[0];
    forall i | 0 <= i < 32
      ensures Step(folded)[i] == Xor(Step(single), Extend(bits[1..]))[i]
    {
      if i < 31 {
        assert folded[i + 1] == (single[i + 1] != Extend(bits[1..])[i]);
      }
    }
  }

  /** Up to 32 bits fed one by one are one xor followed by that many steps. */
  lemma {:induction false} FeedIsXorAndSteps(crc: Word, bits: Bits)
    requires |bits| <= 32
    ensures Feed(crc, bits) == Steps(Xor(crc, Extend(bits)), |bits|)
    decreases |bits|
  {
    if bits == [] {
      assert Xor(crc, Extend(bits)) == crc;
    } else {
      FoldAhead(crc, bits);
      FeedIsXorAndSteps(FeedBit(crc, bits[0]), bits[1..]);
    }
  }

  lemma {:induction false} FeedAppend(crc: Word, a: Bits, b: Bits)
    ensures Feed(crc, a + b) == Feed(Feed(crc, a), b)
    decreases |a|
  {
    if a == [] {
      assert a + b == b;
    } else {
      FeedAppend(FeedBit(crc, a[0]), a[1..], b);
      assert (a + b)[1..] == a[1..] + b;
    }
  }

  lemma {:induction false} FeedIsInjective(a: Word, b: Word, bits: Bits)
    requires Feed(a, bits) == Feed(b, bits)
    ensures a == b
    decreases |bits|
  {
    if bits == [] {
    } else {
      var mask := Extend([bits[0]]);
      FeedIsInjective(Step(Xor(a, mask)), Step(Xor(b, mask)), bits[1..]);
      StepIsInjective(Xor(a, mask), Xor(b, mask));
      XorIsInjective(a, b, mask);
    }
  }

  /** The bits of a byte string in the order in which the register absorbs them. */
  function BitStream(bytes: seq<byte>): (r: Bits)
    ensures |r| == 8 * |bytes|
  {
    if bytes == [] then [] else BitsOf(bytes[0], 8) + BitStream(bytes[1..])
  }

  lemma {:induction false} StateIsFeed(crc: Word, content: seq<byte>)
    ensures State(crc, content) == Feed(crc, BitStream(content))
    decreases |content|
  {
    if content == [] {
    } else {
      var first := BitsOf(content[0], 8);
      FeedIsXorAndSteps(crc, first);
      FeedAppend(crc, first, BitStream(content[1..]));
      StateIsFeed(Absorb(crc, content[0]), content[1..]);
    }
  }

  lemma {:induction false} BitStreamAppend(a: seq<byte>, b: seq<byte>)
    ensures BitStream(a + b) == BitStream(a) + BitStream(b)
  {
    if a == [] {
      assert a + b == b;
    } else {
      BitStreamAppend(a[1..], b);
      assert (a + b)[1..] == a[1..] + b;
      ConcatAssociates(BitsOf(a[0], 8), BitStream(a[1..]), BitStream(b));
    }
  }

  lemma {:induction false} BitsRoundTrip(bits: Bits)
    ensures BitsOf(FromBits(bits), |bits|) == bits
  {
    if bits == [] {
    } else {
      BitsRoundTrip(bits[1..]);
      var n := FromBits(bits);
      assert (n % 2 == 1) == bits[0] && n / 2 == FromBits(bits[1..]);
    }
  }

  lemma {:induction false} ValueRoundTrip(n: nat, width: nat)
    requires n < Pow2(width)
    ensures FromBits(BitsOf(n, width)) == n
  {
    if width == 0 {
    } else {
      ValueRoundTrip(n / 2, width - 1);
      assert BitsOf(n, width)[1..] == BitsOf(n / 2, width - 1);
    }
  }

  lemma {:induction false} BitStreamIsInjective(a: seq<byte>, b: seq<byte>)
    requires BitStream(a) == BitStream(b)
    ensures a == b
  {
    if a == [] || b == [] {
    } else {
      assert BitStream(a)[..8] == BitsOf(a[0], 8) && BitStream(b)[..8] == BitsOf(b[0], 8);
      assert BitStream(a)[8..] == BitStream(a[1..]) && BitStream(b)[8..] == BitStream(b[1..]);
      assert Pow2(8) == 256;
      ValueRoundTrip(a[0], 8);
      ValueRoundTrip(b[0], 8);
      BitStreamIsInjective(a[1..], b[1..]);
    }
  }

  // ---------- Burst detection ----------

  /** A burst of at most 32 bits always changes the register. */
  lemma BurstChangesRegister(crc: Word, front: Bits, a: Bits, b: Bits, back: Bits)
    requires |a| == |b| <= 32
    requires Feed(crc, front + a + back) == Feed(crc, front + b + back)
    ensures a == b
  {
    var before := Feed(crc, front);
    FeedAppend(crc, front + a, back);
    FeedAppend(crc, front + b, back);
    FeedAppend(crc, front, a);
    FeedAppend(crc, front, b);
    FeedIsInjective(Feed(before, a), Feed(before, b), back);
    FeedIsXorAndSteps(before, a);
    FeedIsXorAndSteps(before, b);
    StepsIsInjective(Xor(before, Extend(a)), Xor(before, Extend(b)), |a|);
    XorIsInjective(Extend(a), Extend(b), before);
    assert a == Extend(a)[..|a|] && b == Extend(b)[..|b|];
  }

  lemma StateIsFeedOfParts(crc: Word, a: seq<byte>, b: seq<byte>, c: seq<byte>)
    ensures State(crc, a + b + c) == Feed(crc, BitStream(a) + BitStream(b) + BitStream(c))
  {
    StateIsFeed(crc, a + b + c);
    BitStreamAppend(a + b, c);
    BitStreamAppend(a, b);
  }

  /** Equal length, and equal outside four consecutive bytes. */
  ghost predicate DifferInBurst(a: seq<byte>, b: seq<byte>, at: nat) {
    && |a| == |b|
    && at <= |a|
    && a[..at] == b[..at]
    && a[Min(at + 4, |a|)..] == b[Min(at + 4, |a|)..]
  }

  lemma BurstChangesState(a: seq<byte>, b: seq<byte>, at: nat)
    requires DifferInBurst(a, b, at)
    requires State(Ones(), a) == State(Ones(), b)
    ensures a == b
  {
    var stop := Min(at + 4, |a|);
    SplitInThree(a, at, stop);
    SplitInThree(b, at, stop);
    BurstBetween(a[..at], a[at..stop], b[at..stop], a[stop..]);
  }

  lemma SplitInThree(a: seq<byte>, i: nat, j: nat)
    requires i <= j <= |a|
    ensures a == a[..i] + a[i..j] + a[j..]
  {
  }

  lemma BurstBetween(front: seq<byte>, a: seq<byte>, b: seq<byte>, back: seq<byte>)
    requires |a| == |b| <= 4
    requires State(Ones(), front + a + back) == State(Ones(), front + b + back)
    ensures a == b
  {
    StateIsFeedOfParts(Ones(), front, a, back);
    StateIsFeedOfParts(Ones(), front, b, back);
    BurstChangesRegister(Ones(), BitStream(front), BitStream(a), BitStream(b), BitStream(back));
    BitStreamIsInjective(a, b);
  }

  /** Different contents that agree outside four consecutive bytes have different checksums. */
  lemma BurstChangesChecksum(a: seq<byte>, b: seq<byte>, at: nat)
    requires DifferInBurst(a, b, at)
    requires a != b
    ensures Checksum(a) != Checksum(b)
  {
    if Checksum(a) == Checksum(b) {
      ComplementIsInjective(State(Ones(), a), State(Ones(), b));
      BurstChangesState(a, b, at);
    }
  }

  lemma ComplementIsInjective(a: Word, b: Word)
    requires Complement(a) == Complement(b)
    ensures a == b
  {
    forall i | 0 <= i < 32
      ensures a[i] == b[i]
    {
      assert Complement(a)[i] == !a[i] && Complement(b)[i] == !b[i];
    }
  }

  // ---------- The four trailer bytes ----------

  /** Little-endian bytes of a word: eight bits each, least significant byte first. */
  function WordBytes(word: Word): (bytes: seq<byte>)
    ensures |bytes| == 4
  {
    assert Pow2(8) == 256;
    [FromBits(word[..8]), FromBits(word[8..16]), FromBits(word[16..24]), FromBits(word[24..])]
  }

  lemma WordOfBytes(word: Word)
    ensures BitStream(WordBytes(word)) == word
  {
    var b := WordBytes(word);
    assert BitsOf(b[0], 8) == word[..8] by { BitsRoundTrip(word[..8]); }
    assert BitsOf(b[1], 8) == word[8..16] by { BitsRoundTrip(word[8..16]); }
    assert BitsOf(b[2], 8) == word[16..24] by { BitsRoundTrip(word[16..24]); }
    assert BitsOf(b[3], 8) == word[24..] by { BitsRoundTrip(word[24..]); }
    FourBytes(b);
    SplitInFour(word, 8, 16, 24);
  }

  lemma SplitInFour<T>(s: seq<T>, i: nat, j: nat, k: nat)
    requires i <= j <= k <= |s|
    ensures s == s[..i] + s[i..j] + s[j..k] + s[k..]
  {
  }

  lemma FourBytes(b: seq<byte>)
    requires |b| == 4
    ensures BitStream(b) == BitsOf(b[0], 8) + BitsOf(b[1], 8) + BitsOf(b[2], 8) + BitsOf(b[3], 8)
  {
    assert BitStream(b[3..]) == BitsOf(b[3], 8) + BitStream(b[4..]);
    assert b[2..][1..] == b[3..];
    assert b[1..][1..] == b[2..];
    assert BitStream(b[2..]) == BitsOf(b[2], 8) + BitStream(b[3..]);
    assert BitStream(b[1..]) == BitsOf(b[1], 8) + BitStream(b[2..]);
  }

  /** The register left by a content followed by its own checksum, whatever the content. */
  function Residue(): Word {
    Steps(Ones(), 32)
  }

  /** A trailer is the right one exactly when absorbing it as well leaves the fixed residue. */
  lemma TrailerLeavesResidue(content: seq<byte>, trailer: seq<byte>)
    requires |trailer| == 4
    ensures BitStream(trailer) == Checksum(content) <==> State(Ones(), content + trailer) == Residue()
  {
    var register, word := State(Ones(), content), BitStream(trailer);
    StateThenWord(content, trailer);
    ComplementCancels(register, word);
    if Steps(Xor(register, word), 32) == Residue() {
      StepsIsInjective(Xor(register, word), Ones(), 32);
    }
  }

  lemma StateThenWord(content: seq<byte>, trailer: seq<byte>)
    requires |trailer| == 4
    ensures State(Ones(), content + trailer) == Steps(Xor(State(Ones(), content), BitStream(trailer)), 32)
  {
    var register, word := State(Ones(), content), BitStream(trailer);
    StateIsFeed(Ones(), content);
    StateIsFeed(Ones(), content + trailer);
    BitStreamAppend(content, trailer);
    FeedAppend(Ones(), BitStream(content), word);
    FeedIsXorAndSteps(register, word);
    assert Extend(word) == word;
  }

  lemma ComplementCancels(register: Word, word: Word)
    ensures word == Complement(register) <==> Xor(register, word) == Ones()
  {
    if Xor(register, word) == Ones() {
      forall i | 0 <= i < 32
        ensures word[i] == Complement(register)[i]
      {
        assert Xor(register, word)[i];
      }
    }
  }
}
