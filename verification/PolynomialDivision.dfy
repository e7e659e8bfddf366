/**
 What the checksum is: the remainder of the content, as a polynomial over GF(2), modulo the Castagnoli polynomial.

 A polynomial is its sequence of coefficients, highest power first. The generator is written here in its
 unreflected form, x^32 + 0x1edc_6f41, and division is the schoolbook one; neither mentions the shift register.
 */
module PolynomialDivision {
  import opened Bytes
  import opened Crc32c

  /** Binary digits, most significant first. */
  function HighestFirst(n: nat, width: nat): (r: Bits)
    ensures |r| == width
    decreases n, width
  {
    if width == 0 then [] else HighestFirst(n / 2, width - 1) + [n % 2 == 1]
  }

  function Generator(): (r: Bits)
    ensures |r| == 33 && r[0]
  {
    [true] + HighestFirst(0x1edc_6f41, 32)
  }

  /** The generator times one coefficient. */
  function Scaled(coefficient: bool): (r: Bits)
    ensures |r| == 33 && r[0] == coefficient
  {
    if coefficient then Generator() else Zeros(33)
  }

  /** The product of a polynomial and the generator. */
  function Times(q: Bits): (r: Bits)
    ensures |r| == |q| + 32
  {
    if q == [] then Zeros(32) else Xor(Scaled(q[0]) + Zeros(|q| - 1), [false] + Times(q[1..]))
  }

  /** `dividend` is `q` times the generator plus `r`. */
  ghost predicate Divides(dividend: Bits, q: Bits, r: Word) {
    |dividend| == |q| + 32 && dividend == Xor(Times(q), Zeros(|q|) + r)
  }

  /** One line of long division: the leading term is cancelled. */
  function Reduced(dividend: Bits): (r: Bits)
    requires |dividend| > 32
    ensures |r| == |dividend| - 1
  {
    Xor(dividend[..33], Scaled(dividend[0]))[1..] + dividend[33..]
  }

  function Remainder(dividend: Bits): Word
    requires |dividend| >= 32
    decreases |dividend|
  {
    if |dividend| == 32 then dividend else Remainder(Reduced(dividend))
  }

  // ---------- Long division divides ----------

  lemma ReducedBit(dividend: Bits, i: nat)
    requires |dividend| > 32 && i < |dividend| - 1
    ensures Reduced(dividend)[i] == (dividend[i + 1] != (i < 32 && Scaled(dividend[0])[i + 1]))
  {
    hide Generator, Scaled;
    if i < 32 {
      assert Xor(dividend[..33], Scaled(dividend[0]))[i + 1] == (dividend[..33][i + 1] != Scaled(dividend[0])[i + 1]);
    }
  }

  lemma TimesBit(q: Bits, i: nat)
    requires q != [] && i < |q| + 32
    ensures Times(q)[i] == ((i < 33 && Scaled(q[0])[i]) != (i > 0 && Times(q[1..])[i - 1]))
  {
    hide Generator, Scaled;
    var left, right := Scaled(q[0]) + Zeros(|q| - 1), [false] + Times(q[1..]);
    assert Times(q)[i] == (left[i] != right[i]);
  }

  /** The right-hand side of a division, one coefficient on. */
  lemma ProductBit(q: Bits, r: Word, i: nat)
    requires q != [] && i < |q| + 31
    ensures Xor(Times(q), Zeros(|q|) + r)[i + 1] == (Xor(Times(q[1..]), Zeros(|q| - 1) + r)[i] != (i < 32 && Scaled(q[0])[i + 1]))
  {
    hide Generator, Scaled, Times, Zeros;
    TimesBit(q, i + 1);
    assert (Zeros(|q|) + r)[i + 1] == (Zeros(|q| - 1) + r)[i];
  }

  lemma LeadingProductBit(q: Bits, r: Word)
    requires q != []
    ensures Xor(Times(q), Zeros(|q|) + r)[0] == q[0]
  {
    hide Generator, Scaled, Times, Zeros;
    TimesBit(q, 0);
  }

  /** Cancelling the leading term removes the quotient's first coefficient, whatever the remainder. */
  lemma ReducedDivides(dividend: Bits, q: Bits, r: Word)
    requires q != [] && |dividend| == |q| + 32 && dividend[0] == q[0]
    ensures Divides(dividend, q, r) <==> Divides(Reduced(dividend), q[1..], r)
  {
    hide Generator, Scaled, Reduced, Times, Xor, Zeros;
    var product, shorter := Xor(Times(q), Zeros(|q|) + r), Xor(Times(q[1..]), Zeros(|q| - 1) + r);
    LeadingProductBit(q, r);
    forall i | 0 <= i < |dividend| - 1
      ensures dividend[i + 1] == product[i + 1] <==> Reduced(dividend)[i] == shorter[i]
    {
      ReducedBit(dividend, i);
      ProductBit(q, r, i);
    }
    SameBehindFirst(dividend, product, Reduced(dividend), shorter);
  }

  lemma SameBehindFirst(a: Bits, b: Bits, a1: Bits, b1: Bits)
    requires |a| == |b| == |a1| + 1 == |b1| + 1 && a[0] == b[0]
    requires forall i :: 0 <= i < |a| - 1 ==> (a[i + 1] == b[i + 1] <==> a1[i] == b1[i])
    ensures a == b <==> a1 == b1
  {
    if a1 == b1 {
      forall i | 0 <= i < |a|
        ensures a[i] == b[i]
      {
        if i > 0 {
          assert a1[i - 1] == b1[i - 1];
        }
      }
    }
    if a == b {
      forall i | 0 <= i < |a1|
        ensures a1[i] == b1[i]
      {
        assert a[i + 1] == b[i + 1];
      }
    }
  }

  lemma LeadingTerm(dividend: Bits, q: Bits, r: Word)
    requires q != [] && Divides(dividend, q, r)
    ensures dividend[0] == q[0]
  {
    hide Generator, Scaled, Times;
    TimesBit(q, 0);
    assert Xor(Times(q), Zeros(|q|) + r)[0] == (Times(q)[0] != (Zeros(|q|) + r)[0]);
  }

  lemma NothingDivided(dividend: Word, r: Word)
    ensures Divides(dividend, [], r) <==> dividend == r
  {
    assert Zeros(0) + r == r;
    assert Xor(Times([]), r) == r;
  }

  /** There is one remainder, and long division finds it. */
  lemma {:induction false} RemainderIsUnique(dividend: Bits, q: Bits, r: Word)
    requires Divides(dividend, q, r)
    ensures r == Remainder(dividend)
    decreases |q|
  {
    hide Reduced, Divides;
    assert |dividend| == |q| + 32 by { LengthOfDividend(dividend, q, r); }
    if q == [] {
      NothingDivided(dividend, r);
    } else {
      LeadingTerm(dividend, q, r);
      ReducedDivides(dividend, q, r);
      RemainderIsUnique(Reduced(dividend), q[1..], r);
    }
  }

  lemma LengthOfDividend(dividend: Bits, q: Bits, r: Word)
    requires Divides(dividend, q, r)
    ensures |dividend| == |q| + 32
  {
  }

  lemma {:induction false} RemainderExists(dividend: Bits) returns (q: Bits)
    requires |dividend| >= 32
    ensures Divides(dividend, q, Remainder(dividend))
    decreases |dividend|
  {
    hide Reduced, Divides;
    if |dividend| == 32 {
      q := [];
      NothingDivided(dividend, dividend);
    } else {
      var rest := RemainderExists(Reduced(dividend));
      LengthOfDividend(Reduced(dividend), rest, Remainder(Reduced(dividend)));
      q := [dividend[0]] + rest;
      assert q[1..] == rest;
      ReducedDivides(dividend, q, Remainder(dividend));
    }
  }

  // ---------- The shift register divides ----------

  lemma {:induction false} DigitOf(n: nat, width: nat, i: nat)
    requires i < width
    ensures Pow2(i) > 0 && (BitsOf(n, width)[i] <==> n / Pow2(i) % 2 == 1)
  {
    if i > 0 {
      DigitOf(n / 2, width - 1, i - 1);
      HalveThenDivide(n, Pow2(i - 1));
    }
  }

  lemma HalveThenDivide(n: nat, d: nat)
    requires d > 0
    ensures n / 2 / d == n / (2 * d)
  {
    var q, r := n / 2 / d, n / 2 % d;
    assert n / 2 == d * q + r;
    QuotientOf(n, 2 * d, q, 2 * r + n % 2);
  }

  lemma {:induction false} HighestIsLast(n: nat, width: nat, i: nat)
    requires i < width
    ensures HighestFirst(n, width)[width - 1 - i] == BitsOf(n, width)[i]
  {
    if i > 0 {
      HighestIsLast(n / 2, width - 1, i - 1);
    }
  }

  lemma {:induction false} HighestFirstAppend(n: nat, low: nat, a: nat, b: nat)
    requires low < Pow2(b)
    ensures HighestFirst(n * Pow2(b) + low, a + b) == HighestFirst(n, a) + HighestFirst(low, b)
    decreases b
  {
    if b == 0 {
      assert Pow2(b) == 1;
      assert HighestFirst(n, a) + [] == HighestFirst(n, a);
    } else {
      HighestFirstAppend(n, low / 2, a, b - 1);
      var whole := n * Pow2(b) + low;
      assert whole == 2 * (n * Pow2(b - 1)) + low by { Doubled(n, Pow2(b - 1)); }
      assert whole / 2 == n * Pow2(b - 1) + low / 2 && whole % 2 == low % 2;
      ConcatAssociates(HighestFirst(n, a), HighestFirst(low / 2, b - 1), [low % 2 == 1]);
    }
  }

  lemma Doubled(n: nat, d: nat)
    ensures n * (2 * d) == 2 * (n * d)
  {
  }

  /** A byte in both bit orders. */
  lemma ReflectedByte(n: byte, reflected: byte)
    requires n / 128 % 2 == reflected % 2 && n / 64 % 2 == reflected / 2 % 2 && n / 32 % 2 == reflected / 4 % 2
    requires n / 16 % 2 == reflected / 8 % 2 && n / 8 % 2 == reflected / 16 % 2 && n / 4 % 2 == reflected / 32 % 2
    requires n / 2 % 2 == reflected / 64 % 2 && n % 2 == reflected / 128 % 2
    ensures HighestFirst(n, 8) == BitsOf(reflected, 8)
  {
    PowersOfTwo();
    forall i: nat | i < 8
      ensures HighestFirst(n, 8)[i] == BitsOf(reflected, 8)[i]
    {
      HighestIsLast(n, 8, 7 - i);
      DigitOf(n, 8, 7 - i);
      DigitOf(reflected, 8, i);
    }
  }

  lemma PowersOfTwo()
    ensures Pow2(0) == 1 && Pow2(1) == 2 && Pow2(2) == 4 && Pow2(3) == 8
    ensures Pow2(4) == 16 && Pow2(5) == 32 && Pow2(6) == 64 && Pow2(7) == 128 && Pow2(8) == 256
  {
  }

  /** The register's polynomial is the generator without its leading term. */
  lemma ReflectedGenerator()
    ensures Polynomial() == Generator()[1..]
  {
    hide HighestFirst, BitsOf, BitStream;
    FourBytes([0x78, 0x3b, 0xf6, 0x82]);
    GeneratorBytes();
    ReflectedByte(0x1e, 0x78);
    ReflectedByte(0xdc, 0x3b);
    ReflectedByte(0x6f, 0xf6);
    ReflectedByte(0x41, 0x82);
    assert Generator()[1..] == HighestFirst(0x1edc_6f41, 32);
  }

  lemma GeneratorBytes()
    ensures HighestFirst(0x1edc_6f41, 32)
         == HighestFirst(0x1e, 8) + HighestFirst(0xdc, 8) + HighestFirst(0x6f, 8) + HighestFirst(0x41, 8)
  {
    hide HighestFirst, Pow2;
    assert Pow2(8) == 256 by { PowersOfTwo(); }
    HighestFirstAppend(0x1e, 0xdc, 8, 8);
    HighestFirstAppend(0x1edc, 0x6f, 16, 8);
    HighestFirstAppend(0x1e_dc6f, 0x41, 24, 8);
  }

  /** The content and 32 zeros, xored with the initial register. */
  function Dividend(register: Word, bits: Bits): (r: Bits)
    ensures |r| == |bits| + 32
  {
    Xor(bits + Zeros(32), register + Zeros(|bits|))
  }

  lemma DividendBit(register: Word, bits: Bits, i: nat)
    requires i < |bits| + 32
    ensures Dividend(register, bits)[i] == ((i < |bits| && bits[i]) != (i < 32 && register[i]))
  {
  }

  /** Feeding one bit is one line of long division. */
  lemma FeedBitReduces(register: Word, bits: Bits)
    requires bits != []
    ensures Reduced(Dividend(register, bits)) == Dividend(FeedBit(register, bits[0]), bits[1..])
  {
    hide Dividend, Reduced, Generator, Step, Polynomial;
    var dividend, next := Dividend(register, bits), FeedBit(register, bits[0]);
    var folded: Word := Xor(register, Extend([bits[0]]));
    ReflectedGenerator();
    forall i | 0 <= i < |dividend| - 1
      ensures Reduced(dividend)[i] == Dividend(next, bits[1..])[i]
    {
      ReducedBit(dividend, i);
      DividendBit(register, bits, 0);
      DividendBit(register, bits, i + 1);
      DividendBit(next, bits[1..], i);
      if i < 32 {
        StepBit(folded, i);
      }
    }
  }

  lemma {:induction false} FeedIsRemainder(register: Word, bits: Bits)
    ensures Feed(register, bits) == Remainder(Dividend(register, bits))
    decreases |bits|
  {
    hide Dividend, Reduced, FeedBit;
    if bits == [] {
      NothingFed(register);
    } else {
      FeedBitReduces(register, bits);
      FeedIsRemainder(FeedBit(register, bits[0]), bits[1..]);
    }
  }

  lemma NothingFed(register: Word)
    ensures Dividend(register, []) == register
  {
    forall i | 0 <= i < 32
      ensures Dividend(register, [])[i] == register[i]
    {
      DividendBit(register, [], i);
    }
  }

  /**
   The checksum of a content is the complement of what dividing leaves: the content with its first 32 bits
   complemented and 32 zeros behind it is a multiple of the generator plus that remainder, and of no other.
   */
  lemma ChecksumIsRemainder(content: seq<byte>, crc: Word)
    ensures var dividend := Dividend(Complement(Zeros(32)), BitStream(content));
            && Checksum(content) == Complement(Remainder(dividend))
            && (crc == Checksum(content) <==> exists q :: Divides(dividend, q, Complement(crc)))
  {
    hide Dividend, Divides, Remainder;
    var dividend := Dividend(Complement(Zeros(32)), BitStream(content));
    StateIsFeed(Ones(), content);
    FeedIsRemainder(Ones(), BitStream(content));
    ComplementTwice(crc);
    ComplementTwice(Remainder(dividend));
    if crc == Checksum(content) {
      var q := RemainderExists(dividend);
      assert Divides(dividend, q, Complement(crc));
    }
    forall q | Divides(dividend, q, Complement(crc))
      ensures Complement(crc) == Remainder(dividend)
    {
      RemainderIsUnique(dividend, q, Complement(crc));
    }
  }

  lemma ComplementTwice(word: Word)
    ensures Complement(Complement(word)) == word
  {
  }

  /** The order of the content's bits: byte by byte, and the least significant bit of a byte first. */
  lemma {:induction false} BitOfContent(content: seq<byte>, i: nat, j: nat)
    requires i < |content| && j < 8
    ensures Pow2(j) > 0 && (BitStream(content)[8 * i + j] <==> content[i] / Pow2(j) % 2 == 1)
    decreases i
  {
    if i == 0 {
      DigitOf(content[0], 8, j);
    } else {
      BitOfContent(content[1..], i - 1, j);
      assert BitStream(content)[8 * i + j] == BitStream(content[1..])[8 * (i - 1) + j];
    }
  }
}
