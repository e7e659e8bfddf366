/**
 Bytes, fixed-width unsigned integers and their little-endian encodings.
 */
module Bytes {

  type byte = x: int | 0 <= x < 256
  type u16 = x: int | 0 <= x < 0x1_0000
  type u64 = x: int | 0 <= x < 0x1_0000_0000_0000_0000

  const U64_MAX: u64 := 0xFFFF_FFFF_FFFF_FFFF

  datatype Option<+T> = None | Some(value: T)

  function Min(a: int, b: int): int {
    if a <= b then a else b
  }

  function Max(a: int, b: int): int {
    if a <= b then b else a
  }

  /** Number of values an unsigned integer of `width` bytes can take. */
  function Pow256(width: nat): nat {
    if width == 0 then 1 else 256 * Pow256(width - 1)
  }

  /** Little-endian encoding; bits that do not fit in `width` bytes are dropped. */
  function LittleEndian(n: nat, width: nat): (bytes: seq<byte>)
    ensures |bytes| == width
    decreases n, width
  {
    if width == 0 then [] else [n % 256] + LittleEndian(n / 256, width - 1)
  }

  function FromLittleEndian(bytes: seq<byte>): (n: nat)
    ensures n < Pow256(|bytes|)
  {
    if bytes == [] then 0 else bytes[0] + 256 * FromLittleEndian(bytes[1..])
  }

  /** Byte `i` holds the digit of 256 to the power `i`. */
  lemma {:induction false} LittleEndianByte(n: nat, width: nat, i: nat)
    requires i < width
    ensures Pow256(i) > 0 && LittleEndian(n, width)[i] == n / Pow256(i) % 256
  {
    if i > 0 {
      LittleEndianByte(n / 256, width - 1, i - 1);
      DivideTwice(n, Pow256(i - 1));
    }
  }

  lemma EightBytes(n: u64)
    ensures LittleEndian(n, 8) == [n % 256, n / 0x100 % 256, n / 0x1_0000 % 256, n / 0x100_0000 % 256,
                                   n / 0x1_0000_0000 % 256, n / 0x100_0000_0000 % 256,
                                   n / 0x1_0000_0000_0000 % 256, n / 0x100_0000_0000_0000]
  {
    hide LittleEndian;
    forall i: nat | i < 8
      ensures LittleEndian(n, 8)[i] == n / Pow256(i) % 256
    {
      LittleEndianByte(n, 8, i);
    }
    Powers();
  }

  lemma Powers()
    ensures Pow256(0) == 1 && Pow256(1) == 0x100 && Pow256(2) == 0x1_0000 && Pow256(3) == 0x100_0000
    ensures Pow256(4) == 0x1_0000_0000 && Pow256(5) == 0x100_0000_0000
    ensures Pow256(6) == 0x1_0000_0000_0000 && Pow256(7) == 0x100_0000_0000_0000
  {
  }

  lemma DivideTwice(n: nat, d: nat)
    requires d > 0
    ensures n / 256 / d == n / (256 * d)
  {
    var q, r := n / 256 / d, n / 256 % d;
    assert n == 256 * (q * d + r) + n % 256;
    assert n == (256 * d) * q + (256 * r + n % 256);
    assert 256 * r + n % 256 < 256 * d;
    QuotientOf(n, 256 * d, q, 256 * r + n % 256);
  }

  lemma QuotientOf(n: nat, d: nat, q: nat, r: nat)
    requires n == d * q + r && r < d
    ensures n / d == q
  {
    var p, s := n / d, n % d;
    assert d * (p - q) == r - s;
    SmallMultiple(d, p - q);
  }

  lemma SmallMultiple(d: nat, k: int)
    requires d * k < d && 0 < d * k + d
    ensures k == 0
  {
  }

  lemma {:induction false} DecodeEncode(n: nat, width: nat)
    requires n < Pow256(width)
    ensures FromLittleEndian(LittleEndian(n, width)) == n
  {
    if width == 0 {
    } else {
      DecodeEncode(n / 256, width - 1);
      assert LittleEndian(n, width)[1..] == LittleEndian(n / 256, width - 1);
    }
  }

  lemma {:induction false} EncodeDecode(bytes: seq<byte>)
    ensures LittleEndian(FromLittleEndian(bytes), |bytes|) == bytes
  {
    if bytes == [] {
    } else {
      EncodeDecode(bytes[1..]);
      var n := FromLittleEndian(bytes);
      assert n % 256 == bytes[0] && n / 256 == FromLittleEndian(bytes[1..]);
    }
  }

  lemma FieldWidths()
    ensures Pow256(2) == 0x1_0000
    ensures Pow256(8) == 0x1_0000_0000_0000_0000
  {
  }

  lemma ConcatAssociates<T>(a: seq<T>, b: seq<T>, c: seq<T>)
    ensures (a + b) + c == a + (b + c)
  {
  }

  /** A prefix of a prefix, and the part of `a + b` behind `a`. */
  lemma PrefixOfConcat(a: seq<byte>, b: seq<byte>, p: seq<byte>)
    requires p <= a + b
    ensures |p| <= |a| ==> p <= a
    ensures |a| <= |p| ==> a <= p && p[|a|..] <= b
  {
    if |a| <= |p| {
      assert p[..|a|] == (a + b)[..|a|] == a;
      assert p[|a|..] == (a + b)[|a|..|p|] == b[..|p| - |a|];
    } else {
      assert p == (a + b)[..|p|] == a[..|p|];
    }
  }
}
