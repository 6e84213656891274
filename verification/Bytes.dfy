/** Bytes, big-endian integers and the wrap-around of fixed-width integers. */
module Bytes {

  type byte = n: int | 0 <= n < 256

  const U32_SPAN: int := 0x1_0000_0000
  const U64_SPAN: int := 0x1_0000_0000_0000_0000

  type u32 = n: int | 0 <= n < U32_SPAN
  type u64 = n: int | 0 <= n < U64_SPAN
  type i32 = n: int | -0x8000_0000 <= n < 0x8000_0000

  datatype Option<+T> = None | Some(value: T)

  datatype Result<+T, +E> = Ok(value: T) | Err(error: E)

  /** What is left of an unsigned 64-bit result. */
  function Wrap64(n: nat): u64 {
    n % U64_SPAN
  }

  /** `a.saturating_sub(b)` on unsigned integers. */
  function SaturatingSub(a: nat, b: nat): nat {
    if a < b then 0 else a - b
  }

  lemma Remainder(q: int, r: int)
    requires 0 <= r < U32_SPAN
    ensures (q * U32_SPAN + r) % U32_SPAN == r
  {
  }

  /** The two's complement reading of the low 32 bits of `n`. */
  function Wrap32(n: int): (r: i32)
    ensures -0x8000_0000 <= n < 0x8000_0000 ==> r == n
  {
    var low := n % U32_SPAN;
    if low < 0x8000_0000 then low else low - U32_SPAN
  }

  /** The bit pattern of a signed 32-bit integer. */
  function Pattern(x: i32): u32 {
    if x < 0 then x + U32_SPAN else x
  }

  lemma PatternRoundTrip(x: i32, p: u32)
    ensures Wrap32(Pattern(x)) == x
    ensures Pattern(Wrap32(p)) == p
  {
  }

  function Pow256(k: nat): (p: nat)
    ensures p > 0
  {
    if k == 0 then 1 else 256 * Pow256(k - 1)
  }

  /** The `k` low bytes of `n`, most significant first. */
  function BigEndian(n: nat, k: nat): (s: seq<byte>)
    ensures |s| == k
  {
    if k == 0 then [] else BigEndian(n / 256, k - 1) + [n % 256]
  }

  /** The number that a big-endian byte string denotes. */
  function Value(s: seq<byte>): nat {
    if s == [] then 0 else 256 * Value(s[..|s| - 1]) + s[|s| - 1]
  }

  lemma {:induction false} ValueOfBigEndian(n: nat, k: nat)
    requires n < Pow256(k)
    ensures Value(BigEndian(n, k)) == n
  {
    if k == 0 {
    } else {
      ValueOfBigEndian(n / 256, k - 1);
      assert BigEndian(n, k)[..k - 1] == BigEndian(n / 256, k - 1);
    }
  }

  lemma Digits(v: nat, high: nat, low: nat)
    requires v == 256 * high + low && low < 256
    ensures v / 256 == high && v % 256 == low
  {
  }

  lemma {:induction false} BigEndianOfValue(s: seq<byte>)
    ensures Value(s) < Pow256(|s|)
    ensures BigEndian(Value(s), |s|) == s
  {
    if s == [] {
    } else {
      var front, last := s[..|s| - 1], s[|s| - 1];
      BigEndianOfValue(front);
      Digits(Value(s), Value(front), last);
      assert s == front + [last];
    }
  }

  /** What a four-byte field holds; every four-byte string is such a field. */
  lemma FourBytes(n: u32, s: seq<byte>)
    requires |s| == 4
    ensures Value(BigEndian(n, 4)) == n
    ensures 0 <= Value(s) < U32_SPAN && BigEndian(Value(s), 4) == s
  {
    assert Pow256(4) == U32_SPAN by {
      assert Pow256(2) == 65536;
    }
    ValueOfBigEndian(n, 4);
    BigEndianOfValue(s);
  }

  /** The four bytes of a field, most significant first. */
  lemma FourDigits(n: u32)
    ensures BigEndian(n, 4) == [n / 0x100_0000, n / 0x1_0000 % 256, n / 0x100 % 256, n % 256]
  {
    var a, b := n / 256, n / 256 / 256;
    assert b == n / 0x1_0000 && b / 256 == n / 0x100_0000;
    assert BigEndian(b / 256, 1) == [b / 256] by {
      assert BigEndian(b / 256 / 256, 0) == [];
    }
    assert BigEndian(b, 2) == BigEndian(b / 256, 1) + [b % 256];
    assert BigEndian(a, 3) == BigEndian(b, 2) + [a % 256];
    assert BigEndian(n, 4) == BigEndian(a, 3) + [n % 256];
    hide BigEndian;
  }

  /** Both conversions keep the number modulo 2^32. */
  lemma SameLowBits(n: int, x: i32)
    ensures (Wrap32(n) - n) % U32_SPAN == 0
    ensures (Pattern(x) - x) % U32_SPAN == 0
  {
  }

  // ---------- exclusive or ----------

  /** Exclusive or of the lowest bits. */
  function LowXor(a: nat, b: nat): nat {
    if a % 2 == b % 2 then 0 else 1
  }

  function Pow2(k: nat): (p: nat)
    ensures p > 0
  {
    if k == 0 then 1 else 2 * Pow2(k - 1)
  }

  /** Bitwise exclusive or of the `k` low bits. */
  function XorBits(a: nat, b: nat, k: nat): (x: nat)
    ensures x < Pow2(k)
  {
    if k == 0 then 0 else 2 * XorBits(a / 2, b / 2, k - 1) + LowXor(a, b)
  }

  lemma ByteRange()
    ensures Pow2(8) == 256
  {
    assert Pow2(4) == 16;
  }

  function XorByte(a: byte, b: byte): (x: byte) {
    ByteRange();
    XorBits(a, b, 8)
  }

  lemma XorBitsHalf(a: nat, b: nat, k: nat)
    requires k > 0
    ensures XorBits(a, b, k) / 2 == XorBits(a / 2, b / 2, k - 1)
    ensures XorBits(a, b, k) % 2 == LowXor(a, b)
  {
    assert XorBits(a, b, k) == 2 * XorBits(a / 2, b / 2, k - 1) + LowXor(a, b);
  }

  lemma {:induction false} XorBitsCommute(a: nat, b: nat, k: nat)
    ensures XorBits(a, b, k) == XorBits(b, a, k)
  {
    if k == 0 {
    } else {
      XorBitsCommute(a / 2, b / 2, k - 1);
    }
  }

  lemma SameHalves(u: nat, v: nat)
    requires u / 2 == v / 2 && u % 2 == v % 2
    ensures u == v
  {
  }

  lemma {:induction false} XorBitsAssociate(a: nat, b: nat, c: nat, k: nat)
    ensures XorBits(XorBits(a, b, k), c, k) == XorBits(a, XorBits(b, c, k), k)
  {
    if k == 0 {
    } else {
      hide XorBits;
      var p, q := XorBits(a, b, k), XorBits(b, c, k);
      XorBitsHalf(a, b, k);
      XorBitsHalf(b, c, k);
      XorBitsHalf(p, c, k);
      XorBitsHalf(a, q, k);
      XorBitsAssociate(a / 2, b / 2, c / 2, k - 1);
      SameHalves(XorBits(p, c, k), XorBits(a, q, k));
    }
  }

  lemma {:induction false} XorBitsZero(a: nat, b: nat, k: nat)
    requires a < Pow2(k) && b < Pow2(k)
    ensures XorBits(a, 0, k) == a
    ensures XorBits(a, b, k) == 0 <==> a == b
  {
    if k == 0 {
    } else {
      XorBitsZero(a / 2, b / 2, k - 1);
    }
  }

  /** Bytes under exclusive or: commutative, associative, every byte its own inverse, zero only for equal bytes. */
  lemma XorByteLaws(a: byte, b: byte, c: byte)
    ensures XorByte(a, b) == XorByte(b, a)
    ensures XorByte(XorByte(a, b), c) == XorByte(a, XorByte(b, c))
    ensures XorByte(a, 0) == a
    ensures XorByte(a, b) == 0 <==> a == b
  {
    ByteRange();
    XorBitsCommute(a, b, 8);
    XorBitsAssociate(a, b, c, 8);
    XorBitsZero(a, b, 8);
  }

  /** Bit `k`, counted from the lowest. */
  function Bit(a: nat, k: nat): nat {
    if k == 0 then a % 2 else Bit(a / 2, k - 1)
  }

  lemma LowBits(a: nat, b: nat)
    ensures LowXor(a, b) == (a % 2 + b % 2) % 2
  {
  }

  lemma {:induction false} BitOfXor(a: nat, b: nat, n: nat, k: nat)
    requires k < n
    ensures Bit(XorBits(a, b, n), k) == (Bit(a, k) + Bit(b, k)) % 2
  {
    XorBitsHalf(a, b, n);
    if k == 0 {
      LowBits(a, b);
    } else {
      BitOfXor(a / 2, b / 2, n - 1, k - 1);
    }
    hide XorBits;
  }

  /** Bit for bit: each bit of the result is the sum of the two bits, without carry. */
  lemma XorBitwise(a: byte, b: byte, k: nat)
    requires k < 8
    ensures Bit(XorByte(a, b), k) == (Bit(a, k) + Bit(b, k)) % 2
  {
    BitOfXor(a, b, 8, k);
  }
}
