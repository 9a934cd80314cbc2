/** Fixed-width unsigned integers and the byte orders used by the BMP headers.
    A byte of the file is a `byte` (0..255); C's `uint16_t` and `uint32_t` are
    `u16` and `u32`, and unsigned 32-bit wrap-around is written out with `Wrap32`. */
module ByteCodec {

  type byte = x: nat | x < 0x100
  type u16 = x: nat | x < 0x1_0000
  type u32 = x: nat | x < 0x1_0000_0000

  const U32_MODULUS: nat := 0x1_0000_0000

  /** Unsigned 32-bit arithmetic: the result of a `uint32_t` operation. */
  function Wrap32(x: nat): (r: u32)
    ensures x < U32_MODULUS ==> r == x
    ensures (x - r) % U32_MODULUS == 0
  {
    x % U32_MODULUS
  }

  function Pow2(k: nat): (p: nat)
    ensures p >= 1
  {
    if k == 0 then 1 else 2 * Pow2(k - 1)
  }

  /** C's bitwise `|` on unsigned values, bit by bit from the lowest. */
  function BitOr(a: nat, b: nat): (r: nat)
    ensures r == 0 <==> a == 0 && b == 0
    ensures a == 0 ==> r == b
    ensures b == 0 ==> r == a
    decreases a + b
  {
    if a == 0 then b
    else if b == 0 then a
    else 2 * BitOr(a / 2, b / 2) + (if a % 2 == 1 || b % 2 == 1 then 1 else 0)
  }

  /** OR-ing two `k`-bit values gives a `k`-bit value. */
  lemma {:induction false} BitOrBound(a: nat, b: nat, k: nat)
    requires a < Pow2(k) && b < Pow2(k)
    ensures BitOr(a, b) < Pow2(k)
  {
    if a != 0 && b != 0 {
      BitOrBound(a / 2, b / 2, k - 1);
    }
  }

  /** Bit 0 of the OR is set exactly when bit 0 of either operand is, and
      the higher bits are the OR of the higher bits. */
  lemma BitOrLowBit(a: nat, b: nat)
    ensures BitOr(a, b) % 2 == (if a % 2 == 1 || b % 2 == 1 then 1 else 0)
    ensures BitOr(a, b) / 2 == BitOr(a / 2, b / 2)
  {
  }

  /** `(buf[off+1] << 8) | buf[off]`: least significant byte first. */
  function LeU16(s: seq<byte>, off: nat): (r: u16)
    requires off + 2 <= |s|
    ensures r % 0x100 == s[off] && r / 0x100 == s[off + 1]
  {
    SplitByte(s[off], s[off + 1]);
    s[off] as nat + 0x100 * s[off + 1] as nat
  }

  /** `(buf[off] << 8) | buf[off+1]`: most significant byte first. */
  function BeU16(s: seq<byte>, off: nat): (r: u16)
    requires off + 2 <= |s|
    ensures r / 0x100 == s[off] && r % 0x100 == s[off + 1]
  {
    SplitByte(s[off + 1], s[off]);
    0x100 * s[off] as nat + s[off + 1] as nat
  }

  /** `(buf[off+3] << 24) | (buf[off+2] << 16) | (buf[off+1] << 8) | buf[off]`.
      The shifted bytes occupy disjoint bits, so the OR is their sum. */
  function LeU32(s: seq<byte>, off: nat): (r: u32)
    requires off + 4 <= |s|
    ensures r % 0x100 == s[off]
    ensures r / 0x100 % 0x100 == s[off + 1]
    ensures r / 0x100 / 0x100 % 0x100 == s[off + 2]
    ensures r / 0x100 / 0x100 / 0x100 == s[off + 3]
  {
    var b0, b1, b2, b3 := s[off] as nat, s[off + 1] as nat, s[off + 2] as nat, s[off + 3] as nat;
    var h2 := b2 + 0x100 * b3;
    var h1 := b1 + 0x100 * h2;
    SplitByte(b0, h1);
    SplitByte(b1, h2);
    SplitByte(b2, b3);
    b0 + 0x100 * h1
  }

  /** The two bytes a little-endian 16-bit field occupies on disk. */
  function EncodeLe16(x: u16): (r: seq<byte>)
    ensures |r| == 2
  {
    [x % 0x100, x / 0x100]
  }

  /** The two bytes a big-endian 16-bit field occupies on disk. */
  function EncodeBe16(x: u16): (r: seq<byte>)
    ensures |r| == 2
  {
    [x / 0x100, x % 0x100]
  }

  /** The four bytes a little-endian 32-bit field occupies on disk. */
  function EncodeLe32(x: u32): (r: seq<byte>)
    ensures |r| == 4
  {
    [x % 0x100, x / 0x100 % 0x100, x / 0x100 / 0x100 % 0x100, x / 0x100 / 0x100 / 0x100]
  }

  /** Splitting `lo + 256 * hi` back into its low byte and the rest. */
  lemma SplitByte(lo: nat, hi: nat)
    requires lo < 0x100
    ensures (lo + 0x100 * hi) % 0x100 == lo
    ensures (lo + 0x100 * hi) / 0x100 == hi
  {
  }

  lemma Le16RoundTrip(x: u16)
    ensures LeU16(EncodeLe16(x), 0) == x
  {
  }

  lemma Le16Canonical(s: seq<byte>, off: nat)
    requires off + 2 <= |s|
    ensures EncodeLe16(LeU16(s, off)) == s[off..off + 2]
  {
    SplitByte(s[off], s[off + 1]);
  }

  lemma Be16RoundTrip(x: u16)
    ensures BeU16(EncodeBe16(x), 0) == x
  {
  }

  lemma Be16Canonical(s: seq<byte>, off: nat)
    requires off + 2 <= |s|
    ensures EncodeBe16(BeU16(s, off)) == s[off..off + 2]
  {
    SplitByte(s[off + 1], s[off]);
  }

  lemma {:induction false} Le32RoundTrip(x: u32)
    ensures LeU32(EncodeLe32(x), 0) == x
  {
    var q1 := x / 0x100;
    var q2 := q1 / 0x100;
    var q3 := q2 / 0x100;
    assert x == x % 0x100 + 0x100 * q1;
    assert q1 == q1 % 0x100 + 0x100 * q2;
    assert q2 == q2 % 0x100 + 0x100 * q3;
  }

  lemma {:induction false} Le32Canonical(s: seq<byte>, off: nat)
    requires off + 4 <= |s|
    ensures EncodeLe32(LeU32(s, off)) == s[off..off + 4]
  {
    var b0, b1, b2, b3 := s[off] as nat, s[off + 1] as nat, s[off + 2] as nat, s[off + 3] as nat;
    var x := LeU32(s, off);
    var h2 := b2 + 0x100 * b3;
    var h1 := b1 + 0x100 * h2;
    assert x == b0 + 0x100 * h1;
    SplitByte(b0, h1);
    SplitByte(b1, h2);
    SplitByte(b2, b3);
  }
}
