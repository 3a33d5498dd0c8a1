/** Unsigned fixed-width integers and their big-endian (network order) byte layout,
    as read by the MRT decoder's `be_u8`, `be_u16` and `be_u32` primitives. */
module Bytes {

  type byte = x: int | 0 <= x < 0x100
  type uint16 = x: int | 0 <= x < 0x1_0000
  type uint32 = x: int | 0 <= x < 0x1_0000_0000

  /** The value of two bytes, most significant first. */
  function U16Of(hi: byte, lo: byte): uint16
  {
    hi * 0x100 + lo
  }

  /** The value of four bytes, most significant first. */
  function U32Of(b0: byte, b1: byte, b2: byte, b3: byte): uint32
  {
    U16Of(b0, b1) * 0x1_0000 + U16Of(b2, b3)
  }

  /** The big-endian 16-bit value stored at offset `i` of `s`. */
  function U16At(s: seq<byte>, i: nat): uint16
    requires i + 2 <= |s|
  {
    U16Of(s[i], s[i + 1])
  }

  /** The big-endian 32-bit value stored at offset `i` of `s`. */
  function U32At(s: seq<byte>, i: nat): uint32
    requires i + 4 <= |s|
  {
    U32Of(s[i], s[i + 1], s[i + 2], s[i + 3])
  }

  /** The two bytes that store `v` big-endian: reading them back gives `v`. */
  function U16Bytes(v: uint16): (b: seq<byte>)
    ensures |b| == 2 && U16At(b, 0) == v
  {
    [v / 0x100, v % 0x100]
  }

  /** The four bytes that store `v` big-endian: reading them back gives `v`. */
  function U32Bytes(v: uint32): (b: seq<byte>)
    ensures |b| == 4 && U32At(b, 0) == v
  {
    U16Bytes(v / 0x1_0000) + U16Bytes(v % 0x1_0000)
  }

  /** Quotient and remainder of a number written in base 0x100. */
  lemma DivMod8(q: nat, r: nat)
    requires r < 0x100
    ensures (q * 0x100 + r) / 0x100 == q && (q * 0x100 + r) % 0x100 == r
  {
  }

  /** Quotient and remainder of a number written in base 0x1_0000. */
  lemma DivMod16(q: nat, r: nat)
    requires r < 0x1_0000
    ensures (q * 0x1_0000 + r) / 0x1_0000 == q && (q * 0x1_0000 + r) % 0x1_0000 == r
  {
  }

  /** Big-endian reading is injective: the bytes are recovered from the value. */
  lemma U16BytesOf(hi: byte, lo: byte)
    ensures U16Bytes(U16Of(hi, lo)) == [hi, lo]
  {
    DivMod8(hi, lo);
  }

  /** Big-endian reading is injective: the bytes are recovered from the value. */
  lemma U32BytesOf(b0: byte, b1: byte, b2: byte, b3: byte)
    ensures U32Bytes(U32Of(b0, b1, b2, b3)) == [b0, b1, b2, b3]
  {
    DivMod16(U16Of(b0, b1), U16Of(b2, b3));
    U16BytesOf(b0, b1);
    U16BytesOf(b2, b3);
  }

  /** Every two-byte window is the encoding of the value read from it. */
  lemma U16AtBytes(s: seq<byte>, i: nat)
    requires i + 2 <= |s|
    ensures s[i..i + 2] == U16Bytes(U16At(s, i))
  {
    U16BytesOf(s[i], s[i + 1]);
  }

  /** Every four-byte window is the encoding of the value read from it. */
  lemma U32AtBytes(s: seq<byte>, i: nat)
    requires i + 4 <= |s|
    ensures s[i..i + 4] == U32Bytes(U32At(s, i))
  {
    U32BytesOf(s[i], s[i + 1], s[i + 2], s[i + 3]);
  }
}
