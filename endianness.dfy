/**
 * Byte-order swapping of kernel/utils/endianness.c and the conversions of
 * kernel/include/endianness.h on the little-endian i386 target.
 */
module Endianness {

  /** Byte `k` of a 16-bit value, byte 0 the least significant. */
  function Byte16(n: bv16, k: int): bv8
    requires 0 <= k < 2
  {
    if k == 0 then (n & 0xFF) as bv8 else (n >> 8) as bv8
  }

  /** Byte `k` of a 32-bit value, byte 0 the least significant. */
  function Byte32(n: bv32, k: int): bv8
    requires 0 <= k < 4
  {
    if k == 0 then (n & 0xFF) as bv8
    else if k == 1 then ((n >> 8) & 0xFF) as bv8
    else if k == 2 then ((n >> 16) & 0xFF) as bv8
    else (n >> 24) as bv8
  }

  /** The 32-bit value whose bytes, least significant first, are `b0` to `b3`. */
  function Word32(b0: bv8, b1: bv8, b2: bv8, b3: bv8): bv32
  {
    b0 as bv32 | (b1 as bv32 << 8) | (b2 as bv32 << 16) | (b3 as bv32 << 24)
  }

  /** A value is the word of its own bytes. */
  lemma WordOfBytes(n: bv32)
    ensures Word32(Byte32(n, 0), Byte32(n, 1), Byte32(n, 2), Byte32(n, 3)) == n
  {
  }

  /** `swap16`: the two bytes exchanged. */
  function Swap16(n: bv16): (r: bv16)
    ensures Byte16(r, 0) == Byte16(n, 1) && Byte16(r, 1) == Byte16(n, 0)
  {
    (n >> 8) | (n << 8)
  }

  /** `swap32`: the four bytes in reverse order. */
  function Swap32(n: bv32): (r: bv32)
    ensures Byte32(r, 0) == Byte32(n, 3) && Byte32(r, 1) == Byte32(n, 2)
    ensures Byte32(r, 2) == Byte32(n, 1) && Byte32(r, 3) == Byte32(n, 0)
  {
    ((n >> 24) & 0x0000_00FF) | ((n >> 8) & 0x0000_FF00) | ((n << 8) & 0x00FF_0000) | ((n << 24) & 0xFF00_0000)
  }

  /** Swapping twice gives back the value. */
  lemma Swap16Involution(n: bv16)
    ensures Swap16(Swap16(n)) == n
  {
  }

  /** Swapping twice gives back the value. */
  lemma Swap32Involution(n: bv32)
    ensures Swap32(Swap32(n)) == n
  {
    var r := Swap32(Swap32(n));
    assert Byte32(r, 0) == Byte32(n, 0) && Byte32(r, 1) == Byte32(n, 1);
    assert Byte32(r, 2) == Byte32(n, 2) && Byte32(r, 3) == Byte32(n, 3);
    WordOfBytes(r);
    WordOfBytes(n);
  }

  /** `be32ton` on a little-endian machine. */
  function Be32ToNative(n: bv32): bv32
  {
    Swap32(n)
  }

  /** `le32ton` on a little-endian machine. */
  function Le32ToNative(n: bv32): bv32
  {
    n
  }

  /**
   * Four bytes stored big-endian, loaded as a little-endian word and passed
   * through `be32ton`, give the big-endian value; `le32ton` leaves a
   * little-endian load as it is.
   */
  lemma BigEndianLoad(b0: bv8, b1: bv8, b2: bv8, b3: bv8)
    ensures Be32ToNative(Word32(b0, b1, b2, b3)) == Word32(b3, b2, b1, b0)
    ensures Le32ToNative(Word32(b0, b1, b2, b3)) == Word32(b0, b1, b2, b3)
  {
    var w := Word32(b0, b1, b2, b3);
    assert Byte32(w, 0) == b0 && Byte32(w, 1) == b1 && Byte32(w, 2) == b2 && Byte32(w, 3) == b3;
    var r := Swap32(w);
    assert Byte32(r, 0) == b3 && Byte32(r, 1) == b2 && Byte32(r, 2) == b1 && Byte32(r, 3) == b0;
    WordOfBytes(r);
  }
}
