/**
 * Types and constants shared by the kernel models: C's unsigned char, the
 * integer widths the kernel relies on, and the error numbers of
 * kernel/include/uapi/errno.h (an enumeration that starts at E2BIG = 1).
 */
module CTypes {

  datatype Option<T> = None | Some(value: T)

  /** What a kernel function does: halt the machine with `kpanic`, or return a value. */
  datatype Outcome<T> = Panic | Return(value: T)

  /** An `unsigned char`; also the bit pattern of a plain `char`. */
  type byte = x: int | 0 <= x < 256

  const UINT32_MOD: int := 0x1_0000_0000
  /** `size_t` and `uint32_t` are 32 bits wide on i386. */
  const SIZE_MAX: int := 0xFFFF_FFFF
  const INT_MAX: int := 0x7FFF_FFFF
  const NUL: byte := 0

  // Error numbers, in the order of the enumeration in errno.h.
  const EBADF: int := 8
  const EEXIST: int := 20
  const EFAULT: int := 21
  const EINVAL: int := 28
  const EIO: int := 29
  const ENAMETOOLONG: int := 37
  const ENFILE: int := 41
  const ENOENT: int := 45
  const ENOMEM: int := 49
  const ENOTDIR: int := 57

  /** Bit `n` of `b`, the `MASK_BIT` macro read as a boolean. */
  predicate BitSet(b: byte, n: nat)
    requires n < 8
  {
    (b / Pow2(n)) % 2 == 1
  }

  function Pow2(n: nat): (r: nat)
    ensures r >= 1
  {
    if n == 0 then 1 else 2 * Pow2(n - 1)
  }

  /** A C string literal of plain ASCII characters as the bytes it denotes. */
  function Ascii(s: string): (r: seq<byte>)
    requires forall i :: 0 <= i < |s| ==> s[i] as int < 256
    ensures |r| == |s|
    ensures forall i :: 0 <= i < |s| ==> r[i] == s[i] as int
  {
    if s == [] then [] else [s[0] as int] + Ascii(s[1..])
  }

  /** Adding to a 32-bit counter step by step wraps like adding in one go. */
  lemma AddMod(a: int, b: int)
    ensures ((a % UINT32_MOD) + b) % UINT32_MOD == (a + b) % UINT32_MOD
  {
  }
}
