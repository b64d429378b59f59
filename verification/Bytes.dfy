/** Octets and the unsigned machine words of the C++ code, as integers. */
module Bytes {

  type byte = x: int | 0 <= x < 256

  function Pow256(k: nat): int { if k == 0 then 1 else 256 * Pow256(k - 1) }

  /** Unsigned 32-bit arithmetic wraps. */
  function U32(x: int): (r: int)
    ensures 0 <= r < 0x1_0000_0000
    ensures 0 <= x < 0x1_0000_0000 ==> r == x
  {
    x % 0x1_0000_0000
  }

  /** Unsigned 64-bit arithmetic wraps. */
  function U64(x: int): (r: int)
    ensures 0 <= r < 0x1_0000_0000_0000_0000
    ensures 0 <= x < 0x1_0000_0000_0000_0000 ==> r == x
  {
    x % 0x1_0000_0000_0000_0000
  }

  /** Conversion to a signed 32-bit integer keeps the lowest 32 bits. */
  function Int32(x: int): (r: int)
    ensures -0x8000_0000 <= r < 0x8000_0000
    ensures -0x8000_0000 <= x < 0x8000_0000 ==> r == x
  {
    U32(x + 0x8000_0000) - 0x8000_0000
  }
}
