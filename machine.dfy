/** Fixed-width unsigned machine integers, as mathematical integers with the
    wrap-around of C's unsigned arithmetic written out. */
module Machine {

  const Two32: int := 0x1_0000_0000
  const Two64: int := 0x1_0000_0000_0000_0000

  type u8 = x: int | 0 <= x < 0x100
  type u32 = x: int | 0 <= x < 0x1_0000_0000
  type u64 = x: int | 0 <= x < 0x1_0000_0000_0000_0000

  /** C's conversion of an integer to `uint32_t`: reduction modulo 2^32. */
  function Wrap32(x: int): u32
  {
    x % Two32
  }

  /** C's conversion of an integer to `uint64_t`: reduction modulo 2^64. */
  function Wrap64(x: int): u64
  {
    x % Two64
  }

  /** Reduction leaves a value already in range as it is. */
  lemma Wrap64InRange(x: int)
    requires 0 <= x < Two64
    ensures Wrap64(x) == x
  {
  }
}
