/** Machine words and the small wrappers every component shares. */
module Machine {

  /** A `char`, unsigned as the ARM compilers define it. */
  type byte = x: int | 0 <= x < 256

  /** `ulong`, `u32` and `uint32_t` are 32 bits wide on this target. */
  const TWO_32: int := 0x1_0000_0000
  type u32 = x: int | 0 <= x < TWO_32

  /** The 32-bit sum or difference of two words. */
  function Wrap(x: int): u32
    requires -TWO_32 <= x < 2 * TWO_32
  {
    if x < 0 then x + TWO_32 else if x < TWO_32 then x else x - TWO_32
  }

  /** `u64` and `unsigned long long`. */
  const TWO_64: int := 0x1_0000_0000_0000_0000
  type u64 = x: int | 0 <= x < TWO_64

  datatype Option<+T> = None | Some(value: T)
}
