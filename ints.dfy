/** The fixed-width integers of the Swift program, as bounded mathematical integers.
    Arithmetic that would trap in Swift is excluded by the bounds of these types. */
module Ints {
  const TWO_64: int := 0x1_0000_0000_0000_0000

  type u64 = x: int | 0 <= x < TWO_64
  type u32 = x: int | 0 <= x < 0x1_0000_0000
  type u16 = x: int | 0 <= x < 0x1_0000
  type u8 = x: int | 0 <= x < 0x100
  type i64 = x: int | -0x8000_0000_0000_0000 <= x < 0x8000_0000_0000_0000

  /** `UInt64.max`: the word value both stores reserve as the "deleted" sentinel. */
  const UINT64_MAX: u64 := 0xFFFF_FFFF_FFFF_FFFF

  /** `Int.max` on the 64-bit platforms the package is built for. */
  const INT_MAX: int := 0x7FFF_FFFF_FFFF_FFFF

  /** The largest word offset `o` for which `Int(o) * 8` does not trap. */
  const MAX_WORD_OFFSET: int := INT_MAX / 8

  function Min(a: int, b: int): int { if a <= b then a else b }
  function Max(a: int, b: int): int { if a <= b then b else a }

  /** The shift amounts the program uses: multiples of 8 below 64. */
  predicate IsShift(n: nat) { n in {0, 8, 16, 24, 32, 40, 48, 56} }

  function Pow2(n: nat): (r: nat)
    requires IsShift(n)
  {
    if n == 0 then 1
    else if n == 8 then 0x100
    else if n == 16 then 0x1_0000
    else if n == 24 then 0x100_0000
    else if n == 32 then 0x1_0000_0000
    else if n == 40 then 0x100_0000_0000
    else if n == 48 then 0x1_0000_0000_0000
    else 0x100_0000_0000_0000
  }

  /** Swift's `x << n` on `UInt64`: the bits shifted past bit 63 are lost. */
  function Shl(x: u64, n: nat): u64
    requires IsShift(n)
  {
    (x * Pow2(n)) % TWO_64
  }

  /** Swift's `x >> n` on `UInt64`. */
  function Shr(x: u64, n: nat): u64
    requires IsShift(n)
  {
    x / Pow2(n)
  }
}
