/** The `UInt64` extension: joining 32-, 16- and 8-bit limbs into a word, most
    significant limb first, splitting a word back into limbs, and the `Int64`
    bit-pattern conversions. Swift's shifts are `Ints.Shl` and `Ints.Shr`. */
module UInt64Extension {
  import opened Ints

  /** A shift that moves no set bit past bit 63 is a multiplication. */
  lemma ShlFits(x: u64, n: nat)
    requires IsShift(n) && x * Pow2(n) < TWO_64
    ensures Shl(x, n) == x * Pow2(n)
  {}

  /** The 8, 16 and 32 bits of `x` that start at bit `n`. */
  function Bits8(x: u64, n: nat): u8 requires IsShift(n) { Shr(x, n) % 0x100 }
  function Bits16(x: u64, n: nat): u16 requires IsShift(n) { Shr(x, n) % 0x1_0000 }
  function Bits32(x: u64, n: nat): u32 requires IsShift(n) { Shr(x, n) % 0x1_0000_0000 }

  // ---------------------------------------------------------------- joining

  /** `init(_ tuple: (UInt32, UInt32))`. The shifted limbs occupy disjoint bits, so the
      `+` never overflows: the word is the positional value of the limbs. */
  function Join32(t: (u32, u32)): (r: u64)
    ensures r == t.0 * 0x1_0000_0000 + t.1
  {
    ShlFits(t.0, 32);
    Shl(t.0, 32) + t.1
  }

  /** `init(_ tuple: (UInt16, UInt16, UInt16, UInt16))`, without overflow. */
  function Join16(t: (u16, u16, u16, u16)): (r: u64)
    ensures r == t.0 * 0x1_0000_0000_0000 + t.1 * 0x1_0000_0000 + t.2 * 0x1_0000 + t.3
  {
    ShlFits(t.0, 48); ShlFits(t.1, 32); ShlFits(t.2, 16);
    Shl(t.0, 48) + Shl(t.1, 32) + Shl(t.2, 16) + t.3
  }

  /** `init(_ tuple: (UInt8, ... , UInt8))` over eight bytes, without overflow. */
  function Join8(t: (u8, u8, u8, u8, u8, u8, u8, u8)): (r: u64)
    ensures r == t.0 * 0x100_0000_0000_0000 + t.1 * 0x1_0000_0000_0000 + t.2 * 0x100_0000_0000
               + t.3 * 0x1_0000_0000 + t.4 * 0x100_0000 + t.5 * 0x1_0000 + t.6 * 0x100 + t.7
  {
    ShlFits(t.0, 56); ShlFits(t.1, 48); ShlFits(t.2, 40); ShlFits(t.3, 32);
    ShlFits(t.4, 24); ShlFits(t.5, 16); ShlFits(t.6, 8);
    Shl(t.0, 56) + Shl(t.1, 48) + Shl(t.2, 40) + Shl(t.3, 32) + Shl(t.4, 24) + Shl(t.5, 16) + Shl(t.6, 8) + t.7
  }

  // -------------------------------------------------------------- splitting

  /** `split() -> (UInt32, UInt32)`. */
  function Split32(x: u64): (u32, u32) {
    (Shr(x, 32), Shr(Shl(x, 32), 32))
  }

  /** `split() -> (UInt16, UInt16, UInt16, UInt16)`. */
  function Split16(x: u64): (u16, u16, u16, u16) {
    (Shr(x, 48), Shr(Shl(x, 16), 48), Shr(Shl(x, 32), 48), Shr(Shl(x, 48), 48))
  }

  /** `split() -> (UInt8, ... , UInt8)` into eight bytes. */
  function Split8(x: u64): (u8, u8, u8, u8, u8, u8, u8, u8) {
    (Shr(x, 56), Shr(Shl(x, 8), 56), Shr(Shl(x, 16), 56), Shr(Shl(x, 24), 56),
     Shr(Shl(x, 32), 56), Shr(Shl(x, 40), 56), Shr(Shl(x, 48), 56), Shr(Shl(x, 56), 56))
  }

  // ------------------------------------------------ which bits each limb holds

  /** Element 0 of the pair is the high half of the word, element 1 the low half. */
  lemma Split32Limbs(x: u64)
    ensures Split32(x) == (Bits32(x, 32), Bits32(x, 0))
  {
    Limb32Of32(x);
  }

  lemma Limb32Of32(x: u64) ensures Shr(Shl(x, 32), 32) == Bits32(x, 0) {
    var lo := x % 0x1_0000_0000;
    DropHigh(x, x / 0x1_0000_0000, lo, 0x1_0000_0000, 0x1_0000_0000);
    DivExact(lo * 0x1_0000_0000, lo, 0, 0x1_0000_0000);
  }

  /** Element `k` of the four-limb form holds bits `48 - 16k` to `63 - 16k`. */
  lemma Split16Limbs(x: u64)
    ensures Split16(x) == (Bits16(x, 48), Bits16(x, 32), Bits16(x, 16), Bits16(x, 0))
  {
    Limb16Of16(x); Limb16Of32(x); Limb16Of48(x);
  }

  lemma Limb16Of16(x: u64) ensures Shr(Shl(x, 16), 48) == Bits16(x, 32) {
    var lo := x % 0x1_0000_0000_0000;
    DropHigh(x, x / 0x1_0000_0000_0000, lo, 0x1_0000, 0x1_0000_0000_0000);
    var q, r := lo / 0x1_0000_0000, lo % 0x1_0000_0000;
    DivExact(lo * 0x1_0000, q, r * 0x1_0000, 0x1_0000_0000_0000);
    Digit16(x, x / 0x1_0000_0000_0000, q, r, 0x1_0000_0000);
  }
  lemma Limb16Of32(x: u64) ensures Shr(Shl(x, 32), 48) == Bits16(x, 16) {
    var lo := x % 0x1_0000_0000;
    DropHigh(x, x / 0x1_0000_0000, lo, 0x1_0000_0000, 0x1_0000_0000);
    var q, r := lo / 0x1_0000, lo % 0x1_0000;
    DivExact(lo * 0x1_0000_0000, q, r * 0x1_0000_0000, 0x1_0000_0000_0000);
    Digit16(x, x / 0x1_0000_0000, q, r, 0x1_0000);
  }
  lemma Limb16Of48(x: u64) ensures Shr(Shl(x, 48), 48) == Bits16(x, 0) {
    var lo := x % 0x1_0000;
    DropHigh(x, x / 0x1_0000, lo, 0x1_0000_0000_0000, 0x1_0000);
    var q, r := lo / 0x1, lo % 0x1;
    DivExact(lo * 0x1_0000_0000_0000, q, r * 0x1_0000_0000_0000, 0x1_0000_0000_0000);
    Digit16(x, x / 0x1_0000, q, r, 0x1);
  }

  /** Element `k` of the eight-byte form holds bits `56 - 8k` to `63 - 8k`: element 0
      is the most significant byte, element 7 the least significant one. */
  lemma Split8Limbs(x: u64)
    ensures Split8(x) == (Bits8(x, 56), Bits8(x, 48), Bits8(x, 40), Bits8(x, 32),
                          Bits8(x, 24), Bits8(x, 16), Bits8(x, 8), Bits8(x, 0))
  {
    Limb8Of8(x); Limb8Of16(x); Limb8Of24(x); Limb8Of32(x); Limb8Of40(x); Limb8Of48(x); Limb8Of56(x);
  }

  lemma Limb8Of8(x: u64) ensures Shr(Shl(x, 8), 56) == Bits8(x, 48) {
    var lo := x % 0x100_0000_0000_0000;
    DropHigh(x, x / 0x100_0000_0000_0000, lo, 0x100, 0x100_0000_0000_0000);
    var q, r := lo / 0x1_0000_0000_0000, lo % 0x1_0000_0000_0000;
    DivExact(lo * 0x100, q, r * 0x100, 0x100_0000_0000_0000);
    Digit8(x, x / 0x100_0000_0000_0000, q, r, 0x1_0000_0000_0000);
  }
  lemma Limb8Of16(x: u64) ensures Shr(Shl(x, 16), 56) == Bits8(x, 40) {
    var lo := x % 0x1_0000_0000_0000;
    DropHigh(x, x / 0x1_0000_0000_0000, lo, 0x1_0000, 0x1_0000_0000_0000);
    var q, r := lo / 0x100_0000_0000, lo % 0x100_0000_0000;
    DivExact(lo * 0x1_0000, q, r * 0x1_0000, 0x100_0000_0000_0000);
    Digit8(x, x / 0x1_0000_0000_0000, q, r, 0x100_0000_0000);
  }
  lemma Limb8Of24(x: u64) ensures Shr(Shl(x, 24), 56) == Bits8(x, 32) {
    var lo := x % 0x100_0000_0000;
    DropHigh(x, x / 0x100_0000_0000, lo, 0x100_0000, 0x100_0000_0000);
    var q, r := lo / 0x1_0000_0000, lo % 0x1_0000_0000;
    DivExact(lo * 0x100_0000, q, r * 0x100_0000, 0x100_0000_0000_0000);
    Digit8(x, x / 0x100_0000_0000, q, r, 0x1_0000_0000);
  }
  lemma Limb8Of32(x: u64) ensures Shr(Shl(x, 32), 56) == Bits8(x, 24) {
    var lo := x % 0x1_0000_0000;
    DropHigh(x, x / 0x1_0000_0000, lo, 0x1_0000_0000, 0x1_0000_0000);
    var q, r := lo / 0x100_0000, lo % 0x100_0000;
    DivExact(lo * 0x1_0000_0000, q, r * 0x1_0000_0000, 0x100_0000_0000_0000);
    Digit8(x, x / 0x1_0000_0000, q, r, 0x100_0000);
  }
  lemma Limb8Of40(x: u64) ensures Shr(Shl(x, 40), 56) == Bits8(x, 16) {
    var lo := x % 0x100_0000;
    DropHigh(x, x / 0x100_0000, lo, 0x100_0000_0000, 0x100_0000);
    var q, r := lo / 0x1_0000, lo % 0x1_0000;
    DivExact(lo * 0x100_0000_0000, q, r * 0x100_0000_0000, 0x100_0000_0000_0000);
    Digit8(x, x / 0x100_0000, q, r, 0x1_0000);
  }
  lemma Limb8Of48(x: u64) ensures Shr(Shl(x, 48), 56) == Bits8(x, 8) {
    var lo := x % 0x1_0000;
    DropHigh(x, x / 0x1_0000, lo, 0x1_0000_0000_0000, 0x1_0000);
    var q, r := lo / 0x100, lo % 0x100;
    DivExact(lo * 0x1_0000_0000_0000, q, r * 0x1_0000_0000_0000, 0x100_0000_0000_0000);
    Digit8(x, x / 0x1_0000, q, r, 0x100);
  }
  lemma Limb8Of56(x: u64) ensures Shr(Shl(x, 56), 56) == Bits8(x, 0) {
    var lo := x % 0x100;
    DropHigh(x, x / 0x100, lo, 0x100_0000_0000_0000, 0x100);
    var q, r := lo / 0x1, lo % 0x1;
    DivExact(lo * 0x100_0000_0000_0000, q, r * 0x100_0000_0000_0000, 0x100_0000_0000_0000);
    Digit8(x, x / 0x100, q, r, 0x1);
  }

  // ----------------------------------------------------- division by powers

  /** The powers of two that the shifts divide and multiply by. */
  predicate IsPower(p: int) {
    p == 1 || p == 0x100 || p == 0x1_0000 || p == 0x100_0000 || p == 0x1_0000_0000
    || p == 0x100_0000_0000 || p == 0x1_0000_0000_0000 || p == 0x100_0000_0000_0000
  }

  /** Division by a power is determined by quotient and remainder. */
  lemma DivExact(x: int, q: int, r: int, p: int)
    requires IsPower(p) && 0 <= r < p && x == q * p + r
    ensures x / p == q && x % p == r
  {}

  /** Reducing modulo 2^64 drops whole multiples of it. */
  lemma Wrap(hi: int, y: int)
    requires 0 <= y < TWO_64
    ensures (hi * TWO_64 + y) % TWO_64 == y
  {}

  /** `x << n` keeps the bits of `x` below `64 - n`, moved up by `n`: with
      `x == hi * p + lo` and `p * 2^n == 2^64`, the shift is `lo * 2^n`. */
  lemma DropHigh(x: u64, hi: int, lo: int, s: int, p: int)
    requires (s == 0x100 && p == 0x100_0000_0000_0000) || (s == 0x1_0000 && p == 0x1_0000_0000_0000)
          || (s == 0x100_0000 && p == 0x100_0000_0000) || (s == 0x1_0000_0000 && p == 0x1_0000_0000)
          || (s == 0x100_0000_0000 && p == 0x100_0000) || (s == 0x1_0000_0000_0000 && p == 0x1_0000)
          || (s == 0x100_0000_0000_0000 && p == 0x100)
    requires x == hi * p + lo && 0 <= lo < p
    ensures (x * s) % TWO_64 == lo * s
  {
    assert x * s == hi * TWO_64 + lo * s;
    Wrap(hi, lo * s);
  }

  // ------------------------------------------------------------ round trips

  /** Peeling the low byte off `x >> n`. */
  lemma Peel8(x: u64, n: nat)
    requires IsShift(n) && n < 56
    ensures Shr(x, n) == Shr(x, n + 8) * 0x100 + Bits8(x, n)
  {
    if n == 0 { Peel8At0(x); } else if n == 8 { Peel8At8(x); } else if n == 16 { Peel8At16(x); }
    else if n == 24 { Peel8At24(x); } else if n == 32 { Peel8At32(x); } else if n == 40 { Peel8At40(x); }
    else { Peel8At48(x); }
  }

  lemma Peel8At0(x: u64) ensures Shr(x, 0) == Shr(x, 8) * 0x100 + Bits8(x, 0) {
    var a := x / 0x1;
    DivExact(x, a / 0x100, (a % 0x100) * 0x1 + x % 0x1, 0x100);
  }
  lemma Peel8At8(x: u64) ensures Shr(x, 8) == Shr(x, 16) * 0x100 + Bits8(x, 8) {
    var a := x / 0x100;
    DivExact(x, a / 0x100, (a % 0x100) * 0x100 + x % 0x100, 0x1_0000);
  }
  lemma Peel8At16(x: u64) ensures Shr(x, 16) == Shr(x, 24) * 0x100 + Bits8(x, 16) {
    var a := x / 0x1_0000;
    DivExact(x, a / 0x100, (a % 0x100) * 0x1_0000 + x % 0x1_0000, 0x100_0000);
  }
  lemma Peel8At24(x: u64) ensures Shr(x, 24) == Shr(x, 32) * 0x100 + Bits8(x, 24) {
    var a := x / 0x100_0000;
    DivExact(x, a / 0x100, (a % 0x100) * 0x100_0000 + x % 0x100_0000, 0x1_0000_0000);
  }
  lemma Peel8At32(x: u64) ensures Shr(x, 32) == Shr(x, 40) * 0x100 + Bits8(x, 32) {
    var a := x / 0x1_0000_0000;
    DivExact(x, a / 0x100, (a % 0x100) * 0x1_0000_0000 + x % 0x1_0000_0000, 0x100_0000_0000);
  }
  lemma Peel8At40(x: u64) ensures Shr(x, 40) == Shr(x, 48) * 0x100 + Bits8(x, 40) {
    var a := x / 0x100_0000_0000;
    DivExact(x, a / 0x100, (a % 0x100) * 0x100_0000_0000 + x % 0x100_0000_0000, 0x1_0000_0000_0000);
  }
  lemma Peel8At48(x: u64) ensures Shr(x, 48) == Shr(x, 56) * 0x100 + Bits8(x, 48) {
    var a := x / 0x1_0000_0000_0000;
    DivExact(x, a / 0x100, (a % 0x100) * 0x1_0000_0000_0000 + x % 0x1_0000_0000_0000, 0x100_0000_0000_0000);
  }

  /** Peeling the low 16 bits off `x >> n`. */
  lemma Peel16(x: u64, n: nat)
    requires n == 0 || n == 16 || n == 32
    ensures Shr(x, n) == Shr(x, n + 16) * 0x1_0000 + Bits16(x, n)
  {
    if n == 0 { Peel16At0(x); } else if n == 16 { Peel16At16(x); } else { Peel16At32(x); }
  }

  lemma Peel16At0(x: u64) ensures Shr(x, 0) == Shr(x, 16) * 0x1_0000 + Bits16(x, 0) {
    var a := x / 0x1;
    DivExact(x, a / 0x1_0000, (a % 0x1_0000) * 0x1 + x % 0x1, 0x1_0000);
  }
  lemma Peel16At16(x: u64) ensures Shr(x, 16) == Shr(x, 32) * 0x1_0000 + Bits16(x, 16) {
    var a := x / 0x1_0000;
    DivExact(x, a / 0x1_0000, (a % 0x1_0000) * 0x1_0000 + x % 0x1_0000, 0x1_0000_0000);
  }
  lemma Peel16At32(x: u64) ensures Shr(x, 32) == Shr(x, 48) * 0x1_0000 + Bits16(x, 32) {
    var a := x / 0x1_0000_0000;
    DivExact(x, a / 0x1_0000, (a % 0x1_0000) * 0x1_0000_0000 + x % 0x1_0000_0000, 0x1_0000_0000_0000);
  }

  /** The digit `d` sits at position `p` of `x`: what `Bits8` reads back. */
  lemma Digit8(x: int, hi: int, d: int, lo: int, p: int)
    requires p == 1 || p == 0x100 || p == 0x1_0000 || p == 0x100_0000 || p == 0x1_0000_0000
          || p == 0x100_0000_0000 || p == 0x1_0000_0000_0000 || p == 0x100_0000_0000_0000
    requires 0 <= d < 0x100 && 0 <= lo < p && x == (hi * 0x100 + d) * p + lo
    ensures (x / p) % 0x100 == d
  {
    assert x / p == hi * 0x100 + d;
  }

  /** The same for a 16-bit digit. */
  lemma Digit16(x: int, hi: int, d: int, lo: int, p: int)
    requires p == 1 || p == 0x1_0000 || p == 0x1_0000_0000 || p == 0x1_0000_0000_0000
    requires 0 <= d < 0x1_0000 && 0 <= lo < p && x == (hi * 0x1_0000 + d) * p + lo
    ensures (x / p) % 0x1_0000 == d
  {
    assert x / p == hi * 0x1_0000 + d;
  }

  lemma JoinSplit32(x: u64)
    ensures Join32(Split32(x)) == x
  {
    Split32Limbs(x);
    assert x == Shr(x, 32) * 0x1_0000_0000 + Bits32(x, 0);
  }

  lemma SplitJoin32(t: (u32, u32))
    ensures Split32(Join32(t)) == t
  {
    var x := Join32(t);
    Split32Limbs(x);
  }

  lemma JoinSplit16(x: u64)
    ensures Join16(Split16(x)) == x
  {
    Split16Limbs(x);
    Peel16(x, 0); Peel16(x, 16); Peel16(x, 32);
    Positional16(x, Shr(x, 16), Shr(x, 32), Shr(x, 48), Bits16(x, 0), Bits16(x, 16), Bits16(x, 32));
  }

  lemma Positional16(x: int, q1: int, q2: int, q3: int, r0: int, r1: int, r2: int)
    requires x == q1 * 0x1_0000 + r0 && q1 == q2 * 0x1_0000 + r1 && q2 == q3 * 0x1_0000 + r2
    ensures x == q3 * 0x1_0000_0000_0000 + r2 * 0x1_0000_0000 + r1 * 0x1_0000 + r0
  {}

  lemma SplitJoin16(t: (u16, u16, u16, u16))
    ensures Split16(Join16(t)) == t
  {
    var x := Join16(t);
    Split16Limbs(x);
    Digit16(x, 0, t.0, t.1 * 0x1_0000_0000 + t.2 * 0x1_0000 + t.3, 0x1_0000_0000_0000);
    Digit16(x, t.0, t.1, t.2 * 0x1_0000 + t.3, 0x1_0000_0000);
    Digit16(x, t.0 * 0x1_0000 + t.1, t.2, t.3, 0x1_0000);
    Digit16(x, t.0 * 0x1_0000_0000 + t.1 * 0x1_0000 + t.2, t.3, 0, 1);
  }

  lemma JoinSplit8(x: u64)
    ensures Join8(Split8(x)) == x
  {
    Split8Limbs(x);
    Bytes8(x);
  }

  /** A word is the positional value of its eight bytes. */
  lemma Bytes8(x: u64)
    ensures x == Bits8(x, 56) * 0x100_0000_0000_0000 + Bits8(x, 48) * 0x1_0000_0000_0000
               + Bits8(x, 40) * 0x100_0000_0000 + Bits8(x, 32) * 0x1_0000_0000 + Bits8(x, 24) * 0x100_0000
               + Bits8(x, 16) * 0x1_0000 + Bits8(x, 8) * 0x100 + Bits8(x, 0)
  {
    Peel8(x, 0); Peel8(x, 8); Peel8(x, 16); Peel8(x, 24);
    Peel8(x, 32); Peel8(x, 40); Peel8(x, 48);
    assert Shr(x, 56) == Bits8(x, 56);
    Positional8(x, Shr(x, 8), Shr(x, 16), Shr(x, 24), Shr(x, 32), Shr(x, 40), Shr(x, 48), Shr(x, 56),
      Bits8(x, 0), Bits8(x, 8), Bits8(x, 16), Bits8(x, 24), Bits8(x, 32), Bits8(x, 40), Bits8(x, 48));
  }

  lemma Positional8(x: int, q1: int, q2: int, q3: int, q4: int, q5: int, q6: int, q7: int,
                    r0: int, r1: int, r2: int, r3: int, r4: int, r5: int, r6: int)
    requires x == q1 * 0x100 + r0 && q1 == q2 * 0x100 + r1 && q2 == q3 * 0x100 + r2
    requires q3 == q4 * 0x100 + r3 && q4 == q5 * 0x100 + r4 && q5 == q6 * 0x100 + r5
    requires q6 == q7 * 0x100 + r6
    ensures x == q7 * 0x100_0000_0000_0000 + r6 * 0x1_0000_0000_0000 + r5 * 0x100_0000_0000
               + r4 * 0x1_0000_0000 + r3 * 0x100_0000 + r2 * 0x1_0000 + r1 * 0x100 + r0
  {}

  lemma SplitJoin8(t: (u8, u8, u8, u8, u8, u8, u8, u8))
    ensures Split8(Join8(t)) == t
  {
    var x := Join8(t);
    Split8Limbs(x);
    Digit8(x, 0, t.0, t.1 * 0x1_0000_0000_0000 + t.2 * 0x100_0000_0000 + t.3 * 0x1_0000_0000
      + t.4 * 0x100_0000 + t.5 * 0x1_0000 + t.6 * 0x100 + t.7, 0x100_0000_0000_0000);
    Digit8(x, t.0, t.1, t.2 * 0x100_0000_0000 + t.3 * 0x1_0000_0000
      + t.4 * 0x100_0000 + t.5 * 0x1_0000 + t.6 * 0x100 + t.7, 0x1_0000_0000_0000);
    Digit8(x, t.0 * 0x100 + t.1, t.2, t.3 * 0x1_0000_0000
      + t.4 * 0x100_0000 + t.5 * 0x1_0000 + t.6 * 0x100 + t.7, 0x100_0000_0000);
    Digit8(x, t.0 * 0x1_0000 + t.1 * 0x100 + t.2, t.3,
      t.4 * 0x100_0000 + t.5 * 0x1_0000 + t.6 * 0x100 + t.7, 0x1_0000_0000);
    Digit8(x, t.0 * 0x100_0000 + t.1 * 0x1_0000 + t.2 * 0x100 + t.3, t.4,
      t.5 * 0x1_0000 + t.6 * 0x100 + t.7, 0x100_0000);
    Digit8(x, t.0 * 0x1_0000_0000 + t.1 * 0x100_0000 + t.2 * 0x1_0000 + t.3 * 0x100 + t.4, t.5,
      t.6 * 0x100 + t.7, 0x1_0000);
    Digit8(x, t.0 * 0x100_0000_0000 + t.1 * 0x1_0000_0000 + t.2 * 0x100_0000 + t.3 * 0x1_0000
      + t.4 * 0x100 + t.5, t.6, t.7, 0x100);
    Digit8(x, t.0 * 0x1_0000_0000_0000 + t.1 * 0x100_0000_0000 + t.2 * 0x1_0000_0000
      + t.3 * 0x100_0000 + t.4 * 0x1_0000 + t.5 * 0x100 + t.6, t.7, 0, 1);
  }

  // ----------------------------------------------------- Int64 bit patterns

  /** `init(int64:)`, i.e. `UInt64(bitPattern:)`: the same 64 bits read as unsigned. */
  function FromInt64(v: i64): (r: u64)
    ensures r % TWO_64 == v % TWO_64
  {
    if v >= 0 then v else v + TWO_64
  }

  /** `.int64`, i.e. `Int64(bitPattern:)`: the same 64 bits read as two's complement. */
  function ToInt64(x: u64): (r: i64)
    ensures r % TWO_64 == x
    ensures (r < 0) == (x >= 0x8000_0000_0000_0000)
  {
    if x < 0x8000_0000_0000_0000 then x else x - TWO_64
  }

  lemma Int64RoundTrips(x: u64, v: i64)
    ensures FromInt64(ToInt64(x)) == x
    ensures ToInt64(FromInt64(v)) == v
  {}
}
