/**
 * Facts about 32-bit words that link Go's bit operations to arithmetic.
 * They are kept apart so that the solver sees nothing else while it
 * reasons about bit-vectors.
 */
module Bits {
  import Integers

  /** Four bytes shifted into place and or-ed together are their
      base-256 weighted sum. */
  lemma WordOfBytes(b0: bv8, b1: bv8, b2: bv8, b3: bv8)
    ensures ((b0 as bv32 << 24) | (b1 as bv32 << 16) | (b2 as bv32 << 8) | (b3 as bv32)) as int
         == b0 as int * 0x100_0000 + b1 as int * 0x1_0000 + b2 as int * 0x100 + b3 as int
  {
  }

  /** A word is its top bit times 2^31 plus its low 31 bits. */
  lemma SplitTopBit(x: bv32)
    ensures x as int == (x >> 31) as int * 0x8000_0000 + (x & 0x7FFF_FFFF) as int
  {
  }

  lemma LowBitsBound(x: bv32)
    ensures (x & 0x7FFF_FFFF) as int < 0x8000_0000
  {
    var low := (x & 0x7FFF_FFFF) as bv31;
    assert low as bv32 == x & 0x7FFF_FFFF;
    assert low as int < 0x8000_0000;
  }

  /** Clearing bit 31 is reducing modulo 2^31; below 2^31 it changes nothing. */
  lemma MaskIsMod(x: bv32)
    ensures (x & 0x7FFF_FFFF) as int == x as int % 0x8000_0000
    ensures x as int < 0x8000_0000 ==> x & 0x7FFF_FFFF == x
  {
    SplitTopBit(x);
    LowBitsBound(x);
    var n, top, low := x as int, (x >> 31) as int, (x & 0x7FFF_FFFF) as int;
    Integers.DivModUnique(n, 0x8000_0000, top, low);
  }

  /** The byte whose value is x, built by counting up so that the solver
      never has to convert from int to bits. */
  function ByteOf(x: nat): (b: bv8)
    requires x < 256
  {
    if x == 0 then 0 else ByteOf(x - 1) + 1
  }

  lemma {:induction false} ByteOfValue(x: nat)
    requires x < 256
    ensures ByteOf(x) as int == x
  {
    if x > 0 {
      ByteOfValue(x - 1);
      Successor(ByteOf(x - 1));
    }
  }

  /** Every byte is ByteOf its value. */
  lemma ByteOfInverse(b: bv8)
    ensures ByteOf(b as int) == b
  {
    ByteOfValue(b as int);
    SameValue(ByteOf(b as int), b);
  }

  lemma SameValue(a: bv8, b: bv8)
    requires a as int == b as int
    ensures a == b
  {
  }

  lemma Successor(b: bv8)
    requires b as int < 255
    ensures (b + 1) as int == b as int + 1
  {
  }
}
