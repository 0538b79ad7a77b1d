/**
 * The fixed-width integers of Go that the OTP engine touches: `byte`, `int64`
 * and `uint64`, the bit-reinterpreting conversions between the two 64-bit
 * types, and Go's integer division, which truncates toward zero.
 * Go's `int` is taken to be 64 bits wide, as on every 64-bit platform.
 */
module Integers {

  const TWO_63: int := 0x8000_0000_0000_0000
  const TWO_64: int := 0x1_0000_0000_0000_0000

  /** Go's `byte`: eight bits, on which the source uses `&`. */
  type byte = bv8
  type uint32 = x: int | 0 <= x < 0x1_0000_0000
  type int64 = x: int | -0x8000_0000_0000_0000 <= x < 0x8000_0000_0000_0000
  type uint64 = x: int | 0 <= x < 0x1_0000_0000_0000_0000

  /** Go's `uint64(v)` for an `int64` v: the same 64 bits read as unsigned,
      that is, the unique uint64 congruent to v modulo 2^64. */
  function ToUint64(v: int64): (u: uint64)
    ensures u % TWO_64 == v % TWO_64
    ensures 0 <= v ==> u == v
    ensures v < 0 ==> TWO_63 <= u
  {
    if v < 0 then v + TWO_64 else v
  }

  /** Go's `int64(u)` for a `uint64` u: the two's-complement reading of its bits. */
  function ToInt64(u: uint64): (v: int64)
    ensures v % TWO_64 == u % TWO_64
    ensures v < 0 <==> TWO_63 <= u
  {
    if u < TWO_63 then u else u - TWO_64
  }

  /** The two conversions are mutually inverse: no 64-bit pattern is lost. */
  lemma {:induction false} ConversionsInverse(v: int64, u: uint64)
    ensures ToInt64(ToUint64(v)) == v
    ensures ToUint64(ToInt64(u)) == u
  {
  }

  /** Go's `a / d` on integers: the quotient truncated toward zero, so that the
      remainder `a - q * d` has the sign of `a` and is smaller than d in magnitude. */
  function Quo(a: int, d: int): (q: int)
    requires 0 < d
    ensures 0 <= a ==> 0 <= a - q * d < d
    ensures a < 0 ==> -d < a - q * d <= 0
  {
    if 0 <= a then a / d else -((-a) / d)
  }

  /** On a non-negative dividend truncation and floor agree. */
  lemma {:induction false} QuoIsFloor(a: int, d: int)
    requires 0 < d && 0 <= a
    ensures Quo(a, d) == a / d
    ensures Quo(a, d) * d <= a < (Quo(a, d) + 1) * d
  {
  }

  /** On a negative dividend that is not a multiple of d, truncation is one
      above the floor: the two differ. */
  lemma {:induction false} QuoNotFloorBelowZero(a: int, d: int)
    requires 0 < d && a < 0 && a % d != 0
    ensures Quo(a, d) == a / d + 1
  {
    var q, f := Quo(a, d), a / d;
    var k := q - f;
    assert k * d == (a - f * d) - (a - q * d);
    assert 0 < k * d < 2 * d;
    assert k <= 0 ==> k * d <= 0;
    assert k >= 2 ==> k * d >= 2 * d;
  }

  // Arithmetic facts about floor division by positive numbers.

  lemma DivModUnique(n: int, d: int, q: int, r: int)
    requires 0 < d && n == q * d + r && 0 <= r < d
    ensures n / d == q && n % d == r
  {
    var q', r' := n / d, n % d;
    assert (q - q') * d == r' - r;
    assert q - q' >= 1 ==> (q - q') * d >= d;
    assert q - q' <= -1 ==> (q - q') * d <= -d;
  }

  lemma DivModOfProduct(n: nat, a: nat, b: nat)
    requires 0 < a && 0 < b
    ensures n / a / b == n / (a * b)
    ensures n % (a * b) == (n / a) % b * a + n % a
  {
    var q, r := n / a, n % a;
    var q2, r2 := q / b, q % b;
    assert n == q2 * (a * b) + (r2 * a + r);
    assert r2 * a + r < a * b by {
      assert r2 * a <= (b - 1) * a;
    }
    DivModUnique(n, a * b, q2, r2 * a + r);
  }
}
