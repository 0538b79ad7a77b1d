/**
 * Big-endian byte order, as Go's `encoding/binary.BigEndian` implements it:
 * the arithmetic meaning of a byte string read high-order byte first, the
 * k-byte big-endian encoding of a number, and `Uint32`, which reads four
 * bytes into a 32-bit word with shifts and ors.
 */
module BigEndian {
  import opened Integers
  import Bits

  function Pow256(k: nat): (p: nat)
    ensures 0 < p
  {
    if k == 0 then 1 else 256 * Pow256(k - 1)
  }

  /** The number a byte string denotes, high-order byte first. */
  function Value(s: seq<byte>): (n: nat)
    ensures n < Pow256(|s|)
  {
    if s == [] then 0
    else
      var init := s[..|s| - 1];
      assert Value(init) <= Pow256(|init|) - 1;
      Value(init) * 256 + s[|s| - 1] as int
  }

  /** The low k bytes of n, high-order byte first. */
  function Bytes(n: nat, k: nat): (s: seq<byte>)
    ensures |s| == k
  {
    if k == 0 then [] else Bytes(n / 256, k - 1) + [Bits.ByteOf(n % 256)]
  }

  /** Reading back an encoding gives the number modulo 256^k. */
  lemma {:induction false} ValueBytes(n: nat, k: nat)
    ensures Value(Bytes(n, k)) == n % Pow256(k)
  {
    if k > 0 {
      var s := Bytes(n, k);
      assert s[..k - 1] == Bytes(n / 256, k - 1);
      ValueBytes(n / 256, k - 1);
      Bits.ByteOfValue(n % 256);
      assert Value(s) == Value(Bytes(n / 256, k - 1)) * 256 + n % 256;
      DivModOfProduct(n, 256, Pow256(k - 1));
    }
  }

  /** Encoding the value of a byte string gives the string back. */
  lemma {:induction false} BytesValue(s: seq<byte>)
    ensures Bytes(Value(s), |s|) == s
  {
    if s != [] {
      var init := s[..|s| - 1];
      var n := Value(s);
      assert n / 256 == Value(init) && n % 256 == s[|s| - 1] as int;
      Bits.ByteOfInverse(s[|s| - 1]);
      BytesValue(init);
      assert s == init + [s[|s| - 1]];
    }
  }

  /** Byte i of the k-byte encoding of n is its base-256 digit of weight
      256^(k-1-i): (n / 256^(k-1-i)) % 256. */
  lemma {:induction false} BytesAt(n: nat, k: nat, i: nat)
    requires i < k
    ensures Bytes(n, k)[i] as int == (n / Pow256(k - 1 - i)) % 256
  {
    if i < k - 1 {
      assert Bytes(n, k)[i] == Bytes(n / 256, k - 1)[i];
      BytesAt(n / 256, k - 1, i);
      DivModOfProduct(n, 256, Pow256(k - 2 - i));
    } else {
      Bits.ByteOfValue(n % 256);
    }
  }

  /** Go's `binary.BigEndian.Uint32(b)`. */
  function Uint32(b: seq<byte>): (w: bv32)
    requires |b| == 4
    ensures w as int == Value(b)
  {
    ValueOfFour(b);
    Bits.WordOfBytes(b[0], b[1], b[2], b[3]);
    (b[0] as bv32 << 24) | (b[1] as bv32 << 16) | (b[2] as bv32 << 8) | (b[3] as bv32)
  }

  lemma ValueOfFour(b: seq<byte>)
    requires |b| == 4
    ensures Value(b) == b[0] as int * 0x100_0000 + b[1] as int * 0x1_0000 + b[2] as int * 0x100 + b[3] as int
  {
    var b3 := b[..3];
    var b2 := b3[..2];
    var b1 := b2[..1];
    assert b1[..0] == [];
    assert Value(b1) == b[0] as int;
    assert Value(b2) == Value(b1) * 256 + b[1] as int;
    assert Value(b3) == Value(b2) * 256 + b[2] as int;
    assert Value(b) == Value(b3) * 256 + b[3] as int;
  }
}
