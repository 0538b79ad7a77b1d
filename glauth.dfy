/**
 * The one-time-password engine of glauth.go: HOTP (RFC 4226) and TOTP
 * (RFC 6238) with HMAC-SHA-1 and six digits.
 *
 * The keyed hash is a parameter: `HmacSha1` stands for what computeCode does
 * with Go's `hmac.New(sha1.New, key)` object, namely write the encoded counter
 * into it (which may report an error) and take its 20-byte `Sum`. The wall
 * clock of TOTP is the parameter `unixSeconds`.
 */
module Glauth {
  import opened Integers
  import opened BigEndian
  import opened Decimal
  import Bits

  const DIGEST_SIZE: nat := 20
  const MODULUS: nat := 1_000_000
  const CODE_WIDTH: nat := 6
  const TIME_STEP: nat := 30

  datatype Option<T> = None | Some(value: T)

  /** A Go `error` value. */
  datatype Error = Error(message: string)

  /** A Go function result `(T, error)`; `err == None` is a nil error. */
  datatype Outcome<T> = Outcome(value: T, err: Option<Error>)

  /** An HMAC-SHA-1 digest. */
  type Digest = d: seq<byte> | |d| == DIGEST_SIZE witness seq(20, _ => 0 as byte)

  /** The keyed hash computeCode uses: `write(key, msg)` is the error, if any,
      of writing msg into the HMAC-SHA-1 object keyed with key, and
      `sum(key, msg)` is that object's digest afterwards. */
  datatype HmacSha1 = HmacSha1(
    write: (seq<byte>, seq<byte>) -> Option<Error>,
    sum: (seq<byte>, seq<byte>) -> Digest)

  // ---------------------------------------------------------------------
  // Counter encoding: `binary.Write(hash, binary.BigEndian, value)`.

  /** The eight bytes written for an int64 counter: uint64(value), high-order
      byte first (section 5.2 of RFC 4226). */
  function EncodeCounter(value: int64): (msg: seq<byte>)
    ensures |msg| == 8
  {
    Bytes(ToUint64(value), 8)
  }

  /** Reading eight big-endian bytes back as a signed 64-bit number. */
  function DecodeCounter(msg: seq<byte>): int64
    requires |msg| == 8
  {
    ToInt64(Value(msg))
  }

  lemma CounterRoundTrip(value: int64)
    ensures DecodeCounter(EncodeCounter(value)) == value
  {
    var u := ToUint64(value);
    ValueBytes(u, 8);
    EightBytes();
    assert Value(EncodeCounter(value)) == u;
  }

  lemma EightBytes()
    ensures Pow256(8) == TWO_64
  {
  }

  /** Every eight-byte string is the encoding of exactly one counter. */
  lemma CounterEncodingOnto(msg: seq<byte>)
    requires |msg| == 8
    ensures EncodeCounter(DecodeCounter(msg)) == msg
  {
    EightBytes();
    BytesValue(msg);
  }

  /** Byte i of the encoding is base-256 digit 7 - i of the two's-complement
      bit pattern; for a non-negative value, of the value itself. */
  lemma CounterByte(value: int64, i: nat)
    requires i < 8
    ensures EncodeCounter(value)[i] as int == (ToUint64(value) / Pow256(7 - i)) % 256
    ensures 0 <= value ==> EncodeCounter(value)[i] as int == (value / Pow256(7 - i)) % 256
  {
    BytesAt(ToUint64(value), 8, i);
  }

  /** Distinct counters feed distinct messages to the hash. */
  lemma CounterEncodingInjective(v: int64, w: int64)
    requires EncodeCounter(v) == EncodeCounter(w)
    ensures v == w
  {
    CounterRoundTrip(v);
    CounterRoundTrip(w);
  }

  // ---------------------------------------------------------------------
  // Dynamic truncation (section 5.3 of RFC 4226).

  /** `h[19] & 0x0f`: the low nibble of the last byte. */
  function Offset(h: Digest): (offset: nat)
    ensures offset == h[19] as int % 16
    ensures offset <= 15 && offset + 4 < |h|
  {
    ((h[19] & 0x0F) as int)
  }

  /** `binary.BigEndian.Uint32(h[offset : offset+4])` */
  function Window(h: Digest): (raw: bv32)
    ensures raw as int == Value(h[Offset(h)..Offset(h) + 4])
  {
    var offset := Offset(h);
    Uint32(h[offset..offset + 4])
  }

  /** `truncated &= 0x7fffffff`: bit 31 cleared. */
  function Mask(x: bv32): (t: bv32)
    ensures t as int == x as int % 0x8000_0000
    ensures t as int < 0x8000_0000
    ensures x as int < 0x8000_0000 ==> t == x
  {
    Bits.MaskIsMod(x);
    x & 0x7FFF_FFFF
  }

  /** The code of a digest: `truncated % 1000000`, on the masked window. */
  function Truncate(h: Digest): (code: uint32)
    ensures code < MODULUS
  {
    Mask(Window(h)) as int % 1_000_000
  }

  /** Dynamic truncation as RFC 4226 states it, on numbers: take the four
      bytes at the offset named by the low nibble of the last byte, read them
      as a big-endian number without its top bit, and reduce modulo 10^6. */
  function RfcTruncate(h: seq<byte>): nat
    requires |h| == 20
  {
    var offset := h[19] as int % 16;
    Value(h[offset..offset + 4]) % 0x8000_0000 % Pow10(6)
  }

  /** The bit-level code of glauth.go computes the RFC's dynamic truncation. */
  lemma TruncateMeetsRfc(h: Digest)
    ensures Truncate(h) == RfcTruncate(h)
  {
    assert Pow10(6) == MODULUS;
  }

  // ---------------------------------------------------------------------
  // computeCode

  function ComputeCode(hmac: HmacSha1, key: seq<byte>, value: int64): (r: Outcome<uint32>)
    ensures r.err == hmac.write(key, EncodeCounter(value))
    ensures r.err.Some? ==> r.value == 0
    ensures r.err.None? ==> r.value == RfcTruncate(hmac.sum(key, EncodeCounter(value)))
    ensures r.value < MODULUS
  {
    var msg := EncodeCounter(value);
    var err := hmac.write(key, msg);
    if err.Some? then Outcome(0, err)
    else
      var h := hmac.sum(key, msg);
      TruncateMeetsRfc(h);
      Outcome(Truncate(h), None)
  }

  // ---------------------------------------------------------------------
  // formatCode

  /** `formatCode(codeInt)` is defined (strings.Repeat does not panic) when
      the decimal form of uint64(codeInt) has at most six digits. */
  predicate Formattable(codeInt: int64) {
    |Format(ToUint64(codeInt))| <= CODE_WIDTH
  }

  /** formatCode is defined exactly on the codes 0 .. 999999. */
  lemma FormattableIff(codeInt: int64)
    ensures Formattable(codeInt) <==> 0 <= codeInt < MODULUS
  {
    FormatLength(ToUint64(codeInt), 6);
    assert Pow10(6) == MODULUS;
  }

  function FormatCode(codeInt: int64): (code: string)
    requires Formattable(codeInt)
    ensures |code| == CODE_WIDTH && IsDigits(code) && Parse(code) == codeInt
    ensures var s := Format(codeInt);
      code[CODE_WIDTH - |s|..] == s && forall i :: 0 <= i < CODE_WIDTH - |s| ==> code[i] == '0'
  {
    FormattableIff(codeInt);
    var s := Format(ToUint64(codeInt));
    ParseFormat(codeInt);
    if |s| == 6 then s
    else
      var zeros := Repeat("0", 6 - |s|);
      ParseLeadingZeros(zeros, s);
      zeros + s
  }

  /** The six-digit string formatCode returns is the only one denoting codeInt. */
  lemma FormatCodeUnique(codeInt: int64, s: string)
    requires Formattable(codeInt)
    requires |s| == CODE_WIDTH && IsDigits(s) && Parse(s) == codeInt
    ensures s == FormatCode(codeInt)
  {
    ParseInjective(s, FormatCode(codeInt));
  }

  // ---------------------------------------------------------------------
  // HOTP and TOTP

  function GetHOTPTokenInt(hmac: HmacSha1, key: seq<byte>, value: int64): (r: Outcome<int64>)
    ensures 0 <= r.value < MODULUS
    ensures r.err == hmac.write(key, EncodeCounter(value))
    ensures r.err.Some? ==> r.value == 0
    ensures r.err.None? ==> r.value == RfcTruncate(hmac.sum(key, EncodeCounter(value)))
  {
    var c := ComputeCode(hmac, key, value);
    Outcome(c.value, c.err)
  }

  function GetHOTPToken(hmac: HmacSha1, key: seq<byte>, value: int64): (r: Outcome<string>)
    ensures r.err == hmac.write(key, EncodeCounter(value))
    ensures r.err.Some? ==> r.value == ""
    ensures r.err.None? ==> |r.value| == CODE_WIDTH && IsDigits(r.value)
    ensures r.err.None? ==> Parse(r.value) == RfcTruncate(hmac.sum(key, EncodeCounter(value)))
  {
    var c := GetHOTPTokenInt(hmac, key, value);
    if c.err.Some? then Outcome("", c.err)
    else
      FormattableIff(c.value);
      Outcome(FormatCode(c.value), None)
  }

  /** GetHOTPToken is formatCode after computeCode, and on an error it
      returns the error with an empty string. */
  lemma HotpComposition(hmac: HmacSha1, key: seq<byte>, value: int64)
    ensures var c := ComputeCode(hmac, key, value);
      && Formattable(c.value)
      && (c.err.None? ==> GetHOTPToken(hmac, key, value) == Outcome(FormatCode(c.value), None))
      && (c.err.Some? ==> GetHOTPToken(hmac, key, value) == Outcome("", c.err))
  {
    FormattableIff(ComputeCode(hmac, key, value).value);
  }

  /** `time.Now().Unix() / 30`, with Go's division truncating toward zero. */
  function TotpCounter(unixSeconds: int64): (counter: int64)
    ensures 0 <= unixSeconds ==> 0 <= counter
  {
    Quo(unixSeconds, TIME_STEP)
  }

  function GetTOTPTokenInt(hmac: HmacSha1, key: seq<byte>, unixSeconds: int64): (r: Outcome<int64>)
    ensures r == GetHOTPTokenInt(hmac, key, TotpCounter(unixSeconds))
  {
    var interval := TotpCounter(unixSeconds);
    var c := ComputeCode(hmac, key, interval);
    Outcome(c.value, c.err)
  }

  function GetTOTPToken(hmac: HmacSha1, key: seq<byte>, unixSeconds: int64): (r: Outcome<string>)
    ensures r == GetHOTPToken(hmac, key, TotpCounter(unixSeconds))
  {
    var c := GetTOTPTokenInt(hmac, key, unixSeconds);
    if c.err.Some? then Outcome("", c.err)
    else
      FormattableIff(c.value);
      Outcome(FormatCode(c.value), None)
  }

  /** From the epoch on, the TOTP counter is the number of whole 30-second
      steps elapsed: it is k throughout [30k, 30k + 30). */
  lemma TotpCounterWindow(unixSeconds: int64, k: int)
    requires 0 <= k && TIME_STEP * k <= unixSeconds < TIME_STEP * k + TIME_STEP
    ensures TotpCounter(unixSeconds) == k
  {
    DivModUnique(unixSeconds, TIME_STEP, k, unixSeconds - TIME_STEP * k);
  }

  /** Two instants in the same 30-second window give the same token. */
  lemma TotpSameWindow(hmac: HmacSha1, key: seq<byte>, t1: int64, t2: int64, k: int)
    requires 0 <= k
    requires TIME_STEP * k <= t1 < TIME_STEP * k + TIME_STEP
    requires TIME_STEP * k <= t2 < TIME_STEP * k + TIME_STEP
    ensures GetTOTPToken(hmac, key, t1) == GetTOTPToken(hmac, key, t2)
  {
    TotpCounterWindow(t1, k);
    TotpCounterWindow(t2, k);
  }

  /** Thirty seconds later, from the epoch on, the counter has advanced by one. */
  lemma TotpNextWindow(unixSeconds: int64)
    requires 0 <= unixSeconds && unixSeconds + TIME_STEP < TWO_63
    ensures TotpCounter(unixSeconds + TIME_STEP) == TotpCounter(unixSeconds) + 1
  {
    var k := TotpCounter(unixSeconds);
    QuoIsFloor(unixSeconds, TIME_STEP);
    TotpCounterWindow(unixSeconds + TIME_STEP, k + 1);
  }

  /** Before the epoch the counter is not the floor: Go's division truncates,
      so the 59 seconds from -29 to 29 all share counter 0. */
  lemma TotpCounterBeforeEpoch()
    ensures TotpCounter(-1) == 0 && TotpCounter(-29) == 0 && TotpCounter(29) == 0
    ensures TotpCounter(-30) == -1 && -1 / (TIME_STEP as int) == -1
  {
  }
}
