/**
 * The published examples of RFC 4226, applied to the model. The digests are
 * the RFC's own HMAC-SHA-1 values, so these facts are about the truncation
 * and the formatting only; SHA-1 itself stays outside the model.
 */
module Rfc4226Examples {
  import opened Integers
  import opened BigEndian
  import opened Decimal
  import opened Glauth

  /** The example digest of section 5.4 of RFC 4226:
      1f8698690e02ca16618550ef7f19da8e945b555a. */
  const SectionExample: Digest := [
    0x1f, 0x86, 0x98, 0x69, 0x0e, 0x02, 0xca, 0x16, 0x61, 0x85,
    0x50, 0xef, 0x7f, 0x19, 0xda, 0x8e, 0x94, 0x5b, 0x55, 0x5a]

  /** Section 5.4: offset 10, window 0x50ef7f19 = 1357872921, code 872921. */
  lemma SectionExampleTruncation()
    ensures Offset(SectionExample) == 10
    ensures Window(SectionExample) == 0x50ef7f19
    ensures Window(SectionExample) as int == 1357872921
    ensures Mask(Window(SectionExample)) == 0x50ef7f19
    ensures Truncate(SectionExample) == 872921
  {
  }

  /** Appendix D of RFC 4226: HMAC-SHA-1 of the counters 0 to 9 under the
      ASCII key "12345678901234567890". */
  const Digest0: Digest := [
    0xcc, 0x93, 0xcf, 0x18, 0x50, 0x8d, 0x94, 0x93, 0x4c, 0x64,
    0xb6, 0x5d, 0x8b, 0xa7, 0x66, 0x7f, 0xb7, 0xcd, 0xe4, 0xb0]
  const Digest1: Digest := [
    0x75, 0xa4, 0x8a, 0x19, 0xd4, 0xcb, 0xe1, 0x00, 0x64, 0x4e,
    0x8a, 0xc1, 0x39, 0x7e, 0xea, 0x74, 0x7a, 0x2d, 0x33, 0xab]
  const Digest2: Digest := [
    0x0b, 0xac, 0xb7, 0xfa, 0x08, 0x2f, 0xef, 0x30, 0x78, 0x22,
    0x11, 0x93, 0x8b, 0xc1, 0xc5, 0xe7, 0x04, 0x16, 0xff, 0x44]
  const Digest3: Digest := [
    0x66, 0xc2, 0x82, 0x27, 0xd0, 0x3a, 0x2d, 0x55, 0x29, 0x26,
    0x2f, 0xf0, 0x16, 0xa1, 0xe6, 0xef, 0x76, 0x55, 0x7e, 0xce]
  const Digest4: Digest := [
    0xa9, 0x04, 0xc9, 0x00, 0xa6, 0x4b, 0x35, 0x90, 0x98, 0x74,
    0xb3, 0x3e, 0x61, 0xc5, 0x93, 0x8a, 0x8e, 0x15, 0xed, 0x1c]
  const Digest5: Digest := [
    0xa3, 0x7e, 0x78, 0x3d, 0x7b, 0x72, 0x33, 0xc0, 0x83, 0xd4,
    0xf6, 0x29, 0x26, 0xc7, 0xa2, 0x5f, 0x23, 0x8d, 0x03, 0x16]
  const Digest6: Digest := [
    0xbc, 0x9c, 0xd2, 0x85, 0x61, 0x04, 0x2c, 0x83, 0xf2, 0x19,
    0x32, 0x4d, 0x3c, 0x60, 0x72, 0x56, 0xc0, 0x32, 0x72, 0xae]
  const Digest7: Digest := [
    0xa4, 0xfb, 0x96, 0x0c, 0x0b, 0xc0, 0x6e, 0x1e, 0xab, 0xb8,
    0x04, 0xe5, 0xb3, 0x97, 0xcd, 0xc4, 0xb4, 0x55, 0x96, 0xfa]
  const Digest8: Digest := [
    0x1b, 0x3c, 0x89, 0xf6, 0x5e, 0x6c, 0x9e, 0x88, 0x30, 0x12,
    0x05, 0x28, 0x23, 0x44, 0x3f, 0x04, 0x8b, 0x43, 0x32, 0xdb]
  const Digest9: Digest := [
    0x16, 0x37, 0x40, 0x98, 0x09, 0xa6, 0x79, 0xdc, 0x69, 0x82,
    0x07, 0x31, 0x0c, 0x8c, 0x7f, 0xc0, 0x72, 0x90, 0xd9, 0xe5]

  /** The truncation of a digest whose offset and window are known. */
  lemma TruncateAt(h: Digest, offset: nat, b0: byte, b1: byte, b2: byte, b3: byte)
    requires offset <= 15 && h[19] as int % 16 == offset
    requires h[offset] == b0 && h[offset + 1] == b1 && h[offset + 2] == b2 && h[offset + 3] == b3
    ensures Truncate(h) as int
         == (b0 as int * 0x100_0000 + b1 as int * 0x1_0000 + b2 as int * 0x100 + b3 as int) % 0x8000_0000 % 1_000_000
  {
    var window := h[offset..offset + 4];
    ValueOfFour(window);
    var n := Value(window);
    assert n == b0 as int * 0x100_0000 + b1 as int * 0x1_0000 + b2 as int * 0x100 + b3 as int;
    TruncateMeetsRfc(h);
    assert Pow10(6) == 1_000_000;
    assert RfcTruncate(h) == n % 0x8000_0000 % 1_000_000;
  }

  // The ten rows of Appendix D: the published digest for counter i
  // truncates to the published HOTP value.

  lemma AppendixRow0()
    ensures Truncate(Digest0) == 755224
  {
    TruncateAt(Digest0, 0, 0xcc, 0x93, 0xcf, 0x18);
  }

  lemma AppendixRow1()
    ensures Truncate(Digest1) == 287082
  {
    TruncateAt(Digest1, 11, 0xc1, 0x39, 0x7e, 0xea);
  }

  lemma AppendixRow2()
    ensures Truncate(Digest2) == 359152
  {
    TruncateAt(Digest2, 4, 0x8, 0x2f, 0xef, 0x30);
  }

  lemma AppendixRow3()
    ensures Truncate(Digest3) == 969429
  {
    TruncateAt(Digest3, 14, 0xe6, 0xef, 0x76, 0x55);
  }

  lemma AppendixRow4()
    ensures Truncate(Digest4) == 338314
  {
    TruncateAt(Digest4, 12, 0x61, 0xc5, 0x93, 0x8a);
  }

  lemma AppendixRow5()
    ensures Truncate(Digest5) == 254676
  {
    TruncateAt(Digest5, 6, 0x33, 0xc0, 0x83, 0xd4);
  }

  lemma AppendixRow6()
    ensures Truncate(Digest6) == 287922
  {
    TruncateAt(Digest6, 14, 0x72, 0x56, 0xc0, 0x32);
  }

  lemma AppendixRow7()
    ensures Truncate(Digest7) == 162583
  {
    TruncateAt(Digest7, 10, 0x4, 0xe5, 0xb3, 0x97);
  }

  lemma AppendixRow8()
    ensures Truncate(Digest8) == 399871
  {
    TruncateAt(Digest8, 11, 0x28, 0x23, 0x44, 0x3f);
  }

  lemma AppendixRow9()
    ensures Truncate(Digest9) == 520489
  {
    TruncateAt(Digest9, 5, 0xa6, 0x79, 0xdc, 0x69);
  }

  lemma FirstToken()
    ensures IsDigits("755224") && Parse("755224") == 755224
  {
    ParseOfSix("755224");
  }

  /** The first row end to end: a keyed hash that gives the published digest
      for counter 0 makes GetHOTPToken return "755224". */
  lemma AppendixCounterZero(hmac: HmacSha1, key: seq<byte>, counter: int64)
    requires counter == 0
    requires hmac.write(key, EncodeCounter(counter)) == None
    requires hmac.sum(key, EncodeCounter(counter)) == Digest0
    ensures GetHOTPToken(hmac, key, counter) == Outcome("755224", None)
  {
    AppendixRow0();
    FirstToken();
    FormattableIff(Truncate(Digest0));
    FormatCodeUnique(Truncate(Digest0), "755224");
    HotpComposition(hmac, key, counter);
  }
}
