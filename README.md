# glauth one-time-password engine in Dafny

This project models the code engine of the Go package `glauth`. The engine
computes HOTP codes (RFC 4226) and TOTP codes (RFC 6238) with HMAC-SHA-1 and
six digits. The model follows `computeCode`, `formatCode`,
`GetHOTPTokenInt`/`GetHOTPToken` and `GetTOTPTokenInt`/`GetTOTPToken` step
by step:

- the int64 counter is written as eight big-endian bytes;
- dynamic truncation takes the offset from the low nibble of digest byte 19,
  reads the four bytes there as a big-endian word, clears bit 31 and reduces
  modulo 10^6;
- the code is printed in decimal and left-padded with `'0'` to six characters;
- TOTP uses the counter `unixSeconds / 30`, with Go's truncating division.

The source is pure code, so the model is made of functions and lemmas.

Modules:

- `Integers` (integers.dfy): Go's `byte`, `uint32`, `int64` and `uint64`. It
  has the two's-complement conversions `uint64(v)` and `int64(u)`, and Go's
  truncating division `Quo`. Go's `int` is taken to be 64 bits wide.
- `Bits` (bits.dfy): facts that link bit operations on `bv8`/`bv32` to
  arithmetic. Their proofs are kept apart from everything else.
- `BigEndian` (big_endian.dfy): `encoding/binary.BigEndian`. `Value` gives
  the number a byte string denotes. `Bytes` gives the k-byte encoding of a
  number. `Uint32` is written with the same shifts and ors that Go uses.
- `Decimal` (decimal.dfy): `strconv.FormatUint(n, 10)` as `Format`,
  `strings.Repeat` as `Repeat`, and `Parse`, the value of a digit string.
  Formatting is specified against `Parse`.
- `Glauth` (glauth.dfy): the engine itself.
- `Rfc4226Examples` (rfc4226_examples.dfy): the example digest of section
  5.4 of RFC 4226, and the ten HMAC-SHA-1 digests of its Appendix D, to
  which the truncation is applied.

Two things outside the package are parameters:

- The keyed hash is the value `hmac: HmacSha1`. Its field `write(key, msg)`
  is the error, if any, from writing the counter bytes into the
  `hmac.New(sha1.New, key)` object. Its field `sum(key, msg)` is the 20-byte
  `Sum` after that write. The type `Digest` fixes the length at 20.
- The clock is the parameter `unixSeconds: int64`, which stands for
  `time.Now().Unix()`.

Go's result pairs `(T, error)` are modelled as `Outcome(value, err)`, where
`err == None` means a nil error. So the zero values that the source returns
next to an error (`0` and `""`) are part of what is proved.

## Model

| member | source | states |
|---|---|---|
| Integers.ToUint64 | glauth.go:113 | `uint64(v)` is the unique uint64 congruent to v modulo 2^64: v itself when v >= 0, at least 2^63 when v < 0 |
| Integers.ToInt64 | glauth.go:113 | reading 64 bits as signed gives the int64 congruent modulo 2^64, and it is negative exactly when the top bit is set |
| Integers.Quo | glauth.go:84 | Go's `/` truncates toward zero: the remainder has the sign of the dividend and is smaller than the divisor |
| Integers.QuoIsFloor | glauth.go:84 | for a non-negative dividend, truncating division is floor division |
| Integers.QuoNotFloorBelowZero | glauth.go:84 | for a negative dividend that is not a multiple of the divisor, truncation is one above the floor |
| BigEndian.Bytes | glauth.go:113 | the big-endian encoding has exactly k bytes |
| BigEndian.ValueBytes | glauth.go:113 | reading back the k-byte encoding of n gives n modulo 256^k |
| BigEndian.BytesValue | glauth.go:113 | encoding the value of a byte string gives back the same string |
| BigEndian.BytesAt | glauth.go:113 | byte i of the k-byte encoding is (n / 256^(k-1-i)) % 256 |
| BigEndian.Uint32 | glauth.go:122 | `binary.BigEndian.Uint32`, built from shifts and ors, equals the big-endian value of its four bytes |
| Bits.WordOfBytes | glauth.go:122 | four bytes shifted into place and or-ed together equal b0·2^24 + b1·2^16 + b2·2^8 + b3 |
| Bits.MaskIsMod | glauth.go:123 | `& 0x7fffffff` is reduction modulo 2^31, and it leaves any word below 2^31 unchanged |
| Decimal.Format | glauth.go:131 | `strconv.FormatUint(n, 10)` gives a non-empty digit string with no leading zero unless it is "0" |
| Decimal.ParseFormat | glauth.go:131 | the decimal form reads back as n |
| Decimal.FormatParse | glauth.go:131 | every canonical digit string is the decimal form of its own value, so Format is onto the canonical strings |
| Decimal.FormatLength | glauth.go:131-135 | the decimal form has at most k digits exactly when n < 10^k |
| Decimal.ParseInjective | glauth.go:130-136 | two digit strings of the same length with the same value are equal |
| Decimal.ParseLeadingZeros | glauth.go:135 | prepending zeros does not change the value of a digit string |
| Decimal.Repeat | glauth.go:135 | `strings.Repeat(s, count)` needs count >= 0, has length count·\|s\|, and has only characters of s |
| Glauth.EncodeCounter | glauth.go:113 | the counter written into the HMAC is exactly 8 bytes |
| Glauth.CounterRoundTrip | glauth.go:113 | decoding the 8 bytes as a signed 64-bit big-endian number gives back the counter |
| Glauth.CounterEncodingOnto | glauth.go:113 | every 8-byte string is the encoding of the counter it decodes to |
| Glauth.CounterByte | glauth.go:113 | byte i is (uint64(value) / 256^(7-i)) % 256, and for value >= 0 it is (value / 256^(7-i)) % 256 |
| Glauth.CounterEncodingInjective | glauth.go:113 | distinct counters give distinct HMAC messages |
| Glauth.Offset | glauth.go:120 | `h[19] & 0x0f` is h[19] mod 16, at most 15, so offset + 4 <= 19 < 20 and the slice is inside the digest |
| Glauth.Window | glauth.go:122 | the word read at the offset is the big-endian value of h[offset..offset+4] |
| Glauth.Mask | glauth.go:123 | after the mask the word is below 2^31 and equals the window value modulo 2^31, that is, with bit 31 cleared |
| Glauth.Truncate | glauth.go:125 | the code of a digest is below 10^6 |
| Glauth.TruncateMeetsRfc | glauth.go:119-125 | the bit-level truncation equals RFC 4226 dynamic truncation stated on numbers: (window value mod 2^31) mod 10^6 at offset h[19] mod 16 |
| Glauth.ComputeCode | glauth.go:110-128 | the error is the error of the write; on an error the code is 0; otherwise the code is the RFC truncation of the digest of the encoded counter; in every case the code is below 10^6 |
| Glauth.FormattableIff | glauth.go:130-136 | formatCode does not panic (decimal form of at most 6 digits) exactly for 0 <= codeInt <= 999999 |
| Glauth.FormatCode | glauth.go:130-136 | the result has length 6, has only digits and reads back as codeInt; it is the decimal form preceded by exactly 6 - len zeros |
| Glauth.FormatCodeUnique | glauth.go:130-136 | formatCode's result is the only six-digit string whose value is codeInt |
| Glauth.GetHOTPTokenInt | glauth.go:104-107 | `int(code)` is in [0, 999999]; it passes the error on, and is 0 on an error |
| Glauth.GetHOTPToken | glauth.go:91-101 | on an error the string is empty and the error is returned; otherwise it is six digits whose value is the RFC truncation of the counter's digest |
| Glauth.HotpComposition | glauth.go:91-107 | GetHOTPToken is formatCode(computeCode(key, value)) when there is no error, and ("", err) when there is one |
| Glauth.TotpCounter | glauth.go:84 | the counter is `unixSeconds / 30` with Go's division, and it is non-negative from the epoch on |
| Glauth.GetTOTPTokenInt | glauth.go:83-88 | TOTP as an integer is HOTP as an integer at counter unixSeconds / 30 |
| Glauth.GetTOTPToken | glauth.go:70-80 | the TOTP token is the HOTP token at counter unixSeconds / 30, error path included |
| Glauth.TotpCounterWindow | glauth.go:84 | for k >= 0, every time in [30k, 30k+30) has counter k, which is the floor of t / 30 |
| Glauth.TotpSameWindow | glauth.go:84-87 | two times in the same 30-second window give the same token for the same key and hash |
| Glauth.TotpNextWindow | glauth.go:84 | from the epoch on, 30 seconds later the counter is exactly one higher |
| Glauth.TotpCounterBeforeEpoch | glauth.go:84 | before the epoch the counter is not the floor: -1 and -29 give 0, the same counter as 29 |
| Rfc4226Examples.SectionExampleTruncation | glauth.go:119-125 | on the example digest of section 5.4 of RFC 4226: offset 10, window 0x50ef7f19 = 1357872921, code 872921 |
| Rfc4226Examples.AppendixRow0 | glauth.go:119-125 | Appendix D digest of counter 0 truncates to 755224 |
| Rfc4226Examples.AppendixRow1 | glauth.go:119-125 | Appendix D digest of counter 1 truncates to 287082 |
| Rfc4226Examples.AppendixRow2 | glauth.go:119-125 | Appendix D digest of counter 2 truncates to 359152 |
| Rfc4226Examples.AppendixRow3 | glauth.go:119-125 | Appendix D digest of counter 3 truncates to 969429 |
| Rfc4226Examples.AppendixRow4 | glauth.go:119-125 | Appendix D digest of counter 4 truncates to 338314 |
| Rfc4226Examples.AppendixRow5 | glauth.go:119-125 | Appendix D digest of counter 5 truncates to 254676 |
| Rfc4226Examples.AppendixRow6 | glauth.go:119-125 | Appendix D digest of counter 6 truncates to 287922 |
| Rfc4226Examples.AppendixRow7 | glauth.go:119-125 | Appendix D digest of counter 7 truncates to 162583 |
| Rfc4226Examples.AppendixRow8 | glauth.go:119-125 | Appendix D digest of counter 8 truncates to 399871 |
| Rfc4226Examples.AppendixRow9 | glauth.go:119-125 | Appendix D digest of counter 9 truncates to 520489 |
| Rfc4226Examples.AppendixCounterZero | glauth.go:91-128 | a keyed hash that gives the Appendix D digest for counter 0 makes GetHOTPToken return ("755224", nil) |

## Left out

- `CreateQRCode` and `CreateQRCodeDefault` (glauth.go:19-67): every step is a call into a library, namely base32 encoding, URL parsing and escaping, QR encoding and scaling. There is no algorithm of this package in them. The `err` check at glauth.go:42-45 tests a variable that nothing has set.
- SHA-1 and HMAC: they belong to Go's crypto library. The model treats them as the parameter `hmac`, whose digest has 20 bytes. So the Appendix D digests are inputs to the examples. Nothing here shows that they are the HMAC-SHA-1 values.
- The hash object's internal state: the model keeps `hash.Write` followed by `hash.Sum` as the two functions of `HmacSha1` applied to the same key and message.
- `time.Now()`: the wall clock is the parameter `unixSeconds`.
- `log.Println`: this is output only and does not change any result.
- No claim is made that adjacent windows give different codes: two counters can give the same code modulo 10^6.
- Floor semantics before the epoch: section 4.2 of RFC 6238 defines T = floor(t / X), but glauth.go:84 uses Go's truncating `/`, so the two differ for t < 0. The model uses Go's division and proves floor semantics only for t >= 0. `TotpCounterBeforeEpoch` shows the difference.
- Decimal.Repeat: states the length and that every character comes from s, not the order of the copies. The source only ever repeats `"0"`, and for that the statement is exact.
- formatCode (glauth.go:130) takes an `int` and panics in `strings.Repeat` (glauth.go:135) when the decimal form of `uint64(codeInt)` is longer than six digits. `FormatCode` requires that this does not happen, and `FormattableIff` shows that this means 0 <= codeInt <= 999999.
