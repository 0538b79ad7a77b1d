/**
 * Decimal text, as the OTP formatter uses it: Go's `strconv.FormatUint(n, 10)`
 * (the shortest decimal form, no leading zero except for 0 itself),
 * `strings.Repeat`, and `Parse`, the value a string of decimal digits
 * denotes, against which the formatting is specified.
 */
module Decimal {
  import opened Integers

  function Pow10(k: nat): (p: nat)
    ensures 0 < p
  {
    if k == 0 then 1 else 10 * Pow10(k - 1)
  }

  predicate IsDigit(c: char) {
    '0' <= c <= '9'
  }

  predicate IsDigits(s: string) {
    forall i :: 0 <= i < |s| ==> IsDigit(s[i])
  }

  /** No superfluous leading zero: the form FormatUint produces. */
  predicate IsCanonical(s: string) {
    IsDigits(s) && 1 <= |s| && (1 < |s| ==> s[0] != '0')
  }

  function DigitChar(d: nat): (c: char)
    requires d < 10
    ensures IsDigit(c) && DigitValue(c) == d
  {
    ('0' as int + d) as char
  }

  function DigitValue(c: char): (d: nat)
    requires IsDigit(c)
    ensures d < 10
  {
    c as int - '0' as int
  }

  /** The number a string of decimal digits denotes, most significant first. */
  function Parse(s: string): (n: nat)
    requires IsDigits(s)
    ensures n < Pow10(|s|)
  {
    if s == [] then 0
    else
      var init := s[..|s| - 1];
      assert Parse(init) <= Pow10(|init|) - 1;
      Parse(init) * 10 + DigitValue(s[|s| - 1])
  }

  /** Go's `strconv.FormatUint(n, 10)`. */
  function Format(n: nat): (s: string)
    ensures IsCanonical(s)
  {
    if n < 10 then [DigitChar(n)] else Format(n / 10) + [DigitChar(n % 10)]
  }

  /** Formatting can be read back. */
  lemma {:induction false} ParseFormat(n: nat)
    ensures Parse(Format(n)) == n
  {
    if 10 <= n {
      var s := Format(n);
      assert s[..|s| - 1] == Format(n / 10);
      ParseFormat(n / 10);
    }
  }

  /** A string of digits of a given length is fixed by the number it denotes. */
  lemma {:induction false} ParseInjective(s: string, t: string)
    requires IsDigits(s) && IsDigits(t) && |s| == |t| && Parse(s) == Parse(t)
    ensures s == t
  {
    if s != [] {
      var k := |s| - 1;
      var ds, dt := DigitValue(s[k]), DigitValue(t[k]);
      DivModUnique(Parse(s), 10, Parse(s[..k]), ds);
      DivModUnique(Parse(t), 10, Parse(t[..k]), dt);
      ParseInjective(s[..k], t[..k]);
      assert s == s[..k] + [s[k]] && t == t[..k] + [t[k]];
    }
  }

  /** The canonical strings are exactly the results of Format. */
  lemma {:induction false} FormatParse(s: string)
    requires IsCanonical(s)
    ensures Format(Parse(s)) == s
  {
    var n := Parse(s);
    ParseFormat(n);
    FormatLength(n, |s|);
    if |Format(n)| < |s| {
      LeadingDigitBound(s);
      FormatLength(n, |s| - 1);
      assert false;
    }
    ParseInjective(Format(n), s);
  }

  /** A canonical string of two or more digits denotes at least 10^(length - 1). */
  lemma {:induction false} LeadingDigitBound(s: string)
    requires IsCanonical(s) && 1 < |s|
    ensures Pow10(|s| - 1) <= Parse(s)
  {
    var k := |s| - 1;
    if 1 < k {
      LeadingDigitBound(s[..k]);
    } else {
      assert s[..k] == [s[0]];
      assert s[..k][..0] == [];
    }
  }

  /** FormatUint's output fits in k characters exactly when n < 10^k. */
  lemma {:induction false} FormatLength(n: nat, k: nat)
    requires 1 <= k
    ensures |Format(n)| <= k <==> n < Pow10(k)
  {
    if 10 <= n {
      if k == 1 {
        assert |Format(n)| == |Format(n / 10)| + 1;
      } else {
        FormatLength(n / 10, k - 1);
        DivModUnique(n, 10, n / 10, n % 10);
        assert n / 10 < Pow10(k - 1) <==> n < Pow10(k);
      }
    } else if k > 1 {
      assert Pow10(1) <= Pow10(k) by { PowMonotone(1, k); }
    }
  }

  lemma {:induction false} PowMonotone(i: nat, j: nat)
    requires i <= j
    ensures Pow10(i) <= Pow10(j)
  {
    if i < j {
      PowMonotone(i, j - 1);
    }
  }

  /** Leading zeros do not change the number a digit string denotes. */
  lemma {:induction false} ParseLeadingZeros(z: string, s: string)
    requires IsDigits(s) && forall i :: 0 <= i < |z| ==> z[i] == '0'
    ensures IsDigits(z + s) && Parse(z + s) == Parse(s)
  {
    if s == [] {
      assert z + s == z;
      ParseZeros(z);
    } else {
      var k := |s| - 1;
      assert (z + s)[..|z + s| - 1] == z + s[..k];
      ParseLeadingZeros(z, s[..k]);
    }
  }

  lemma {:induction false} ParseZeros(z: string)
    requires forall i :: 0 <= i < |z| ==> z[i] == '0'
    ensures IsDigits(z) && Parse(z) == 0
  {
    if z != [] {
      ParseZeros(z[..|z| - 1]);
    }
  }

  /** The value of six digits, written out by place. */
  lemma ParseOfSix(s: string)
    requires |s| == 6 && IsDigits(s)
    ensures Parse(s) == DigitValue(s[0]) * 100_000 + DigitValue(s[1]) * 10_000 + DigitValue(s[2]) * 1_000
                      + DigitValue(s[3]) * 100 + DigitValue(s[4]) * 10 + DigitValue(s[5])
  {
    var s5, s4, s3, s2, s1 := s[..5], s[..4], s[..3], s[..2], s[..1];
    assert s5[..4] == s4 && s4[..3] == s3 && s3[..2] == s2 && s2[..1] == s1 && s1[..0] == [];
    assert Parse(s1) == DigitValue(s[0]);
    assert Parse(s2) == Parse(s1) * 10 + DigitValue(s[1]);
    assert Parse(s3) == Parse(s2) * 10 + DigitValue(s[2]);
    assert Parse(s4) == Parse(s3) * 10 + DigitValue(s[3]);
    assert Parse(s5) == Parse(s4) * 10 + DigitValue(s[4]);
  }

  /** Go's `strings.Repeat(s, count)`, which panics on a negative count. */
  function Repeat(s: string, count: int): (r: string)
    requires 0 <= count
    ensures |r| == |s| * count
    ensures forall i :: 0 <= i < |r| ==> r[i] in s
  {
    if count == 0 then "" else s + Repeat(s, count - 1)
  }
}
