/**
 * Decimal digit strings: the fixed-width, zero-padded fields that
 * `strftime` produces for `%d`, `%m` and `%Y` and for the two fractional
 * digits of `:.2f`, the minimal digit string of an integer part, and the
 * reading of a digit string back into a number.
 */
module Digits {
  predicate IsDigit(c: char) {
    '0' <= c <= '9'
  }

  predicate AllDigits(s: string) {
    forall i :: 0 <= i < |s| ==> IsDigit(s[i])
  }

  function DigitChar(d: nat): (c: char)
    requires d < 10
    ensures IsDigit(c) && DigitValue(c) == d
  {
    ('0' as int + d) as char
  }

  function DigitValue(c: char): (d: nat)
    requires IsDigit(c)
    ensures d < 10
  {
    c as int - '0' as int
  }

  function Pow10(n: nat): (p: nat)
    ensures p >= 1
  {
    if n == 0 then 1 else 10 * Pow10(n - 1)
  }

  lemma {:induction false} Pow10Add(a: nat, b: nat)
    ensures Pow10(a + b) == Pow10(a) * Pow10(b)
  {
    if a > 0 {
      Pow10Add(a - 1, b);
    }
  }

  /** The number a digit string denotes, most significant digit first. */
  function ValueOf(s: string): (n: nat)
    requires AllDigits(s)
    ensures n < Pow10(|s|)
  {
    if s == [] then 0 else 10 * ValueOf(s[..|s| - 1]) + DigitValue(s[|s| - 1])
  }

  /** The last `width` decimal digits of `n`, left-padded with zeros. */
  function Padded(n: nat, width: nat): (s: string)
    ensures |s| == width && AllDigits(s)
  {
    if width == 0 then [] else Padded(n / 10, width - 1) + [DigitChar(n % 10)]
  }

  /** The decimal digits of `n` without leading zeros ("0" for zero). */
  function Minimal(n: nat): (s: string)
    ensures |s| >= 1 && AllDigits(s)
    ensures s[0] == '0' <==> n == 0
    ensures s[0] == '0' ==> |s| == 1
  {
    if n < 10 then [DigitChar(n)] else Minimal(n / 10) + [DigitChar(n % 10)]
  }

  // One step of each rendering, for working out a rendering digit by digit.

  lemma SingleDigit(d: nat)
    requires d < 10
    ensures Minimal(d) == [DigitChar(d)]
  {
  }

  lemma MinimalAppend(n: nat, d: nat)
    requires n >= 1 && d < 10
    ensures Minimal(10 * n + d) == Minimal(n) + [DigitChar(d)]
  {
  }

  lemma PaddedTwo(n: nat)
    requires n < 100
    ensures Padded(n, 2) == [DigitChar(n / 10), DigitChar(n % 10)]
  {
    var t := n / 10;
    assert t < 10 && t % 10 == t && t / 10 == 0;
    assert Padded(t, 1) == [DigitChar(t)];
  }

  lemma {:induction false} PaddedValue(n: nat, width: nat)
    requires n < Pow10(width)
    ensures ValueOf(Padded(n, width)) == n
  {
    if width > 0 {
      var s := Padded(n / 10, width - 1);
      PaddedValue(n / 10, width - 1);
      assert (s + [DigitChar(n % 10)])[..|s|] == s;
    }
  }

  /** Every digit string is the padded rendering of its own value. */
  lemma {:induction false} PaddedOfValue(s: string)
    requires AllDigits(s)
    ensures Padded(ValueOf(s), |s|) == s
  {
    if s != [] {
      var init := s[..|s| - 1];
      PaddedOfValue(init);
      var n := ValueOf(s);
      assert n / 10 == ValueOf(init) && n % 10 == DigitValue(s[|s| - 1]);
      assert DigitChar(n % 10) == s[|s| - 1];
      assert s == init + [s[|s| - 1]];
    }
  }

  lemma {:induction false} MinimalValue(n: nat)
    ensures ValueOf(Minimal(n)) == n
  {
    if n >= 10 {
      var s := Minimal(n / 10);
      MinimalValue(n / 10);
      assert (s + [DigitChar(n % 10)])[..|s|] == s;
    }
  }

  /** A digit string without a leading zero is the minimal rendering of its value. */
  lemma {:induction false} MinimalOfValue(s: string)
    requires AllDigits(s) && |s| >= 1
    requires s[0] == '0' ==> |s| == 1
    ensures Minimal(ValueOf(s)) == s
  {
    var n := ValueOf(s);
    if |s| == 1 {
      assert s[..0] == [];
      assert DigitChar(n) == s[0];
    } else {
      var init := s[..|s| - 1];
      MinimalOfValue(init);
      LeadingDigitPositive(init);
      assert n / 10 == ValueOf(init) && n % 10 == DigitValue(s[|s| - 1]);
      assert DigitChar(n % 10) == s[|s| - 1];
      assert s == init + [s[|s| - 1]];
    }
  }

  lemma {:induction false} LeadingDigitPositive(s: string)
    requires AllDigits(s) && |s| >= 1 && s[0] != '0'
    ensures ValueOf(s) >= 1
  {
    if |s| > 1 {
      LeadingDigitPositive(s[..|s| - 1]);
    }
  }
}
