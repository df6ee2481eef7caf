/**
 * Amounts as Python `Decimal` values and their `f"{x:.2f}"` rendering.
 *
 * A finite decimal is a sign bit, a coefficient and an exponent; its value
 * is (-1)^sign * coefficient * 10^exponent. Formatting with `.2f`
 * quantizes the value to exponent -2 under the default context rounding,
 * ROUND_HALF_EVEN, keeps the sign bit, and writes the integer part without
 * grouping separators followed by `.` and exactly two digits.
 */
module Amounts {
  import opened Wrappers
  import opened Digits

  datatype Decimal = Decimal(negative: bool, coefficient: nat, exponent: int)

  function SignedCoefficient(x: Decimal): int {
    var c: int := x.coefficient;
    if x.negative then -c else c
  }

  /** `n / d` rounded to the nearest integer, ties to the even neighbour. */
  function RoundHalfEven(n: nat, d: nat): nat
    requires d > 0
  {
    var q0, r := n / d, n % d;
    if 2 * r > d || (2 * r == d && q0 % 2 == 1) then q0 + 1 else q0
  }

  /** The rounded quotient is never further than half a unit from the exact one, and exact when `d` divides `n`. */
  lemma RoundHalfEvenError(n: nat, d: nat)
    requires d > 0
    ensures var q := RoundHalfEven(n, d);
            2 * (n - q * d) <= d && 2 * (q * d - n) <= d && (n % d == 0 ==> q * d == n)
  {
    var q0, r := n / d, n % d;
    assert n == q0 * d + r;
    assert (q0 + 1) * d == q0 * d + d;
  }

  lemma TiesToEven(n: nat, d: nat)
    requires d > 0 && 2 * (n % d) == d
    ensures RoundHalfEven(n, d) % 2 == 0
  {
  }

  /** The magnitude of `x` in hundredths once rescaled to exponent -2. */
  function Cents(x: Decimal): nat {
    if x.exponent >= -2 then x.coefficient * Pow10(x.exponent + 2)
    else RoundHalfEven(x.coefficient, Pow10(-2 - x.exponent))
  }

  function Signed(negative: bool, m: nat): int {
    if negative then -(m as int) else m
  }

  function SignedCents(x: Decimal): int {
    Signed(x.negative, Cents(x))
  }

  /**
   * The layout of `.2f` output without its sign: integer digits with no
   * leading zero and no grouping separator, `.`, exactly two digits.
   */
  predicate UnsignedShape(b: string) {
    |b| >= 4 && b[|b| - 3] == '.' &&
    AllDigits(b[..|b| - 3]) && AllDigits(b[|b| - 2..]) &&
    (b[0] == '0' ==> |b| == 4)
  }

  /** A leading `-` exactly when the sign bit is set, then the unsigned layout. */
  predicate AmountShape(s: string, negative: bool) {
    if negative then |s| >= 1 && s[0] == '-' && UnsignedShape(s[1..])
    else UnsignedShape(s) && s[0] != '-'
  }

  /** The `.2f` text of `m` hundredths without a sign. */
  function UnsignedText(m: nat): string {
    Minimal(m / 100) + "." + Padded(m % 100, 2)
  }

  /** The `.2f` text of a magnitude of `m` hundredths carrying the given sign bit. */
  function AmountText(negative: bool, m: nat): string {
    if negative then "-" + UnsignedText(m) else UnsignedText(m)
  }

  function FormatAmount(x: Decimal): string {
    AmountText(x.negative, Cents(x))
  }

  lemma UnsignedTextShape(m: nat)
    ensures UnsignedShape(UnsignedText(m))
  {
    var whole, frac := Minimal(m / 100), Padded(m % 100, 2);
    var b := whole + "." + frac;
    assert b[..|b| - 3] == whole && b[|b| - 2..] == frac;
  }

  /**
   * Every formatted amount has the `.2f` layout: a `-` exactly when the sign
   * bit is set, digits with no separators, one `.`, exactly two digits.
   */
  lemma FormatAmountShape(x: Decimal)
    ensures AmountShape(FormatAmount(x), x.negative)
  {
    var b := UnsignedText(Cents(x));
    UnsignedTextShape(Cents(x));
    if x.negative {
      assert ("-" + b)[1..] == b;
    } else {
      assert IsDigit(b[0]);
    }
  }

  /**
   * For an amount with a non-zero coefficient, the text starts with `-`
   * exactly when the value is below zero; with a zero coefficient the sign
   * bit alone decides, as `AmountShape` says, so `Decimal('-0')` gives `-0.00`.
   */
  lemma DebitSign(x: Decimal)
    requires x.coefficient > 0
    ensures FormatAmount(x) != [] && (FormatAmount(x)[0] == '-' <==> SignedCoefficient(x) < 0)
  {
    FormatAmountShape(x);
  }

  /** Reads an amount field back as a signed count of hundredths. */
  function ParseAmount(s: string): (r: Option<int>)
  {
    if |s| > 0 && s[0] == '-' then
      match ParseMagnitude(s[1..])
      case Some(m) => Some(-(m as int))
      case None => None
    else ParseMagnitude(s)
  }

  /** Integer digits, `.`, two digits: the number of hundredths they spell. */
  function ParseMagnitude(b: string): (r: Option<nat>)
  {
    if |b| >= 4 && b[|b| - 3] == '.' && AllDigits(b[..|b| - 3]) && AllDigits(b[|b| - 2..])
    then Some(ValueOf(b[..|b| - 3]) * 100 + ValueOf(b[|b| - 2..]))
    else None
  }

  lemma ParseMagnitudeParts(whole: string, frac: string)
    requires |whole| >= 1 && AllDigits(whole) && |frac| == 2 && AllDigits(frac)
    ensures ParseMagnitude(whole + "." + frac) == Some(ValueOf(whole) * 100 + ValueOf(frac))
  {
    var b := whole + "." + frac;
    assert b[..|b| - 3] == whole;
    assert b[|b| - 2..] == frac;
  }

  lemma ParseNegative(b: string)
    ensures ParseAmount("-" + b) == match ParseMagnitude(b)
                                    case Some(m) => Some(-(m as int))
                                    case None => None
  {
    assert ("-" + b)[1..] == b;
  }

  lemma UnsignedTextRoundTrip(m: nat)
    ensures ParseMagnitude(UnsignedText(m)) == Some(m)
  {
    MinimalValue(m / 100);
    PaddedValue(m % 100, 2);
    ParseMagnitudeParts(Minimal(m / 100), Padded(m % 100, 2));
  }

  lemma AmountTextRoundTrip(negative: bool, m: nat)
    ensures ParseAmount(AmountText(negative, m)) == Some(Signed(negative, m))
  {
    UnsignedTextRoundTrip(m);
    if negative {
      ParseNegative(UnsignedText(m));
    }
  }

  /** Reading a formatted amount back gives its value in hundredths, after rounding. */
  lemma AmountRoundTrip(x: Decimal)
    ensures ParseAmount(FormatAmount(x)) == Some(SignedCents(x))
  {
    AmountTextRoundTrip(x.negative, Cents(x));
  }

  /** An unsigned `.2f` layout is the rendering of the hundredths it spells. */
  lemma UnsignedTextUnique(b: string)
    requires UnsignedShape(b)
    ensures ParseMagnitude(b).Some? && UnsignedText(ParseMagnitude(b).value) == b
  {
    var whole, frac := b[..|b| - 3], b[|b| - 2..];
    var m := ParseMagnitude(b).value;
    assert m == ValueOf(whole) * 100 + ValueOf(frac);
    assert ValueOf(frac) < Pow10(2) == 100;
    DivModUnique(m, 100, ValueOf(whole), ValueOf(frac));
    MinimalOfValue(whole);
    PaddedOfValue(frac);
    MagnitudeParts(b);
  }

  lemma MagnitudeParts(b: string)
    requires |b| >= 4 && b[|b| - 3] == '.'
    ensures b == b[..|b| - 3] + "." + b[|b| - 2..]
  {
  }

  /**
   * A text of `.2f` layout is the rendering of the value it reads back as,
   * except for a negative zero, which reads back as plain zero.
   */
  lemma AmountTextUnique(s: string, negative: bool)
    requires AmountShape(s, negative)
    ensures ParseAmount(s).Some?
    ensures var v := ParseAmount(s).value;
            AmountText(negative, if v < 0 then -v else v) == s
  {
    if negative {
      var b := s[1..];
      UnsignedTextUnique(b);
      assert s == "-" + b;
      ParseNegative(b);
    } else {
      UnsignedTextUnique(s);
    }
  }

  /** `x` denotes exactly `n` hundredths: x * 100 == n, cleared of negative powers. */
  predicate DenotesCents(x: Decimal, n: int) {
    if x.exponent >= 0 then SignedCoefficient(x) * Pow10(x.exponent) * 100 == n
    else SignedCoefficient(x) * 100 == n * Pow10(-x.exponent)
  }

  /** The value has no digit below the hundredths. */
  predicate AtMostTwoPlaces(x: Decimal) {
    x.exponent >= -2 || x.coefficient % Pow10(-2 - x.exponent) == 0
  }

  /** Without digits below the hundredths, formatting loses nothing. */
  lemma ExactCents(x: Decimal)
    requires AtMostTwoPlaces(x)
    ensures DenotesCents(x, SignedCents(x))
  {
    var c, m := x.coefficient, Cents(x);
    if x.exponent >= 0 {
      WholeCents(c, x.exponent);
      SignedProduct(x.negative, c * Pow10(x.exponent) * 100, m);
    } else {
      if x.exponent >= -2 {
        ShortCents(c, x.exponent);
      } else {
        RoundedCents(c, x.exponent);
      }
      SignedScale(x.negative, c, m, Pow10(-x.exponent));
    }
  }

  lemma WholeCents(c: nat, e: nat)
    ensures c * Pow10(e) * 100 == c * Pow10(e + 2)
  {
    var p := Pow10(e);
    Pow10Add(e, 2);
    assert Pow10(e + 2) == p * 100;
  }

  lemma ShortCents(c: nat, e: int)
    requires -2 <= e < 0
    ensures c * 100 == c * Pow10(e + 2) * Pow10(-e)
  {
    Pow10Add(e + 2, -e);
    assert Pow10(e + 2) * Pow10(-e) == 100;
  }

  lemma RoundedCents(c: nat, e: int)
    requires e < -2 && c % Pow10(-2 - e) == 0
    ensures c * 100 == RoundHalfEven(c, Pow10(-2 - e)) * Pow10(-e)
  {
    var d, m := Pow10(-2 - e), RoundHalfEven(c, Pow10(-2 - e));
    Pow10Add(-2 - e, 2);
    assert Pow10(-e) == d * 100;
    RoundHalfEvenError(c, d);
    assert m * d == c;
    assert m * (d * 100) == (m * d) * 100;
  }

  lemma SignedProduct(negative: bool, a: int, b: nat)
    requires a == b
    ensures (if negative then -a else a) == Signed(negative, b)
  {
  }

  lemma SignedScale(negative: bool, c: nat, m: nat, p: nat)
    requires c * 100 == m * p
    ensures Signed(negative, c) * 100 == Signed(negative, m) * p
  {
    if negative {
      assert (-(c as int)) * 100 == -(c * 100);
      assert (-(m as int)) * p == -(m * p);
    }
  }

  /** Conversely, a value that denotes whole hundredths has no deeper digits. */
  lemma TwoPlacesWhenExact(x: Decimal, n: int)
    requires DenotesCents(x, n)
    ensures AtMostTwoPlaces(x)
  {
    if x.exponent < -2 {
      var d := Pow10(-2 - x.exponent);
      Pow10Add(-2 - x.exponent, 2);
      assert Pow10(2) == 100;
      var sc := SignedCoefficient(x);
      assert sc * 100 == n * d * 100;
      assert sc == n * d;
      assert x.coefficient == (if n < 0 then -n else n) * d;
      DivModUnique(x.coefficient, d, if n < 0 then -n else n, 0);
    }
  }

  lemma {:induction false} MulAtLeast(k: int, d: nat)
    requires k >= 1
    ensures k * d >= d
  {
    if k > 1 {
      MulAtLeast(k - 1, d);
      assert k * d == (k - 1) * d + d;
    }
  }

  /** Quotient and remainder are determined by `a == q * d + r` with `0 <= r < d`. */
  lemma DivModUnique(a: nat, d: nat, q: int, r: int)
    requires d > 0 && 0 <= r < d && a == q * d + r
    ensures a / d == q && a % d == r
  {
    var q0, r0 := a / d, a % d;
    assert a == q0 * d + r0;
    var k := q - q0;
    assert k * d == q * d - q0 * d;
    if k > 0 {
      MulAtLeast(k, d);
    } else if k < 0 {
      MulAtLeast(-k, d);
    }
  }

  /** With more than two fractional digits, the printed value is within half a hundredth. */
  lemma RoundingError(x: Decimal)
    requires x.exponent < -2
    ensures var d, m := Pow10(-2 - x.exponent), Cents(x);
            2 * (x.coefficient - m * d) <= d && 2 * (m * d - x.coefficient) <= d
  {
    RoundHalfEvenError(x.coefficient, Pow10(-2 - x.exponent));
  }

  /** The sign goes in front of the magnitude text. */
  lemma SignedText(x: Decimal, b: string)
    requires UnsignedText(Cents(x)) == b
    ensures FormatAmount(x) == if x.negative then "-" + b else b
  {
  }

  // The fixture's amounts, `Decimal(-9999.00)`, `Decimal(-2.00)` and `Decimal(10001.00)`.
  // Each `...Example` is followed by its worked steps (`...Magnitude`,
  // `...Cents`, `WholeDigits...`), one literal fact each: proved together,
  // these facts make the solver's cost vary widely from seed to seed.

  lemma FormatDebitExample()
    ensures FormatAmount(Decimal(true, 9999, 0)) == "-9999.00"
  {
    DebitMagnitude();
    SignedText(Decimal(true, 9999, 0), "9999.00");
  }

  lemma DebitMagnitude()
    ensures UnsignedText(Cents(Decimal(true, 9999, 0))) == "9999.00"
  {
    DebitCents();
    WholeDigits9999();
    PaddedZero();
  }

  lemma DebitCents()
    ensures Cents(Decimal(true, 9999, 0)) == 999900
  {
  }

  lemma WholeDigits9999()
    ensures Minimal(9999) == "9999"
  {
    SingleDigit(9);
    MinimalAppend(9, 9);
    MinimalAppend(99, 9);
    MinimalAppend(999, 9);
  }

  lemma PaddedZero()
    ensures Padded(0, 2) == "00"
  {
    PaddedTwo(0);
  }

  lemma FormatSmallDebitExample()
    ensures FormatAmount(Decimal(true, 2, 0)) == "-2.00"
  {
    SmallDebitMagnitude();
    SignedText(Decimal(true, 2, 0), "2.00");
  }

  lemma SmallDebitMagnitude()
    ensures UnsignedText(Cents(Decimal(true, 2, 0))) == "2.00"
  {
    SmallDebitCents();
    SingleDigit(2);
    PaddedZero();
  }

  lemma SmallDebitCents()
    ensures Cents(Decimal(true, 2, 0)) == 200
  {
  }

  lemma FormatCreditExample()
    ensures FormatAmount(Decimal(false, 10001, 0)) == "10001.00"
  {
    CreditMagnitude();
    SignedText(Decimal(false, 10001, 0), "10001.00");
  }

  lemma CreditMagnitude()
    ensures UnsignedText(Cents(Decimal(false, 10001, 0))) == "10001.00"
  {
    CreditCents();
    WholeDigits10001();
    PaddedZero();
  }

  lemma CreditCents()
    ensures Cents(Decimal(false, 10001, 0)) == 1000100
  {
  }

  lemma WholeDigits10001()
    ensures Minimal(10001) == "10001"
  {
    SingleDigit(1);
    MinimalAppend(1, 0);
    MinimalAppend(10, 0);
    MinimalAppend(100, 0);
    MinimalAppend(1000, 1);
  }

  // Digits below the hundredths round half to even; a tiny debit keeps its sign.

  lemma RoundDownExample()
    ensures FormatAmount(Decimal(false, 12345, -3)) == "12.34"
  {
    RoundDownMagnitude();
    SignedText(Decimal(false, 12345, -3), "12.34");
  }

  lemma RoundDownMagnitude()
    ensures UnsignedText(Cents(Decimal(false, 12345, -3))) == "12.34"
  {
    RoundDownCents();
    WholeDigits12();
    PaddedTwo(34);
  }

  /** 12.345 is a tie at the hundredths, and the even neighbour 12.34 is below it. */
  lemma RoundDownCents()
    ensures Cents(Decimal(false, 12345, -3)) == 1234
  {
  }

  lemma WholeDigits12()
    ensures Minimal(12) == "12"
  {
    SingleDigit(1);
    MinimalAppend(1, 2);
  }

  lemma RoundUpExample()
    ensures FormatAmount(Decimal(false, 12355, -3)) == "12.36"
  {
    RoundUpMagnitude();
    SignedText(Decimal(false, 12355, -3), "12.36");
  }

  lemma RoundUpMagnitude()
    ensures UnsignedText(Cents(Decimal(false, 12355, -3))) == "12.36"
  {
    RoundUpCents();
    WholeDigits12();
    PaddedTwo(36);
  }

  /** 12.355 is a tie at the hundredths, and the even neighbour 12.36 is above it. */
  lemma RoundUpCents()
    ensures Cents(Decimal(false, 12355, -3)) == 1236
  {
  }

  lemma NegativeZeroExample()
    ensures FormatAmount(Decimal(true, 1, -3)) == "-0.00"
  {
    NegativeZeroMagnitude();
    SignedText(Decimal(true, 1, -3), "0.00");
  }

  lemma NegativeZeroMagnitude()
    ensures UnsignedText(Cents(Decimal(true, 1, -3))) == "0.00"
  {
    NegativeZeroCents();
    SingleDigit(0);
    PaddedZero();
  }

  lemma NegativeZeroCents()
    ensures Cents(Decimal(true, 1, -3)) == 0
  {
  }
}
