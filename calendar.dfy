/**
 * Posting dates and their `%d/%m/%Y` rendering.
 *
 * The transaction table holds pandas timestamps, whose range lies inside
 * the years 1000..9999, so `%Y` always yields four digits; `CalendarDate`
 * carries that range and the Gregorian day-of-month bound as its invariant.
 */
module Calendar {
  import opened Wrappers
  import opened Digits

  datatype Date = Date(year: int, month: int, day: int)

  predicate IsLeapYear(y: int) {
    y % 4 == 0 && (y % 100 != 0 || y % 400 == 0)
  }

  function DaysInMonth(y: int, m: int): (n: int)
    requires 1 <= m <= 12
    ensures 28 <= n <= 31
  {
    if m == 2 then (if IsLeapYear(y) then 29 else 28)
    else if m == 4 || m == 6 || m == 9 || m == 11 then 30
    else 31
  }

  predicate ValidDate(d: Date) {
    1000 <= d.year <= 9999 && 1 <= d.month <= 12 && 1 <= d.day <= DaysInMonth(d.year, d.month)
  }

  type CalendarDate = d: Date | ValidDate(d) witness Date(2000, 1, 1)

  /** The layout `strftime("%d/%m/%Y")` produces: DD/MM/YYYY, all digits but the two slashes. */
  predicate DateShape(s: string) {
    |s| == 10 && s[2] == '/' && s[5] == '/' &&
    AllDigits(s[..2]) && AllDigits(s[3..5]) && AllDigits(s[6..])
  }

  /** Day first, then month, then year, each zero-padded. */
  function FormatDate(d: CalendarDate): (s: string)
    ensures DateShape(s)
    ensures ValueOf(s[..2]) == d.day && ValueOf(s[3..5]) == d.month && ValueOf(s[6..]) == d.year
  {
    var dd, mm, yyyy := Padded(d.day, 2), Padded(d.month, 2), Padded(d.year, 4);
    var s := dd + "/" + mm + "/" + yyyy;
    assert s[..2] == dd && s[3..5] == mm && s[6..] == yyyy;
    PaddedValue(d.day, 2);
    PaddedValue(d.month, 2);
    PaddedValue(d.year, 4);
    s
  }

  /** Reads a DD/MM/YYYY field back; fails on any other layout or on an impossible date. */
  function ParseDate(s: string): (r: Option<CalendarDate>)
  {
    if DateShape(s) then
      var d := Date(ValueOf(s[6..]), ValueOf(s[3..5]), ValueOf(s[..2]));
      if ValidDate(d) then Some(d) else None
    else None
  }

  lemma DateRoundTrip(d: CalendarDate)
    ensures ParseDate(FormatDate(d)) == Some(d)
  {
  }

  /** The rendering is the only text that reads back as a given date. */
  lemma DateTextUnique(s: string)
    requires ParseDate(s).Some?
    ensures FormatDate(ParseDate(s).value) == s
  {
    var t := FormatDate(ParseDate(s).value);
    PaddedOfValue(s[..2]);
    PaddedOfValue(s[3..5]);
    PaddedOfValue(s[6..]);
    PaddedOfValue(t[..2]);
    PaddedOfValue(t[3..5]);
    PaddedOfValue(t[6..]);
    assert s == s[..2] + "/" + s[3..5] + "/" + s[6..];
    assert t == t[..2] + "/" + t[3..5] + "/" + t[6..];
  }

  /** The fixture's first posting date, 6 October 2023, is written day first. */
  lemma FormatDateExample()
    ensures FormatDate(Date(2023, 10, 6)) == "06/10/2023"
  {
  }

  /** The fixture's other posting date, 3 October 2023. */
  lemma FormatOtherDateExample()
    ensures FormatDate(Date(2023, 10, 3)) == "03/10/2023"
  {
  }
}
