/**
 * Calendar dates of ISO 8601:2004 (section 4.1.2.2, extended format
 * YYYY-MM-DD) in the proleptic Gregorian calendar, as (year, month, day)
 * triples. `DayNumber` counts days from 0001-01-01; it plays the part of the
 * millisecond timestamp JavaScript subtracts when it compares two `Date`s.
 */
module Dates {
  import opened Wrappers

  datatype Date = Date(year: int, month: int, day: int)

  predicate IsLeapYear(y: int)
  {
    y % 4 == 0 && (y % 100 != 0 || y % 400 == 0)
  }

  function DaysInYear(y: int): int
  {
    if IsLeapYear(y) then 366 else 365
  }

  function DaysInMonth(y: int, m: int): int
  {
    if m == 2 then (if IsLeapYear(y) then 29 else 28)
    else if m == 4 || m == 6 || m == 9 || m == 11 then 30
    else 31
  }

  /** A date that exists: a four-digit year from 1, a month 1-12, a day within the month. */
  predicate ValidDate(d: Date)
  {
    1 <= d.year <= 9999 && 1 <= d.month <= 12 && 1 <= d.day <= DaysInMonth(d.year, d.month)
  }

  /** Days in the years before `y`, counted from year 1. */
  function DaysBeforeYear(y: int): int
  {
    365 * (y - 1) + (y - 1) / 4 - (y - 1) / 100 + (y - 1) / 400
  }

  /** Days in the months of year `y` before month `m` (1-12). */
  function DaysBeforeMonth(y: int, m: int): int
  {
    var leap := if m > 2 && IsLeapYear(y) then 1 else 0;
    if m <= 1 then 0
    else if m == 2 then 31
    else if m == 3 then 59 + leap
    else if m == 4 then 90 + leap
    else if m == 5 then 120 + leap
    else if m == 6 then 151 + leap
    else if m == 7 then 181 + leap
    else if m == 8 then 212 + leap
    else if m == 9 then 243 + leap
    else if m == 10 then 273 + leap
    else if m == 11 then 304 + leap
    else 334 + leap
  }

  /** Days from 0001-01-01 to `d`. */
  function DayNumber(d: Date): int
  {
    DaysBeforeYear(d.year) + DaysBeforeMonth(d.year, d.month) + d.day - 1
  }

  /** Calendar order of triples: by year, then month, then day. */
  predicate DateBefore(a: Date, b: Date)
  {
    a.year < b.year
    || (a.year == b.year && a.month < b.month)
    || (a.year == b.year && a.month == b.month && a.day < b.day)
  }

  lemma DivStep(x: int)
    ensures (x + 1) / 4 == x / 4 + (if (x + 1) % 4 == 0 then 1 else 0)
    ensures (x + 1) / 100 == x / 100 + (if (x + 1) % 100 == 0 then 1 else 0)
    ensures (x + 1) / 400 == x / 400 + (if (x + 1) % 400 == 0 then 1 else 0)
  {
  }

  /** A year adds its own length: 366 days in a leap year, 365 otherwise. */
  lemma DaysBeforeYearStep(y: int)
    ensures DaysBeforeYear(y + 1) == DaysBeforeYear(y) + DaysInYear(y)
  {
    DivStep(y - 1);
    if y % 400 == 0 {
      assert y % 100 == 0;
    }
    if y % 100 == 0 {
      assert y % 4 == 0;
    }
  }

  lemma {:induction false} DaysBeforeYearMonotone(y: int, y': int)
    requires y <= y'
    ensures DaysBeforeYear(y) + 365 * (y' - y) <= DaysBeforeYear(y')
    decreases y' - y
  {
    if y < y' {
      DaysBeforeYearMonotone(y, y' - 1);
      DaysBeforeYearStep(y' - 1);
    }
  }

  /** The day of a valid date falls within its year: the offset is below the year's length. */
  lemma DayOfYearBound(d: Date)
    requires ValidDate(d)
    ensures 0 <= DaysBeforeMonth(d.year, d.month) + d.day - 1 < DaysInYear(d.year)
  {
  }

  /** Within one year, an earlier month ends before a later month starts. */
  lemma MonthsOrdered(y: int, m: int, m': int, day: int)
    requires 1 <= m < m' <= 12 && 1 <= day <= DaysInMonth(y, m)
    ensures DaysBeforeMonth(y, m) + day <= DaysBeforeMonth(y, m')
  {
  }

  /** A date in an earlier year has a smaller day number. */
  lemma YearsOrdered(lo: Date, hi: Date)
    requires ValidDate(lo) && ValidDate(hi) && lo.year < hi.year
    ensures DayNumber(lo) < DayNumber(hi)
  {
    DayOfYearBound(lo);
    DaysBeforeYearStep(lo.year);
    DaysBeforeYearMonotone(lo.year + 1, hi.year);
  }

  /**
   * Comparing day numbers is comparing dates: the order of timestamps is the
   * calendar order of (year, month, day), and equal timestamps mean equal dates.
   */
  lemma DayNumberOrder(a: Date, b: Date)
    requires ValidDate(a) && ValidDate(b)
    ensures DayNumber(a) < DayNumber(b) <==> DateBefore(a, b)
    ensures DayNumber(a) == DayNumber(b) <==> a == b
  {
    if a.year < b.year {
      YearsOrdered(a, b);
    } else if b.year < a.year {
      YearsOrdered(b, a);
    } else if a.month < b.month {
      MonthsOrdered(a.year, a.month, b.month, a.day);
    } else if b.month < a.month {
      MonthsOrdered(a.year, b.month, a.month, b.day);
    }
  }

  /** Day of the week, 0 for Sunday through 6 for Saturday (0001-01-01 was a Monday). */
  function Weekday(d: Date): (w: int)
    ensures 0 <= w < 7
  {
    (DayNumber(d) + 1) % 7
  }

  /** Day number of the Sunday that starts the week of `d` (date-fns' default week). */
  function StartOfWeek(d: Date): int
  {
    DayNumber(d) - Weekday(d)
  }

  /** The week of `today` is the seven days from its Sunday on. */
  lemma SameWeekIsSevenDays(d: Date, today: Date)
    ensures StartOfWeek(d) == StartOfWeek(today)
        <==> StartOfWeek(today) <= DayNumber(d) < StartOfWeek(today) + 7
  {
    var n, s := DayNumber(d), StartOfWeek(today);
    assert (s + 1) % 7 == 0;
    if s <= n < s + 7 {
      assert (n + 1) % 7 == n - s;
    }
  }

  // ---------------------------------------------------------------------
  // The `yyyy-MM-dd` text form

  function Pow10(w: nat): nat
  {
    if w == 0 then 1 else 10 * Pow10(w - 1)
  }

  predicate IsDigit(c: char)
  {
    '0' <= c <= '9'
  }

  predicate AllDigits(s: string)
  {
    forall i :: 0 <= i < |s| ==> IsDigit(s[i])
  }

  /** `n` in decimal, zero-padded to `width` digits (its last `width` digits). */
  function Pad(n: nat, width: nat): (r: string)
    ensures |r| == width && AllDigits(r)
  {
    if width == 0 then "" else Pad(n / 10, width - 1) + [('0' as int + n % 10) as char]
  }

  /** The value of a string of decimal digits. */
  function DigitsValue(s: string): nat
    requires AllDigits(s)
  {
    if s == [] then 0 else 10 * DigitsValue(s[..|s| - 1]) + (s[|s| - 1] as int - '0' as int)
  }

  lemma {:induction false} PadValue(n: nat, width: nat)
    requires n < Pow10(width)
    ensures DigitsValue(Pad(n, width)) == n
  {
    if width > 0 {
      PadValue(n / 10, width - 1);
      var r := Pad(n, width);
      assert r[..|r| - 1] == Pad(n / 10, width - 1);
    }
  }

  lemma {:induction false} DigitsPad(s: string)
    requires AllDigits(s)
    ensures DigitsValue(s) < Pow10(|s|)
    ensures Pad(DigitsValue(s), |s|) == s
  {
    if s != [] {
      var init := s[..|s| - 1];
      DigitsPad(init);
      var v := DigitsValue(s);
      assert v / 10 == DigitsValue(init);
      assert v % 10 == s[|s| - 1] as int - '0' as int;
      assert s == init + [s[|s| - 1]];
    }
  }

  /** `format(d, 'yyyy-MM-dd')`. */
  function FormatIso(d: Date): (r: string)
    requires ValidDate(d)
    ensures |r| == 10 && r[4] == '-' && r[7] == '-'
  {
    Pad(d.year, 4) + "-" + Pad(d.month, 2) + "-" + Pad(d.day, 2)
  }

  /** A `YYYY-MM-DD` string naming an existing date, or `None`. */
  function ParseIso(s: string): (r: Option<Date>)
    ensures r.Some? ==> ValidDate(r.value)
  {
    if |s| == 10 && s[4] == '-' && s[7] == '-'
       && AllDigits(s[..4]) && AllDigits(s[5..7]) && AllDigits(s[8..])
    then
      var d := Date(DigitsValue(s[..4]), DigitsValue(s[5..7]), DigitsValue(s[8..]));
      if ValidDate(d) then Some(d) else None
    else None
  }

  /** Formatting then parsing gives the date back. */
  lemma ParseFormat(d: Date)
    requires ValidDate(d)
    ensures ParseIso(FormatIso(d)) == Some(d)
  {
    var s := FormatIso(d);
    assert s[..4] == Pad(d.year, 4) && s[5..7] == Pad(d.month, 2) && s[8..] == Pad(d.day, 2);
    PadValue(d.year, 4);
    PadValue(d.month, 2);
    PadValue(d.day, 2);
  }

  /** A string that parses is exactly the formatted form of its date. */
  lemma FormatParse(s: string)
    requires ParseIso(s).Some?
    ensures FormatIso(ParseIso(s).value) == s
  {
    DigitsPad(s[..4]);
    DigitsPad(s[5..7]);
    DigitsPad(s[8..]);
    assert s == s[..4] + "-" + s[5..7] + "-" + s[8..];
  }
}
