/** Proleptic Gregorian dates as Python's `datetime.date` knows them, their
    `strftime("%Y%m%d")` rendering, and the UTC civil date of a Unix
    timestamp (`datetime.fromtimestamp(ts, datetime.UTC)`), by integer
    arithmetic on days since 1970-01-01. */
module Calendar {
  import opened Text

  datatype Date = Date(year: int, month: int, day: int)

  predicate IsLeapYear(y: int) {
    y % 4 == 0 && (y % 100 != 0 || y % 400 == 0)
  }

  function DaysInMonth(y: int, m: int): (n: int)
    requires 1 <= m <= 12
    ensures 28 <= n <= 31
    ensures n == 29 <==> m == 2 && IsLeapYear(y)
  {
    if m == 2 then (if IsLeapYear(y) then 29 else 28)
    else if m == 4 || m == 6 || m == 9 || m == 11 then 30
    else 31
  }

  /** What `datetime.date(year, month, day)` accepts without `ValueError`. */
  predicate ValidDate(d: Date) {
    && 1 <= d.year <= 9999
    && 1 <= d.month <= 12
    && 1 <= d.day <= DaysInMonth(d.year, d.month)
  }

  /** `strftime("%Y%m%d")`, with the year written in four digits. */
  function Render(d: Date): (r: string)
    requires ValidDate(d)
    ensures |r| == 8 && AllDigits(r)
    ensures ReadDate(r) == d
  {
    var r := Pad(d.year, 4) + Pad(d.month, 2) + Pad(d.day, 2);
    assert Pow10(4) == 10000 && Pow10(2) == 100;
    NumberPad(d.year, 4);
    NumberPad(d.month, 2);
    NumberPad(d.day, 2);
    assert r[..4] == Pad(d.year, 4) && r[4..6] == Pad(d.month, 2) && r[6..] == Pad(d.day, 2);
    r
  }

  /** The date an 8-digit `YYYYMMDD` string denotes. */
  function ReadDate(s: string): Date
    requires |s| == 8 && AllDigits(s)
  {
    Date(Number(s[..4]), Number(s[4..6]), Number(s[6..]))
  }

  /** A `Date` fact in canonical form: exactly 8 ASCII digits naming a
      calendar-valid date. */
  predicate IsCanonicalDate(s: string) {
    |s| == 8 && AllDigits(s) && ValidDate(ReadDate(s))
  }

  lemma RenderIsCanonical(d: Date)
    requires ValidDate(d)
    ensures IsCanonicalDate(Render(d))
  {
  }

  /** Every canonical string is the rendering of exactly the date it denotes:
      with `Render`'s own contract, rendering is a bijection between valid
      dates and canonical strings. */
  lemma ReadRender(s: string)
    requires IsCanonicalDate(s)
    ensures Render(ReadDate(s)) == s
  {
    var y, m, d := s[..4], s[4..6], s[6..];
    assert |y| == 4 && |m| == 2 && |d| == 2;
    PadNumber(y);
    PadNumber(m);
    PadNumber(d);
    var date := ReadDate(s);
    assert date == Date(Number(y), Number(m), Number(d));
    assert Render(date) == Pad(date.year, 4) + Pad(date.month, 2) + Pad(date.day, 2);
    assert s == y + m + d;
  }

  /** Two valid dates render alike only if they are the same date. */
  lemma RenderInjective(d1: Date, d2: Date)
    requires ValidDate(d1) && ValidDate(d2)
    requires Render(d1) == Render(d2)
    ensures d1 == d2
  {
  }

  // ---- days since the Unix epoch ----

  function DaysInYear(y: int): int {
    if IsLeapYear(y) then 366 else 365
  }

  /** Leap years among 1 .. y-1. */
  function LeapsBefore(y: int): int
    requires y >= 1
  {
    (y - 1) / 4 - (y - 1) / 100 + (y - 1) / 400
  }

  /** Days from 1970-01-01 to January 1st of year `y`. */
  function DaysBeforeYear(y: int): int
    requires y >= 1970
  {
    365 * (y - 1970) + LeapsBefore(y) - LeapsBefore(1970)
  }

  lemma DaysBeforeNextYear(y: int)
    requires y >= 1970
    ensures DaysBeforeYear(y + 1) == DaysBeforeYear(y) + DaysInYear(y)
  {
    assert y / 4 - (y - 1) / 4 == if y % 4 == 0 then 1 else 0;
    assert y / 100 - (y - 1) / 100 == if y % 100 == 0 then 1 else 0;
    assert y / 400 - (y - 1) / 400 == if y % 400 == 0 then 1 else 0;
  }

  lemma {:induction false} DaysBeforeYearMonotone(a: int, b: int)
    requires 1970 <= a <= b
    ensures DaysBeforeYear(a) + 365 * (b - a) <= DaysBeforeYear(b)
    decreases b - a
  {
    if a < b {
      DaysBeforeNextYear(a);
      DaysBeforeYearMonotone(a + 1, b);
    }
  }

  /** Days from January 1st to the first day of month `m` in year `y`. */
  function DaysBeforeMonth(y: int, m: int): (n: int)
    requires 1 <= m <= 13
    ensures 0 <= n <= 31 * (m - 1)
  {
    if m == 1 then 0 else DaysBeforeMonth(y, m - 1) + DaysInMonth(y, m - 1)
  }

  lemma DaysBeforeMonthsOfYear(y: int)
    ensures DaysBeforeMonth(y, 13) == DaysInYear(y)
  {
    assert DaysBeforeMonth(y, 3) == 31 + DaysInMonth(y, 2);
    assert DaysBeforeMonth(y, 5) == 90 + DaysInMonth(y, 2) - 28 + 30;
    assert DaysBeforeMonth(y, 7) == DaysBeforeMonth(y, 5) + 61;
    assert DaysBeforeMonth(y, 9) == DaysBeforeMonth(y, 7) + 62;
    assert DaysBeforeMonth(y, 11) == DaysBeforeMonth(y, 9) + 61;
    assert DaysBeforeMonth(y, 13) == DaysBeforeMonth(y, 11) + 61;
  }

  /** Days from 1970-01-01 to `d`: the independent reference for
      `CivilFromDays`. */
  function DaysFromCivil(d: Date): int
    requires ValidDate(d) && d.year >= 1970
  {
    DaysBeforeYear(d.year) + DaysBeforeMonth(d.year, d.month) + d.day - 1
  }

  /** The year that day number `n` falls in, searching upwards from `y`. */
  function YearOf(n: int, y: int): (r: int)
    requires y >= 1970 && DaysBeforeYear(y) <= n
    ensures r >= y && DaysBeforeYear(r) <= n < DaysBeforeYear(r + 1)
    decreases n - DaysBeforeYear(y)
  {
    DaysBeforeNextYear(y);
    if n < DaysBeforeYear(y + 1) then y else YearOf(n, y + 1)
  }

  /** The month and day of day `r` (counted from 0) of year `y`, searching
      upwards from month `m`. */
  function MonthOf(r: int, y: int, m: int): (md: (int, int))
    requires 1 <= m <= 12
    requires DaysBeforeMonth(y, m) <= r < DaysInYear(y)
    ensures m <= md.0 <= 12 && 1 <= md.1 <= DaysInMonth(y, md.0)
    ensures DaysBeforeMonth(y, md.0) + md.1 - 1 == r
    decreases 12 - m
  {
    DaysBeforeMonthsOfYear(y);
    if r < DaysBeforeMonth(y, m + 1) then (m, r - DaysBeforeMonth(y, m) + 1)
    else MonthOf(r, y, m + 1)
  }

  /** The civil date of day number `n` (day 0 is 1970-01-01). */
  function CivilFromDays(n: nat): (d: Date)
    requires n < DaysBeforeYear(10000)
    ensures ValidDate(d) && d.year >= 1970
    ensures DaysFromCivil(d) == n
  {
    var y := YearOf(n, 1970);
    DaysBeforeNextYear(y);
    DaysBeforeYearMonotone(y + 1, 10000);
    var md := MonthOf(n - DaysBeforeYear(y), y, 1);
    Date(y, md.0, md.1)
  }

  /** Day numbers and civil dates from 1970 on are in one-to-one
      correspondence: `CivilFromDays` also undoes `DaysFromCivil`. */
  lemma CivilFromDaysOfCivil(d: Date)
    requires ValidDate(d) && d.year >= 1970
    ensures DaysFromCivil(d) < DaysBeforeYear(10000)
    ensures CivilFromDays(DaysFromCivil(d)) == d
  {
    var n := DaysFromCivil(d);
    DaysBeforeNextYear(d.year);
    DaysBeforeMonthBound(d.year, d.month);
    DaysBeforeYearMonotone(d.year + 1, 10000);
    var e := CivilFromDays(n);
    YearUnique(n, d.year, e.year);
    MonthUnique(d.year, d.month, d.day, e.month, e.day);
  }

  lemma {:induction false} DaysBeforeMonthBound(y: int, m: int)
    requires 1 <= m <= 12
    ensures DaysBeforeMonth(y, m) + DaysInMonth(y, m) <= DaysInYear(y)
    decreases 12 - m
  {
    if m == 12 {
      DaysBeforeMonthsOfYear(y);
    } else {
      DaysBeforeMonthBound(y, m + 1);
    }
  }

  lemma YearUnique(n: int, a: int, b: int)
    requires 1970 <= a && 1970 <= b
    requires DaysBeforeYear(a) <= n < DaysBeforeYear(a + 1)
    requires DaysBeforeYear(b) <= n < DaysBeforeYear(b + 1)
    ensures a == b
  {
    if a < b {
      DaysBeforeYearMonotone(a + 1, b);
    } else if b < a {
      DaysBeforeYearMonotone(b + 1, a);
    }
  }

  lemma {:induction false} DaysBeforeMonthMonotone(y: int, a: int, b: int)
    requires 1 <= a <= b <= 13
    ensures DaysBeforeMonth(y, a) <= DaysBeforeMonth(y, b)
    ensures a < b ==> DaysBeforeMonth(y, a) + DaysInMonth(y, a) <= DaysBeforeMonth(y, b)
    decreases b - a
  {
    if a < b {
      DaysBeforeMonthMonotone(y, a, b - 1);
    }
  }

  lemma MonthUnique(y: int, m1: int, d1: int, m2: int, d2: int)
    requires 1 <= m1 <= 12 && 1 <= d1 <= DaysInMonth(y, m1)
    requires 1 <= m2 <= 12 && 1 <= d2 <= DaysInMonth(y, m2)
    requires DaysBeforeMonth(y, m1) + d1 == DaysBeforeMonth(y, m2) + d2
    ensures m1 == m2 && d1 == d2
  {
    if m1 < m2 {
      DaysBeforeMonthMonotone(y, m1, m2);
    } else if m2 < m1 {
      DaysBeforeMonthMonotone(y, m2, m1);
    }
  }

  const SecondsPerDay := 86400

  /** `datetime.fromtimestamp(ts, datetime.UTC)` reduced to its date. */
  function UtcDate(ts: nat): (d: Date)
    requires ts < Pow10(10)
    ensures ValidDate(d) && 1970 <= d.year <= 2286
    ensures DaysFromCivil(d) == ts / SecondsPerDay
  {
    var n := ts / SecondsPerDay;
    assert Pow10(10) == 10000000000;
    CivilYearBound(n);
    CivilFromDays(n)
  }

  /** Day numbers of 10-digit timestamps stay within the year 2286. */
  lemma CivilYearBound(n: nat)
    requires n <= 115740
    ensures n < DaysBeforeYear(10000)
    ensures CivilFromDays(n).year <= 2286
  {
    assert DaysBeforeYear(2287) == 115782;
    DaysBeforeYearMonotone(2287, 10000);
    var d := CivilFromDays(n);
    if d.year > 2286 {
      DaysBeforeYearMonotone(2287, d.year);
    }
  }
}
