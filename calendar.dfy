/**
 * The proleptic Gregorian calendar on tz-naive timestamps. A date is counted
 * as a day number (0 is 0001-01-01, a Monday) and a timestamp as a number of
 * minutes since 0001-01-01 00:00, so the calendar arithmetic pandas does on
 * Timestamp and Timedelta values becomes integer arithmetic.
 */
module Calendar {
  import opened Wrappers
  import opened Strings

  const MinutesPerHour: int := 60
  const MinutesPerDay: int := 1440

  /** The day number of 9999-12-31, the last date with a four-digit year. */
  const MaxDay: int := 3652058

  predicate ValidDay(n: int) { 0 <= n <= MaxDay }

  datatype Date = Date(year: int, month: int, day: int)

  predicate IsLeapYear(y: int) {
    y % 4 == 0 && (y % 100 != 0 || y % 400 == 0)
  }

  function YearLength(y: int): int {
    if IsLeapYear(y) then 366 else 365
  }

  function DaysInMonth(y: int, m: int): int
    requires 1 <= m <= 12
  {
    if m == 2 then (if IsLeapYear(y) then 29 else 28)
    else if m == 4 || m == 6 || m == 9 || m == 11 then 30
    else 31
  }

  /** Days of year y before the first of month m. */
  function DaysBeforeMonth(y: int, m: int): int
    requires 1 <= m <= 12
  {
    (if m == 1 then 0 else if m == 2 then 31 else if m == 3 then 59 else if m == 4 then 90
     else if m == 5 then 120 else if m == 6 then 151 else if m == 7 then 181 else if m == 8 then 212
     else if m == 9 then 243 else if m == 10 then 273 else if m == 11 then 304 else 334)
    + (if m > 2 && IsLeapYear(y) then 1 else 0)
  }

  predicate ValidDate(d: Date) {
    && 1 <= d.year <= 9999
    && 1 <= d.month <= 12
    && 1 <= d.day <= DaysInMonth(d.year, d.month)
  }

  /** Days from 0001-01-01 to January 1st of year y. */
  function DaysBeforeYear(y: int): int
    requires y >= 1
  {
    var p := y - 1;
    365 * p + p / 4 - p / 100 + p / 400
  }

  function DayNumber(d: Date): int
    requires ValidDate(d)
  {
    DaysBeforeYear(d.year) + DaysBeforeMonth(d.year, d.month) + d.day - 1
  }

  lemma MonthStep(y: int, m: int)
    requires 1 <= m < 12
    ensures DaysBeforeMonth(y, m + 1) == DaysBeforeMonth(y, m) + DaysInMonth(y, m)
  {
  }

  lemma LastMonth(y: int)
    ensures DaysBeforeMonth(y, 12) + DaysInMonth(y, 12) == YearLength(y)
  {
  }

  /** Consecutive years are YearLength apart: the leap-year rule is what the closed form counts. */
  lemma YearStep(y: int)
    requires y >= 1
    ensures DaysBeforeYear(y + 1) == DaysBeforeYear(y) + YearLength(y)
  {
    var p := y - 1;
    assert (p + 1) / 4 == p / 4 + (if y % 4 == 0 then 1 else 0);
    assert (p + 1) / 100 == p / 100 + (if y % 100 == 0 then 1 else 0);
    assert (p + 1) / 400 == p / 400 + (if y % 400 == 0 then 1 else 0);
  }

  lemma {:induction false} YearMonotone(a: int, b: int)
    requires 1 <= a <= b
    ensures DaysBeforeYear(a) + 365 * (b - a) <= DaysBeforeYear(b)
    decreases b - a
  {
    if a < b {
      YearMonotone(a, b - 1);
      YearStep(b - 1);
    }
  }

  /** The year holding day n, searched upwards from y. */
  function YearOf(n: int, y: int): (r: int)
    requires 1 <= y <= 9999 && DaysBeforeYear(y) <= n <= MaxDay
    ensures y <= r <= 9999 && DaysBeforeYear(r) <= n < DaysBeforeYear(r + 1)
    decreases 9999 - y
  {
    if y == 9999 || n < DaysBeforeYear(y + 1) then y else YearOf(n, y + 1)
  }

  /** The month holding day r (counted from January 1st) of year y, searched upwards from m. */
  function MonthOf(y: int, r: int, m: int): (mo: int)
    requires 1 <= m <= 12 && DaysBeforeMonth(y, m) <= r < YearLength(y)
    ensures m <= mo <= 12 && DaysBeforeMonth(y, mo) <= r < DaysBeforeMonth(y, mo) + DaysInMonth(y, mo)
    decreases 12 - m
  {
    if m == 12 || r < DaysBeforeMonth(y, m + 1) then m else MonthOf(y, r, m + 1)
  }

  /** The calendar date of a day number. */
  function FromDayNumber(n: int): (d: Date)
    requires ValidDay(n)
    ensures ValidDate(d) && DayNumber(d) == n
  {
    var y := YearOf(n, 1);
    YearStep(y);
    var r := n - DaysBeforeYear(y);
    var m := MonthOf(y, r, 1);
    Date(y, m, r - DaysBeforeMonth(y, m) + 1)
  }

  lemma {:induction false} MonthMonotone(y: int, a: int, b: int)
    requires 1 <= a < b <= 12
    ensures DaysBeforeMonth(y, a) + DaysInMonth(y, a) <= DaysBeforeMonth(y, b)
    decreases b - a
  {
    MonthStep(y, a);
    if a + 1 < b {
      MonthMonotone(y, a + 1, b);
    }
  }

  lemma YearOfUnique(n: int, y: int)
    requires 1 <= y <= 9999 && DaysBeforeYear(y) <= n < DaysBeforeYear(y + 1) && n <= MaxDay
    ensures YearOf(n, 1) == y
  {
    var r := YearOf(n, 1);
    if r < y {
      YearMonotone(r + 1, y);
    } else if r > y {
      YearMonotone(y + 1, r);
    }
  }

  lemma MonthOfUnique(y: int, r: int, m: int)
    requires 1 <= m <= 12 && DaysBeforeMonth(y, m) <= r < DaysBeforeMonth(y, m) + DaysInMonth(y, m)
    requires r < YearLength(y)
    ensures MonthOf(y, r, 1) == m
  {
    var mo := MonthOf(y, r, 1);
    if mo < m {
      MonthMonotone(y, mo, m);
    } else if mo > m {
      MonthMonotone(y, m, mo);
    }
  }

  /** Day numbering is a bijection between valid dates and valid day numbers. */
  lemma DayNumberRoundTrip(d: Date)
    requires ValidDate(d)
    ensures ValidDay(DayNumber(d)) && FromDayNumber(DayNumber(d)) == d
  {
    var n := DayNumber(d);
    YearStep(d.year);
    LastMonth(d.year);
    if d.month < 12 {
      MonthMonotone(d.year, d.month, 12);
    }
    assert DaysBeforeMonth(d.year, d.month) + d.day - 1 < YearLength(d.year);
    YearMonotone(d.year + 1, 10000);
    assert DaysBeforeYear(10000) == MaxDay + 1;
    YearOfUnique(n, d.year);
    MonthOfUnique(d.year, n - DaysBeforeYear(d.year), d.month);
  }

  lemma FromDayNumberInjective(a: int, b: int)
    requires ValidDay(a) && ValidDay(b) && FromDayNumber(a) == FromDayNumber(b)
    ensures a == b
  {
  }

  /** Python's `weekday()`: Monday is 0, Sunday is 6. */
  function Weekday(n: int): int {
    n % 7
  }

  // ---- timestamps ----

  /** The timestamp of midnight starting day n. */
  function Midnight(n: int): int {
    n * MinutesPerDay
  }

  function DayOf(t: int): int { t / MinutesPerDay }

  function MinuteOfDay(t: int): int { t % MinutesPerDay }

  function HourOf(t: int): int { MinuteOfDay(t) / MinutesPerHour }

  lemma TimestampSplit(t: int)
    ensures t == Midnight(DayOf(t)) + MinuteOfDay(t)
    ensures 0 <= MinuteOfDay(t) < MinutesPerDay && 0 <= HourOf(t) < 24
  {
  }

  // ---- "%Y-%m-%d" ----

  function TwoDigits(n: int): string
    requires 0 <= n < 100
  {
    [DigitChar(n / 10), DigitChar(n % 10)]
  }

  function FourDigits(n: int): string
    requires 0 <= n < 10000
  {
    [DigitChar(n / 1000), DigitChar(n / 100 % 10), DigitChar(n / 10 % 10), DigitChar(n % 10)]
  }

  /** `strftime("%Y-%m-%d")`. */
  function FormatDate(d: Date): (s: string)
    requires ValidDate(d)
  {
    FourDigits(d.year) + "-" + TwoDigits(d.month) + "-" + TwoDigits(d.day)
  }

  /** Reads a "YYYY-MM-DD" string back into a date; None for anything that is not one. */
  function ParseDate(s: string): Option<Date> {
    if |s| == 10 && s[4] == '-' && s[7] == '-'
       && AllDigits(s[0..4]) && AllDigits(s[5..7]) && AllDigits(s[8..10])
    then
      var d := Date(ParseNat(s[0..4]), ParseNat(s[5..7]), ParseNat(s[8..10]));
      if ValidDate(d) then Some(d) else None
    else None
  }

  lemma ParseSnoc(s: string, d: int)
    requires AllDigits(s) && 0 <= d <= 9
    ensures AllDigits(s + [DigitChar(d)]) && ParseNat(s + [DigitChar(d)]) == ParseNat(s) * 10 + d
  {
    var t := s + [DigitChar(d)];
    assert t[..|t| - 1] == s;
  }

  lemma ParseTwo(n: int)
    requires 0 <= n < 100
    ensures AllDigits(TwoDigits(n)) && ParseNat(TwoDigits(n)) == n
  {
    ParseSnoc([], n / 10);
    ParseSnoc([DigitChar(n / 10)], n % 10);
    assert [] + [DigitChar(n / 10)] == [DigitChar(n / 10)];
    assert TwoDigits(n) == [DigitChar(n / 10)] + [DigitChar(n % 10)];
  }

  lemma ParseFour(n: int)
    requires 0 <= n < 10000
    ensures AllDigits(FourDigits(n)) && ParseNat(FourDigits(n)) == n
  {
    var a, b, c, e := DigitChar(n / 1000), DigitChar(n / 100 % 10), DigitChar(n / 10 % 10), DigitChar(n % 10);
    ParseSnoc([], n / 1000);
    assert [] + [a] == [a];
    ParseSnoc([a], n / 100 % 10);
    ParseSnoc([a, b], n / 10 % 10);
    assert [a] + [b] == [a, b];
    ParseSnoc([a, b, c], n % 10);
    assert [a, b] + [c] == [a, b, c];
    assert [a, b, c] + [e] == FourDigits(n);
    DigitsSplit(n / 10);
    DigitsSplit(n / 100);
    DigitsSplit(n);
    assert n / 100 / 10 == n / 1000;
    assert n / 10 / 10 == n / 100;
  }

  lemma DigitsSplit(n: int)
    requires n >= 0
    ensures n == n / 10 * 10 + n % 10
  {
  }

  /** Formatting a date and reading it back gives the same date. */
  lemma FormatDateRoundTrip(d: Date)
    requires ValidDate(d)
    ensures |FormatDate(d)| == 10 && ParseDate(FormatDate(d)) == Some(d)
  {
    var s := FormatDate(d);
    ParseFour(d.year);
    ParseTwo(d.month);
    ParseTwo(d.day);
    assert s[0..4] == FourDigits(d.year);
    assert s[5..7] == TwoDigits(d.month);
    assert s[8..10] == TwoDigits(d.day);
  }
}
