/** The observation time of a feed row: `datetime.strptime` on the five time
    tokens with format "%Y %m %d %H %M", its distance from the wall clock, and
    `strftime("%d%H%M")`. Instants are counted from 0001-01-01 00:00 UTC in the
    proleptic Gregorian calendar, as Python's `datetime` counts them. */
module Timestamps {
  import opened Text

  datatype Timestamp = Timestamp(year: nat, month: nat, day: nat, hour: nat, minute: nat)

  const MicrosPerMinute: nat := 60 * 1000000

  predicate IsLeapYear(y: nat) {
    y % 4 == 0 && (y % 100 != 0 || y % 400 == 0)
  }

  function DaysInMonth(y: nat, m: nat): (d: nat)
    requires 1 <= m <= 12
    ensures 28 <= d <= 31
  {
    if m == 2 then (if IsLeapYear(y) then 29 else 28)
    else if m == 4 || m == 6 || m == 9 || m == 11 then 30
    else 31
  }

  /** A date and time `datetime(...)` accepts. */
  predicate IsValid(t: Timestamp) {
    1 <= t.year <= 9999 && 1 <= t.month <= 12 && 1 <= t.day <= DaysInMonth(t.year, t.month)
    && t.hour < 24 && t.minute < 60
  }

  /** `%m`, `%d`, `%H` and `%M`: one or two digits, within the directive's range. */
  function ParseSmall(tok: string, lo: nat, hi: nat): (r: Option<nat>)
    ensures r.Some? <==> IsSmallField(tok, lo, hi)
    ensures r.Some? ==> r.value == DigitsValue(tok) && lo <= r.value <= hi
  {
    if 1 <= |tok| <= 2 && AllDigits(tok) && lo <= DigitsValue(tok) <= hi then Some(DigitsValue(tok))
    else None
  }

  /** A token `%m`, `%d`, `%H` or `%M` accepts: one or two digits spelling a
      number from `lo` to `hi`. */
  predicate IsSmallField(tok: string, lo: nat, hi: nat) {
    1 <= |tok| <= 2 && AllDigits(tok) && lo <= DigitsValue(tok) <= hi
  }

  /** A token `%Y` accepts as a year `datetime` allows. */
  predicate IsYearField(tok: string) {
    |tok| == 4 && AllDigits(tok) && DigitsValue(tok) >= 1
  }

  /** `%Y`: exactly four digits; `datetime` refuses year 0. */
  function ParseYear(tok: string): (r: Option<nat>)
    ensures r.Some? <==> IsYearField(tok)
    ensures r.Some? ==> r.value == DigitsValue(tok) && 1 <= r.value <= 9999
  {
    if |tok| == 4 && AllDigits(tok) && DigitsValue(tok) >= 1 then
      DigitsFitBelow(tok);
      Some(DigitsValue(tok))
    else None
  }

  /** `datetime.strptime(f"{year} {month} {day} {hour} {minute}", "%Y %m %d %H %M")`,
      with `None` for the `ValueError` it raises. */
  function ParseTimestamp(year: string, month: string, day: string, hour: string, minute: string)
    : (r: Option<Timestamp>)
    ensures r.Some? <==>
      && IsYearField(year) && IsSmallField(month, 1, 12) && IsSmallField(day, 1, 31)
      && IsSmallField(hour, 0, 23) && IsSmallField(minute, 0, 59)
      && DigitsValue(day) <= DaysInMonth(DigitsValue(year), DigitsValue(month))
    ensures r.Some? ==>
      && IsValid(r.value)
      && r.value == Timestamp(DigitsValue(year), DigitsValue(month), DigitsValue(day),
                              DigitsValue(hour), DigitsValue(minute))
  {
    match (ParseYear(year), ParseSmall(month, 1, 12), ParseSmall(day, 1, 31),
           ParseSmall(hour, 0, 23), ParseSmall(minute, 0, 59))
    case (Some(y), Some(mo), Some(d), Some(h), Some(mi)) =>
      if d <= DaysInMonth(y, mo) then Some(Timestamp(y, mo, d, h, mi)) else None
    case _ => None
  }

  /** Zero-padded two-digit tokens parse back to their value. */
  lemma ParseSmallFormatted(v: nat, lo: nat, hi: nat)
    requires lo <= v <= hi && v < 100
    ensures ParseSmall(FormatInt(v, 2), lo, hi) == Some(v)
  {
    assert Pow10(2) == 100;
  }

  /** Parsing undoes formatting: the tokens a valid time is written as (four
      digits of year, two of everything else) parse back to that time. */
  lemma {:induction false} ParseFormattedTimestamp(t: Timestamp)
    requires IsValid(t)
    ensures ParseTimestamp(FormatInt(t.year, 4), FormatInt(t.month, 2), FormatInt(t.day, 2),
                           FormatInt(t.hour, 2), FormatInt(t.minute, 2)) == Some(t)
  {
    assert Pow10(4) == 10000;
    assert ParseYear(FormatInt(t.year, 4)) == Some(t.year);
    ParseSmallFormatted(t.month, 1, 12);
    ParseSmallFormatted(t.day, 1, 31);
    ParseSmallFormatted(t.hour, 0, 23);
    ParseSmallFormatted(t.minute, 0, 59);
  }

  function DaysInYear(y: nat): nat {
    if IsLeapYear(y) then 366 else 365
  }

  /** Days from 0001-01-01 to the first of January of year `y`. */
  function DaysBeforeYear(y: nat): nat
    requires y >= 1
  {
    if y == 1 then 0 else DaysBeforeYear(y - 1) + DaysInYear(y - 1)
  }

  /** Days from the first of January of year `y` to the first of month `m`. */
  function DaysBeforeMonth(y: nat, m: nat): nat
    requires 1 <= m <= 13
  {
    if m == 1 then 0 else DaysBeforeMonth(y, m - 1) + DaysInMonth(y, m - 1)
  }

  /** The minute `t` names, counted from 0001-01-01 00:00. */
  function MinuteNumber(t: Timestamp): nat
    requires IsValid(t)
  {
    ((DaysBeforeYear(t.year) + DaysBeforeMonth(t.year, t.month) + t.day - 1) * 24 + t.hour) * 60
    + t.minute
  }

  /** The instant `t` names, in microseconds (the resolution of Python's clock). */
  function Micros(t: Timestamp): nat
    requires IsValid(t)
  {
    MinuteNumber(t) * MicrosPerMinute
  }

  /** Strictly earlier, field by field from the year down. */
  predicate Before(a: Timestamp, b: Timestamp) {
    a.year < b.year
    || (a.year == b.year && a.month < b.month)
    || (a.year == b.year && a.month == b.month && a.day < b.day)
    || (a.year == b.year && a.month == b.month && a.day == b.day && a.hour < b.hour)
    || (a.year == b.year && a.month == b.month && a.day == b.day && a.hour == b.hour
        && a.minute < b.minute)
  }

  /** The twelve months add up to the length of the year. */
  lemma YearOfMonths(y: nat)
    ensures DaysBeforeMonth(y, 13) == DaysInYear(y)
  {
    var feb := DaysInMonth(y, 2);
    assert DaysBeforeMonth(y, 2) == 31;
    assert DaysBeforeMonth(y, 3) == 31 + feb;
    assert DaysBeforeMonth(y, 4) == 62 + feb;
    assert DaysBeforeMonth(y, 5) == 92 + feb;
    assert DaysBeforeMonth(y, 6) == 123 + feb;
    assert DaysBeforeMonth(y, 7) == 153 + feb;
    assert DaysBeforeMonth(y, 8) == 184 + feb;
    assert DaysBeforeMonth(y, 9) == 215 + feb;
    assert DaysBeforeMonth(y, 10) == 245 + feb;
    assert DaysBeforeMonth(y, 11) == 276 + feb;
    assert DaysBeforeMonth(y, 12) == 306 + feb;
    assert DaysBeforeMonth(y, 13) == 337 + feb;
  }

  lemma MonthsFitInYear(y: nat, m: nat)
    requires 1 <= m <= 12
    ensures DaysBeforeMonth(y, m) + DaysInMonth(y, m) <= DaysInYear(y)
  {
    MonthsIncrease(y, m, 13);
    YearOfMonths(y);
  }

  lemma {:induction false} MonthsIncrease(y: nat, m1: nat, m2: nat)
    requires 1 <= m1 < m2 <= 13
    ensures DaysBeforeMonth(y, m1) + DaysInMonth(y, m1) <= DaysBeforeMonth(y, m2)
    decreases m2
  {
    if m2 > m1 + 1 {
      MonthsIncrease(y, m1, m2 - 1);
    }
  }

  lemma {:induction false} YearsIncrease(y1: nat, y2: nat)
    requires 1 <= y1 < y2
    ensures DaysBeforeYear(y1) + DaysInYear(y1) <= DaysBeforeYear(y2)
    decreases y2
  {
    if y2 > y1 + 1 {
      YearsIncrease(y1, y2 - 1);
    }
  }

  /** The instant count respects the order of calendar times, so no two valid
      times share an instant and staleness is measured on a faithful clock. */
  lemma {:induction false} MinuteNumberMonotone(a: Timestamp, b: Timestamp)
    requires IsValid(a) && IsValid(b) && Before(a, b)
    ensures MinuteNumber(a) < MinuteNumber(b)
  {
    var da := DaysBeforeYear(a.year) + DaysBeforeMonth(a.year, a.month) + a.day - 1;
    var db := DaysBeforeYear(b.year) + DaysBeforeMonth(b.year, b.month) + b.day - 1;
    if a.year < b.year {
      MonthsFitInYear(a.year, a.month);
      YearsIncrease(a.year, b.year);
      assert da < db;
    } else if a.month < b.month {
      MonthsIncrease(a.year, a.month, b.month);
      assert da < db;
    }
  }

  /** The calendar minute after `t`, carrying into the hour, day, month and
      year. */
  function NextMinute(t: Timestamp): Timestamp
    requires IsValid(t)
  {
    if t.minute < 59 then t.(minute := t.minute + 1)
    else if t.hour < 23 then t.(hour := t.hour + 1, minute := 0)
    else if t.day < DaysInMonth(t.year, t.month) then t.(day := t.day + 1, hour := 0, minute := 0)
    else if t.month < 12 then Timestamp(t.year, t.month + 1, 1, 0, 0)
    else Timestamp(t.year + 1, 1, 1, 0, 0)
  }

  /** The instant count advances by exactly one from every minute to the next
      one on the calendar, across the end of an hour, a day, a month (of any
      length, leap Februaries included) and a year: its differences are
      elapsed minutes. */
  lemma NextMinuteIsOneLater(t: Timestamp)
    requires IsValid(t) && t != Timestamp(9999, 12, 31, 23, 59)
    ensures IsValid(NextMinute(t)) && Before(t, NextMinute(t))
    ensures MinuteNumber(NextMinute(t)) == MinuteNumber(t) + 1
  {
    if t.minute == 59 && t.hour == 23 && t.day == DaysInMonth(t.year, t.month) {
      if t.month < 12 {
        assert DaysBeforeMonth(t.year, t.month + 1)
               == DaysBeforeMonth(t.year, t.month) + DaysInMonth(t.year, t.month);
      } else {
        YearOfMonths(t.year);
        assert DaysBeforeMonth(t.year, 13) == DaysBeforeMonth(t.year, 12) + 31;
        assert DaysBeforeYear(t.year + 1) == DaysBeforeYear(t.year) + DaysInYear(t.year);
      }
    }
  }

  /** `obs_time.strftime("%d%H%M")`. */
  function DayHourMinute(t: Timestamp): (r: string)
    requires IsValid(t)
    ensures |r| == 6 && AllDigits(r)
    ensures DigitsValue(r[0..2]) == t.day && DigitsValue(r[2..4]) == t.hour
      && DigitsValue(r[4..6]) == t.minute
  {
    assert Pow10(2) == 100;
    var d, h, m := FormatInt(t.day, 2), FormatInt(t.hour, 2), FormatInt(t.minute, 2);
    var r := d + h + m;
    assert r[0..2] == d && r[2..4] == h && r[4..6] == m;
    r
  }
}
