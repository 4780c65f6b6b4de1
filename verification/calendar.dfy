/**
 * The time-value arithmetic of ECMA-262, section 21.4.1 (Date Objects): a
 * time value is an integer count of milliseconds since 1970-01-01T00:00Z,
 * and the calendar is the proleptic Gregorian one. `Date.UTC` (section
 * 21.4.3.4) and the `getUTC…` accessors are built from these functions.
 */
module Calendar {
  import opened Wrappers

  const MsPerSecond := 1000
  const MsPerMinute := 60000
  const MsPerHour := 3600000
  const MsPerDay := 86400000

  /** A time value farther than this from the epoch is NaN (section 21.4.1.31, TimeClip). */
  const MaxTimeMagnitude := 8640000000000000

  /** Day(t): the number of the day holding time value `t` (section 21.4.1.3). */
  function Day(t: int): int {
    t / MsPerDay
  }

  /** DaysInYear(y), section 21.4.1.5. */
  function DaysInYear(y: int): int {
    if y % 4 != 0 then 365
    else if y % 100 != 0 then 366
    else if y % 400 != 0 then 365
    else 366
  }

  /** 1 in a leap year, 0 otherwise: the InLeapYear term of section 21.4.1.8. */
  function LeapDays(y: int): (l: int)
    ensures l == 0 || l == 1
    ensures DaysInYear(y) == 365 + l
  {
    if DaysInYear(y) == 366 then 1 else 0
  }

  /** DayFromYear(y), section 21.4.1.6: the day number of 1 January of year `y`. */
  function DayFromYear(y: int): int {
    365 * (y - 1970) + (y - 1969) / 4 - (y - 1901) / 100 + (y - 1601) / 400
  }

  /** Consecutive years begin DaysInYear apart. */
  lemma DayFromYearStep(y: int)
    ensures DayFromYear(y + 1) == DayFromYear(y) + DaysInYear(y)
  {
    QuotientStep4(y);
    QuotientStep100(y);
    QuotientStep400(y);
    LeapTerms(y);
    assert DayFromYear(y) == 365 * (y - 1970) + (y - 1969) / 4 - (y - 1901) / 100 + (y - 1601) / 400;
    assert DayFromYear(y + 1) == 365 * (y + 1 - 1970) + (y + 1 - 1969) / 4 - (y + 1 - 1901) / 100 + (y + 1 - 1601) / 400;
  }

  /** The leap day of year `y` is the sum of the three corrections of the Gregorian rule. */
  lemma LeapTerms(y: int)
    ensures DaysInYear(y) == 365 + (if y % 4 == 0 then 1 else 0) - (if y % 100 == 0 then 1 else 0) + (if y % 400 == 0 then 1 else 0)
  {
    if y % 400 == 0 {
      var q := y / 400;
      assert y == 100 * (4 * q) == 4 * (100 * q);
      MultipleOf100(4 * q);
      MultipleOf4(100 * q);
    } else if y % 100 == 0 {
      var q := y / 100;
      assert y == 4 * (25 * q);
      MultipleOf4(25 * q);
    }
  }

  lemma MultipleOf4(z: int)
    ensures (4 * z) % 4 == 0
  {
  }

  lemma MultipleOf100(z: int)
    ensures (100 * z) % 100 == 0
  {
  }

  /** The three quotients of DayFromYear each step by one exactly in the years their divisor divides. */
  lemma QuotientStep4(y: int)
    ensures (y + 1 - 1969) / 4 == (y - 1969) / 4 + (if y % 4 == 0 then 1 else 0)
  {
  }

  lemma QuotientStep100(y: int)
    ensures (y + 1 - 1901) / 100 == (y - 1901) / 100 + (if y % 100 == 0 then 1 else 0)
  {
  }

  lemma QuotientStep400(y: int)
    ensures (y + 1 - 1601) / 400 == (y - 1601) / 400 + (if y % 400 == 0 then 1 else 0)
  {
  }

  /** Later years begin later. */
  lemma {:induction false} DayFromYearMonotone(a: int, b: int)
    requires a < b
    ensures DayFromYear(a) + 365 <= DayFromYear(a + 1) <= DayFromYear(b)
    decreases b - a
  {
    DayFromYearStep(a);
    if a + 1 < b {
      DayFromYearMonotone(a + 1, b);
    }
  }

  /** The length of month `m` (0 = January) of year `y` in the Gregorian calendar. */
  function DaysInMonth(y: int, m: int): (n: int)
    requires 0 <= m < 12
    ensures 28 <= n <= 31
  {
    if m == 1 then 28 + LeapDays(y)
    else if m == 3 || m == 5 || m == 8 || m == 10 then 30
    else 31
  }

  /** The number of days of year `y` before the first of month `m`. */
  function DaysBeforeMonth(y: int, m: int): (n: int)
    requires 0 <= m <= 12
    ensures 28 * m <= n <= 31 * m
  {
    if m == 0 then 0 else DaysBeforeMonth(y, m - 1) + DaysInMonth(y, m - 1)
  }

  /** The month boundaries that section 21.4.1.8 (MonthFromTime) lists. */
  lemma MonthTable(y: int)
    ensures var l := LeapDays(y);
      && DaysBeforeMonth(y, 0) == 0
      && DaysBeforeMonth(y, 1) == 31
      && DaysBeforeMonth(y, 2) == 59 + l
      && DaysBeforeMonth(y, 3) == 90 + l
      && DaysBeforeMonth(y, 4) == 120 + l
      && DaysBeforeMonth(y, 5) == 151 + l
      && DaysBeforeMonth(y, 6) == 181 + l
      && DaysBeforeMonth(y, 7) == 212 + l
      && DaysBeforeMonth(y, 8) == 243 + l
      && DaysBeforeMonth(y, 9) == 273 + l
      && DaysBeforeMonth(y, 10) == 304 + l
      && DaysBeforeMonth(y, 11) == 334 + l
      && DaysBeforeMonth(y, 12) == 365 + l
  {
    assert DaysBeforeMonth(y, 1) == 31;
    assert DaysBeforeMonth(y, 2) == 59 + LeapDays(y);
    assert DaysBeforeMonth(y, 3) == 90 + LeapDays(y);
    assert DaysBeforeMonth(y, 4) == 120 + LeapDays(y);
    assert DaysBeforeMonth(y, 5) == 151 + LeapDays(y);
    assert DaysBeforeMonth(y, 6) == 181 + LeapDays(y);
    assert DaysBeforeMonth(y, 7) == 212 + LeapDays(y);
    assert DaysBeforeMonth(y, 8) == 243 + LeapDays(y);
    assert DaysBeforeMonth(y, 9) == 273 + LeapDays(y);
    assert DaysBeforeMonth(y, 10) == 304 + LeapDays(y);
    assert DaysBeforeMonth(y, 11) == 334 + LeapDays(y);
  }

  /** Months begin in order, each at least 28 days after the one before. */
  lemma {:induction false} DaysBeforeMonthMonotone(y: int, a: int, b: int)
    requires 0 <= a < b <= 12
    ensures DaysBeforeMonth(y, a) + 28 <= DaysBeforeMonth(y, a + 1) <= DaysBeforeMonth(y, b)
    decreases b - a
  {
    if a + 1 < b {
      DaysBeforeMonthMonotone(y, a + 1, b);
    }
  }

  /** Searches upward from year `y` for the year holding `day`. */
  function YearAtOrAfter(day: int, y: int): (r: int)
    requires DayFromYear(y) <= day
    ensures DayFromYear(r) <= day < DayFromYear(r + 1)
    decreases day - DayFromYear(y)
  {
    DayFromYearStep(y);
    if day < DayFromYear(y + 1) then y else YearAtOrAfter(day, y + 1)
  }

  /** Searches downward from year `y` for the year holding `day`. */
  function YearAtOrBefore(day: int, y: int): (r: int)
    requires day < DayFromYear(y + 1)
    ensures DayFromYear(r) <= day < DayFromYear(r + 1)
    decreases DayFromYear(y) - day
  {
    DayFromYearStep(y - 1);
    if DayFromYear(y) <= day then y else YearAtOrBefore(day, y - 1)
  }

  /** YearFromTime on day numbers (section 21.4.1.7): the year whose span holds `day`. */
  function YearFromDay(day: int): (y: int)
    ensures DayFromYear(y) <= day < DayFromYear(y + 1)
  {
    if DayFromYear(1970) <= day then YearAtOrAfter(day, 1970) else YearAtOrBefore(day, 1969)
  }

  /** Exactly one year's span holds a given day. */
  lemma YearFromDayUnique(day: int, y: int)
    requires DayFromYear(y) <= day < DayFromYear(y + 1)
    ensures YearFromDay(day) == y
  {
    var r := YearFromDay(day);
    if r < y {
      DayFromYearMonotone(r, y);
    } else if y < r {
      DayFromYearMonotone(y, r);
    }
  }

  /** DayWithinYear, section 21.4.1.8: days since 1 January of the day's own year. */
  function DayWithinYear(day: int): int {
    day - DayFromYear(YearFromDay(day))
  }

  /** A day lies within the span of its own year. */
  lemma DayWithinYearBounds(day: int)
    ensures 0 <= DayWithinYear(day) < DaysInYear(YearFromDay(day))
  {
    var y := YearFromDay(day);
    DayFromYearStep(y);
  }

  /**
   * The month (0 = January) holding day `d` of year `y`, counted from 0, by
   * the table of section 21.4.1.8 (MonthFromTime).
   */
  function MonthOf(y: int, d: int): int {
    var l := LeapDays(y);
    if d < 31 then 0
    else if d < 59 + l then 1
    else if d < 90 + l then 2
    else if d < 120 + l then 3
    else if d < 151 + l then 4
    else if d < 181 + l then 5
    else if d < 212 + l then 6
    else if d < 243 + l then 7
    else if d < 273 + l then 8
    else if d < 304 + l then 9
    else if d < 334 + l then 10
    else 11
  }

  /**
   * The date (from 1) of day `d` of year `y`, counted from 0, by the table
   * of section 21.4.1.9 (DateFromTime).
   */
  function DateOf(y: int, d: int): int {
    var l := LeapDays(y);
    var m := MonthOf(y, d);
    if m == 0 then d + 1
    else if m == 1 then d - 30
    else if m == 2 then d - 58 - l
    else if m == 3 then d - 89 - l
    else if m == 4 then d - 119 - l
    else if m == 5 then d - 150 - l
    else if m == 6 then d - 180 - l
    else if m == 7 then d - 211 - l
    else if m == 8 then d - 242 - l
    else if m == 9 then d - 272 - l
    else if m == 10 then d - 303 - l
    else d - 333 - l
  }

  /** The month the table picks is the one whose span holds the day. */
  lemma MonthOfBounds(y: int, d: int)
    requires 0 <= d < DaysInYear(y)
    ensures 0 <= MonthOf(y, d) < 12
    ensures DaysBeforeMonth(y, MonthOf(y, d)) <= d < DaysBeforeMonth(y, MonthOf(y, d) + 1)
  {
    MonthTable(y);
  }

  /** The date the table computes counts the days since the start of the month, and the month has it. */
  lemma DateOfValue(y: int, d: int)
    requires 0 <= d < DaysInYear(y)
    ensures 0 <= MonthOf(y, d) < 12
    ensures DateOf(y, d) == d - DaysBeforeMonth(y, MonthOf(y, d)) + 1
    ensures 1 <= DateOf(y, d) <= DaysInMonth(y, MonthOf(y, d))
  {
    MonthOfBounds(y, d);
    MonthTable(y);
  }

  /** MonthFromTime on day numbers (section 21.4.1.8), 0 = January. */
  function MonthFromDay(day: int): int {
    MonthOf(YearFromDay(day), DayWithinYear(day))
  }

  /** DateFromTime on day numbers (section 21.4.1.9): the day of the month, from 1. */
  function DateFromDay(day: int): int {
    DateOf(YearFromDay(day), DayWithinYear(day))
  }

  /** The date read back from a day counts the days since the start of its month, and the month has it. */
  lemma DateFromDayBounds(day: int)
    ensures 0 <= MonthFromDay(day) < 12
    ensures DateFromDay(day) == DayWithinYear(day) - DaysBeforeMonth(YearFromDay(day), MonthFromDay(day)) + 1
    ensures 1 <= DateFromDay(day) <= DaysInMonth(YearFromDay(day), MonthFromDay(day))
  {
    var y := YearFromDay(day);
    var d := DayWithinYear(day);
    DayWithinYearBounds(day);
    DateOfValue(y, d);
  }

  /** The day number of date `d` of month `m` (0 = January) of year `y`, dates counted from 1. */
  function DayNumber(y: int, m: int, d: int): int
    requires 0 <= m < 12
  {
    DayFromYear(y) + DaysBeforeMonth(y, m) + d - 1
  }

  /** A day number is rebuilt from its year, month and date. */
  lemma DayFromParts(day: int)
    ensures 0 <= MonthFromDay(day) < 12
    ensures day == DayNumber(YearFromDay(day), MonthFromDay(day), DateFromDay(day))
  {
    DateFromDayBounds(day);
  }

  /** The months of a year add up to the year. */
  lemma MonthsFillYear(y: int)
    ensures DaysBeforeMonth(y, 12) == DaysInYear(y)
  {
    MonthTable(y);
  }

  /** Exactly one month's span holds a given day of the year. */
  lemma MonthUnique(y: int, d: int, m: int, m': int)
    requires 0 <= m < 12 && 0 <= m' < 12
    requires DaysBeforeMonth(y, m) <= d < DaysBeforeMonth(y, m + 1)
    requires DaysBeforeMonth(y, m') <= d < DaysBeforeMonth(y, m' + 1)
    ensures m == m'
  {
    if m' < m {
      DaysBeforeMonthMonotone(y, m', m);
    } else if m < m' {
      DaysBeforeMonthMonotone(y, m, m');
    }
  }

  /** A day number within the span of year `y` reads back as that year. */
  lemma DayInYear(y: int, offset: int)
    requires 0 <= offset < DaysInYear(y)
    ensures YearFromDay(DayFromYear(y) + offset) == y
    ensures DayWithinYear(DayFromYear(y) + offset) == offset
  {
    DayFromYearStep(y);
    var day := DayFromYear(y) + offset;
    YearFromDayUnique(day, y);
  }

  /** A day `offset` days into year `y` reads back as that year, and its month and date as the tables give them. */
  lemma DayParts(day: int, y: int, offset: int)
    requires 0 <= offset < DaysInYear(y) && day == DayFromYear(y) + offset
    ensures YearFromDay(day) == y
    ensures MonthFromDay(day) == MonthOf(y, offset)
    ensures DateFromDay(day) == DateOf(y, offset)
  {
    DayInYear(y, offset);
  }

  /** Date `d` of month `m` is day DaysBeforeMonth(y, m) + d - 1 of the year, and the tables read it back. */
  lemma OffsetToParts(y: int, m: int, d: int)
    requires 0 <= m < 12 && 1 <= d <= DaysInMonth(y, m)
    ensures 0 <= DaysBeforeMonth(y, m) + d - 1 < DaysInYear(y)
    ensures MonthOf(y, DaysBeforeMonth(y, m) + d - 1) == m
    ensures DateOf(y, DaysBeforeMonth(y, m) + d - 1) == d
  {
    var offset := DaysBeforeMonth(y, m) + d - 1;
    assert DaysBeforeMonth(y, m + 1) == DaysBeforeMonth(y, m) + DaysInMonth(y, m);
    if m + 1 < 12 {
      DaysBeforeMonthMonotone(y, m + 1, 12);
    }
    MonthsFillYear(y);
    MonthOfBounds(y, offset);
    var m' := MonthOf(y, offset);
    MonthUnique(y, offset, m, m');
    DateOfValue(y, offset);
  }

  /** A date past the end of month `m` (but at most 31) lies in year `y`, in a later month. */
  lemma OffsetPastEnd(y: int, m: int, d: int)
    requires 0 <= m < 12 && DaysInMonth(y, m) < d <= 31
    ensures 0 <= DaysBeforeMonth(y, m) + d - 1 < DaysInYear(y)
    ensures MonthOf(y, DaysBeforeMonth(y, m) + d - 1) != m
  {
    var offset := DaysBeforeMonth(y, m) + d - 1;
    assert m < 11;
    assert DaysBeforeMonth(y, m + 1) == DaysBeforeMonth(y, m) + DaysInMonth(y, m);
    assert DaysBeforeMonth(y, m + 2) == DaysBeforeMonth(y, m + 1) + DaysInMonth(y, m + 1);
    DaysBeforeMonthMonotone(y, m + 1, 12);
    MonthsFillYear(y);
    MonthOfBounds(y, offset);
  }

  /**
   * The calendar round trip: the day numbered by year `y`, month `m` and a
   * date that month really has reads back as that year, month and date.
   */
  lemma DayToParts(y: int, m: int, d: int)
    requires 0 <= m < 12 && 1 <= d <= DaysInMonth(y, m)
    ensures YearFromDay(DayNumber(y, m, d)) == y
    ensures MonthFromDay(DayNumber(y, m, d)) == m
    ensures DateFromDay(DayNumber(y, m, d)) == d
  {
    var offset := DaysBeforeMonth(y, m) + d - 1;
    OffsetToParts(y, m, d);
    DayParts(DayNumber(y, m, d), y, offset);
  }

  /**
   * A date past the end of its month (but at most 31) spills into a later
   * month of the same year: the month read back differs.
   */
  lemma DayPastMonthEnd(y: int, m: int, d: int)
    requires 0 <= m < 12 && DaysInMonth(y, m) < d <= 31
    ensures YearFromDay(DayNumber(y, m, d)) == y
    ensures MonthFromDay(DayNumber(y, m, d)) != m
  {
    var offset := DaysBeforeMonth(y, m) + d - 1;
    OffsetPastEnd(y, m, d);
    DayParts(DayNumber(y, m, d), y, offset);
  }

  /** MakeDay(year, month, date), section 21.4.1.28: months and dates out of range carry over. */
  function MakeDay(year: int, month: int, date: int): int {
    var ym := year + month / 12;
    var mn := month % 12;
    DayNumber(ym, mn, 1) + date - 1
  }

  /** MakeTime(hour, min, sec, ms), section 21.4.1.27. */
  function MakeTime(hour: int, min: int, sec: int, ms: int): int {
    hour * MsPerHour + min * MsPerMinute + sec * MsPerSecond + ms
  }

  /** MakeDate(day, time), section 21.4.1.29. */
  function MakeDate(day: int, time: int): int {
    day * MsPerDay + time
  }

  /** TimeClip(time), section 21.4.1.31: NaN (None) beyond 8.64e15 ms from the epoch. */
  function TimeClip(time: int): (r: Option<int>)
    ensures r.Some? <==> -MaxTimeMagnitude <= time <= MaxTimeMagnitude
    ensures r.Some? ==> r.value == time
  {
    if time < -MaxTimeMagnitude || time > MaxTimeMagnitude then None else Some(time)
  }

  /** Year `y` as `Date.UTC` reads it: 0 to 99 stand for 1900 to 1999 (section 21.4.3.4 step 8). */
  function FullYear(y: int): (r: int)
    ensures 0 <= y <= 99 ==> r == 1900 + y
    ensures !(0 <= y <= 99) ==> r == y
  {
    if 0 <= y <= 99 then 1900 + y else y
  }

  /** `Date.UTC(year, month, date, hours, minutes)` with integral arguments (section 21.4.3.4). */
  function DateUtc(year: int, month: int, date: int, hours: int, minutes: int): Option<int> {
    TimeClip(MakeDate(MakeDay(FullYear(year), month, date), MakeTime(hours, minutes, 0, 0)))
  }

  /** getUTCFullYear, section 21.4.4.14 via YearFromTime. */
  function YearFromTime(t: int): int {
    YearFromDay(Day(t))
  }

  /** getUTCMonth, section 21.4.4.17 via MonthFromTime (0 = January). */
  function MonthFromTime(t: int): int {
    MonthFromDay(Day(t))
  }

  /** getUTCDate, section 21.4.4.12 via DateFromTime. */
  function DateFromTime(t: int): int {
    DateFromDay(Day(t))
  }

  /** getUTCHours, section 21.4.4.15 via HourFromTime (section 21.4.1.14). */
  function HourFromTime(t: int): (h: int)
    ensures 0 <= h < 24
  {
    (t / MsPerHour) % 24
  }

  /** getUTCMinutes, section 21.4.4.16 via MinFromTime (section 21.4.1.14). */
  function MinFromTime(t: int): (m: int)
    ensures 0 <= m < 60
  {
    (t / MsPerMinute) % 60
  }

  /** A time of day in whole minutes sits inside its day and reads back as its hour and minute. */
  lemma TimeOfDay(day: int, h: int, min: int)
    requires 0 <= h < 24 && 0 <= min < 60
    ensures Day(MakeDate(day, MakeTime(h, min, 0, 0))) == day
    ensures HourFromTime(MakeDate(day, MakeTime(h, min, 0, 0))) == h
    ensures MinFromTime(MakeDate(day, MakeTime(h, min, 0, 0))) == min
  {
    var t := MakeDate(day, MakeTime(h, min, 0, 0));
    assert t == day * MsPerDay + h * MsPerHour + min * MsPerMinute;
    assert t / MsPerMinute == day * 1440 + h * 60 + min;
    assert t / MsPerHour == day * 24 + h;
  }

  /** Every time value, cut down to the whole minute, is rebuilt from its UTC fields. */
  lemma TimeFromParts(t: int)
    ensures t - t % MsPerMinute == MakeDate(Day(t), MakeTime(HourFromTime(t), MinFromTime(t), 0, 0))
  {
    var minutes := t / MsPerMinute;
    assert t - t % MsPerMinute == minutes * MsPerMinute;
    assert t / MsPerHour == minutes / 60;
    assert minutes / 1440 == Day(t);
    assert minutes == Day(t) * 1440 + HourFromTime(t) * 60 + MinFromTime(t);
  }

  /** Years 0 to 20000 begin within a few million days of the epoch. */
  lemma DayFromYearBounds(y: int)
    requires 0 <= y <= 20000
    ensures -800000 <= DayFromYear(y) <= 7000000
  {
    assert DayFromYear(0) == -719528;
    assert DayFromYear(20000) == 6585322;
    if 0 < y {
      DayFromYearMonotone(0, y);
    }
    if y < 20000 {
      DayFromYearMonotone(y, 20000);
    }
  }

  /**
   * `Date.UTC` is never NaN for the arguments a string of the
   * `MM/DD/YYYY HH:mm` format can spell: years up to 9999, months (already
   * reduced by one) from -1 to 98, and dates, hours and minutes up to 99.
   */
  lemma DateUtcDefined(year: int, month: int, date: int, hours: int, minutes: int)
    requires 0 <= year <= 9999 && -1 <= month <= 98
    requires 0 <= date <= 99 && 0 <= hours <= 99 && 0 <= minutes <= 99
    ensures DateUtc(year, month, date, hours, minutes).Some?
  {
    var ym := FullYear(year) + month / 12;
    assert 99 <= ym <= 10007;
    DayFromYearBounds(ym);
    MonthTable(ym);
    DaysBeforeMonthMonotone(ym, month % 12, 12);
  }

  /**
   * `Date.UTC` on a year of at least 100, a month 0 to 11, a date 1 to 31
   * and a time of day: the instant on day DayNumber(y, m, d) at that hour
   * and minute.
   */
  lemma DateUtcInRange(y: int, m: int, d: int, h: int, min: int)
    requires 100 <= y <= 9999 && 0 <= m < 12 && 1 <= d <= 31 && 0 <= h < 24 && 0 <= min < 60
    ensures DateUtc(y, m, d, h, min) == Some(MakeDate(DayNumber(y, m, d), MakeTime(h, min, 0, 0)))
  {
    var day := DayNumber(y, m, d);
    assert MakeDay(FullYear(y), m, d) == day by {
      assert FullYear(y) == y;
      assert m / 12 == 0 && m % 12 == m;
    }
    var t := MakeDate(day, MakeTime(h, min, 0, 0));
    assert -MaxTimeMagnitude <= t <= MaxTimeMagnitude by {
      DayFromYearBounds(y);
      DaysBeforeMonthMonotone(y, m, 12);
      MonthTable(y);
    }
  }

  /**
   * The instant `Date.UTC` builds from in-range fields is defined, falls on
   * day DayNumber(y, m, d), and reads back the given hour and minute.
   */
  lemma DateUtcParts(y: int, m: int, d: int, h: int, min: int)
    requires 100 <= y <= 9999 && 0 <= m < 12 && 1 <= d <= 31 && 0 <= h < 24 && 0 <= min < 60
    ensures DateUtc(y, m, d, h, min).Some?
    ensures Day(DateUtc(y, m, d, h, min).value) == DayNumber(y, m, d)
    ensures HourFromTime(DateUtc(y, m, d, h, min).value) == h
    ensures MinFromTime(DateUtc(y, m, d, h, min).value) == min
  {
    DateUtcInRange(y, m, d, h, min);
    var day := DayNumber(y, m, d);
    TimeOfDay(day, h, min);
  }

  /**
   * `u` is a defined instant whose UTC year, month (0-based) and date are
   * `y`, `m` and `d`.
   */
  predicate ReadsBack(u: Option<int>, y: int, m: int, d: int) {
    u.Some? && YearFromTime(u.value) == y && MonthFromTime(u.value) == m && DateFromTime(u.value) == d
  }

  /** An instant on day DayNumber(y, m, d) of an existing date reads back that year, month and date. */
  lemma DayReadsBack(t: int, y: int, m: int, d: int)
    requires 0 <= m < 12 && 1 <= d <= DaysInMonth(y, m)
    requires Day(t) == DayNumber(y, m, d)
    ensures ReadsBack(Some(t), y, m, d)
  {
    DayToParts(y, m, d);
  }

  /** An instant on a day past the end of month m of year y falls in the same year but another month. */
  lemma DayPastEndReadsBack(t: int, y: int, m: int, d: int)
    requires 0 <= m < 12 && DaysInMonth(y, m) < d <= 31
    requires Day(t) == DayNumber(y, m, d)
    ensures YearFromTime(t) == y && MonthFromTime(t) != m
    ensures !ReadsBack(Some(t), y, m, d)
  {
    DayPastMonthEnd(y, m, d);
  }

  /**
   * `Date.UTC` on in-range fields reads back the same year, month and date
   * exactly when the date exists in that month.
   */
  lemma DateUtcReadsBack(y: int, m: int, d: int, h: int, min: int)
    requires 100 <= y <= 9999 && 0 <= m < 12 && 1 <= d <= 31 && 0 <= h < 24 && 0 <= min < 60
    ensures ReadsBack(DateUtc(y, m, d, h, min), y, m, d) <==> d <= DaysInMonth(y, m)
  {
    DateUtcParts(y, m, d, h, min);
    var u := DateUtc(y, m, d, h, min);
    if d <= DaysInMonth(y, m) {
      DayReadsBack(u.value, y, m, d);
    } else {
      DayPastEndReadsBack(u.value, y, m, d);
    }
  }

  /**
   * A time value in whole minutes in the years 100 to 9999 is what
   * `Date.UTC` builds from its own UTC fields.
   */
  lemma DateUtcOfParts(t: int)
    requires t % MsPerMinute == 0
    requires 100 <= YearFromTime(t) <= 9999
    ensures 0 <= MonthFromTime(t) < 12 && 1 <= DateFromTime(t) <= DaysInMonth(YearFromTime(t), MonthFromTime(t))
    ensures DateUtc(YearFromTime(t), MonthFromTime(t), DateFromTime(t), HourFromTime(t), MinFromTime(t)) == Some(t)
  {
    var day := Day(t);
    DateFromDayBounds(day);
    DayFromParts(day);
    TimeFromParts(t);
    var y, m, d := YearFromDay(day), MonthFromDay(day), DateFromDay(day);
    var h, min := HourFromTime(t), MinFromTime(t);
    assert y == YearFromTime(t) && m == MonthFromTime(t) && d == DateFromTime(t);
    assert t == MakeDate(day, MakeTime(h, min, 0, 0));
    DateUtcInRange(y, m, d, h, min);
    assert DateUtc(y, m, d, h, min) == Some(MakeDate(day, MakeTime(h, min, 0, 0)));
  }

  /** MakeDay carries a date past the end of a month (before December) into the next month. */
  lemma MakeDayCarry(y: int, m: int, d: int)
    requires 0 <= m < 11
    ensures MakeDay(y, m, d) == MakeDay(y, m + 1, d - DaysInMonth(y, m))
  {
    assert DaysBeforeMonth(y, m + 1) == DaysBeforeMonth(y, m) + DaysInMonth(y, m);
    assert m / 12 == 0 && m % 12 == m && (m + 1) / 12 == 0 && (m + 1) % 12 == m + 1;
  }

  /** So does `Date.UTC`, for years it does not read as 1900 + y. */
  lemma DateUtcCarry(y: int, m: int, d: int, h: int, min: int)
    requires !(0 <= y <= 99) && 0 <= m < 11
    ensures DateUtc(y, m, d, h, min) == DateUtc(y, m + 1, d - DaysInMonth(y, m), h, min)
  {
    MakeDayCarry(y, m, d);
  }

  /** The same carry, with the arguments of the later call given separately. */
  lemma DateUtcCarryTo(y: int, m: int, d: int, h: int, min: int, y': int, m': int, d': int, h': int, min': int)
    requires !(0 <= y <= 99) && 0 <= m < 11
    requires y' == y && m' == m + 1 && d' == d - DaysInMonth(y, m) && h' == h && min' == min
    ensures DateUtc(y, m, d, h, min) == DateUtc(y', m', d', h', min')
  {
    DateUtcCarry(y, m, d, h, min);
  }

  /** `Date.UTC` reads a year from 0 to 99 as 1900 + year. */
  lemma DateUtcTwoDigitYear(y: int, m: int, d: int, h: int, min: int)
    requires 0 <= y <= 99
    ensures DateUtc(y, m, d, h, min) == DateUtc(y + 1900, m, d, h, min)
  {
    assert FullYear(y) == FullYear(y + 1900);
  }
}
