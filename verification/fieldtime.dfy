/**
 * The two conversions between the five fields of the `MM/DD/YYYY HH:mm`
 * format and a time value that the form and the service share: the
 * `Date.UTC(year, month - 1, day, hours, minutes)` both of them build, and
 * the `getUTC…` accessors the form reads a stored instant back with.
 */
module FieldTime {
  import opened Wrappers
  import opened Calendar
  import opened DateFormat

  /** The instant `Date.UTC` builds from the fields, the month passed 0-based (None for NaN). */
  function UtcOf(f: DateFields): Option<int> {
    DateUtc(f.year, f.month - 1, f.day, f.hours, f.minutes)
  }

  /** The UTC fields of time value `t`, in the order the format writes them (month counted from 1). */
  function UtcFields(t: int): DateFields {
    DateFields(MonthFromTime(t) + 1, DateFromTime(t), YearFromTime(t), HourFromTime(t), MinFromTime(t))
  }

  /** Each field lies where the calendar tables apply: years 100 to 9999, dates 1 to 31, a time of day. */
  predicate FieldRanges(f: DateFields) {
    && 1 <= f.month <= 12
    && 1 <= f.day <= 31
    && 100 <= f.year <= 9999
    && 0 <= f.hours <= 23
    && 0 <= f.minutes <= 59
  }

  /** The fields name a minute that exists: in range, and the month has that day. */
  predicate Existing(f: DateFields) {
    FieldRanges(f) && f.day <= DaysInMonth(f.year, f.month - 1)
  }

  /** In range, the instant reads back its own year, month and date exactly when the month has that day. */
  lemma UtcOfReadsBack(f: DateFields)
    requires FieldRanges(f)
    ensures ReadsBack(UtcOf(f), f.year, f.month - 1, f.day) <==> f.day <= DaysInMonth(f.year, f.month - 1)
  {
    var m := f.month - 1;
    var u := UtcOf(f);
    assert u == DateUtc(f.year, m, f.day, f.hours, f.minutes);
    DateUtcReadsBack(f.year, m, f.day, f.hours, f.minutes);
    if f.day <= DaysInMonth(f.year, m) {
      assert ReadsBack(u, f.year, m, f.day);
    } else {
      assert !ReadsBack(u, f.year, m, f.day);
    }
  }

  /** Fields to instant and back: the fields of an existing minute are the UTC fields of its instant. */
  lemma FieldsRoundTrip(f: DateFields)
    requires Existing(f)
    ensures UtcOf(f).Some?
    ensures UtcFields(UtcOf(f).value) == f
  {
    var m := f.month - 1;
    assert UtcOf(f) == DateUtc(f.year, m, f.day, f.hours, f.minutes);
    DateUtcParts(f.year, m, f.day, f.hours, f.minutes);
    UtcOfReadsBack(f);
  }

  /** The UTC fields of any time value lie in their ranges, and the month has the date. */
  lemma UtcFieldsBounds(t: int)
    ensures 1 <= UtcFields(t).month <= 12
    ensures 1 <= UtcFields(t).day <= DaysInMonth(UtcFields(t).year, UtcFields(t).month - 1)
    ensures 0 <= UtcFields(t).hours <= 23 && 0 <= UtcFields(t).minutes <= 59
  {
    var day := Day(t);
    DateFromDayBounds(day);
  }

  /**
   * Instant to fields and back: a time value in whole minutes of the years
   * 100 to 9999 is the instant `Date.UTC` builds from its own UTC fields.
   */
  lemma InstantRoundTrip(t: int)
    requires t % MsPerMinute == 0
    requires 100 <= YearFromTime(t) <= 9999
    ensures Existing(UtcFields(t))
    ensures UtcOf(UtcFields(t)) == Some(t)
  {
    DateUtcOfParts(t);
    var f := UtcFields(t);
    assert UtcOf(f) == DateUtc(YearFromTime(t), MonthFromTime(t), DateFromTime(t), HourFromTime(t), MinFromTime(t));
  }

  /**
   * The overflow of a month into the next: the fields of a date past the
   * end of a month before December name the same instant as the date that
   * many days into the following month.
   */
  lemma UtcOfCarry(f: DateFields)
    requires FieldRanges(f) && f.month <= 11
    ensures UtcOf(f) == UtcOf(f.(month := f.month + 1, day := f.day - DaysInMonth(f.year, f.month - 1)))
  {
    var g := f.(month := f.month + 1, day := f.day - DaysInMonth(f.year, f.month - 1));
    DateUtcCarryTo(f.year, f.month - 1, f.day, f.hours, f.minutes, g.year, g.month - 1, g.day, g.hours, g.minutes);
  }

  /**
   * A date past the end of its month is not refused by `Date.UTC`: it reads
   * back as a date early in the next month (30 February 2025 as 2 March),
   * at the same time of day.
   */
  lemma CarryOver(f: DateFields)
    requires FieldRanges(f) && f.day > DaysInMonth(f.year, f.month - 1)
    ensures f.month <= 11 && UtcOf(f).Some?
    ensures UtcFields(UtcOf(f).value) == f.(month := f.month + 1, day := f.day - DaysInMonth(f.year, f.month - 1))
  {
    var g := f.(month := f.month + 1, day := f.day - DaysInMonth(f.year, f.month - 1));
    UtcOfCarry(f);
    FieldsRoundTrip(g);
  }

  /** `Date.UTC` reads the years 0 to 99 as 1900 to 1999: such fields name the instant of the later year. */
  lemma UtcOfTwoDigitYear(f: DateFields)
    requires 0 <= f.year <= 99
    ensures UtcOf(f) == UtcOf(f.(year := f.year + 1900))
  {
    var m := f.month - 1;
    assert UtcOf(f) == DateUtc(f.year, m, f.day, f.hours, f.minutes);
    assert UtcOf(f.(year := f.year + 1900)) == DateUtc(f.year + 1900, m, f.day, f.hours, f.minutes);
    DateUtcTwoDigitYear(f.year, m, f.day, f.hours, f.minutes);
  }
}
