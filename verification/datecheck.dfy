/**
 * The form's check of the publication date text (`validateDateTime`) and
 * its rendering of a stored instant into that text (`isoToFormDate`).
 */
module DateCheck {
  import opened Wrappers
  import opened Calendar
  import opened DateFormat
  import opened FieldTime

  const FormatMessage := "Invalid date format \U{2014} use MM/DD/YYYY HH:mm (e.g. 01/15/2025 09:30)."
  const MonthMessage := "Month must be between 01 and 12."
  const DayMessage := "Day must be between 01 and 31."
  const YearMessage := "Year must be between 1900 and 2100."
  const HoursMessage := "Hours must be between 00 and 23."
  const MinutesMessage := "Minutes must be between 00 and 59."
  const NoSuchDateMessage := "This date does not exist (e.g. February 30)."

  /** Every field lies in the range the form checks, before the calendar check. */
  predicate InRanges(f: DateFields) {
    && 1 <= f.month <= 12
    && 1 <= f.day <= 31
    && 1900 <= f.year <= 2100
    && 0 <= f.hours <= 23
    && 0 <= f.minutes <= 59
  }

  /** The fields name a real minute: in range, and the month has that day. */
  predicate RealDate(f: DateFields) {
    InRanges(f) && f.day <= DaysInMonth(f.year, f.month - 1)
  }

  /**
   * The range checks of `validateDateTime`, in the order month, day, year,
   * hours, minutes: the first field out of range names the message.
   */
  function RangeError(f: DateFields): (r: Option<string>)
    ensures r == None <==> InRanges(f)
    ensures !(1 <= f.month <= 12) ==> r == Some(MonthMessage)
    ensures 1 <= f.month <= 12 && !(1 <= f.day <= 31) ==> r == Some(DayMessage)
    ensures 1 <= f.month <= 12 && 1 <= f.day <= 31 && !(1900 <= f.year <= 2100) ==> r == Some(YearMessage)
    ensures (1 <= f.month <= 12 && 1 <= f.day <= 31 && 1900 <= f.year <= 2100 && !(0 <= f.hours <= 23))
            ==> r == Some(HoursMessage)
    ensures (1 <= f.month <= 12 && 1 <= f.day <= 31 && 1900 <= f.year <= 2100 && 0 <= f.hours <= 23
             && !(0 <= f.minutes <= 59)) ==> r == Some(MinutesMessage)
  {
    if f.month < 1 || f.month > 12 then Some(MonthMessage)
    else if f.day < 1 || f.day > 31 then Some(DayMessage)
    else if f.year < 1900 || f.year > 2100 then Some(YearMessage)
    else if f.hours < 0 || f.hours > 23 then Some(HoursMessage)
    else if f.minutes < 0 || f.minutes > 59 then Some(MinutesMessage)
    else None
  }

  /**
   * The last step of `validateDateTime`: refuse the date unless the instant
   * `u` that `Date.UTC` built reads back the same UTC year, month and date.
   * A NaN instant reads back NaN, which equals nothing.
   */
  function CalendarError(f: DateFields, u: Option<int>): Option<string> {
    if ReadsBack(u, f.year, f.month - 1, f.day) then None else Some(NoSuchDateMessage)
  }

  /** The verdict on the fields of a matching string: the range checks first, then the calendar check on `u`. */
  function FieldsError(f: DateFields, u: Option<int>): Option<string> {
    var range := RangeError(f);
    if range.Some? then range else CalendarError(f, u)
  }

  /** `validateDateTime`: the format check, then the checks on the five fields the string carries. */
  function ValidateDateTime(value: string): (r: Option<string>)
    ensures r == Some(FormatMessage) <==> !MatchesDateFormat(value)
    ensures MatchesDateFormat(value) ==> r == FieldsError(FieldsAt(value), UtcOf(FieldsAt(value)))
  {
    if !MatchesDateFormat(value) then Some(FormatMessage)
    else
      var f := ReadFields(value);
      FieldsError(f, UtcOf(f))
  }

  /**
   * Given an instant that reads back exactly on the days the month has, the
   * fields pass every check exactly when they name a real minute; a refusal
   * of in-range fields is the non-existent-date message.
   */
  lemma FieldsErrorIff(f: DateFields, u: Option<int>)
    requires InRanges(f) ==> (ReadsBack(u, f.year, f.month - 1, f.day) <==> f.day <= DaysInMonth(f.year, f.month - 1))
    ensures FieldsError(f, u) == None <==> RealDate(f)
    ensures InRanges(f) && FieldsError(f, u) != None ==> FieldsError(f, u) == Some(NoSuchDateMessage)
  {
  }

  /**
   * The checks of `validateDateTime` on five fields, with the instant it
   * builds from them: they pass exactly when the fields name a real minute
   * of the years 1900 to 2100.
   */
  lemma ValidFieldsIff(f: DateFields)
    ensures FieldsError(f, UtcOf(f)) == None <==> RealDate(f)
    ensures InRanges(f) && FieldsError(f, UtcOf(f)) != None ==> FieldsError(f, UtcOf(f)) == Some(NoSuchDateMessage)
  {
    var u := UtcOf(f);
    if InRanges(f) {
      UtcOfReadsBack(f);
    }
    FieldsErrorIff(f, u);
  }

  /**
   * A string passes `validateDateTime` exactly when it has the format and
   * its fields name a real minute of the years 1900 to 2100.
   */
  lemma ValidateDateTimeIff(value: string)
    ensures ValidateDateTime(value) == None <==> MatchesDateFormat(value) && RealDate(FieldsAt(value))
  {
    if MatchesDateFormat(value) {
      var f := FieldsAt(value);
      ValidFieldsIff(f);
    }
  }

  /** The verdict `validateDateTime` gives on five fields. */
  function Verdict(f: DateFields): Option<string> {
    FieldsError(f, UtcOf(f))
  }

  /**
   * The leap-year rule at work in February: the 29th passes exactly in the
   * years `Date.UTC` counts 366 days long (so 2000 but not 1900 or 2100),
   * and the 30th and 31st never do.
   */
  lemma FebruaryVerdict(f: DateFields)
    requires InRanges(f) && f.month == 2
    ensures Verdict(f) == None <==> f.day <= 28 || (f.day == 29 && DaysInYear(f.year) == 366)
    ensures Verdict(f) != None ==> Verdict(f) == Some(NoSuchDateMessage)
  {
    ValidFieldsIff(f);
  }

  /** The UTC fields of any time value of the years 1900 to 2100 name a real minute. */
  lemma UtcFieldsReal(t: int)
    requires 1900 <= YearFromTime(t) <= 2100
    ensures RealDate(UtcFields(t))
  {
    UtcFieldsBounds(t);
  }

  /**
   * `isoToFormDate`: the UTC month, date, hours and minutes zero-padded to
   * two digits and the UTC year as `String` writes it. The instant is given
   * as its time value; reading the ISO text into one is not modelled.
   */
  function IsoToFormDate(t: int): (s: string)
    ensures 1000 <= YearFromTime(t) <= 9999 ==> MatchesDateFormat(s) && FieldsAt(s) == UtcFields(t)
    ensures !(1000 <= YearFromTime(t) <= 9999) ==> !MatchesDateFormat(s)
  {
    var f := UtcFields(t);
    UtcFieldsBounds(t);
    if 1000 <= f.year <= 9999 then
      RenderThenRead(f);
      Render(f)
    else
      RenderRefused(f);
      Render(f)
  }

  /** Every instant of the years 1900 to 2100, rendered by the form, passes the form's own date check. */
  lemma IsoToFormDateAccepted(t: int)
    requires 1900 <= YearFromTime(t) <= 2100
    ensures ValidateDateTime(IsoToFormDate(t)) == None
  {
    var s := IsoToFormDate(t);
    UtcFieldsReal(t);
    ValidateDateTimeIff(s);
  }
}
