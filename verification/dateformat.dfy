/**
 * The `MM/DD/YYYY HH:mm` text format shared by the form and the request
 * body: the regular expression `^\d{2}\/\d{2}\/\d{4} \d{2}:\d{2}$`, the way
 * both sides cut a matching string apart with `split` and `Number`, and the
 * way the form renders a date back into that format.
 */
module DateFormat {
  import opened Digits
  import opened JsString

  /**
   * `DATE_REGEX.test(s)`: two digits, `/`, two digits, `/`, four digits, a
   * space, two digits, `:`, two digits, and nothing else (`\d` is ASCII only
   * and `$` without the `m` flag matches only at the end of the input).
   */
  predicate MatchesDateFormat(s: string) {
    && |s| == 16
    && IsDigit(s[0]) && IsDigit(s[1]) && s[2] == '/'
    && IsDigit(s[3]) && IsDigit(s[4]) && s[5] == '/'
    && IsDigit(s[6]) && IsDigit(s[7]) && IsDigit(s[8]) && IsDigit(s[9])
    && s[10] == ' '
    && IsDigit(s[11]) && IsDigit(s[12]) && s[13] == ':'
    && IsDigit(s[14]) && IsDigit(s[15])
  }

  /** The five numbers a date string carries, in the order the format writes them. */
  datatype DateFields = DateFields(month: int, day: int, year: int, hours: int, minutes: int)

  /** The fields of a matching string, read from their fixed positions. */
  function FieldsAt(s: string): DateFields
    requires MatchesDateFormat(s)
  {
    DateFields(ValueOf(s[0..2]), ValueOf(s[3..5]), ValueOf(s[6..10]), ValueOf(s[11..13]), ValueOf(s[14..16]))
  }

  /** How `split(' ')`, `split('/')` and `split(':')` cut a matching string. */
  lemma SplitShape(s: string)
    requires MatchesDateFormat(s)
    ensures Split(s, ' ') == [s[..10], s[11..]]
    ensures Split(s[..10], '/') == [s[0..2], s[3..5], s[6..10]]
    ensures Split(s[11..], ':') == [s[11..13], s[14..16]]
  {
    var halves := [s[..10], s[11..]];
    assert Join(halves, " ") == s;
    SplitJoin(halves, ' ');
    var date := [s[0..2], s[3..5], s[6..10]];
    assert Join(date[2..], "/") == s[6..10];
    assert Join(date[1..], "/") == s[3..5] + ['/'] + s[6..10];
    assert Join(date, "/") == s[..10];
    SplitJoin(date, '/');
    var time := [s[11..13], s[14..16]];
    assert Join(time, ":") == s[11..];
    SplitJoin(time, ':');
  }

  /**
   * The fields as the source reads them: `value.split(' ')` into a date and a
   * time part, `datePart.split('/').map(Number)` into month, day and year, and
   * `timePart.split(':').map(Number)` into hours and minutes.
   */
  function ReadFields(s: string): (f: DateFields)
    requires MatchesDateFormat(s)
    ensures f == FieldsAt(s)
    ensures 0 <= f.month < 100 && 0 <= f.day < 100 && 0 <= f.hours < 100 && 0 <= f.minutes < 100
    ensures 0 <= f.year < 10000
  {
    SplitShape(s);
    ValueOfTwo(s[0..2]);
    ValueOfTwo(s[3..5]);
    ValueOfTwo(s[11..13]);
    ValueOfTwo(s[14..16]);
    FourDigitBound(s[6..10]);
    var parts := Split(s, ' ');
    var datePart := parts[0];
    var timePart := parts[1];
    var dateNumbers := Split(datePart, '/');
    var timeNumbers := Split(timePart, ':');
    DateFields(ValueOf(dateNumbers[0]), ValueOf(dateNumbers[1]), ValueOf(dateNumbers[2]),
               ValueOf(timeNumbers[0]), ValueOf(timeNumbers[1]))
  }

  /** The fields of a matching string, digit by digit. */
  lemma DigitFields(s: string)
    requires MatchesDateFormat(s)
    ensures FieldsAt(s) == DateFields(
      10 * DigitValue(s[0]) + DigitValue(s[1]),
      10 * DigitValue(s[3]) + DigitValue(s[4]),
      1000 * DigitValue(s[6]) + 100 * DigitValue(s[7]) + 10 * DigitValue(s[8]) + DigitValue(s[9]),
      10 * DigitValue(s[11]) + DigitValue(s[12]),
      10 * DigitValue(s[14]) + DigitValue(s[15]))
  {
    ValueOfTwo(s[0..2]);
    ValueOfTwo(s[3..5]);
    ValueOfTwo(s[11..13]);
    ValueOfTwo(s[14..16]);
    ValueOfFour(s[6..10]);
  }

  lemma FourDigitBound(s: string)
    requires |s| == 4 && AllDigits(s)
    ensures ValueOf(s) < 10000
  {
    ValueOfFour(s);
  }

  /**
   * The form's rendering of five numbers:
   * `${mm}/${dd}/${yyyy} ${hh}:${min}` with every field but the year passed
   * through `String(…).padStart(2, '0')` and the year through `String` alone.
   */
  function Render(f: DateFields): string {
    PadTwo(IntToString(f.month)) + "/" + PadTwo(IntToString(f.day)) + "/" + IntToString(f.year)
      + " " + PadTwo(IntToString(f.hours)) + ":" + PadTwo(IntToString(f.minutes))
  }

  /** Where the five groups of `mm/dd/yyyy hh:mi` sit. */
  lemma GroupPositions(s: string, mm: string, dd: string, yyyy: string, hh: string, mi: string)
    requires |mm| == 2 && |dd| == 2 && |yyyy| == 4 && |hh| == 2 && |mi| == 2
    requires s == mm + "/" + dd + "/" + yyyy + " " + hh + ":" + mi
    ensures |s| == 16 && s[2] == '/' && s[5] == '/' && s[10] == ' ' && s[13] == ':'
    ensures s[0..2] == mm && s[3..5] == dd && s[6..10] == yyyy && s[11..13] == hh && s[14..16] == mi
  {
    var p2 := mm + "/" + dd;
    var p4 := p2 + "/" + yyyy;
    var p6 := p4 + " " + hh;
    assert s == p6 + ":" + mi;
    assert p2[0..2] == mm && p2[3..5] == dd;
    assert p4[..5] == p2 && p4[6..10] == yyyy;
    assert p6[..10] == p4 && p6[11..13] == hh;
    assert s[..13] == p6 && s[14..16] == mi;
    assert s[0..2] == p2[0..2] && s[3..5] == p2[3..5];
    assert s[6..10] == p4[6..10];
    assert s[11..13] == p6[11..13];
  }

  /** Five digit groups joined by the format's separators form a matching string. */
  lemma Assemble(s: string, mm: string, dd: string, yyyy: string, hh: string, mi: string)
    requires |mm| == 2 && |dd| == 2 && |yyyy| == 4 && |hh| == 2 && |mi| == 2
    requires AllDigits(mm) && AllDigits(dd) && AllDigits(yyyy) && AllDigits(hh) && AllDigits(mi)
    requires s == mm + "/" + dd + "/" + yyyy + " " + hh + ":" + mi
    ensures MatchesDateFormat(s)
    ensures FieldsAt(s) == DateFields(ValueOf(mm), ValueOf(dd), ValueOf(yyyy), ValueOf(hh), ValueOf(mi))
  {
    GroupPositions(s, mm, dd, yyyy, hh, mi);
    assert s[0] == mm[0] && s[1] == mm[1] && s[3] == dd[0] && s[4] == dd[1];
    assert s[6] == yyyy[0] && s[7] == yyyy[1] && s[8] == yyyy[2] && s[9] == yyyy[3];
    assert s[11] == hh[0] && s[12] == hh[1] && s[14] == mi[0] && s[15] == mi[1];
  }

  /**
   * Rendering round-trips: fields below 100 and a four-digit year render as
   * a string the format accepts, and reading it back gives the same fields.
   */
  lemma RenderThenRead(f: DateFields)
    requires 0 <= f.month < 100 && 0 <= f.day < 100 && 0 <= f.hours < 100 && 0 <= f.minutes < 100
    requires 1000 <= f.year < 10000
    ensures MatchesDateFormat(Render(f))
    ensures ReadFields(Render(f)) == f
  {
    var month, day, year, hours, minutes := f.month, f.day, f.year, f.hours, f.minutes;
    PadTwoDecimal(month);
    PadTwoDecimal(day);
    PadTwoDecimal(hours);
    PadTwoDecimal(minutes);
    DecimalLength(year);
    var mm, dd, yyyy, hh, mi := PadTwo(Decimal(month)), PadTwo(Decimal(day)), Decimal(year),
                                PadTwo(Decimal(hours)), PadTwo(Decimal(minutes));
    assert Render(f) == mm + "/" + dd + "/" + yyyy + " " + hh + ":" + mi;
    Assemble(Render(f), mm, dd, yyyy, hh, mi);
  }

  /**
   * Fields below 100 with a year outside 1000 to 9999 render as a string the
   * format refuses: the year text is not four characters long, or it starts
   * with `-`.
   */
  lemma {:induction false} RenderRefused(f: DateFields)
    requires 0 <= f.month < 100 && 0 <= f.day < 100 && 0 <= f.hours < 100 && 0 <= f.minutes < 100
    requires !(1000 <= f.year <= 9999)
    ensures !MatchesDateFormat(Render(f))
  {
    var mm, dd, hh, mi := PadTwo(IntToString(f.month)), PadTwo(IntToString(f.day)),
                          PadTwo(IntToString(f.hours)), PadTwo(IntToString(f.minutes));
    PadTwoLength(f.month);
    PadTwoLength(f.day);
    PadTwoLength(f.hours);
    PadTwoLength(f.minutes);
    YearTextRefused(f.year);
    GroupsRefused(Render(f), mm, dd, IntToString(f.year), hh, mi);
  }

  /** `String(n).padStart(2, '0')` of a number below 100 is two characters long. */
  lemma PadTwoLength(n: int)
    requires 0 <= n < 100
    ensures |PadTwo(IntToString(n))| == 2
  {
    DecimalLength(n);
  }

  /** Two-character groups around a year group that is not four characters, or starts with `-`, do not match. */
  lemma {:induction false} GroupsRefused(s: string, mm: string, dd: string, yyyy: string, hh: string, mi: string)
    requires |mm| == 2 && |dd| == 2 && |yyyy| >= 1 && |hh| == 2 && |mi| == 2
    requires s == mm + "/" + dd + "/" + yyyy + " " + hh + ":" + mi
    requires |yyyy| != 4 || yyyy[0] == '-'
    ensures !MatchesDateFormat(s)
  {
    YearPosition(s, mm, dd, yyyy, hh, mi);
  }

  /** `String(y)` for a year outside 1000 to 9999 is not four characters, or starts with `-`. */
  lemma YearTextRefused(y: int)
    requires !(1000 <= y <= 9999)
    ensures |IntToString(y)| != 4 || IntToString(y)[0] == '-'
  {
    if y >= 0 {
      DecimalLength(y);
    }
  }

  /** The year group of `mm/dd/yyyy hh:mi` starts at position 6 and sets the length. */
  lemma YearPosition(s: string, mm: string, dd: string, yyyy: string, hh: string, mi: string)
    requires |mm| == 2 && |dd| == 2 && |yyyy| >= 1 && |hh| == 2 && |mi| == 2
    requires s == mm + "/" + dd + "/" + yyyy + " " + hh + ":" + mi
    ensures |s| == 12 + |yyyy| && s[6] == yyyy[0]
  {
    var p4 := mm + "/" + dd + "/" + yyyy;
    assert s[..|p4|] == p4;
  }

  /** A string of the format is its five digit groups joined by the separators. */
  lemma Regroup(s: string)
    requires MatchesDateFormat(s)
    ensures s == s[0..2] + "/" + s[3..5] + "/" + s[6..10] + " " + s[11..13] + ":" + s[14..16]
  {
    assert s[..3] == s[0..2] + "/";
    assert s[..5] == s[..3] + s[3..5];
    assert s[..6] == s[..5] + "/";
    assert s[..10] == s[..6] + s[6..10];
    assert s[..11] == s[..10] + " ";
    assert s[..13] == s[..11] + s[11..13];
    assert s[..14] == s[..13] + ":";
    assert s == s[..14] + s[14..16];
  }

  /** The digit groups of a matching string, read and written back, are unchanged. */
  lemma {:induction false} GroupsRoundTrip(s: string)
    requires MatchesDateFormat(s) && s[6] != '0'
    ensures PadTwo(IntToString(ValueOf(s[0..2]))) == s[0..2]
    ensures PadTwo(IntToString(ValueOf(s[3..5]))) == s[3..5]
    ensures IntToString(ValueOf(s[6..10])) == s[6..10]
    ensures PadTwo(IntToString(ValueOf(s[11..13]))) == s[11..13]
    ensures PadTwo(IntToString(ValueOf(s[14..16]))) == s[14..16]
  {
    TwoDigitGroup(s, 0);
    TwoDigitGroup(s, 3);
    TwoDigitGroup(s, 11);
    TwoDigitGroup(s, 14);
    YearGroup(s);
  }

  /** Two digits at position `i`, read and padded back, are unchanged. */
  lemma TwoDigitGroup(s: string, i: nat)
    requires i + 2 <= |s| && IsDigit(s[i]) && IsDigit(s[i + 1])
    ensures PadTwo(IntToString(ValueOf(s[i..i + 2]))) == s[i..i + 2]
  {
    var t := s[i..i + 2];
    assert t[0] == s[i] && t[1] == s[i + 1];
    PadTwoOfDigits(t);
  }

  /** The year group of a matching string without a leading zero, read and written back, is unchanged. */
  lemma YearGroup(s: string)
    requires MatchesDateFormat(s) && s[6] != '0'
    ensures IntToString(ValueOf(s[6..10])) == s[6..10]
  {
    var yyyy := s[6..10];
    assert yyyy[0] == s[6] && yyyy[1] == s[7] && yyyy[2] == s[8] && yyyy[3] == s[9];
    DecimalOfDigits(yyyy);
  }

  /**
   * Reading then rendering round-trips: a matching string whose year does
   * not start with `0` is rendered back character for character.
   */
  lemma ReadThenRender(s: string)
    requires MatchesDateFormat(s) && s[6] != '0'
    ensures Render(FieldsAt(s)) == s
  {
    GroupsRoundTrip(s);
    Regroup(s);
  }
}
