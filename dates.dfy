/** The date texts of the task form (app.py): the `MM/DD/YYYY` check task
    dates must pass, the text the date picker writes into a task, and the
    reading of the catalog's `M/D/YYYY` performance dates. */
module Dates {
  import opened Basics
  import opened Text

  /** A calendar day. */
  datatype Date = Date(year: nat, month: nat, day: nat)

  predicate IsLeapYear(y: nat) {
    y % 4 == 0 && (y % 100 != 0 || y % 400 == 0)
  }

  function DaysInMonth(month: nat, year: nat): nat {
    if month == 2 then (if IsLeapYear(year) then 29 else 28)
    else if month == 4 || month == 6 || month == 9 || month == 11 then 30
    else 31
  }

  /** A day Python's `date` accepts. */
  predicate IsValidDate(d: Date) {
    1 <= d.year <= 9999 && 1 <= d.month <= 12 && 1 <= d.day <= DaysInMonth(d.month, d.year)
  }

  // ---------------------------------------------------------------------
  // validate_date and format_date_for_task
  // ---------------------------------------------------------------------

  /** The regular expression `\d{2}/\d{2}/\d{4}` covering the whole text. */
  predicate IsDateShape(s: string) {
    |s| == 10 && s[2] == '/' && s[5] == '/'
    && IsDigit(s[0]) && IsDigit(s[1]) && IsDigit(s[3]) && IsDigit(s[4])
    && IsDigit(s[6]) && IsDigit(s[7]) && IsDigit(s[8]) && IsDigit(s[9])
  }

  /** `validate_date`: an empty text, or `^\d{2}/\d{2}/\d{4}$`, whose `$`
      also matches just before one final newline. */
  predicate ValidateDate(s: string) {
    s == [] || IsDateShape(s) || (|s| == 11 && s[10] == '\n' && IsDateShape(s[..10]))
  }

  /** The month, day and year numbers of a text of the date shape. */
  function ShapeFields(s: string): (nat, nat, nat)
    requires IsDateShape(s)
  {
    (DigitsValue(s[..2]), DigitsValue(s[3..5]), DigitsValue(s[6..]))
  }

  /** `date.strftime("%m/%d/%Y")`. */
  function DateText(d: Date): string {
    PadDigits(d.month, 2) + "/" + PadDigits(d.day, 2) + "/" + PadDigits(d.year, 4)
  }

  /** `format_date_for_task`: no date gives the empty text. */
  function FormatDateForTask(d: Option<Date>): string {
    match d
    case None => ""
    case Some(day) => DateText(day)
  }

  /** What the date picker writes into a task always passes `validate_date`,
      and the check's digits read back as the day that was written. */
  lemma FormattedDateValidates(d: Date)
    requires IsValidDate(d)
    ensures IsDateShape(DateText(d)) && ValidateDate(DateText(d))
    ensures ShapeFields(DateText(d)) == (d.month, d.day, d.year)
  {
    var m := PadDigits(d.month, 2);
    var dd := PadDigits(d.day, 2);
    var y := PadDigits(d.year, 4);
    var s := DateText(d);
    assert Pow10(2) == 100 && Pow10(4) == 10000;
    PadDigitsLength(d.month, 2);
    PadDigitsLength(d.day, 2);
    PadDigitsLength(d.year, 4);
    assert s[..2] == m && s[3..5] == dd && s[6..] == y;
    PadDigitsRoundTrip(d.month, 2);
    PadDigitsRoundTrip(d.day, 2);
    PadDigitsRoundTrip(d.year, 4);
  }

  /** An empty date and the picker's output are the only kinds of task date
      text the check needs: both pass. */
  lemma TaskDateValidates(d: Option<Date>)
    requires d.Some? ==> IsValidDate(d.value)
    ensures ValidateDate(FormatDateForTask(d))
  {
    if d.Some? {
      FormattedDateValidates(d.value);
    }
  }

  // ---------------------------------------------------------------------
  // parse_show_date
  // ---------------------------------------------------------------------

  /** The day a month, day and year text names, if they are digits and the
      day exists: the year takes exactly four digits (`%Y`); month and day
      any number of digits, as the fallback through `int()` reads them. */
  function DateOfParts(month: string, day: string, year: string): (r: Option<Date>)
    ensures r.Some? ==> IsValidDate(r.value)
  {
    if month != [] && day != [] && |year| == 4 && AllDigits(month) && AllDigits(day) && AllDigits(year) then
      var d := Date(DigitsValue(year), DigitsValue(month), DigitsValue(day));
      if IsValidDate(d) then Some(d) else None
    else None
  }

  /** `parse_show_date`: an empty text gives no date; otherwise the three
      parts between slashes, read as month, day and year. */
  function ParseShowDate(s: string): (r: Option<Date>)
    ensures r.Some? ==> IsValidDate(r.value)
  {
    if s == [] then None
    else
      var parts := SplitOn(s, '/');
      if |parts| == 3 then DateOfParts(parts[0], parts[1], parts[2]) else None
  }

  /** The catalog's `M/D/YYYY` text of a day. */
  function ShowDateText(d: Date): string {
    NatToDecimal(d.month) + "/" + NatToDecimal(d.day) + "/" + PadDigits(d.year, 4)
  }

  lemma DateOfPartsOfText(d: Date)
    requires IsValidDate(d)
    ensures DateOfParts(NatToDecimal(d.month), NatToDecimal(d.day), PadDigits(d.year, 4)) == Some(d)
  {
    assert Pow10(4) == 10000;
    PadDigitsLength(d.year, 4);
    DecimalRoundTrip(d.month);
    DecimalRoundTrip(d.day);
    PadDigitsRoundTrip(d.year, 4);
  }

  /** Every valid day written as `M/D/YYYY` reads back as itself. */
  lemma ShowDateRoundTrip(d: Date)
    requires IsValidDate(d)
    ensures ParseShowDate(ShowDateText(d)) == Some(d)
  {
    var m := NatToDecimal(d.month);
    var dd := NatToDecimal(d.day);
    var y := PadDigits(d.year, 4);
    assert '/' !in m && '/' !in dd && '/' !in y by {
      assert forall k | 0 <= k < |m| :: m[k] != '/';
      assert forall k | 0 <= k < |dd| :: dd[k] != '/';
      assert forall k | 0 <= k < |y| :: y[k] != '/';
    }
    JoinThree(m, dd, y, "/");
    SplitJoinOn([m, dd, y], '/');
    DateOfPartsOfText(d);
  }

  /** The strict form `MM/DD/YYYY` that `validate_date` accepts is read as
      those numbers whenever they name a day. */
  lemma ParseShowDateOfShape(s: string)
    requires IsDateShape(s)
    ensures ParseShowDate(s) == DateOfParts(s[..2], s[3..5], s[6..])
    ensures var (m, d, y) := ShapeFields(s);
      ParseShowDate(s).Some? <==> IsValidDate(Date(y, m, d))
  {
    var parts := [s[..2], s[3..5], s[6..]];
    assert '/' !in s[..2] && '/' !in s[3..5] && '/' !in s[6..] by {
      assert forall k | 0 <= k < 2 :: s[..2][k] == s[k] != '/';
      assert forall k | 0 <= k < 2 :: s[3..5][k] == s[k + 3] != '/';
      assert forall k | 0 <= k < 4 :: s[6..][k] == s[k + 6] != '/';
    }
    JoinThree(s[..2], s[3..5], s[6..], "/");
    assert s == s[..2] + "/" + s[3..5] + "/" + s[6..];
    SplitJoinOn(parts, '/');
  }
}
