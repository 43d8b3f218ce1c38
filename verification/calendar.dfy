/** The date check of the race form: Python's
    `datetime.strptime(text, '%d-%m-%Y')` restricted to whether it raises.

    `strptime` matches `%d` against `3[01]|[12]\d|0[1-9]|[1-9]| [1-9]`,
    `%m` against `1[0-2]|0[1-9]|[1-9]` and `%Y` against exactly four digits,
    rejects unconverted trailing text, and then builds a proleptic Gregorian
    `date`, which rejects year 0 and a day past the end of its month. */
module Calendar {
  import opened Results
  import opened Text
  import opened Decimal

  datatype Date = Date(day: nat, month: nat, year: nat)

  /** The Gregorian leap-year rule. */
  predicate IsLeapYear(year: int) {
    year % 4 == 0 && (year % 100 != 0 || year % 400 == 0)
  }

  function DaysInMonth(month: nat, year: nat): (n: nat)
    requires 1 <= month <= 12
    ensures 28 <= n <= 31
  {
    if month == 2 then (if IsLeapYear(year) then 29 else 28)
    else if month in {4, 6, 9, 11} then 30
    else 31
  }

  /** Days in the first `month` months of `year`. */
  function DaysThrough(month: nat, year: nat): nat
    requires month <= 12
  {
    if month == 0 then 0 else DaysThrough(month - 1, year) + DaysInMonth(month, year)
  }

  /** The month lengths add up to the length of the Gregorian year: 366 days
      in a leap year and 365 otherwise. */
  lemma {:induction false} YearLength(year: nat)
    ensures DaysThrough(12, year) == if IsLeapYear(year) then 366 else 365
  {
    var leapDay := if IsLeapYear(year) then 1 else 0;
    assert DaysThrough(1, year) == 31;
    assert DaysThrough(2, year) == 59 + leapDay;
    assert DaysThrough(4, year) == 120 + leapDay;
    assert DaysThrough(6, year) == 181 + leapDay;
    assert DaysThrough(8, year) == 243 + leapDay;
    assert DaysThrough(10, year) == 304 + leapDay;
  }

  /** A date Python's `datetime.date` can represent. */
  predicate IsValidDate(d: Date) {
    && 1 <= d.year <= 9999
    && 1 <= d.month <= 12
    && 1 <= d.day <= DaysInMonth(d.month, d.year)
  }

  /** Text matched by `%d`: one or two digits naming a day 1..31 (the
      space-led alternative cannot match at the start of stripped text). */
  predicate DayField(t: string) {
    1 <= |t| <= 2 && AllDigits(t) && 1 <= ValueOf(t) <= 31
  }

  /** Text matched by `%m`: one or two digits naming a month 1..12. */
  predicate MonthField(t: string) {
    1 <= |t| <= 2 && AllDigits(t) && 1 <= ValueOf(t) <= 12
  }

  /** Text matched by `%Y` with nothing left over: exactly four digits. */
  predicate YearField(t: string) {
    |t| == 4 && AllDigits(t)
  }

  /** Text without a dash. */
  predicate NoDash(t: string) {
    forall j | 0 <= j < |t| :: t[j] != '-'
  }

  /** The text before and after the first dash, if there is one. */
  function SplitAtDash(s: string): Option<(string, string)> {
    var i := IndexOf(s, '-');
    if i == |s| then None else Some((s[..i], s[i + 1..]))
  }

  /** The date three fields name, if each matches its directive and the date
      exists. */
  function FieldsDate(dayText: string, monthText: string, yearText: string): (r: Option<Date>)
    ensures r.Some? ==> IsValidDate(r.value)
  {
    if !(DayField(dayText) && MonthField(monthText) && YearField(yearText)) then None
    else
      var d := Date(ValueOf(dayText), ValueOf(monthText), ValueOf(yearText));
      if IsValidDate(d) then Some(d) else None
  }

  /** `strptime(s, '%d-%m-%Y')`: the date it denotes, or `None` where Python
      raises `ValueError`. Every field directive here matches digits only, so
      the literal dashes are the first two dashes of the text. */
  function ParseDate(s: string): (r: Option<Date>)
    ensures r.Some? ==> IsValidDate(r.value)
  {
    match SplitAtDash(s)
    case None => None
    case Some((dayText, rest)) =>
      match SplitAtDash(rest)
      case None => None
      case Some((monthText, yearText)) => FieldsDate(dayText, monthText, yearText)
  }

  /** The date written with a day field of `dayWidth` digits, a month field
      of `monthWidth` digits and a four-digit year. */
  function Render(d: Date, dayWidth: nat, monthWidth: nat): string {
    Fixed(d.day, dayWidth) + "-" + Fixed(d.month, monthWidth) + "-" + Fixed(d.year, 4)
  }

  /** `s` spells `d` with one- or two-digit day and month fields wide enough
      for their values. */
  predicate Spells(s: string, d: Date, dayWidth: nat, monthWidth: nat) {
    && 1 <= dayWidth <= 2 && d.day < Pow10(dayWidth)
    && 1 <= monthWidth <= 2 && d.month < Pow10(monthWidth)
    && s == Render(d, dayWidth, monthWidth)
  }

  /** `strftime('%d-%m-%Y')`: the zero-padded spelling. */
  function FormatDate(d: Date): string {
    Render(d, 2, 2)
  }

  /** A split at the first dash undoes joining at a dash. */
  lemma {:induction false} SplitAtDashJoin(s: string)
    requires SplitAtDash(s).Some?
    ensures var (a, b) := SplitAtDash(s).value; NoDash(a) && s == a + "-" + b
  {
    var i := IndexOf(s, '-');
    assert s == s[..i] + "-" + s[i + 1..];
  }

  /** Joining at a dash is undone by a split at the first dash. */
  lemma {:induction false} JoinSplitAtDash(a: string, b: string)
    requires NoDash(a)
    ensures SplitAtDash(a + "-" + b) == Some((a, b))
  {
    IndexOfPast(a, '-', b);
    var s := a + "-" + b;
    assert s[..|a|] == a;
    assert s[|a| + 1..] == b;
  }

  /** Parsing three dash-free fields joined by dashes reads each field. */
  lemma {:induction false} ParseFields(dayText: string, monthText: string, yearText: string)
    requires NoDash(dayText) && NoDash(monthText)
    ensures ParseDate(dayText + "-" + monthText + "-" + yearText) == FieldsDate(dayText, monthText, yearText)
  {
    var rest := monthText + "-" + yearText;
    assert dayText + "-" + monthText + "-" + yearText == dayText + "-" + rest;
    JoinSplitAtDash(dayText, rest);
    JoinSplitAtDash(monthText, yearText);
  }

  /** The three fields of a date Python accepts. */
  lemma {:induction false} SplitDate(s: string) returns (dayText: string, monthText: string, yearText: string)
    requires ParseDate(s).Some?
    ensures s == dayText + "-" + monthText + "-" + yearText
    ensures ParseDate(s) == FieldsDate(dayText, monthText, yearText)
  {
    SplitAtDashJoin(s);
    var rest;
    dayText, rest := SplitAtDash(s).value.0, SplitAtDash(s).value.1;
    SplitAtDashJoin(rest);
    monthText, yearText := SplitAtDash(rest).value.0, SplitAtDash(rest).value.1;
  }

  /** Accepted fields spell the date they name, at their own widths. */
  lemma {:induction false} FieldsSpelled(dayText: string, monthText: string, yearText: string)
    requires FieldsDate(dayText, monthText, yearText).Some?
    ensures Spells(dayText + "-" + monthText + "-" + yearText,
                   FieldsDate(dayText, monthText, yearText).value, |dayText|, |monthText|)
  {
    FixedOfValue(dayText);
    FixedOfValue(monthText);
    FixedOfValue(yearText);
  }

  /** Every date Python accepts is read without loss: the text is one of the
      spellings of the date it denotes. */
  lemma {:induction false} ParseDateSound(s: string)
    requires ParseDate(s).Some?
    ensures exists dw: nat, mw: nat :: Spells(s, ParseDate(s).value, dw, mw)
  {
    var dayText, monthText, yearText := SplitDate(s);
    FieldsSpelled(dayText, monthText, yearText);
  }

  /** Every spelling of a valid date is accepted and denotes that date. */
  lemma {:induction false} ParseDateComplete(d: Date, dw: nat, mw: nat)
    requires IsValidDate(d)
    requires 1 <= dw <= 2 && d.day < Pow10(dw)
    requires 1 <= mw <= 2 && d.month < Pow10(mw)
    ensures ParseDate(Render(d, dw, mw)) == Some(d)
  {
    FixedValue(d.day, dw);
    FixedValue(d.month, mw);
    assert Pow10(4) == 10000;
    FixedValue(d.year, 4);
    ParseFields(Fixed(d.day, dw), Fixed(d.month, mw), Fixed(d.year, 4));
    ReadFields(Fixed(d.day, dw), Fixed(d.month, mw), Fixed(d.year, 4), d);
  }

  /** The zero-padded spelling of a valid date round-trips. */
  lemma {:induction false} FormatDateRoundTrip(d: Date)
    requires IsValidDate(d)
    ensures ParseDate(FormatDate(d)) == Some(d)
  {
    assert Pow10(2) == 100;
    ParseDateComplete(d, 2, 2);
  }

  /** `strptime` accepts exactly the spellings of valid dates. */
  lemma {:induction false} ParseDateCharacterised(s: string, d: Date)
    ensures ParseDate(s) == Some(d) <==>
      IsValidDate(d) && exists dw: nat, mw: nat :: Spells(s, d, dw, mw)
  {
    if ParseDate(s) == Some(d) {
      ParseDateSound(s);
    }
    if IsValidDate(d) && exists dw: nat, mw: nat :: Spells(s, d, dw, mw) {
      var dw: nat, mw: nat :| Spells(s, d, dw, mw);
      ParseDateComplete(d, dw, mw);
    }
  }

  /** The zero-padded spelling of any day, month and year fields, valid or
      not, is accepted exactly when the fields name a valid date. */
  lemma {:induction false} ParsePadded(day: nat, month: nat, year: nat)
    requires day < 100 && month < 100 && year < 10000
    ensures var d := Date(day, month, year);
      ParseDate(FormatDate(d)) == if IsValidDate(d) then Some(d) else None
  {
    assert Pow10(2) == 100 && Pow10(4) == 10000;
    FixedValue(day, 2);
    FixedValue(month, 2);
    FixedValue(year, 4);
    ParseFields(Fixed(day, 2), Fixed(month, 2), Fixed(year, 4));
  }

  /** Fields of the right widths whose values name a day and a month are
      read as the date they name, if it exists. */
  lemma {:induction false} ReadFields(dayText: string, monthText: string, yearText: string, d: Date)
    requires 1 <= |dayText| <= 2 && AllDigits(dayText) && ValueOf(dayText) == d.day
    requires 1 <= |monthText| <= 2 && AllDigits(monthText) && ValueOf(monthText) == d.month
    requires |yearText| == 4 && AllDigits(yearText) && ValueOf(yearText) == d.year
    requires 1 <= d.day <= 31 && 1 <= d.month <= 12
    ensures FieldsDate(dayText, monthText, yearText) == if IsValidDate(d) then Some(d) else None
  {
  }

  /** Ten characters `DD-MM-YYYY` whose fields name a day and a month are
      read as the date they name, if it exists. */
  lemma {:induction false} ReadPadded(s: string, d: Date)
    requires |s| == 10 && s[2] == '-' && s[5] == '-'
    requires forall i | 0 <= i < 10 && i != 2 && i != 5 :: IsDigit(s[i])
    requires d.day == 10 * DigitValue(s[0]) + DigitValue(s[1])
    requires d.month == 10 * DigitValue(s[3]) + DigitValue(s[4])
    requires d.year == 1000 * DigitValue(s[6]) + 100 * DigitValue(s[7]) + 10 * DigitValue(s[8]) + DigitValue(s[9])
    requires 1 <= d.day <= 31 && 1 <= d.month <= 12
    ensures ParseDate(s) == if IsValidDate(d) then Some(d) else None
  {
    var dayText, monthText, yearText := s[..2], s[3..5], s[6..];
    ValueOfShort(dayText);
    ValueOfShort(monthText);
    ValueOfShort(yearText);
    assert s == dayText + "-" + monthText + "-" + yearText;
    ParseFields(dayText, monthText, yearText);
    ReadFields(dayText, monthText, yearText, d);
  }

  /** There is no 31st of February. */
  lemma {:induction false} NoThirtyFirstOfFebruary(s: string)
    requires s == "31-02-2025"
    ensures ParseDate(s) == None
  {
    ReadPadded(s, Date(31, 2, 2025));
  }

  /** April has 30 days. */
  lemma {:induction false} NoThirtyFirstOfApril(s: string)
    requires s == "31-04-2025"
    ensures ParseDate(s) == None
  {
    ReadPadded(s, Date(31, 4, 2025));
  }

  /** 2024 is a leap year (divisible by 4). */
  lemma {:induction false} LeapDayIn2024(s: string)
    requires s == "29-02-2024"
    ensures ParseDate(s) == Some(Date(29, 2, 2024))
  {
    ReadPadded(s, Date(29, 2, 2024));
  }

  /** 2025 is not a leap year. */
  lemma {:induction false} NoLeapDayIn2025(s: string)
    requires s == "29-02-2025"
    ensures ParseDate(s) == None
  {
    ReadPadded(s, Date(29, 2, 2025));
  }

  /** 1900 is not a leap year (a century not divisible by 400). */
  lemma {:induction false} NoLeapDayIn1900(s: string)
    requires s == "29-02-1900"
    ensures ParseDate(s) == None
  {
    ReadPadded(s, Date(29, 2, 1900));
  }

  /** 2000 is a leap year (a century divisible by 400). */
  lemma {:induction false} LeapDayIn2000(s: string)
    requires s == "29-02-2000"
    ensures ParseDate(s) == Some(Date(29, 2, 2000))
  {
    ReadPadded(s, Date(29, 2, 2000));
  }

  /** Year 0 does not exist in Python's calendar. */
  lemma {:induction false} NoYearZero(s: string)
    requires s == "15-01-0000"
    ensures ParseDate(s) == None
  {
    ReadPadded(s, Date(15, 1, 0));
  }

  /** One-digit day and month fields are accepted. */
  lemma {:induction false} OneDigitFields(s: string)
    requires s == "1-1-2025"
    ensures ParseDate(s) == Some(Date(1, 1, 2025))
  {
    var dayText, monthText, yearText := s[..1], s[2..3], s[4..];
    ValueOfShort(dayText);
    ValueOfShort(monthText);
    ValueOfShort(yearText);
    assert s == dayText + "-" + monthText + "-" + yearText;
    ParseFields(dayText, monthText, yearText);
    ReadFields(dayText, monthText, yearText, Date(1, 1, 2025));
  }

  /** The year-first order is refused: the day field may not exceed two digits. */
  lemma {:induction false} YearFirstRefused(s: string)
    requires s == "2025-01-15"
    ensures ParseDate(s) == None
  {
    assert s == "2025" + "-" + "01" + "-" + "15";
    ParseFields("2025", "01", "15");
  }
}
