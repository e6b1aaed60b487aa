/**
 The due-date flag.  The check builds a date with `Date.UTC` and compares the parts it reads back,
 so it rests on the date arithmetic of section 21.4.1 of ECMA-262, which is written out here.
 */
module DueDate {
  import opened Wrappers
  import opened Numbers
  import opened Text
  import opened Args

  datatype DateError = NeedsValue | MissingFlag | WrongShape | NotACalendarDate

  // ---- Days, years and months in ECMA-262

  function DayFromYear(y: int): int {
    365 * (y - 1970) + (y - 1969) / 4 - (y - 1901) / 100 + (y - 1601) / 400
  }

  predicate InLeapYear(y: int) {
    y % 4 == 0 && (y % 100 != 0 || y % 400 == 0)
  }

  function DaysInYear(y: int): int {
    if InLeapYear(y) then 366 else 365
  }

  lemma QuarterStep(y: int)
    ensures (y - 1968) / 4 == (y - 1969) / 4 + if y % 4 == 0 then 1 else 0
  {
  }

  lemma CenturyStep(y: int)
    ensures (y - 1900) / 100 == (y - 1901) / 100 + if y % 100 == 0 then 1 else 0
  {
  }

  lemma FourCenturiesStep(y: int)
    ensures (y - 1600) / 400 == (y - 1601) / 400 + if y % 400 == 0 then 1 else 0
  {
  }

  lemma CenturiesAreQuarters(y: int)
    ensures y % 400 == 0 ==> y % 100 == 0
    ensures y % 100 == 0 ==> y % 4 == 0
  {
  }

  lemma YearDifference(y: int)
    ensures DayFromYear(y + 1) - DayFromYear(y) ==
            365 + ((y - 1968) / 4 - (y - 1969) / 4) - ((y - 1900) / 100 - (y - 1901) / 100) +
                ((y - 1600) / 400 - (y - 1601) / 400)
  {
    assert y + 1 - 1969 == y - 1968 && y + 1 - 1901 == y - 1900 && y + 1 - 1601 == y - 1600;
  }

  lemma YearLength(y: int)
    ensures DayFromYear(y + 1) == DayFromYear(y) + DaysInYear(y)
  {
    hide DayFromYear;
    YearDifference(y);
    QuarterStep(y);
    CenturyStep(y);
    FourCenturiesStep(y);
    CenturiesAreQuarters(y);
  }

  lemma {:induction false} YearsAscend(y: int, z: int)
    requires y <= z
    ensures DayFromYear(y) + 365 * (z - y) <= DayFromYear(z)
    decreases z - y
  {
    if y < z {
      YearsAscend(y, z - 1);
      YearLength(z - 1);
    }
  }

  function YearUpFrom(day: int, y: int): (year: int)
    requires DayFromYear(y) <= day
    ensures DayFromYear(year) <= day < DayFromYear(year + 1)
    decreases day - DayFromYear(y)
  {
    YearLength(y);
    if day < DayFromYear(y + 1) then y else YearUpFrom(day, y + 1)
  }

  function YearDownFrom(day: int, y: int): (year: int)
    requires day < DayFromYear(y + 1)
    ensures DayFromYear(year) <= day < DayFromYear(year + 1)
    decreases DayFromYear(y + 1) - day
  {
    YearLength(y);
    if DayFromYear(y) <= day then y else YearDownFrom(day, y - 1)
  }

  /** The year whose days include this one. */
  function YearFromDay(day: int): (year: int)
    ensures DayFromYear(year) <= day < DayFromYear(year + 1)
  {
    if DayFromYear(1970) <= day then YearUpFrom(day, 1970) else YearDownFrom(day, 1969)
  }

  lemma YearFromDayIs(day: int, y: int)
    requires DayFromYear(y) <= day < DayFromYear(y + 1)
    ensures YearFromDay(day) == y
  {
    hide DayFromYear;
    var year := YearFromDay(day);
    if year < y { YearsAscend(year + 1, y); }
    if y < year { YearsAscend(y + 1, year); }
  }

  /** The days of a year before its month `m`, months counted from 0; all of them for 12. */
  function DaysBefore(m: nat, leap: bool): int
    requires m <= 12
  {
    var extra := if leap then 1 else 0;
    if m == 0 then 0 else if m == 1 then 31 else if m == 2 then 59 + extra else if m == 3 then 90 + extra
    else if m == 4 then 120 + extra else if m == 5 then 151 + extra else if m == 6 then 181 + extra
    else if m == 7 then 212 + extra else if m == 8 then 243 + extra else if m == 9 then 273 + extra
    else if m == 10 then 304 + extra else if m == 11 then 334 + extra else 365 + extra
  }

  function MonthUpFrom(dayInYear: int, leap: bool, m: nat): (month: nat)
    requires m <= 11 && DaysBefore(m, leap) <= dayInYear < DaysBefore(12, leap)
    ensures month <= 11 && DaysBefore(month, leap) <= dayInYear < DaysBefore(month + 1, leap)
    decreases 11 - m
  {
    if dayInYear < DaysBefore(m + 1, leap) then m else MonthUpFrom(dayInYear, leap, m + 1)
  }

  lemma DayIsInYear(day: int)
    ensures var year := YearFromDay(day);
            DaysBefore(0, InLeapYear(year)) <= day - DayFromYear(year) < DaysBefore(12, InLeapYear(year))
  {
    hide DayFromYear, YearUpFrom, YearDownFrom;
    YearLength(YearFromDay(day));
  }

  function MonthFromDay(day: int): (month: nat)
    ensures month <= 11
  {
    var year := YearFromDay(day);
    DayIsInYear(day);
    MonthUpFrom(day - DayFromYear(year), InLeapYear(year), 0)
  }

  function DateFromDay(day: int): int {
    var year := YearFromDay(day);
    day - DayFromYear(year) - DaysBefore(MonthFromDay(day), InLeapYear(year)) + 1
  }

  lemma {:induction false} MonthsAscend(m: nat, n: nat, leap: bool)
    requires m <= n <= 12
    ensures DaysBefore(m, leap) <= DaysBefore(n, leap)
    decreases n - m
  {
    if m < n { MonthsAscend(m, n - 1, leap); }
  }

  lemma MonthUpFromIs(dayInYear: int, leap: bool, m: nat)
    requires m <= 11 && DaysBefore(m, leap) <= dayInYear < DaysBefore(m + 1, leap)
    ensures DaysBefore(0, leap) <= dayInYear < DaysBefore(12, leap) && MonthUpFrom(dayInYear, leap, 0) == m
  {
    hide DaysBefore;
    MonthsAscend(0, m, leap);
    MonthsAscend(m + 1, 12, leap);
    var month := MonthUpFrom(dayInYear, leap, 0);
    if month < m { MonthsAscend(month + 1, m, leap); }
    if m < month { MonthsAscend(m + 1, month, leap); }
  }

  /** A day's year and month are determined by the bounds it lies between. */
  lemma MonthFromDayIs(day: int, y: int, m: nat)
    requires m <= 11
    requires DaysBefore(m, InLeapYear(y)) <= day - DayFromYear(y) < DaysBefore(m + 1, InLeapYear(y))
    ensures YearFromDay(day) == y && MonthFromDay(day) == m
  {
    YearLength(y);
    MonthUpFromIs(day - DayFromYear(y), InLeapYear(y), m);
    hide DayFromYear, InLeapYear, YearFromDay, MonthUpFrom;
    YearFromDayIs(day, y);
  }

  /** `MakeDay`: months past the year's end, and days past the month's, carry over. */
  function MakeDay(year: int, month: int, date: int): int {
    var y, m := year + month / 12, month % 12;
    DayFromYear(y) + DaysBefore(m, InLeapYear(y)) + date - 1
  }

  /** The first of the month that `MakeDay` counts from is the day the standard asks it to find. */
  lemma MakeDayStartsMonth(year: int, month: int)
    ensures var first := MakeDay(year, month, 1);
            && YearFromDay(first) == year + month / 12
            && MonthFromDay(first) == month % 12
            && DateFromDay(first) == 1
  {
    MonthFromDayIs(MakeDay(year, month, 1), year + month / 12, month % 12);
  }

  /** Days are counted from the first of January 1970. */
  lemma EpochIsDayZero()
    ensures DayFromYear(1970) == 0
  {
  }

  /** `Date.UTC`: a year from 0 to 99 is one of the 1900s; a day out of range has no time value. */
  function DateUTC(year: int, month: int, date: int): Option<int> {
    var day := MakeDay(if 0 <= year <= 99 then 1900 + year else year, month, date);
    if -100_000_000 <= day <= 100_000_000 then Some(day) else None
  }

  // ---- The flag

  /** Matches `^\d{4}-\d{2}-\d{2}$`. */
  predicate HasDateShape(s: string) {
    && |s| == 10 && s[4] == '-' && s[7] == '-'
    && IsDigits(s[..4]) && IsDigits(s[5..7]) && IsDigits(s[8..])
  }

  lemma DateShapeSplits(s: string)
    requires HasDateShape(s)
    ensures Split(s, '-') == [s[..4], s[5..7], s[8..]]
  {
    assert IsDigits(s[..4]) && IsDigits(s[5..7]) && IsDigits(s[8..]);
    var rest := s[5..7] + (['-'] + s[8..]);
    assert s == s[..4] + (['-'] + rest);
    SplitHead(s[..4], rest, '-');
    SplitHead(s[5..7], s[8..], '-');
    SplitHead(s[8..], "", '-');
  }

  function GetRequiredStringFlag(flags: map<string, Value>, name: string): Result<string, DateError> {
    if name !in flags then Err(MissingFlag)
    else if flags[name].Bare? then Err(NeedsValue)
    else if flags[name].text == "" then Err(MissingFlag)
    else Ok(flags[name].text)
  }

  /** The date built from the three parts gives them back. */
  predicate ReadsBack(year: int, month: int, date: int) {
    var day := DateUTC(year, month - 1, date);
    && day.Some?
    && YearFromDay(day.value) == year
    && MonthFromDay(day.value) == month - 1
    && DateFromDay(day.value) == date
  }

  function GetDueDateFlag(flags: map<string, Value>, name: string): Result<string, DateError> {
    var value := GetRequiredStringFlag(flags, name);
    if value.Err? then value
    else if !HasDateShape(value.value) then Err(WrongShape)
    else
      DateShapeSplits(value.value);
      var parts := Split(value.value, '-');
      if ReadsBack(NumberOf(parts[0]), NumberOf(parts[1]), NumberOf(parts[2])) then value else Err(NotACalendarDate)
  }

  // ---- What it accepts

  /** The days of a month of the Gregorian calendar, months counted from 1. */
  function DaysInMonth(year: int, month: int): int
    requires 1 <= month <= 12
  {
    if month == 2 then (if year % 400 == 0 || (year % 4 == 0 && year % 100 != 0) then 29 else 28)
    else if month == 4 || month == 6 || month == 9 || month == 11 then 30
    else 31
  }

  predicate IsGregorian(year: int, month: int, date: int) {
    1 <= month <= 12 && 1 <= date <= DaysInMonth(year, month)
  }

  lemma MonthLength(year: int, month: int)
    requires 1 <= month <= 12
    ensures DaysBefore(month, InLeapYear(year)) == DaysBefore(month - 1, InLeapYear(year)) + DaysInMonth(year, month)
  {
  }

  lemma DateIsWithinMonth(day: int)
    ensures 1 <= DateFromDay(day) <= DaysInMonth(YearFromDay(day), MonthFromDay(day) + 1)
  {
    hide DaysInMonth, DayFromYear, DaysInYear;
    var year := YearFromDay(day);
    YearLength(year);
    MonthLength(year, MonthFromDay(day) + 1);
  }

  /** The parts of the day made from a month of the year read back exactly when the month has that day. */
  lemma PartsReadBackIff(year: int, month: int, date: int)
    requires 1 <= month <= 12
    ensures var day := MakeDay(year, month - 1, date);
            YearFromDay(day) == year && MonthFromDay(day) == month - 1 && DateFromDay(day) == date <==>
            IsGregorian(year, month, date)
  {
    hide DaysInMonth, DayFromYear, InLeapYear, DaysBefore;
    var day := MakeDay(year, month - 1, date);
    assert (month - 1) / 12 == 0 && (month - 1) % 12 == month - 1;
    if IsGregorian(year, month, date) {
      MonthLength(year, month);
      MonthFromDayIs(day, year, month - 1);
    } else {
      DateIsWithinMonth(day);
    }
  }

  lemma DayIsInRange(year: int, month: int, date: int)
    requires 0 <= year <= 9999 && 1 <= month <= 12 && 0 <= date <= 99
    ensures -100_000_000 <= MakeDay(year, month - 1, date) <= 100_000_000
  {
  }

  lemma DaysBeforeIsNatural(m: nat, leap: bool)
    requires m <= 12
    ensures DaysBefore(m, leap) >= 0
  {
  }

  lemma EarlyYearIsLost(year: int, month: int, date: int)
    requires 0 <= year <= 99 && 1 <= month <= 12 && 0 <= date <= 99
    ensures YearFromDay(MakeDay(1900 + year, month - 1, date)) > 99
  {
    hide DayFromYear, DaysBefore, InLeapYear;
    var day := MakeDay(1900 + year, month - 1, date);
    assert (month - 1) / 12 == 0 && (month - 1) % 12 == month - 1;
    DaysBeforeIsNatural(month - 1, InLeapYear(1900 + year));
    YearsAscend(1900, 1900 + year);
    if YearFromDay(day) <= 99 { YearsAscend(YearFromDay(day) + 1, 1900); }
  }

  /** A year, month and date read back exactly when the day exists and the year is not taken for one of the 1900s. */
  lemma ReadsBackIff(year: nat, month: nat, date: nat)
    requires year <= 9999 && month <= 99 && date <= 99
    ensures ReadsBack(year, month, date) <==> year >= 100 && IsGregorian(year, month, date)
  {
    hide MakeDay, DaysInMonth, DateFromDay;
    if 1 <= month <= 12 {
      DayIsInRange(if year <= 99 then 1900 + year else year, month, date);
      if year <= 99 {
        EarlyYearIsLost(year, month, date);
      } else {
        PartsReadBackIff(year, month, date);
      }
    }
  }

  /** `n` in decimal, with leading zeros up to the width. */
  function Padded(n: nat, width: nat): string {
    if width == 0 then "" else Padded(n / 10, width - 1) + [('0' as int + n % 10) as char]
  }

  function PrintDate(year: nat, month: nat, date: nat): string {
    Padded(year, 4) + "-" + Padded(month, 2) + "-" + Padded(date, 2)
  }

  function Power10(width: nat): nat {
    if width == 0 then 1 else 10 * Power10(width - 1)
  }

  lemma {:induction false} PaddedIsNumber(n: nat, width: nat)
    requires n < Power10(width)
    ensures |Padded(n, width)| == width && IsDigits(Padded(n, width)) && NumberOf(Padded(n, width)) == n
  {
    if width > 0 {
      PaddedIsNumber(n / 10, width - 1);
      assert Padded(n, width)[..width - 1] == Padded(n / 10, width - 1);
    }
  }

  lemma {:induction false} NumberIsPadded(s: string)
    requires IsDigits(s)
    ensures NumberOf(s) < Power10(|s|) && Padded(NumberOf(s), |s|) == s
  {
    if s != "" {
      var front := s[..|s| - 1];
      NumberIsPadded(front);
      assert NumberOf(s) / 10 == NumberOf(front);
    }
  }

  /** `text` is the digits of the three numbers, in the flag's shape. */
  ghost predicate IsPrinted(text: string, year: nat, month: nat, date: nat) {
    year <= 9999 && month <= 99 && date <= 99 && text == PrintDate(year, month, date)
  }

  lemma ShapePrints(text: string)
    requires HasDateShape(text)
    ensures IsPrinted(text, NumberOf(text[..4]), NumberOf(text[5..7]), NumberOf(text[8..]))
  {
    NumberIsPadded(text[..4]);
    NumberIsPadded(text[5..7]);
    NumberIsPadded(text[8..]);
    assert text == text[..4] + "-" + text[5..7] + "-" + text[8..];
  }

  lemma PrintHasShape(text: string, year: nat, month: nat, date: nat)
    requires IsPrinted(text, year, month, date)
    ensures HasDateShape(text)
    ensures NumberOf(text[..4]) == year && NumberOf(text[5..7]) == month && NumberOf(text[8..]) == date
  {
    PaddedIsNumber(year, 4);
    PaddedIsNumber(month, 2);
    PaddedIsNumber(date, 2);
    assert text[..4] == Padded(year, 4) && text[5..7] == Padded(month, 2) && text[8..] == Padded(date, 2);
  }

  /** What becomes of a flag that has the shape of a date. */
  lemma PrintedFlag(flags: map<string, Value>, name: string, year: nat, month: nat, date: nat)
    requires name in flags && flags[name].Given? && IsPrinted(flags[name].text, year, month, date)
    ensures GetDueDateFlag(flags, name) ==
            if year >= 100 && IsGregorian(year, month, date) then Ok(flags[name].text) else Err(NotACalendarDate)
  {
    hide IsGregorian, ReadsBack, Split, NumberOf;
    var text := flags[name].text;
    PrintHasShape(text, year, month, date);
    DateShapeSplits(text);
    ReadsBackIff(year, month, date);
  }

  /**
   The flag is accepted, unchanged, exactly when it is the four, two and two digits of a day of the
   Gregorian calendar from the year 100 on.
   */
  lemma DueDateIff(flags: map<string, Value>, name: string, value: string)
    ensures GetDueDateFlag(flags, name) == Ok(value) <==>
            && name in flags && flags[name] == Given(value)
            && exists year: nat, month: nat, date: nat ::
                 IsPrinted(value, year, month, date) && year >= 100 && IsGregorian(year, month, date)
  {
    hide IsGregorian, ReadsBack, IsPrinted;
    if name in flags && flags[name].Given? {
      var text := flags[name].text;
      if HasDateShape(text) { ShapePrints(text); }
      forall year: nat, month: nat, date: nat | IsPrinted(text, year, month, date)
        ensures GetDueDateFlag(flags, name) ==
                if year >= 100 && IsGregorian(year, month, date) then Ok(text) else Err(NotACalendarDate)
      {
        PrintedFlag(flags, name, year, month, date);
      }
    }
  }

  /** Why a flag is refused. */
  lemma DueDateErrors(flags: map<string, Value>, name: string)
    ensures GetDueDateFlag(flags, name) == Err(NeedsValue) <==> name in flags && flags[name] == Bare
    ensures GetDueDateFlag(flags, name) == Err(MissingFlag) <==> name !in flags || flags[name] == Given("")
    ensures GetDueDateFlag(flags, name) == Err(WrongShape) <==>
            && name in flags && flags[name].Given? && flags[name].text != ""
            && !exists year: nat, month: nat, date: nat :: IsPrinted(flags[name].text, year, month, date)
    ensures GetDueDateFlag(flags, name) == Err(NotACalendarDate) <==>
            && name in flags && flags[name].Given?
            && exists year: nat, month: nat, date: nat ::
                 IsPrinted(flags[name].text, year, month, date) && (year < 100 || !IsGregorian(year, month, date))
  {
    hide IsGregorian, ReadsBack, IsPrinted;
    if name in flags && flags[name].Given? {
      var text := flags[name].text;
      if HasDateShape(text) { ShapePrints(text); }
      forall year: nat, month: nat, date: nat | IsPrinted(text, year, month, date)
        ensures GetDueDateFlag(flags, name) ==
                if year >= 100 && IsGregorian(year, month, date) then Ok(text) else Err(NotACalendarDate)
      {
        PrintedFlag(flags, name, year, month, date);
      }
    }
  }

  /** A day of the calendar that the flag refuses, because the year 99 is taken for 1999. */
  lemma FirstCenturyIsRefused(flags: map<string, Value>, name: string)
    requires name in flags && flags[name] == Given(PrintDate(99, 12, 31))
    ensures IsGregorian(99, 12, 31) && GetDueDateFlag(flags, name) == Err(NotACalendarDate)
  {
    PrintedFlag(flags, name, 99, 12, 31);
  }
}
