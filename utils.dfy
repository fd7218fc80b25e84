/** The calendar and duration helpers of `src/lib/utils.ts`: the hour/minute split of a
    minute count, the first and last day of a month as JS `Date` arithmetic computes them
    (month indexes that overflow roll into the neighbouring year, day 0 is the last day of
    the previous month), and the reading of a date-only string as local midnight. */
module Utils {
  import opened JsValues
  import TimeCalculator

  // ---------------------------------------------------------------------------
  // minuteToHourMinute

  datatype HourMinute = HourMinute(hours: int, minutes: int)

  /** `Math.floor(minute / 60)` and the JS remainder `minute % 60`. */
  function SplitMinutes(minute: int): (r: HourMinute)
    ensures minute >= 0 ==> r.hours * 60 + r.minutes == minute && 0 <= r.minutes < 60
    ensures minute < 0 && JsRem(minute, 60) == 0 ==> r.hours * 60 == minute && r.minutes == 0
    ensures minute < 0 && JsRem(minute, 60) != 0 ==> r.hours * 60 + r.minutes == minute - 60 && -60 < r.minutes < 0
  {
    HourMinute(minute / 60, JsRem(minute, 60))
  }

  /** `minuteToHourMinute`: "{h}h {m}m". */
  function MinuteToHourMinute(minute: int): string {
    var hm := SplitMinutes(minute);
    IntToString(hm.hours) + "h " + IntToString(hm.minutes) + "m"
  }

  /** A count of h hours and m minutes (m below 60) reads "{h}h {m}m". */
  lemma MinuteToHourMinuteOfParts(h: nat, m: nat)
    requires m < 60
    ensures MinuteToHourMinute(h * 60 + m) == NatToString(h) + "h " + NatToString(m) + "m"
  {
    var hm := SplitMinutes(h * 60 + m);
    assert (hm.hours - h) * 60 == m - hm.minutes;
    assert hm.hours == h;
  }

  /** A negative count floors the hours, so the text starts with a minus sign. */
  lemma MinuteToHourMinuteOfNegative(minute: int)
    requires minute < 0
    ensures MinuteToHourMinute(minute)[0] == '-'
  {
    assert SplitMinutes(minute).hours < 0;
  }

  /** Two digit strings each followed by the same non-digit: the prefixes and the rests agree. */
  lemma {:induction false} DigitPrefixUnique(a: string, x: string, b: string, y: string)
    requires AllDigits(a) && AllDigits(b)
    requires |x| > 0 && |y| > 0 && !IsDigit(x[0]) && !IsDigit(y[0])
    requires a + x == b + y
    ensures a == b && x == y
  {
    var s := a + x;
    assert forall i :: 0 <= i < |a| ==> IsDigit(s[i]);
    assert !IsDigit(s[|a|]);
    assert forall i :: 0 <= i < |b| ==> IsDigit(s[i]) by {
      assert s == b + y;
    }
    assert !IsDigit(s[|b|]);
    assert |a| == |b|;
    assert a == s[..|a|] == b;
    assert x == s[|a|..] == y;
  }

  /** The digit strings of "{h}h {m}m" are recovered from the text. */
  lemma HourMinuteDigitsUnique(hs1: string, ns1: string, hs2: string, ns2: string)
    requires AllDigits(hs1) && AllDigits(ns1) && AllDigits(hs2) && AllDigits(ns2)
    requires hs1 + "h " + ns1 + "m" == hs2 + "h " + ns2 + "m"
    ensures hs1 == hs2 && ns1 == ns2
  {
    var t1, t2 := "h " + ns1 + "m", "h " + ns2 + "m";
    assert hs1 + "h " + ns1 + "m" == hs1 + t1;
    assert hs2 + "h " + ns2 + "m" == hs2 + t2;
    DigitPrefixUnique(hs1, t1, hs2, t2);
    assert ns1 + "m" == t1[2..];
    assert ns2 + "m" == t2[2..];
    DigitPrefixUnique(ns1, "m", ns2, "m");
  }

  lemma HourMinuteTextInjective(h1: nat, n1: nat, h2: nat, n2: nat)
    requires NatToString(h1) + "h " + NatToString(n1) + "m" == NatToString(h2) + "h " + NatToString(n2) + "m"
    ensures h1 == h2 && n1 == n2
  {
    HourMinuteDigitsUnique(NatToString(h1), NatToString(n1), NatToString(h2), NatToString(n2));
    NatToStringRoundTrip(h1);
    NatToStringRoundTrip(h2);
    NatToStringRoundTrip(n1);
    NatToStringRoundTrip(n2);
  }

  /** The rendering of a non-negative minute count tells the count apart from every other. */
  lemma MinuteToHourMinuteInjective(m1: nat, m2: nat)
    requires MinuteToHourMinute(m1) == MinuteToHourMinute(m2)
    ensures m1 == m2
  {
    var s1, s2 := SplitMinutes(m1), SplitMinutes(m2);
    assert s1.hours >= 0 && s1.minutes >= 0 && s2.hours >= 0 && s2.minutes >= 0;
    HourMinuteTextInjective(s1.hours, s1.minutes, s2.hours, s2.minutes);
  }

  // ---------------------------------------------------------------------------
  // The Gregorian calendar as JS Date arithmetic sees it

  /** A calendar date; `month` is 1-based, as `getMonth() + 1` prints it. */
  datatype CalendarDate = CalendarDate(year: int, month: int, day: int)

  predicate IsLeapYear(y: int) {
    (y % 4 == 0 && y % 100 != 0) || y % 400 == 0
  }

  function DaysInMonth(y: int, m: int): (n: int)
    requires 1 <= m <= 12
    ensures 28 <= n <= 31
  {
    if m == 2 then (if IsLeapYear(y) then 29 else 28)
    else if m == 4 || m == 6 || m == 9 || m == 11 then 30
    else 31
  }

  predicate ValidDate(d: CalendarDate) {
    1 <= d.month <= 12 && 1 <= d.day <= DaysInMonth(d.year, d.month)
  }

  /** The day before a valid date. */
  function PreviousDay(d: CalendarDate): (r: CalendarDate)
    requires ValidDate(d)
    ensures ValidDate(r)
  {
    if d.day > 1 then CalendarDate(d.year, d.month, d.day - 1)
    else if d.month > 1 then CalendarDate(d.year, d.month - 1, DaysInMonth(d.year, d.month - 1))
    else CalendarDate(d.year - 1, 12, 31)
  }

  /** The day after a valid date. */
  function NextDay(d: CalendarDate): (r: CalendarDate)
    requires ValidDate(d)
    ensures ValidDate(r)
  {
    if d.day < DaysInMonth(d.year, d.month) then CalendarDate(d.year, d.month, d.day + 1)
    else if d.month < 12 then CalendarDate(d.year, d.month + 1, 1)
    else CalendarDate(d.year + 1, 1, 1)
  }

  lemma NextDayOfPreviousDay(d: CalendarDate)
    requires ValidDate(d)
    ensures NextDay(PreviousDay(d)) == d
  {
  }

  /** The `Date(year, ...)` constructor reads a year from 0 to 99 as 1900 + year. */
  function ConstructorYear(year: int): (y: int)
    ensures 0 <= year <= 99 ==> y == 1900 + year
    ensures (year < 0 || year > 99) ==> y == year
  {
    if 0 <= year <= 99 then 1900 + year else year
  }

  /** `new Date(year, monthIndex, day)` for the days 0..28 the helpers use: the month index
      is normalised into the year (index 12 is January of the next year, -1 is December of
      the previous one) and day 0 is the last day of the month before. */
  function MakeDate(year: int, monthIndex: int, day: int): (r: CalendarDate)
    requires 0 <= day <= 28
    ensures ValidDate(r)
    ensures day >= 1 ==> r == CalendarDate(ConstructorYear(year) + monthIndex / 12, monthIndex % 12 + 1, day)
    ensures day == 0 ==> NextDay(r) == CalendarDate(ConstructorYear(year) + monthIndex / 12, monthIndex % 12 + 1, 1)
  {
    var first := CalendarDate(ConstructorYear(year) + monthIndex / 12, monthIndex % 12 + 1, 1);
    if day >= 1 then CalendarDate(first.year, first.month, day)
    else
      NextDayOfPreviousDay(first);
      PreviousDay(first)
  }

  /** `formatDate`: "yyyy-mm-dd" with an unpadded year and two-digit month and day. */
  function FormatDate(d: CalendarDate): (s: string)
    requires ValidDate(d)
  {
    IntToString(d.year) + DateTail(d.month, d.day)
  }

  /** The "-mm-dd" tail of a formatted date. */
  function DateTail(month: nat, day: nat): (t: string)
    requires month < 100 && day < 100
    ensures |t| == 6 && t[0] == '-' && t[3] == '-'
    ensures t[1..3] == TwoDigits(month) && t[4..] == TwoDigits(day)
  {
    "-" + TwoDigits(month) + "-" + TwoDigits(day)
  }

  /** The tail determines the month and the day. */
  lemma DateTailUnique(m1: nat, e1: nat, m2: nat, e2: nat)
    requires m1 < 100 && e1 < 100 && m2 < 100 && e2 < 100
    requires DateTail(m1, e1) == DateTail(m2, e2)
    ensures m1 == m2 && e1 == e2
  {
    assert TwoDigits(m1) == DateTail(m1, e1)[1..3];
    assert TwoDigits(e1) == DateTail(m1, e1)[4..];
  }

  /** An integer's text followed by a non-digit fixes the integer and the rest, for negative
      integers too: the sign is the first character and the digits end at the non-digit. */
  lemma IntToStringPrefixUnique(i: int, x: string, j: int, y: string)
    requires |x| > 0 && |y| > 0 && !IsDigit(x[0]) && !IsDigit(y[0])
    requires IntToString(i) + x == IntToString(j) + y
    ensures i == j && x == y
  {
    var a, b := IntToString(i), IntToString(j);
    assert (a + x)[0] == a[0] && (b + y)[0] == b[0];
    if i >= 0 {
      NatPrefixUnique(i, x, j, y);
    } else {
      NegativePrefixUnique(-i, x, -j, y);
    }
  }

  lemma NatPrefixUnique(i: nat, x: string, j: nat, y: string)
    requires |x| > 0 && |y| > 0 && !IsDigit(x[0]) && !IsDigit(y[0])
    requires NatToString(i) + x == NatToString(j) + y
    ensures i == j && x == y
  {
    DigitPrefixUnique(NatToString(i), x, NatToString(j), y);
    NatToStringRoundTrip(i);
    NatToStringRoundTrip(j);
  }

  lemma NegativePrefixUnique(n: nat, x: string, m: nat, y: string)
    requires |x| > 0 && |y| > 0 && !IsDigit(x[0]) && !IsDigit(y[0])
    requires "-" + NatToString(n) + x == "-" + NatToString(m) + y
    ensures n == m && x == y
  {
    DropSign(NatToString(n), x, NatToString(m), y);
    NatPrefixUnique(n, x, m, y);
  }

  lemma DropSign(p: string, x: string, q: string, y: string)
    requires "-" + p + x == "-" + q + y
    ensures p + x == q + y
  {
    assert p + x == ("-" + p + x)[1..];
    assert q + y == ("-" + q + y)[1..];
  }

  /** Different dates are formatted differently, whatever the sign of the year. */
  lemma FormatDateInjective(d1: CalendarDate, d2: CalendarDate)
    requires ValidDate(d1) && ValidDate(d2)
    requires FormatDate(d1) == FormatDate(d2)
    ensures d1 == d2
  {
    IntToStringPrefixUnique(d1.year, DateTail(d1.month, d1.day), d2.year, DateTail(d2.month, d2.day));
    DateTailUnique(d1.month, d1.day, d2.month, d2.day);
  }

  datatype MonthBoundaries = MonthBoundaries(firstDay: string, lastDay: string)

  /** `getFormattedMonthBoundaries(month, year)` with `month` 1-based. */
  function FormattedMonthBoundaries(month: int, year: int): MonthBoundaries {
    MonthBoundaries(FormatDate(MakeDate(year, month - 1, 1)), FormatDate(MakeDate(year, month, 0)))
  }

  /** For a month 1..12 of a year the constructor takes literally: the first day is the 1st
      of that month and the last day is its last, by the Gregorian month lengths. */
  lemma MonthBoundariesOfMonth(month: int, year: int)
    requires 1 <= month <= 12 && (year < 0 || year > 99)
    ensures FormattedMonthBoundaries(month, year).firstDay == FormatDate(CalendarDate(year, month, 1))
    ensures FormattedMonthBoundaries(month, year).lastDay ==
      FormatDate(CalendarDate(year, month, DaysInMonth(year, month)))
  {
    MonthFirstDay(month, year);
    MonthLastDay(month, year);
  }

  lemma MonthFirstDay(month: int, year: int)
    requires 1 <= month <= 12 && (year < 0 || year > 99)
    ensures MakeDate(year, month - 1, 1) == CalendarDate(year, month, 1)
  {
    assert (month - 1) / 12 == 0 && (month - 1) % 12 == month - 1;
  }

  lemma MonthLastDay(month: int, year: int)
    requires 1 <= month <= 12 && (year < 0 || year > 99)
    ensures MakeDate(year, month, 0) == CalendarDate(year, month, DaysInMonth(year, month))
  {
    var last := MakeDate(year, month, 0);
    if month < 12 {
      assert month / 12 == 0 && month % 12 == month;
      assert NextDay(last) == CalendarDate(year, month + 1, 1);
    } else {
      assert month / 12 == 1 && month % 12 == 0;
      assert NextDay(last) == CalendarDate(year + 1, 1, 1);
    }
  }

  /** A two-digit year is a year of the 1900s: the boundaries of a month of year 25 are
      those of the same month of 1925. */
  lemma TwoDigitYearIsTwentiethCentury(month: int, year: int)
    requires 0 <= year <= 99
    ensures FormattedMonthBoundaries(month, year) == FormattedMonthBoundaries(month, 1900 + year)
  {
    assert ConstructorYear(year) == ConstructorYear(1900 + year);
    assert MakeDate(year, month - 1, 1) == MakeDate(1900 + year, month - 1, 1);
    assert MakeDate(year, month, 0) == MakeDate(1900 + year, month, 0);
  }

  /** February has 29 days exactly in a Gregorian leap year; December of a year ends on
      the 31st of that same year. */
  lemma FebruaryAndDecember(year: int)
    requires year < 0 || year > 99
    ensures FormattedMonthBoundaries(2, year).lastDay ==
      FormatDate(CalendarDate(year, 2, if IsLeapYear(year) then 29 else 28))
    ensures FormattedMonthBoundaries(12, year).lastDay == FormatDate(CalendarDate(year, 12, 31))
  {
    MonthBoundariesOfMonth(2, year);
    MonthBoundariesOfMonth(12, year);
  }

  datatype CurrentAndLastMonth = CurrentAndLastMonth(current: MonthBoundaries, last: MonthBoundaries)

  /** The four dates `getCurrentAndLastMonthBoundaries` formats, for the current year and
      0-based month index that it reads from the clock. */
  function CurrentMonthFirst(year: int, monthIndex: int): CalendarDate { MakeDate(year, monthIndex, 1) }
  function CurrentMonthLast(year: int, monthIndex: int): CalendarDate { MakeDate(year, monthIndex + 1, 0) }
  function LastMonthFirst(year: int, monthIndex: int): CalendarDate { MakeDate(year, monthIndex - 1, 1) }
  function LastMonthLast(year: int, monthIndex: int): CalendarDate { MakeDate(year, monthIndex, 0) }

  /** `getCurrentAndLastMonthBoundaries`, with "now" given as its year and month index. */
  function CurrentAndLastMonthBoundaries(year: int, monthIndex: int): CurrentAndLastMonth {
    CurrentAndLastMonth(
      MonthBoundaries(FormatDate(CurrentMonthFirst(year, monthIndex)), FormatDate(CurrentMonthLast(year, monthIndex))),
      MonthBoundaries(FormatDate(LastMonthFirst(year, monthIndex)), FormatDate(LastMonthLast(year, monthIndex))))
  }

  /** Last month ends the day before this month starts, and this month is the month of
      `getFormattedMonthBoundaries` for the same 1-based month. */
  lemma LastMonthAdjoinsCurrentMonth(year: int, monthIndex: int)
    requires 0 <= monthIndex <= 11
    ensures NextDay(LastMonthLast(year, monthIndex)) == CurrentMonthFirst(year, monthIndex)
    ensures CurrentAndLastMonthBoundaries(year, monthIndex).current == FormattedMonthBoundaries(monthIndex + 1, year)
  {
  }

  /** Last month's boundaries are those `getFormattedMonthBoundaries` gives for the previous
      1-based month, which in January is December of the previous year. */
  lemma LastMonthIsFormattedMonth(year: int, monthIndex: int)
    requires 0 <= monthIndex <= 11
    requires monthIndex == 0 ==> year < 0 || year > 100
    ensures CurrentAndLastMonthBoundaries(year, monthIndex).last ==
      if monthIndex == 0 then FormattedMonthBoundaries(12, year - 1) else FormattedMonthBoundaries(monthIndex, year)
  {
    if monthIndex == 0 {
      JanuaryLooksBackToDecember(year);
      MonthBoundariesOfMonth(12, year - 1);
    }
  }

  /** In January, last month is December of the previous year, from the 1st to the 31st. */
  lemma JanuaryLooksBackToDecember(year: int)
    requires year < 0 || year > 99
    ensures LastMonthFirst(year, 0) == CalendarDate(year - 1, 12, 1)
    ensures LastMonthLast(year, 0) == CalendarDate(year - 1, 12, 31)
  {
    assert NextDay(LastMonthLast(year, 0)) == CalendarDate(year, 1, 1);
  }

  // ---------------------------------------------------------------------------
  // dateStringToDate

  /** `dateStringToDate(localDate)`: local midnight of the date, through `localToUTCISOString`. */
  function DateStringToDate(localDate: string, parse: string -> JsDate): Option<int> {
    TimeCalculator.LocalToUtc(localDate + " 00:00", parse)
  }

  /** For a date string without spaces, the parser is asked for "dateT00:00" and the result is
      null exactly when that is an invalid Date. */
  lemma DateStringToDateParses(localDate: string, parse: string -> JsDate)
    requires ' ' !in localDate
    ensures DateStringToDate(localDate, parse).None? <==> parse(localDate + "T00:00").InvalidDate?
    ensures DateStringToDate(localDate, parse).Some? ==> parse(localDate + "T00:00") == Time(DateStringToDate(localDate, parse).value)
  {
    var time := "00:00";
    assert localDate + " 00:00" == localDate + " " + time;
    assert localDate + "T00:00" == localDate + "T" + time;
    TimeCalculator.LocalToUtcOfDateTime(localDate, time, parse);
  }
}
