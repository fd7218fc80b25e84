/** The business-time calculator of `src/lib/timeCalculator.ts`.

    Two clocks appear here.
    - An instant is a UTC point in time in milliseconds (a JS `getTime()` value); an ISO
      string produced by `toISOString()` is represented by the instant it names.
    - A zoned wall-clock time (what `toZonedTime` yields) is a whole number of minutes since
      a fixed Monday 00:00, so that its calendar day is `m / 1440` and its weekday `day % 7`
      (0 = Monday, ..., 5 = Saturday, 6 = Sunday). */
module TimeCalculator {
  import opened JsValues

  const MinutesPerDay: int := 1440
  const MsPerMinute: int := 60000
  /** 09:00 and 18:00, in minutes after midnight. */
  const WorkStart: int := 9 * 60
  const WorkEnd: int := 18 * 60
  /** A day's span strictly longer than this many minutes loses a lunch break. */
  const LunchThreshold: int := 300
  const LunchBreak: int := 60

  // ---------------------------------------------------------------------------
  // Zoned wall-clock calendar

  function Day(m: int): int {
    m / MinutesPerDay
  }

  /** 00:00 of calendar day d. */
  function Midnight(d: int): int {
    d * MinutesPerDay
  }

  /** `isWeekend`: the day is a Saturday or a Sunday. */
  predicate IsWeekendDay(d: int) {
    d % 7 >= 5
  }

  predicate IsWeekend(m: int) {
    IsWeekendDay(Day(m))
  }

  lemma DayOfTimeInDay(d: int, a: int)
    requires 0 <= a < MinutesPerDay
    ensures Day(Midnight(d) + a) == d
  {
  }

  /** `addDays(current, 1)` followed by `set(..., { hours: 0, minutes: 0 })`: the next
      midnight, which is strictly later and at most one day away. */
  function NextMidnight(m: int): (n: int)
    ensures m < n <= m + MinutesPerDay
    ensures n == Midnight(Day(m) + 1) && Day(n) == Day(m) + 1
  {
    DayOfTimeInDay(Day(m) + 1, 0);
    Midnight(Day(m) + 1)
  }

  // ---------------------------------------------------------------------------
  // isValidDate and localToUTCISOString

  /** `isValidDate`: a Date whose time value is not NaN. */
  predicate IsValidDate(d: JsDate) {
    d.Time?
  }

  /** `s.replace(" ", "T")` with a string pattern: only the FIRST space becomes 'T'. */
  function ReplaceFirstSpace(s: string): (r: string)
    ensures |r| == |s|
    ensures forall i :: 0 <= i < |s| && (s[i] != ' ' || ' ' in s[..i]) ==> r[i] == s[i]
    ensures forall i :: 0 <= i < |s| && s[i] == ' ' && ' ' !in s[..i] ==> r[i] == 'T'
    decreases |s|
  {
    if |s| == 0 then ""
    else if s[0] == ' ' then "T" + s[1..]
    else
      var rest := ReplaceFirstSpace(s[1..]);
      assert forall i :: 1 <= i < |s| ==> s[..i] == [s[0]] + s[1..][..i - 1];
      [s[0]] + rest
  }

  /** `localToUTCISOString`: the string with its first space replaced is given to the
      environment's Date parser (which reads a zone-less date-time as local time); the
      result is the instant, or None (`null`) when the parsed Date is invalid. */
  function LocalToUtc(localDateTime: string, parse: string -> JsDate): (r: Option<int>)
    ensures r.None? <==> !IsValidDate(parse(ReplaceFirstSpace(localDateTime)))
    ensures r.Some? ==> parse(ReplaceFirstSpace(localDateTime)) == Time(r.value)
  {
    var localDate := parse(ReplaceFirstSpace(localDateTime));
    if !IsValidDate(localDate) then None else Some(localDate.ms)
  }

  /** For the documented input shape "date time" whose date part has no space, the parser
      sees exactly "dateTtime". */
  lemma {:induction false} ReplaceFirstSpaceOfDateTime(date: string, time: string)
    requires ' ' !in date
    ensures ReplaceFirstSpace(date + " " + time) == date + "T" + time
  {
    var s := date + " " + time;
    var r := ReplaceFirstSpace(s);
    var want := date + "T" + time;
    assert s[..|date|] == date;
    forall i | 0 <= i < |s|
      ensures r[i] == want[i]
    {
      if i < |date| {
        assert s[i] == date[i];
        assert r[i] == s[i];
      } else if i == |date| {
        assert r[i] == 'T';
      } else {
        assert ' ' in s[..i] by { assert s[..i][|date|] == ' '; }
        assert r[i] == s[i];
      }
    }
    assert r == want;
  }

  lemma LocalToUtcOfDateTime(date: string, time: string, parse: string -> JsDate)
    requires ' ' !in date
    ensures LocalToUtc(date + " " + time, parse) ==
      (if parse(date + "T" + time).Time? then Some(parse(date + "T" + time).ms) else None)
  {
    ReplaceFirstSpaceOfDateTime(date, time);
  }

  // ---------------------------------------------------------------------------
  // calculateOvertimePlannedHours

  /** date-fns `differenceInMinutes(later, earlier)`: whole minutes, truncated toward zero. */
  function DifferenceInMinutes(later: int, earlier: int): (minutes: int)
    ensures later >= earlier ==> 0 <= minutes * MsPerMinute <= later - earlier < minutes * MsPerMinute + MsPerMinute
    ensures later < earlier ==> minutes * MsPerMinute - MsPerMinute < later - earlier <= minutes * MsPerMinute <= 0
  {
    TruncDiv(later - earlier, MsPerMinute)
  }

  /** `calculateOvertimePlannedHours(startIso, endIso)`: elapsed whole minutes over 60, with no
      clipping and no ordering check. */
  function OvertimePlannedHours(start: int, end: int): real {
    DifferenceInMinutes(end, start) as real / 60.0
  }

  lemma OvertimeOfEqualInstants(t: int)
    ensures OvertimePlannedHours(t, t) == 0.0
  {
  }

  lemma OvertimeOfWholeMinutes(start: int, k: int)
    ensures DifferenceInMinutes(start + k * MsPerMinute, start) == k
    ensures OvertimePlannedHours(start, start + k * MsPerMinute) == k as real / 60.0
  {
    assert TruncDiv(k * MsPerMinute, MsPerMinute) == k by {
      if k >= 0 {
        assert (k * MsPerMinute) / MsPerMinute == k;
      } else {
        assert ((-k) * MsPerMinute) / MsPerMinute == -k;
        assert -(k * MsPerMinute) == (-k) * MsPerMinute;
      }
    }
  }

  lemma OvertimeOfNinetyMinutes(t: int)
    ensures OvertimePlannedHours(t, t + 90 * MsPerMinute) == 1.5
  {
    OvertimeOfWholeMinutes(t, 90);
  }

  /** Swapping the instants negates the hours: truncation, unlike flooring, is symmetric. */
  lemma OvertimeSwapNegates(start: int, end: int)
    ensures OvertimePlannedHours(end, start) == -OvertimePlannedHours(start, end)
  {
    TruncDivNegate(end - start, MsPerMinute);
    assert start - end == -(end - start);
  }

  // ---------------------------------------------------------------------------
  // calculateLeaveHours: the reference definition

  function Min(a: int, b: int): int { if a <= b then a else b }
  function Max(a: int, b: int): int { if a >= b then a else b }

  /** The flat lunch deduction of a day's clipped span. */
  function LunchAdjusted(minutes: int): (r: int)
    requires minutes >= 0
    ensures 0 <= r <= minutes
    ensures minutes <= LunchThreshold ==> r == minutes
    ensures minutes > LunchThreshold ==> r == minutes - LunchBreak && r > LunchThreshold - LunchBreak
  {
    if minutes > LunchThreshold then minutes - LunchBreak else minutes
  }

  /** Minutes of the request [start, end) that fall inside day d's 09:00-18:00 window. */
  function Overlap(start: int, end: int, d: int): (r: int)
    ensures 0 <= r <= WorkEnd - WorkStart
  {
    Max(0, Min(end, Midnight(d) + WorkEnd) - Max(start, Midnight(d) + WorkStart))
  }

  /** What calendar day d adds to the leave: nothing on a weekend, otherwise its clipped
      span less lunch, so at most 540 - 60 = 480 minutes. */
  function DayCredit(start: int, end: int, d: int): (r: int)
    ensures 0 <= r <= WorkEnd - WorkStart - LunchBreak
    ensures IsWeekendDay(d) ==> r == 0
  {
    if IsWeekendDay(d) then 0 else LunchAdjusted(Overlap(start, end, d))
  }

  /** The credits of days first..last. */
  function CreditBetween(start: int, end: int, first: int, last: int): (r: int)
    ensures 0 <= r
    ensures r <= (WorkEnd - WorkStart - LunchBreak) * Max(0, last - first + 1)
    decreases last - first
  {
    if first > last then 0
    else DayCredit(start, end, first) + CreditBetween(start, end, first + 1, last)
  }

  /** The leave a request [start, end) of zoned wall-clock times is worth, in minutes: the
      sum, over the calendar days it touches, of each weekday's lunch-adjusted overlap
      with 09:00-18:00. */
  function LeaveMinutes(start: int, end: int): (r: int)
    ensures 0 <= r
    ensures start >= end ==> r == 0
  {
    if start < end then CreditBetween(start, end, Day(start), Day(end)) else 0
  }

  function LeaveHours(start: int, end: int): real {
    LeaveMinutes(start, end) as real / 60.0
  }

  // ---------------------------------------------------------------------------
  // Properties of the leave reference

  lemma {:induction false} CreditSplit(start: int, end: int, first: int, mid: int, last: int)
    requires first <= mid <= last + 1
    ensures CreditBetween(start, end, first, last) ==
      CreditBetween(start, end, first, mid - 1) + CreditBetween(start, end, mid, last)
    decreases mid - first
  {
    if first < mid {
      CreditSplit(start, end, first + 1, mid, last);
    }
  }

  lemma {:induction false} CreditCongruent(s1: int, e1: int, s2: int, e2: int, first: int, last: int)
    requires forall d :: first <= d <= last ==> DayCredit(s1, e1, d) == DayCredit(s2, e2, d)
    ensures CreditBetween(s1, e1, first, last) == CreditBetween(s2, e2, first, last)
    decreases last - first
  {
    if first <= last {
      CreditCongruent(s1, e1, s2, e2, first + 1, last);
    }
  }

  /** A request that starts and ends on one weekday d (a and b are minutes after its
      midnight) is worth its overlap with 09:00-18:00, less lunch beyond 300 minutes. */
  lemma SingleWeekday(d: int, a: int, b: int)
    requires !IsWeekendDay(d)
    requires 0 <= a < b < MinutesPerDay
    ensures LeaveMinutes(Midnight(d) + a, Midnight(d) + b) ==
      LunchAdjusted(Max(0, Min(b, WorkEnd) - Max(a, WorkStart)))
  {
    DayOfTimeInDay(d, a);
    DayOfTimeInDay(d, b);
  }

  /** Exactly 300 minutes keep all 300; 301 minutes count 241. */
  lemma LunchBoundary(d: int)
    requires !IsWeekendDay(d)
    ensures LeaveMinutes(Midnight(d) + 9 * 60, Midnight(d) + 14 * 60) == 300
    ensures LeaveMinutes(Midnight(d) + 9 * 60, Midnight(d) + 14 * 60 + 1) == 241
  {
    SingleWeekday(d, 9 * 60, 14 * 60);
    SingleWeekday(d, 9 * 60, 14 * 60 + 1);
  }

  /** 07:00-20:00 is clipped to 09:00-18:00: both are worth 8 hours. */
  lemma ClippedToWorkWindow(d: int)
    requires !IsWeekendDay(d)
    ensures LeaveHours(Midnight(d) + 7 * 60, Midnight(d) + 20 * 60) == 8.0
    ensures LeaveMinutes(Midnight(d) + 7 * 60, Midnight(d) + 20 * 60) ==
      LeaveMinutes(Midnight(d) + WorkStart, Midnight(d) + WorkEnd)
  {
    SingleWeekday(d, 7 * 60, 20 * 60);
    SingleWeekday(d, WorkStart, WorkEnd);
  }

  /** From minute a of day d up to the next midnight: the day's clipped span less lunch,
      or nothing on a weekend. */
  lemma UntilMidnight(d: int, a: int)
    requires 0 <= a < MinutesPerDay
    ensures LeaveMinutes(Midnight(d) + a, Midnight(d + 1)) ==
      if IsWeekendDay(d) then 0 else LunchAdjusted(Max(0, WorkEnd - Max(a, WorkStart)))
  {
    var start, end := Midnight(d) + a, Midnight(d + 1);
    DayOfTimeInDay(d, a);
    DayOfTimeInDay(d + 1, 0);
    assert end == Midnight(d) + MinutesPerDay;
    assert Overlap(start, end, d) == Max(0, WorkEnd - Max(a, WorkStart));
    assert DayCredit(start, end, d + 1) == 0;
    assert CreditBetween(start, end, d, d + 1) ==
      DayCredit(start, end, d) + DayCredit(start, end, d + 1) + CreditBetween(start, end, d + 2, d + 1);
  }

  /** A whole calendar day is worth 480 minutes on a weekday and nothing on a weekend. */
  lemma WholeDay(d: int)
    ensures LeaveMinutes(Midnight(d), Midnight(d + 1)) ==
      if IsWeekendDay(d) then 0 else WorkEnd - WorkStart - LunchBreak
  {
    UntilMidnight(d, 0);
  }

  /** Cutting a request at a midnight inside it splits its worth into the worth of the two
      parts: every day is counted on its own. */
  lemma SplitAtMidnight(start: int, end: int, k: int)
    requires start <= Midnight(k) <= end
    ensures LeaveMinutes(start, end) == LeaveMinutes(start, Midnight(k)) + LeaveMinutes(Midnight(k), end)
  {
    var m := Midnight(k);
    if start < m < end {
      DayOfTimeInDay(k, 0);
      assert Day(start) < k <= Day(end);
      CreditSplit(start, end, Day(start), k, Day(end));
      CreditSplit(start, m, Day(start), k, k);
      assert DayCredit(start, m, k) == 0;
      CreditFirstDay(start, m, k, k);
      CreditBeforeMidnight(start, end, k);
      CreditAfterMidnight(start, end, k);
      assert LeaveMinutes(start, m) == CreditBetween(start, m, Day(start), k);
      assert LeaveMinutes(m, end) == CreditBetween(m, end, k, Day(end));
    }
  }

  /** The days before midnight k credit the same whether the request ends there or later. */
  lemma CreditBeforeMidnight(start: int, end: int, k: int)
    requires Midnight(k) <= end
    ensures CreditBetween(start, end, Day(start), k - 1) == CreditBetween(start, Midnight(k), Day(start), k - 1)
  {
    forall d | Day(start) <= d <= k - 1
      ensures DayCredit(start, end, d) == DayCredit(start, Midnight(k), d)
    {
      assert Midnight(d) + WorkEnd < Midnight(k);
    }
    CreditCongruent(start, end, start, Midnight(k), Day(start), k - 1);
  }

  /** The days from midnight k on credit the same whether the request starts there or earlier. */
  lemma CreditAfterMidnight(start: int, end: int, k: int)
    requires start <= Midnight(k)
    ensures CreditBetween(start, end, k, Day(end)) == CreditBetween(Midnight(k), end, k, Day(end))
  {
    forall d | k <= d <= Day(end)
      ensures DayCredit(start, end, d) == DayCredit(Midnight(k), end, d)
    {
      assert Midnight(k) <= Midnight(d);
    }
    CreditCongruent(start, end, Midnight(k), end, k, Day(end));
  }

  /** Monday 16:00 to Wednesday 10:00: 2 hours on Monday, a full Tuesday of 8 hours and
      1 hour on Wednesday. */
  lemma MondayToWednesday(mon: int)
    requires mon % 7 == 0
    ensures LeaveMinutes(Midnight(mon) + 16 * 60, Midnight(mon + 2) + 10 * 60) == 120 + 480 + 60
    ensures LeaveHours(Midnight(mon) + 16 * 60, Midnight(mon + 2) + 10 * 60) == 11.0
  {
    var tue, wed := mon + 1, mon + 2;
    var start, end := Midnight(mon) + 16 * 60, Midnight(wed) + 10 * 60;
    MondayAfternoon(mon);
    TuesdayWhole(tue);
    WednesdayMorning(wed);
    SplitAtMidnight(Midnight(tue), end, wed);
    SplitAtMidnight(start, end, tue);
    assert LeaveMinutes(start, end) == 660;
  }

  lemma MondayAfternoon(mon: int)
    requires mon % 7 == 0
    ensures LeaveMinutes(Midnight(mon) + 16 * 60, Midnight(mon + 1)) == 120
  {
    UntilMidnight(mon, 16 * 60);
  }

  lemma TuesdayWhole(tue: int)
    requires tue % 7 == 1
    ensures LeaveMinutes(Midnight(tue), Midnight(tue + 1)) == 480
  {
    WholeDay(tue);
  }

  lemma WednesdayMorning(wed: int)
    requires wed % 7 == 2
    ensures LeaveMinutes(Midnight(wed), Midnight(wed) + 10 * 60) == 60
  {
    SingleWeekday(wed, 0, 10 * 60);
  }

  /** Saturday 00:00 to Sunday 23:59 is worth nothing. */
  lemma WeekendIsFree(sat: int)
    requires sat % 7 == 5
    ensures LeaveMinutes(Midnight(sat), Midnight(sat + 1) + MinutesPerDay - 1) == 0
  {
    var sun := sat + 1;
    assert IsWeekendDay(sat) && IsWeekendDay(sun);
    var start, end := Midnight(sat), Midnight(sun) + MinutesPerDay - 1;
    DayOfTimeInDay(sat, 0);
    DayOfTimeInDay(sun, MinutesPerDay - 1);
    assert CreditBetween(start, end, sat, sun) == 0;
  }

  // ---------------------------------------------------------------------------
  // calculateLeaveHours: the day loop

  /** Inside the loop the end can only be earlier than today's 18:00 if it lies on the
      cursor's own calendar day, so the source's `getDate()` comparison never decides. */
  lemma EarlyEndIsSameDay(current: int, end: int)
    requires current < end < Midnight(Day(current)) + WorkEnd
    ensures Day(end) == Day(current)
  {
  }

  lemma CreditFirstDay(start: int, end: int, first: int, last: int)
    requires first <= last
    ensures CreditBetween(start, end, first, last) == DayCredit(start, end, first) + CreditBetween(start, end, first + 1, last)
  {
  }

  lemma DayMonotone(a: int, b: int)
    requires a <= b
    ensures Day(a) <= Day(b)
  {
  }

  /** On a weekday the cursor reaches, the credit of the day is its lunch-adjusted overlap
      measured from the cursor: after the first day the cursor is at midnight, before 09:00. */
  lemma LoopDayCredit(startZoned: int, endZoned: int, current: int)
    requires startZoned <= current < endZoned
    requires current != startZoned ==> current == Midnight(Day(current))
    requires !IsWeekend(current)
    ensures var d := Day(current);
      DayCredit(startZoned, endZoned, d) ==
        LunchAdjusted(Max(0, Min(endZoned, Midnight(d) + WorkEnd) - Max(current, Midnight(d) + WorkStart)))
  {
    var d := Day(current);
    assert Max(startZoned, Midnight(d) + WorkStart) == Max(current, Midnight(d) + WorkStart);
  }

  /** The loop of `calculateLeaveHours` on zoned wall-clock minutes. */
  method CalculateLeaveMinutes(startZoned: int, endZoned: int) returns (totalMinutes: int)
    ensures totalMinutes == LeaveMinutes(startZoned, endZoned)
  {
    var current := startZoned;
    totalMinutes := 0;
    while current < endZoned
      invariant startZoned <= current
      invariant current != startZoned ==> current == Midnight(Day(current)) && Day(startZoned) < Day(current)
      invariant startZoned >= endZoned ==> current == startZoned && totalMinutes == 0
      invariant startZoned < endZoned ==>
        totalMinutes + CreditBetween(startZoned, endZoned, Day(current), Day(endZoned)) == LeaveMinutes(startZoned, endZoned)
      decreases endZoned - current
    {
      ghost var day, before := Day(current), totalMinutes;
      DayMonotone(current, endZoned);
      CreditFirstDay(startZoned, endZoned, day, Day(endZoned));
      if IsWeekend(current) {
        assert DayCredit(startZoned, endZoned, day) == 0;
        current := NextMidnight(current);
        assert Day(current) == day + 1;
        continue;
      }

      var workStartToday := Midnight(Day(current)) + WorkStart;
      var workEndToday := Midnight(Day(current)) + WorkEnd;
      var actualStart := if current > workStartToday then current else workStartToday;
      var actualEnd := workEndToday;
      if endZoned < workEndToday && Day(endZoned) == Day(current) {
        actualEnd := endZoned;
      }
      if endZoned < workEndToday {
        EarlyEndIsSameDay(current, endZoned);
      }
      LoopDayCredit(startZoned, endZoned, current);
      assert DayCredit(startZoned, endZoned, Day(current)) == LunchAdjusted(Max(0, actualEnd - actualStart));
      if actualEnd > actualStart {
        var minutes := actualEnd - actualStart;
        if minutes > LunchThreshold {
          minutes := minutes - LunchBreak;
        }
        totalMinutes := totalMinutes + minutes;
      }
      assert totalMinutes == before + DayCredit(startZoned, endZoned, day);
      current := NextMidnight(current);
      assert Day(current) == day + 1;
    }
    if startZoned < endZoned && Day(current) == Day(endZoned) {
      assert DayCredit(startZoned, endZoned, Day(endZoned)) == 0;
    }
  }

  /** `calculateLeaveHours(startIso, endIso, timeZone)`: both instants are projected into the
      zone's wall clock by `zoned` (date-fns-tz `toZonedTime`) and the minutes become hours. */
  method CalculateLeaveHours(startIso: int, endIso: int, zoned: int -> int) returns (hours: real)
    ensures hours == LeaveHours(zoned(startIso), zoned(endIso))
  {
    var totalMinutes := CalculateLeaveMinutes(zoned(startIso), zoned(endIso));
    hours := totalMinutes as real / 60.0;
  }
}
