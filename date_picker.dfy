/** `CustomDatePicker`: a date (and optionally time) picker holding its own copy of the
    selected Date and reporting every change through `onChange`. A Date is modelled by its
    local wall-clock time in whole minutes, so `getHours`/`getMinutes` and `setHours`/
    `setMinutes` are arithmetic on that count; seconds are not modelled. */
module DatePicker {
  import opened JsValues
  import TimeCalculator

  function Day(t: int): int { TimeCalculator.Day(t) }

  /** `getHours()`: 0..23. */
  function Hours(t: int): (h: int)
    ensures 0 <= h < 24
  {
    (t % TimeCalculator.MinutesPerDay) / 60
  }

  /** `getMinutes()`: 0..59. */
  function Minutes(t: int): (m: int)
    ensures 0 <= m < 60
  {
    t % 60
  }

  lemma Decompose(t: int)
    ensures t == Day(t) * TimeCalculator.MinutesPerDay + Hours(t) * 60 + Minutes(t)
  {
    var d, r := t / 1440, t % 1440;
    assert t == d * 1440 + r;
    assert r == (r / 60) * 60 + r % 60;
    assert t == (d * 24 + r / 60) * 60 + r % 60;
    ModOfMultiple(d * 24 + r / 60, r % 60);
  }

  lemma ModOfMultiple(k: int, m: int)
    requires 0 <= m < 60
    ensures (k * 60 + m) % 60 == m
  {
  }

  /** The time with the given day, hour and minute fields. */
  lemma Compose(d: int, h: int, m: int)
    requires 0 <= h < 24 && 0 <= m < 60
    ensures var t := d * TimeCalculator.MinutesPerDay + h * 60 + m;
      Day(t) == d && Hours(t) == h && Minutes(t) == m
  {
    var t := d * TimeCalculator.MinutesPerDay + h * 60 + m;
    assert 0 <= h * 60 + m < TimeCalculator.MinutesPerDay;
    TimeCalculator.DayOfTimeInDay(d, h * 60 + m);
    assert t % TimeCalculator.MinutesPerDay == h * 60 + m;
    assert t % 60 == m by {
      assert t == (d * 24 + h) * 60 + m;
    }
  }

  /** `setHours(h)` keeps the minutes and counts `h` from the start of the day: an hour
      outside 0..23 moves the date into a neighbouring day. */
  function SetHours(t: int, h: int): int {
    Day(t) * TimeCalculator.MinutesPerDay + h * 60 + Minutes(t)
  }

  /** `setMinutes(m)` keeps the day and the hour. */
  function SetMinutes(t: int, m: int): int {
    Day(t) * TimeCalculator.MinutesPerDay + Hours(t) * 60 + m
  }

  lemma SetMinutesFields(t: int, m: nat)
    ensures m < 60 ==> Day(SetMinutes(t, m)) == Day(t) && Hours(SetMinutes(t, m)) == Hours(t) && Minutes(SetMinutes(t, m)) == m
  {
    if m < 60 {
      Compose(Day(t), Hours(t), m);
    }
  }

  /** The three kinds of time buttons, with the value the button passes. */
  datatype TimeInput = Hour(h: nat) | Minute(m: nat) | AmPm(isPm: bool)

  /** The new Date of `handleTimeChange` for a selected Date `t`. */
  function ApplyTime(t: int, input: TimeInput): (r: int)
    ensures input.Hour? ==>
      Day(r) == Day(t) && Minutes(r) == Minutes(t) && Hours(r) == input.h % 12 + (if Hours(t) >= 12 then 12 else 0)
    ensures input.Minute? && input.m < 60 ==> Day(r) == Day(t) && Hours(r) == Hours(t) && Minutes(r) == input.m
    ensures input.AmPm? ==> r == t + (if input.isPm then 720 else -720)
  {
    match input
    case Hour(h) =>
      var r := SetHours(t, h % 12 + (if Hours(t) >= 12 then 12 else 0));
      Compose(Day(t), h % 12 + (if Hours(t) >= 12 then 12 else 0), Minutes(t));
      r
    case Minute(m) =>
      SetMinutesFields(t, m);
      SetMinutes(t, m)
    case AmPm(isPm) =>
      Decompose(t);
      SetHours(t, if isPm then Hours(t) + 12 else Hours(t) - 12)
  }

  /** AM/PM is a twelve-hour shift: from the other half of the day it switches the half and
      keeps the date; pressed again in the same half it rolls the date to the next (PM) or
      previous (AM) day. */
  lemma AmPmRollOver(t: int, isPm: bool)
    ensures var r := ApplyTime(t, AmPm(isPm));
      Minutes(r) == Minutes(t) && Hours(r) == (Hours(t) + 12) % 24
      && (isPm && Hours(t) < 12 ==> Day(r) == Day(t))
      && (isPm && Hours(t) >= 12 ==> Day(r) == Day(t) + 1)
      && (!isPm && Hours(t) >= 12 ==> Day(r) == Day(t))
      && (!isPm && Hours(t) < 12 ==> Day(r) == Day(t) - 1)
  {
    var r := ApplyTime(t, AmPm(isPm));
    Decompose(t);
    var d, h, m := Day(t), Hours(t), Minutes(t);
    if isPm && h < 12 {
      assert r == d * TimeCalculator.MinutesPerDay + (h + 12) * 60 + m;
      Compose(d, h + 12, m);
    } else if isPm {
      assert r == (d + 1) * TimeCalculator.MinutesPerDay + (h - 12) * 60 + m;
      Compose(d + 1, h - 12, m);
    } else if h >= 12 {
      assert r == d * TimeCalculator.MinutesPerDay + (h - 12) * 60 + m;
      Compose(d, h - 12, m);
    } else {
      assert r == (d - 1) * TimeCalculator.MinutesPerDay + (h + 12) * 60 + m;
      Compose(d - 1, h + 12, m);
    }
  }

  // ---------------------------------------------------------------------------
  // Highlighted buttons

  /** The hour buttons 12, 11, ..., 1. */
  const HourButtons: seq<nat> := [12, 11, 10, 9, 8, 7, 6, 5, 4, 3, 2, 1]

  /** The minute buttons 0, 5, ..., 55. */
  const MinuteButtons: seq<nat> := seq(12, i => i * 5)

  predicate HourHighlighted(date: Option<int>, h: int) {
    date.Some? && Hours(date.value) % 12 == h % 12
  }

  predicate MinuteHighlighted(date: Option<int>, m: int) {
    date.Some? && Minutes(date.value) == m
  }

  predicate AmHighlighted(date: Option<int>) {
    date.Some? && Hours(date.value) < 12
  }

  predicate PmHighlighted(date: Option<int>) {
    date.Some? && Hours(date.value) >= 12
  }

  /** With a date selected exactly one hour button and exactly one of AM/PM is highlighted:
      the button of the hour on the 12-hour clock (12 for hours 0 and 12). */
  lemma OneHourButtonHighlighted(t: int, h: int)
    requires 1 <= h <= 12
    ensures HourHighlighted(Some(t), h) <==> h == (if Hours(t) % 12 == 0 then 12 else Hours(t) % 12)
    ensures AmHighlighted(Some(t)) != PmHighlighted(Some(t))
  {
  }

  /** Pressing an hour button highlights it and keeps the AM/PM highlight; pressing a
      minute button highlights that minute. */
  lemma PressedButtonHighlighted(t: int, h: nat, m: nat)
    requires 1 <= h <= 12 && m in MinuteButtons
    ensures HourHighlighted(Some(ApplyTime(t, Hour(h))), h)
    ensures AmHighlighted(Some(ApplyTime(t, Hour(h)))) == AmHighlighted(Some(t))
    ensures MinuteHighlighted(Some(ApplyTime(t, Minute(m))), m)
  {
    var i :| 0 <= i < 12 && MinuteButtons[i] == m;
    assert m < 60;
  }

  // ---------------------------------------------------------------------------
  // The component state

  class DatePicker {
    /** The `date` state. */
    var date: Option<int>
    /** The values passed to `onChange`, oldest first. */
    var changes: seq<Option<int>>

    /** `onChange` was last called with the stored value. */
    predicate Reported()
      reads this
    {
      |changes| > 0 ==> changes[|changes| - 1] == date
    }

    constructor (value: Option<int>)
      ensures date == value && changes == []
      ensures Reported()
    {
      date := value;
      changes := [];
    }

    /** `handleDateSelect`: a day picked in the calendar is stored and reported; deselecting
        (no day) keeps the previous date and reports nothing. */
    method HandleDateSelect(selected: Option<int>)
      requires Reported()
      modifies this
      ensures selected.Some? ==> date == selected && changes == old(changes) + [selected]
      ensures selected.None? ==> date == old(date) && changes == old(changes)
      ensures Reported()
    {
      if selected.Some? {
        changes := changes + [selected];
        date := selected;
      }
    }

    /** `handleTimeChange`: without a selected date nothing happens. */
    method HandleTimeChange(input: TimeInput)
      requires Reported()
      modifies this
      ensures old(date).None? ==> date == old(date) && changes == old(changes)
      ensures old(date).Some? ==> date == Some(ApplyTime(old(date).value, input)) && changes == old(changes) + [date]
      ensures Reported()
    {
      if date.Some? {
        var newDate := ApplyTime(date.value, input);
        changes := changes + [Some(newDate)];
        date := Some(newDate);
      }
    }

    /** The clear icon: the only way back to no date. The icon is shown only while a date
      is set (and the popover is closed, which is not modelled). */
    method Clear()
      requires date.Some?
      requires Reported()
      modifies this
      ensures date == None && changes == old(changes) + [None]
      ensures Reported()
    {
      changes := changes + [None];
      date := None;
    }
  }
}
