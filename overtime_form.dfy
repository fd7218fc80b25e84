/** The overtime request drawer (`EditOvertimeDrawer`): the planned hours it derives from
    the work date and the two wall-clock times, its validation rule and the request it
    submits. A work date is an instant; `toDateOnlyString` and the Date parser are given
    as functions, and a converted ISO instant is represented by its time value. */
module OvertimeForm {
  import opened JsValues
  import opened DialogProps
  import TimeCalculator
  import Utils

  const PlannedMessage := "Planned hours must be greater than 0"

  datatype OvertimeFormValues = OvertimeFormValues(
    workDate: Option<int>,
    startAt: string,
    endAt: string,
    plannedHours: real,
    reason: Option<string>,
    convertToCompTime: bool)

  /** `DEFAULT_FORM_VALUE`: no date yet, 17:00 to 18:00. */
  const DefaultValues := OvertimeFormValues(None, "17:00", "18:00", 0.0, Some(""), false)

  /** `${toDateOnlyString(workDate)} ${time}` converted by `localToUTCISOString`. */
  function LocalInstant(dateText: string, time: string, parse: string -> JsDate): (r: Option<int>)
    ensures ' ' !in dateText ==> (r.None? <==> !TimeCalculator.IsValidDate(parse(dateText + "T" + time)))
    ensures ' ' !in dateText && r.Some? ==> parse(dateText + "T" + time) == Time(r.value)
  {
    if ' ' in dateText then TimeCalculator.LocalToUtc(dateText + " " + time, parse)
    else
      TimeCalculator.LocalToUtcOfDateTime(dateText, time, parse);
      TimeCalculator.LocalToUtc(dateText + " " + time, parse)
  }

  /** `getPlannedHours() ?? 0`. */
  function GetPlannedHours(workDate: Option<int>, startAt: string, endAt: string,
                           dateOnly: int -> string, parse: string -> JsDate): (h: real)
    ensures workDate.None? || startAt == "" || endAt == "" ==> h == 0.0
    ensures workDate.Some? && startAt != "" && endAt != ""
      && (LocalInstant(dateOnly(workDate.value), startAt, parse).None? || LocalInstant(dateOnly(workDate.value), endAt, parse).None?)
      ==> h == 0.0
  {
    if workDate.None? || startAt == "" || endAt == "" then 0.0
    else
      var day := dateOnly(workDate.value);
      var s := LocalInstant(day, startAt, parse);
      var e := LocalInstant(day, endAt, parse);
      if s.None? || e.None? then 0.0
      else TimeCalculator.OvertimePlannedHours(s.value, e.value)
  }

  /** The parser reads the wall-clock time "HH:mm" of the day `day` as `base` plus that many
      minutes (the day has no clock change). */
  predicate ReadsWallClock(parse: string -> JsDate, day: string, time: string, minutes: int, base: int) {
    parse(day + "T" + time) == Time(base + minutes * TimeCalculator.MsPerMinute)
  }

  /** On a day read without a clock change, the planned hours are the difference of the two
      wall-clock times, and an end earlier than the start gives negative hours. */
  lemma PlannedHoursOfWallClock(w: int, startAt: string, endAt: string, a: int, b: int,
                                dateOnly: int -> string, parse: string -> JsDate, base: int)
    requires startAt != "" && endAt != "" && ' ' !in dateOnly(w)
    requires ReadsWallClock(parse, dateOnly(w), startAt, a, base)
    requires ReadsWallClock(parse, dateOnly(w), endAt, b, base)
    ensures GetPlannedHours(Some(w), startAt, endAt, dateOnly, parse) == (b - a) as real / 60.0
    ensures b < a ==> GetPlannedHours(Some(w), startAt, endAt, dateOnly, parse) < 0.0
  {
    var day := dateOnly(w);
    TimeCalculator.LocalToUtcOfDateTime(day, startAt, parse);
    TimeCalculator.LocalToUtcOfDateTime(day, endAt, parse);
    var s := base + a * TimeCalculator.MsPerMinute;
    assert base + b * TimeCalculator.MsPerMinute == s + (b - a) * TimeCalculator.MsPerMinute;
    TimeCalculator.OvertimeOfWholeMinutes(s, b - a);
  }

  /** The default 17:00 to 18:00 is one planned hour once a date is chosen. */
  lemma DefaultIsOneHour(w: int, dateOnly: int -> string, parse: string -> JsDate, base: int)
    requires ' ' !in dateOnly(w)
    requires ReadsWallClock(parse, dateOnly(w), "17:00", 17 * 60, base)
    requires ReadsWallClock(parse, dateOnly(w), "18:00", 18 * 60, base)
    ensures GetPlannedHours(Some(w), DefaultValues.startAt, DefaultValues.endAt, dateOnly, parse) == 1.0
  {
    PlannedHoursOfWallClock(w, "17:00", "18:00", 17 * 60, 18 * 60, dateOnly, parse, base);
  }

  /** The `refine`: a chosen work date needs positive planned hours. */
  function OvertimeIssues(v: OvertimeFormValues): (issues: seq<string>)
    ensures issues == [] <==> v.workDate.None? || v.plannedHours > 0.0
    ensures issues != [] ==> issues == [PlannedMessage]
  {
    if v.workDate.Some? && !(v.plannedHours > 0.0) then [PlannedMessage] else []
  }

  /** Start and end share the work date, so a shift crossing midnight (22:00 to 01:00) is
      read as -21 hours and refused. */
  lemma CrossingMidnightRefused(v: OvertimeFormValues, dateOnly: int -> string, parse: string -> JsDate, base: int)
    requires v.workDate.Some? && v.startAt == "22:00" && v.endAt == "01:00" && ' ' !in dateOnly(v.workDate.value)
    requires ReadsWallClock(parse, dateOnly(v.workDate.value), "22:00", 22 * 60, base)
    requires ReadsWallClock(parse, dateOnly(v.workDate.value), "01:00", 1 * 60, base)
    requires v.plannedHours == GetPlannedHours(v.workDate, v.startAt, v.endAt, dateOnly, parse)
    ensures v.plannedHours == -21.0
    ensures OvertimeIssues(v) == [PlannedMessage]
  {
    PlannedHoursOfWallClock(v.workDate.value, "22:00", "01:00", 22 * 60, 1 * 60, dateOnly, parse, base);
  }

  // ---------------------------------------------------------------------------
  // Submission

  datatype OvertimeRequest = OvertimeRequest(
    employeeId: string,
    workDate: string,
    startAt: int,
    endAt: int,
    reason: Option<string>,
    convertToCompTime: bool,
    plannedHours: real)

  datatype OvertimeSubmission = NoSubmission | CreateOvertime(input: OvertimeRequest) | UpdateOvertime(id: string, input: OvertimeRequest)

  /** `handleSubmit` on values the schema has accepted (so a work date is set). */
  function HandleSubmit(employeeId: Option<string>, mode: EditMode, v: OvertimeFormValues,
                        dateOnly: int -> string, parse: string -> JsDate): (r: OvertimeSubmission)
    requires v.workDate.Some?
    ensures r.NoSubmission? <==>
      (!MayProceed(employeeId.Some?, mode)
       || LocalInstant(dateOnly(v.workDate.value), v.startAt, parse).None?
       || LocalInstant(dateOnly(v.workDate.value), v.endAt, parse).None?)
    ensures r.CreateOvertime? ==> mode.CreateMode?
    ensures r.UpdateOvertime? ==> mode.UpdateMode? && r.id == mode.dataId.value
    ensures !r.NoSubmission? ==> r.input == OvertimeRequest(employeeId.value, dateOnly(v.workDate.value),
      LocalInstant(dateOnly(v.workDate.value), v.startAt, parse).value,
      LocalInstant(dateOnly(v.workDate.value), v.endAt, parse).value,
      v.reason, v.convertToCompTime, v.plannedHours)
  {
    if !MayProceed(employeeId.Some?, mode) then NoSubmission
    else
      var day := dateOnly(v.workDate.value);
      var s := LocalInstant(day, v.startAt, parse);
      var e := LocalInstant(day, v.endAt, parse);
      if s.None? || e.None? then NoSubmission
      else
        var input := OvertimeRequest(employeeId.value, day, s.value, e.value, v.reason, v.convertToCompTime, v.plannedHours);
        if mode.CreateMode? then CreateOvertime(input) else UpdateOvertime(mode.dataId.value, input)
  }

  /** The submitted instants are the ones the planned hours were derived from: a request
      sent with up-to-date planned hours states the hours between its own start and end. */
  lemma SubmittedHoursMatchInstants(employeeId: Option<string>, mode: EditMode, v: OvertimeFormValues,
                                    dateOnly: int -> string, parse: string -> JsDate)
    requires v.workDate.Some? && v.startAt != "" && v.endAt != ""
    requires v.plannedHours == GetPlannedHours(v.workDate, v.startAt, v.endAt, dateOnly, parse)
    requires !HandleSubmit(employeeId, mode, v, dateOnly, parse).NoSubmission?
    ensures var input := HandleSubmit(employeeId, mode, v, dateOnly, parse).input;
      input.plannedHours == TimeCalculator.OvertimePlannedHours(input.startAt, input.endAt)
  {
  }

  // ---------------------------------------------------------------------------
  // The form state

  /** The values an existing request is edited with: its date-only work date read back
      through `dateStringToDate` (an unreadable one leaves the date unset). */
  function OvertimeData(workDate: string, startAt: string, endAt: string, plannedHours: real,
                        reason: Option<string>, convertToCompTime: Option<bool>, parse: string -> JsDate): (v: OvertimeFormValues)
    ensures v.workDate == Utils.DateStringToDate(workDate, parse)
    ensures v.convertToCompTime <==> convertToCompTime == Some(true)
  {
    OvertimeFormValues(Utils.DateStringToDate(workDate, parse), startAt, endAt, plannedHours, reason,
      if convertToCompTime.Some? then convertToCompTime.value else false)
  }

  class OvertimeForm {
    var values: OvertimeFormValues

    /** The form opens with the edited request's values, or with the defaults. */
    constructor (overtimeData: Option<OvertimeFormValues>)
      ensures values == if overtimeData.Some? then overtimeData.value else DefaultValues
    {
      values := if overtimeData.Some? then overtimeData.value else DefaultValues;
    }

    /** The effect on `workDate`, `startAt` and `endAt`. */
    method RecomputePlannedHours(dateOnly: int -> string, parse: string -> JsDate)
      modifies this
      ensures values == old(values).(plannedHours := GetPlannedHours(old(values).workDate, old(values).startAt, old(values).endAt, dateOnly, parse))
    {
      values := values.(plannedHours := GetPlannedHours(values.workDate, values.startAt, values.endAt, dateOnly, parse));
    }
  }
}
