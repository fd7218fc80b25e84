/** The leave request drawer (`EditLeaveDrawer`): its validation rule, the fields it
    derives from the others (the requested hours, whether the type is compensatory leave,
    the compensatory balance) and the request it submits. Instants are milliseconds; the
    conversion of an instant to its ISO text and to the employee's wall clock are given
    as functions. */
module LeaveForm {
  import opened JsValues
  import opened DialogProps
  import TimeCalculator

  const HoursMessage := "Hours must be greater than 0"
  const BalanceMessage := "Insufficient balance"
  const CompCode := "COMP"

  /** A leave type; only its id and code take part in the rules. */
  datatype LeaveType = LeaveType(id: string, code: string)

  /** The form values, the derived `isCompLeave` and `balanceMinute` included. */
  datatype LeaveFormValues = LeaveFormValues(
    leaveTypeId: string,
    startAt: Option<int>,
    endAt: Option<int>,
    hours: real,
    reason: Option<string>,
    isCompLeave: bool,
    balanceMinute: int)

  /** `DEFAULT_FORM_VALUE` with the derived fields at their defaults. */
  const DefaultValues := LeaveFormValues("", None, None, 0.0, Some(""), false, 0)

  /** The rule applies only once a type, a start and an end are chosen. */
  predicate Complete(v: LeaveFormValues) {
    v.leaveTypeId != "" && v.startAt.Some? && v.endAt.Some?
  }

  /** The messages of `superRefine`, in the order it adds them: the hours message before
      the balance message, and no other. */
  function LeaveIssues(v: LeaveFormValues): (issues: seq<string>)
    ensures !Complete(v) ==> issues == []
    ensures HoursMessage in issues <==> Complete(v) && v.hours <= 0.0
    ensures BalanceMessage in issues <==>
      Complete(v) && v.isCompLeave && v.hours > v.balanceMinute as real / 60.0
    ensures |issues| <= 2
    ensures forall k :: 0 <= k < |issues| ==> issues[k] == HoursMessage || issues[k] == BalanceMessage
    ensures |issues| == 2 ==> issues == [HoursMessage, BalanceMessage]
  {
    if !Complete(v) then []
    else
      (if v.hours <= 0.0 then [HoursMessage] else [])
      + (if v.isCompLeave && v.hours > v.balanceMinute as real / 60.0 then [BalanceMessage] else [])
  }

  /** A form passes exactly when it is incomplete, or asks for some hours and, for
      compensatory leave, no more than the balance covers. */
  lemma LeaveValidIff(v: LeaveFormValues)
    ensures LeaveIssues(v) == [] <==>
      !Complete(v) || (v.hours > 0.0 && !(v.isCompLeave && v.hours > v.balanceMinute as real / 60.0))
  {
    if Complete(v) && v.hours <= 0.0 {
      assert HoursMessage in LeaveIssues(v);
    } else if Complete(v) && v.isCompLeave && v.hours > v.balanceMinute as real / 60.0 {
      assert BalanceMessage in LeaveIssues(v);
    }
  }

  /** Compensatory leave of exactly the remaining balance is accepted. */
  lemma ExactBalancePasses(v: LeaveFormValues)
    requires Complete(v) && v.isCompLeave && v.balanceMinute > 0
    requires v.hours == v.balanceMinute as real / 60.0
    ensures LeaveIssues(v) == []
  {
  }

  /** With no compensatory balance left, no complete compensatory request passes. */
  lemma NoBalanceNoCompLeave(v: LeaveFormValues)
    requires Complete(v) && v.isCompLeave && v.balanceMinute <= 0
    ensures LeaveIssues(v) != []
  {
    if v.hours > 0.0 {
      assert BalanceMessage in LeaveIssues(v);
    } else {
      assert HoursMessage in LeaveIssues(v);
    }
  }

  // ---------------------------------------------------------------------------
  // Derived fields

  /** `getLeaveHours() ?? 0`: the leave hours of the request once both ends are chosen. */
  function GetLeaveHours(startAt: Option<int>, endAt: Option<int>, zoned: int -> int): (h: real)
    ensures h >= 0.0
    ensures startAt.None? || endAt.None? ==> h == 0.0
    ensures startAt.Some? && endAt.Some? && zoned(startAt.value) >= zoned(endAt.value) ==> h == 0.0
  {
    if startAt.Some? && endAt.Some? then TimeCalculator.LeaveHours(zoned(startAt.value), zoned(endAt.value))
    else 0.0
  }

  /** A request covering only a weekend is worth no hours and is refused. */
  lemma WeekendRequestRefused(v: LeaveFormValues, zoned: int -> int, sat: int)
    requires v.leaveTypeId != "" && v.startAt.Some? && v.endAt.Some?
    requires sat % 7 == 5
    requires zoned(v.startAt.value) == TimeCalculator.Midnight(sat)
    requires zoned(v.endAt.value) == TimeCalculator.Midnight(sat + 1) + TimeCalculator.MinutesPerDay - 1
    requires v.hours == GetLeaveHours(v.startAt, v.endAt, zoned)
    ensures HoursMessage in LeaveIssues(v)
  {
    TimeCalculator.WeekendIsFree(sat);
  }

  /** `leaveTypes.find(type => type.code === "COMP")`. */
  function FindCompType(types: seq<LeaveType>): (r: Option<nat>)
    ensures r.Some? ==>
      r.value < |types| && types[r.value].code == CompCode && forall j :: 0 <= j < r.value ==> types[j].code != CompCode
    ensures r.None? ==> forall j :: 0 <= j < |types| ==> types[j].code != CompCode
  {
    if |types| == 0 then None
    else if types[0].code == CompCode then Some(0)
    else
      var r := FindCompType(types[1..]);
      assert forall j :: 1 <= j < |types| ==> types[j] == types[1..][j - 1];
      if r.Some? then Some(r.value + 1) else None
  }

  /** `checkIsCompLeave`: false until a type is chosen and the types are loaded. */
  function CheckIsCompLeave(leaveTypeId: string, leaveTypes: Option<seq<LeaveType>>): bool {
    if leaveTypeId == "" || leaveTypes.None? then false
    else
      var i := FindCompType(leaveTypes.value);
      i.Some? && leaveTypes.value[i.value].id == leaveTypeId
  }

  /** The chosen type is compensatory leave exactly when it is the first type with code
      "COMP"; a later type with the same code does not count. */
  lemma CheckIsCompLeaveIff(leaveTypeId: string, leaveTypes: Option<seq<LeaveType>>)
    ensures CheckIsCompLeave(leaveTypeId, leaveTypes) <==>
      leaveTypeId != "" && leaveTypes.Some? &&
      exists i :: 0 <= i < |leaveTypes.value| && leaveTypes.value[i].code == CompCode
        && leaveTypes.value[i].id == leaveTypeId
        && (forall j :: 0 <= j < i ==> leaveTypes.value[j].code != CompCode)
  {
    if leaveTypeId != "" && leaveTypes.Some? {
      var types := leaveTypes.value;
      var f := FindCompType(types);
      if exists i :: (0 <= i < |types| && types[i].code == CompCode && types[i].id == leaveTypeId
        && (forall j :: 0 <= j < i ==> types[j].code != CompCode)) {
        var i :| 0 <= i < |types| && types[i].code == CompCode && types[i].id == leaveTypeId
          && (forall j :: 0 <= j < i ==> types[j].code != CompCode);
        assert f.Some? && f.value == i;
      }
    }
  }

  /** What `getBalance` settles with: a failure, or the balance record (possibly null). */
  datatype BalanceFetch = Failed | Fetched(balanceMinutes: Option<int>)

  /** `result?.balanceMinutes ?? 0`, and 0 on failure. */
  function BalanceMinute(f: BalanceFetch): (b: int)
    ensures f.Fetched? && f.balanceMinutes.Some? ==> b == f.balanceMinutes.value
    ensures f.Failed? || f.balanceMinutes.None? ==> b == 0
  {
    if f.Fetched? && f.balanceMinutes.Some? then f.balanceMinutes.value else 0
  }

  // ---------------------------------------------------------------------------
  // Submission

  datatype LeaveRequest = LeaveRequest(
    employeeId: string,
    leaveTypeId: string,
    startAt: string,
    endAt: string,
    reason: Option<string>,
    hours: real)

  /** What `handleSubmit` does: nothing, create a request, or update the edited one. */
  datatype LeaveSubmission = NoSubmission | CreateLeave(input: LeaveRequest) | UpdateLeave(id: string, input: LeaveRequest)

  /** `handleSubmit` on values the schema has accepted (so both instants are set). */
  function HandleSubmit(employeeId: Option<string>, mode: EditMode, v: LeaveFormValues, toIso: int -> string): (r: LeaveSubmission)
    requires v.startAt.Some? && v.endAt.Some?
    ensures r.NoSubmission? <==> !MayProceed(employeeId.Some?, mode)
    ensures r.CreateLeave? <==> MayProceed(employeeId.Some?, mode) && mode.CreateMode?
    ensures r.UpdateLeave? ==> mode.UpdateMode? && r.id == mode.dataId.value
    ensures !r.NoSubmission? ==> r.input == LeaveRequest(employeeId.value, v.leaveTypeId,
      toIso(v.startAt.value), toIso(v.endAt.value), v.reason, v.hours)
  {
    if employeeId.None? then NoSubmission
    else if mode.UpdateMode? && mode.dataId.None? then NoSubmission
    else
      var input := LeaveRequest(employeeId.value, v.leaveTypeId, toIso(v.startAt.value), toIso(v.endAt.value), v.reason, v.hours);
      if mode.CreateMode? then CreateLeave(input) else UpdateLeave(mode.dataId.value, input)
  }

  // ---------------------------------------------------------------------------
  // The form state and the effects that keep its derived fields up to date

  class LeaveForm {
    var values: LeaveFormValues

    /** The form opens with the edited leave's values, or with the defaults. */
    constructor (leaveData: Option<LeaveFormValues>)
      ensures values == (if leaveData.Some? then leaveData.value else DefaultValues).(isCompLeave := false, balanceMinute := 0)
    {
      values := (if leaveData.Some? then leaveData.value else DefaultValues).(isCompLeave := false, balanceMinute := 0);
    }

    /** The effect on `startAt`/`endAt`: hours are recomputed by the day loop. */
    method RecomputeHours(zoned: int -> int)
      modifies this
      ensures values == old(values).(hours := GetLeaveHours(old(values).startAt, old(values).endAt, zoned))
      ensures values.hours >= 0.0
    {
      var hours := 0.0;
      if values.startAt.Some? && values.endAt.Some? {
        hours := TimeCalculator.CalculateLeaveHours(values.startAt.value, values.endAt.value, zoned);
      }
      values := values.(hours := hours);
    }

    /** The effect on `leaveTypeId` and the loaded types. */
    method RecomputeIsCompLeave(leaveTypes: Option<seq<LeaveType>>)
      modifies this
      ensures values == old(values).(isCompLeave := CheckIsCompLeave(old(values).leaveTypeId, leaveTypes))
    {
      values := values.(isCompLeave := CheckIsCompLeave(values.leaveTypeId, leaveTypes));
    }

    /** The effect that loads the compensatory balance when the drawer opens for an employee. */
    method ApplyBalance(open: bool, hasEmployee: bool, fetched: BalanceFetch)
      modifies this
      ensures open && hasEmployee ==> values == old(values).(balanceMinute := BalanceMinute(fetched))
      ensures !(open && hasEmployee) ==> values == old(values)
    {
      if open && hasEmployee {
        values := values.(balanceMinute := BalanceMinute(fetched));
      }
    }
  }
}
