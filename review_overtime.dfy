/** The overtime review dialog (`ReviewOvertimeDialog`): approve or reject a request, with
    the approved hours checked against the planned ones, and the review it submits. The
    request's hours arrive as numbers already read from their decimal text. */
module ReviewOvertime {
  import opened JsValues

  const NotPositiveMessage := "Approved hours must be greater than 0"
  const OverPlannedMessage := "Approved Hours cannot be greater than Planned Hours"

  datatype Decision = Approve | Reject

  datatype ReviewValues = ReviewValues(
    decision: Decision,
    decisionNote: Option<string>,
    plannedHours: Option<real>,
    approvedHours: real)

  /** `DEFAULT_FORM_VALUE`. */
  const DefaultValues := ReviewValues(Approve, Some(""), Some(0.0), 0.0)

  lemma MessagesDiffer()
    ensures NotPositiveMessage != OverPlannedMessage
  {
    assert NotPositiveMessage[9] != OverPlannedMessage[9];
  }

  /** The messages of `superRefine`, in the order it adds them. */
  function ReviewIssues(v: ReviewValues): (issues: seq<string>)
    ensures v.decision.Reject? ==> issues == []
    ensures NotPositiveMessage in issues <==> v.decision.Approve? && v.approvedHours <= 0.0
    ensures OverPlannedMessage in issues <==>
      v.decision.Approve? && v.plannedHours.Some? && v.approvedHours > v.plannedHours.value
  {
    MessagesDiffer();
    var overPlanned := v.plannedHours.Some? && v.approvedHours > v.plannedHours.value;
    if v.decision.Reject? then []
    else if v.approvedHours <= 0.0 then (if overPlanned then [NotPositiveMessage, OverPlannedMessage] else [NotPositiveMessage])
    else if overPlanned then [OverPlannedMessage]
    else []
  }

  /** An approval passes exactly when it grants some hours and no more than were planned. */
  lemma ApprovalValidIff(v: ReviewValues)
    requires v.decision.Approve?
    ensures ReviewIssues(v) == [] <==>
      0.0 < v.approvedHours && (v.plannedHours.None? || v.approvedHours <= v.plannedHours.value)
  {
    if !(0.0 < v.approvedHours) {
      assert NotPositiveMessage in ReviewIssues(v);
    } else if v.plannedHours.Some? && v.approvedHours > v.plannedHours.value {
      assert OverPlannedMessage in ReviewIssues(v);
    }
  }

  /** The request under review: its id, owner and planned hours. */
  datatype OvertimeRef = OvertimeRef(id: string, employeeId: string, plannedHours: real)

  /** `reviewData ?? DEFAULT_FORM_VALUE`: approval of all planned hours. */
  function InitialReview(overtime: Option<OvertimeRef>): (v: ReviewValues)
    ensures v.decision.Approve?
    ensures overtime.Some? ==> v.plannedHours == Some(overtime.value.plannedHours) && v.approvedHours == overtime.value.plannedHours
  {
    if overtime.Some? then DefaultValues.(plannedHours := Some(overtime.value.plannedHours), approvedHours := overtime.value.plannedHours)
    else DefaultValues
  }

  /** The dialog opens on an approval that is valid exactly when some hours were planned;
      with no request loaded it opens invalid. */
  lemma InitialApprovalValidIff(overtime: Option<OvertimeRef>)
    ensures ReviewIssues(InitialReview(overtime)) == [] <==> overtime.Some? && overtime.value.plannedHours > 0.0
  {
    ApprovalValidIff(InitialReview(overtime));
  }

  datatype ReviewRequest = ReviewRequest(
    overtimeRequestId: string,
    approverEmployeeId: string,
    approve: bool,
    decisionNote: Option<string>,
    approvedHours: Option<real>)

  /** `handleSubmit`: nothing without the request's owner or a signed-in reviewer. */
  function HandleSubmit(overtime: Option<OvertimeRef>, currentUserId: Option<string>, v: ReviewValues): (r: Option<ReviewRequest>)
    ensures r.None? <==> overtime.None? || overtime.value.employeeId == "" || currentUserId.None?
    ensures r.Some? ==> r.value.overtimeRequestId == overtime.value.id && r.value.approverEmployeeId == currentUserId.value
    ensures r.Some? ==> (r.value.approve <==> v.decision.Approve?) && r.value.decisionNote == v.decisionNote
    ensures r.Some? ==> (r.value.approvedHours.Some? <==> r.value.approve)
    ensures r.Some? && r.value.approve ==> r.value.approvedHours == Some(v.approvedHours)
  {
    if overtime.None? || overtime.value.employeeId == "" || currentUserId.None? then None
    else Some(ReviewRequest(overtime.value.id, currentUserId.value, v.decision.Approve?, v.decisionNote,
      if v.decision.Approve? then Some(v.approvedHours) else None))
  }

  /** A submitted approval of validated values grants between 0 (exclusive) and the planned
      hours; a rejection grants none. */
  lemma SubmittedApprovalWithinPlan(overtime: OvertimeRef, currentUserId: string, v: ReviewValues)
    requires overtime.employeeId != "" && ReviewIssues(v) == []
    requires v.plannedHours == Some(overtime.plannedHours)
    ensures var r := HandleSubmit(Some(overtime), Some(currentUserId), v).value;
      (r.approve ==> 0.0 < r.approvedHours.value <= overtime.plannedHours)
      && (!r.approve ==> r.approvedHours.None?)
  {
    if v.decision.Approve? {
      ApprovalValidIff(v);
    }
  }
}
