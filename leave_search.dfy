/** The leave search bar (`LeaveSearch`): the status, employee and date range selections it
    keeps while the user edits them, and the update it hands to `updateQueryValue` on
    submit. Selected dates are JS Dates; `toISOString` is given as a function and throws on
    an invalid Date, which abandons the submit. */
module LeaveSearch {
  import opened JsValues
  import opened SearchParams
  import opened PaginationData
  import EmployeeFilter

  const AllStatus := "all"

  /** The search form's state. */
  datatype Selection = Selection(employeeId: Option<string>, status: string, from: Option<JsDate>, to: Option<JsDate>)

  /** The state the bar starts from: the current queries, with "all" for no status and the
      date texts read by the Date parser. */
  function InitialSelection(q: SearchQueries, parse: string -> JsDate): (s: Selection)
    ensures s.employeeId == q.employeeId
    ensures s.status == (if q.status.Some? then q.status.value else AllStatus)
    ensures s.from.Some? <==> EmitsText(q.from)
    ensures s.to.Some? <==> EmitsText(q.to)
    ensures s.from.Some? ==> s.from.value == parse(q.from.value)
    ensures s.to.Some? ==> s.to.value == parse(q.to.value)
  {
    Selection(q.employeeId, if q.status.Some? then q.status.value else AllStatus,
      if EmitsText(q.from) then Some(parse(q.from.value)) else None,
      if EmitsText(q.to) then Some(parse(q.to.value)) else None)
  }

  /** `from ? from.toISOString() : undefined`; None when `toISOString` would throw. */
  function IsoOf(d: Option<JsDate>, toIso: int -> string): Option<Option<string>> {
    if d.None? then Some(None)
    else if d.value.InvalidDate? then None
    else Some(Some(toIso(d.value.ms)))
  }

  /** The update of `handleSearchSubmit`, or None when a selected date is invalid. */
  function SubmitUpdate(withEmployee: bool, s: Selection, toIso: int -> string): (u: Option<Update>)
    ensures u.None? <==> (s.from.Some? && s.from.value.InvalidDate?) || (s.to.Some? && s.to.value.InvalidDate?)
    ensures u.Some? ==> u.value.page == Put(Some(Finite(1)))
    ensures u.Some? ==> u.value.status == Put(if s.status == AllStatus then None else Some(s.status))
    ensures u.Some? ==> (u.value.employeeId.Put? <==> withEmployee)
    ensures u.Some? && withEmployee ==> u.value.employeeId == Put(s.employeeId)
    ensures u.Some? ==> u.value.limit.Keep? && u.value.sortBy.Keep? && u.value.sortDesc.Keep? && u.value.textSearch.Keep?
    ensures u.Some? ==> u.value.from == Put(IsoOf(s.from, toIso).value) && u.value.to == Put(IsoOf(s.to, toIso).value)
  {
    var from := IsoOf(s.from, toIso);
    var to := IsoOf(s.to, toIso);
    if from.None? || to.None? then None
    else
      var status := if s.status == AllStatus then None else Some(s.status);
      Some(NoUpdate.(employeeId := if withEmployee then Put(s.employeeId) else Keep,
        status := Put(status), from := Put(from.value), to := Put(to.value), page := Put(Some(Finite(1)))))
  }

  /** After a submit the list is on page 1, the status filter is the selection ("all" clears
      it), an employee filter the bar does not show survives, and text search, page size and
      sort order are untouched. */
  lemma SubmitEffect(q: SearchQueries, withEmployee: bool, s: Selection, toIso: int -> string)
    requires SubmitUpdate(withEmployee, s, toIso).Some?
    ensures var r := NextQueries(q, SubmitUpdate(withEmployee, s, toIso).value);
      r.page == Some(Finite(1))
      && r.status == (if s.status == AllStatus then None else Some(s.status))
      && (!withEmployee ==> r.employeeId == q.employeeId)
      && (withEmployee ==> r.employeeId == s.employeeId)
      && r.textSearch == q.textSearch && r.limit == q.limit && r.sortBy == q.sortBy && r.sortDesc == q.sortDesc
  {
  }

  /** Submitting the untouched status selection keeps the status filter, except that a
      filter literally equal to "all" is dropped. */
  lemma UntouchedStatusSurvives(q: SearchQueries, withEmployee: bool, parse: string -> JsDate, toIso: int -> string)
    requires q.status != Some(AllStatus)
    requires SubmitUpdate(withEmployee, InitialSelection(q, parse), toIso).Some?
    ensures NextQueries(q, SubmitUpdate(withEmployee, InitialSelection(q, parse), toIso).value).status == q.status
  {
  }

  /** The state of the search bar: the four selections held in `useState`. */
  class LeaveSearchBar {
    const withEmployee: bool
    var selection: Selection

    constructor (q: SearchQueries, withEmployee: bool, parse: string -> JsDate)
      ensures this.withEmployee == withEmployee && selection == InitialSelection(q, parse)
    {
      this.withEmployee := withEmployee;
      selection := InitialSelection(q, parse);
    }

    /** The status select. */
    method SetStatus(status: string)
      modifies this
      ensures selection == old(selection).(status := status)
    {
      selection := selection.(status := status);
    }

    /** The employee combobox. */
    method OnEmployeeChange(picked: Option<string>)
      modifies this
      ensures selection == old(selection).(employeeId := EmployeeFilter.OnComboboxChange(picked))
      ensures picked.None? || picked == Some(EmployeeFilter.AllValue) ==> selection.employeeId.None?
    {
      selection := selection.(employeeId := EmployeeFilter.OnComboboxChange(picked));
    }

    /** The two date pickers' `onChange`. */
    method SetRange(from: Option<JsDate>, to: Option<JsDate>)
      modifies this
      ensures selection == old(selection).(from := from, to := to)
    {
      selection := selection.(from := from, to := to);
    }

    /** `handleSearchSubmit`: the update goes to `updateQueryValue` of the page's queries. */
    method HandleSearchSubmit(data: PaginationData, toIso: int -> string)
      modifies data.store
      ensures SubmitUpdate(withEmployee, selection, toIso).None? ==> data.store.value == old(data.store.value)
      ensures SubmitUpdate(withEmployee, selection, toIso).Some? ==>
        data.store.value == NextQueries(old(data.store.value), SubmitUpdate(withEmployee, selection, toIso).value)
        && data.store.value.page == Some(Finite(1))
      ensures SubmitUpdate(withEmployee, selection, toIso).Some? ==> data.store.Synced()
    {
      var u := SubmitUpdate(withEmployee, selection, toIso);
      if u.Some? {
        data.UpdateQueryValue(u.value);
      }
    }
  }
}
