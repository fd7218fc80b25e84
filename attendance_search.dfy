/** The attendance search bar (`AttendanceSearch`): an employee and a date range. The
    dates in the queries are local `yyyy-mm-dd` texts, read as local midnight and written
    back as the local calendar day, which is given as a function of the instant. */
module AttendanceSearch {
  import opened JsValues
  import opened SearchParams
  import opened PaginationData
  import EmployeeFilter
  import Utils

  /** The search form's state; a selected date is an instant (ms). */
  datatype Selection = Selection(employeeId: Option<string>, from: Option<int>, to: Option<int>)

  /** A date text of the queries as the picker's Date: none for an absent or empty text,
      and none for a text `dateStringToDate` cannot read. A text without spaces is handed to
      the parser as "textT00:00", and the Date is the instant the parser returns. */
  function DateOf(text: Option<string>, parse: string -> JsDate): (d: Option<int>)
    ensures d.Some? ==> EmitsText(text) && d == Utils.DateStringToDate(text.value, parse)
    ensures EmitsText(text) ==> d == Utils.DateStringToDate(text.value, parse)
    ensures !EmitsText(text) ==> d.None?
    ensures EmitsText(text) && ' ' !in text.value ==>
      (d.None? <==> parse(text.value + "T00:00").InvalidDate?)
    ensures d.Some? && ' ' !in text.value ==> parse(text.value + "T00:00") == Time(d.value)
  {
    if !EmitsText(text) then None
    else if ' ' in text.value then Utils.DateStringToDate(text.value, parse)
    else
      Utils.DateStringToDateParses(text.value, parse);
      Utils.DateStringToDate(text.value, parse)
  }

  /** The initial form state: the employee of the queries, and each date as the parser reads
      its text at local midnight. */
  function InitialSelection(q: SearchQueries, parse: string -> JsDate): (s: Selection)
    ensures s.employeeId == q.employeeId
    ensures s.from == DateOf(q.from, parse) && s.to == DateOf(q.to, parse)
    ensures !EmitsText(q.from) ==> s.from.None?
    ensures !EmitsText(q.to) ==> s.to.None?
    ensures EmitsText(q.from) && ' ' !in q.from.value ==>
      (s.from.Some? <==> !parse(q.from.value + "T00:00").InvalidDate?)
      && (s.from.Some? ==> parse(q.from.value + "T00:00") == Time(s.from.value))
    ensures EmitsText(q.to) && ' ' !in q.to.value ==>
      (s.to.Some? <==> !parse(q.to.value + "T00:00").InvalidDate?)
      && (s.to.Some? ==> parse(q.to.value + "T00:00") == Time(s.to.value))
  {
    Selection(q.employeeId, DateOf(q.from, parse), DateOf(q.to, parse))
  }

  /** The update of `handleSearchSubmit`; dates go out as `toDateOnlyString`. */
  function SubmitUpdate(withEmployee: bool, s: Selection, dateOnly: int -> string): (u: Update)
    ensures u.page == Put(Some(Finite(1)))
    ensures u.employeeId.Put? <==> withEmployee
    ensures withEmployee ==> u.employeeId == Put(s.employeeId)
    ensures u.from == Put(if s.from.Some? then Some(dateOnly(s.from.value)) else None)
    ensures u.to == Put(if s.to.Some? then Some(dateOnly(s.to.value)) else None)
    ensures u.limit.Keep? && u.sortBy.Keep? && u.sortDesc.Keep? && u.textSearch.Keep? && u.status.Keep?
  {
    NoUpdate.(employeeId := if withEmployee then Put(s.employeeId) else Keep,
      from := Put(if s.from.Some? then Some(dateOnly(s.from.value)) else None),
      to := Put(if s.to.Some? then Some(dateOnly(s.to.value)) else None),
      page := Put(Some(Finite(1))))
  }

  /** After a submit the list is on page 1; the status filter (not shown here), text search,
      page size and sort order survive, and so does the employee filter when the bar does not
      show it. */
  lemma SubmitEffect(q: SearchQueries, withEmployee: bool, s: Selection, dateOnly: int -> string)
    ensures var r := NextQueries(q, SubmitUpdate(withEmployee, s, dateOnly));
      r.page == Some(Finite(1))
      && r.status == q.status && r.textSearch == q.textSearch && r.limit == q.limit
      && r.sortBy == q.sortBy && r.sortDesc == q.sortDesc
      && r.employeeId == (if withEmployee then s.employeeId else q.employeeId)
  {
  }

  /** Submitting the untouched bar keeps a start date whose text is a day `toDateOnlyString`
      reproduces, and drops one `dateStringToDate` cannot read. */
  lemma UntouchedFromDate(q: SearchQueries, withEmployee: bool, parse: string -> JsDate, dateOnly: int -> string)
    requires EmitsText(q.from)
    ensures var d := Utils.DateStringToDate(q.from.value, parse);
      var r := NextQueries(q, SubmitUpdate(withEmployee, InitialSelection(q, parse), dateOnly));
      (d.Some? && dateOnly(d.value) == q.from.value ==> r.from == q.from)
      && (d.None? ==> r.from.None?)
  {
  }

  /** The state of the search bar. */
  class AttendanceSearchBar {
    const withEmployee: bool
    var selection: Selection

    constructor (q: SearchQueries, withEmployee: bool, parse: string -> JsDate)
      ensures this.withEmployee == withEmployee && selection == InitialSelection(q, parse)
    {
      this.withEmployee := withEmployee;
      selection := InitialSelection(q, parse);
    }

    /** The employee combobox. */
    method OnEmployeeChange(picked: Option<string>)
      modifies this
      ensures selection == old(selection).(employeeId := EmployeeFilter.OnComboboxChange(picked))
    {
      selection := selection.(employeeId := EmployeeFilter.OnComboboxChange(picked));
    }

    /** The two date pickers' `onChange`. */
    method SetRange(from: Option<int>, to: Option<int>)
      modifies this
      ensures selection == old(selection).(from := from, to := to)
    {
      selection := selection.(from := from, to := to);
    }

    /** `handleSearchSubmit`. */
    method HandleSearchSubmit(data: PaginationData, dateOnly: int -> string)
      modifies data.store
      ensures data.store.value == NextQueries(old(data.store.value), SubmitUpdate(withEmployee, selection, dateOnly))
      ensures data.store.value.page == Some(Finite(1)) && data.store.value.status == old(data.store.value.status)
      ensures data.store.Synced()
    {
      data.UpdateQueryValue(SubmitUpdate(withEmployee, selection, dateOnly));
    }
  }
}
