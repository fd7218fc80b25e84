/** The employee combobox of the leave and attendance search bars: the option shown for
    the selected employee id, and the id a picked option selects. An option is identified
    by its value, "all" or an employee id. */
module EmployeeFilter {
  import opened JsValues

  const AllValue := "all"

  /** An employee as the filter sees it: only the id matters (name and number only label
      the option). */
  datatype Employee = Employee(id: string)

  /** `(employeeData ?? []).find(emp => emp.id === id)`. */
  function FindEmployee(employees: seq<Employee>, id: string): (r: Option<nat>)
    ensures r.Some? ==> r.value < |employees| && employees[r.value].id == id
    ensures r.None? ==> forall i :: 0 <= i < |employees| ==> employees[i].id != id
  {
    if |employees| == 0 then None
    else if employees[0].id == id then Some(0)
    else
      var r := FindEmployee(employees[1..], id);
      assert forall i :: 1 <= i < |employees| ==> employees[i] == employees[1..][i - 1];
      if r.Some? then Some(r.value + 1) else None
  }

  /** `extractEmployeeById`: the value of the option shown for the selected id. */
  function ExtractEmployeeById(id: Option<string>, employeeData: Option<seq<Employee>>): (value: string)
    ensures value != AllValue ==> id.Some? && value == id.value
  {
    if id.None? || id.value == "" then AllValue
    else
      var employees := if employeeData.Some? then employeeData.value else [];
      var found := FindEmployee(employees, id.value);
      if found.Some? then employees[found.value].id else AllValue
  }

  /** "All" is shown exactly when no id is selected or the id is not a loaded employee's. */
  lemma ExtractEmployeeByIdIff(id: Option<string>, employeeData: Option<seq<Employee>>)
    requires id.Some? ==> id.value != AllValue
    ensures ExtractEmployeeById(id, employeeData) == AllValue <==>
      id.None? || id.value == "" || employeeData.None?
      || forall i :: 0 <= i < |employeeData.value| ==> employeeData.value[i].id != id.value
  {
  }

  /** The combobox's `onChange`: clearing it, or picking "all", selects no employee. */
  function OnComboboxChange(picked: Option<string>): (id: Option<string>)
    ensures id.None? <==> picked.None? || picked.value == AllValue
    ensures id.Some? ==> id == picked
  {
    if picked.None? || picked.value == AllValue then None else picked
  }

  /** Picking the option the combobox shows selects the id it was shown for, and an unknown
      id is shown as "all", which selects none. */
  lemma ShownOptionSelectsItself(id: Option<string>, employeeData: Option<seq<Employee>>)
    requires id.Some? ==> id.value != AllValue
    ensures var shown := ExtractEmployeeById(id, employeeData);
      OnComboboxChange(Some(shown)) == (if shown == AllValue then None else id)
  {
  }
}
