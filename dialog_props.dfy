/** The create/update mode of the edit drawers (`DialogEditProps` of `src/type/index.ts`)
    and the guard their submit handlers share. Of the record being edited only its id
    matters here. */
module DialogProps {
  import opened JsValues

  /** `mode: "create"`, or `mode: "update"` with the record being edited, if loaded. */
  datatype EditMode = CreateMode | UpdateMode(dataId: Option<string>)

  /** The early returns of `handleSubmit`: there must be an employee, and an update needs
      the record it updates. */
  predicate MayProceed(hasEmployee: bool, mode: EditMode) {
    hasEmployee && !(mode.UpdateMode? && mode.dataId.None?)
  }
}
