# HR portal front-end rules, modelled in Dafny

This project models the decision logic of the HR portal's web front-end. That front-end is a
React application where employees request leave and overtime, managers review requests, and
list pages keep their filters in the URL. The model covers:

- the **business-time calculator**: the leave hours of a request, counted weekday by weekday
  inside 09:00–18:00 with a one-hour lunch deducted on spans over five hours; the planned
  hours of overtime; and the local-time to UTC conversion;
- the **date and duration helpers**: the `"{h}h {m}m"` split, first and last days of a month,
  the current and previous month, and reading a `yyyy-mm-dd` date;
- the **search-query state of list pages**: parsing the URL into a query record, writing it
  back, the defaults, and the update rule that sends the list back to page 1;
- the **route guards**: the any-of permission check of `RequireAuth`/`withAuth` and the
  redirect table of the root layout;
- the **forms**: the leave and overtime drawers and the overtime review dialog. This covers
  their validation messages, derived fields and submit payloads;
- the **date-time picker's** 12-hour button arithmetic;
- the **leave and attendance search bars**, which build the update handed to the list page.

Conventions used throughout:

- An instant (a JS `Date`'s time value) is an `int` of milliseconds.
- A zoned wall-clock time is an `int` of minutes since a Monday 00:00. Its calendar day is
  `m / 1440`, and that day is a weekend day when `day % 7` is 5 or 6.
- Everything the code takes from the JS runtime is a function parameter. That covers the
  `Date` string parser, `toISOString`, `toDateOnlyString` and the time-zone projection of
  `toZonedTime`.
- JS-specific behaviour is written out in module `JsValues`:
  - truncating `/` and `%`;
  - NaN from `+s`;
  - truthiness;
  - the decimal text of integers.
- Keys absent from an update record are told apart from keys present with `undefined`
  (`PaginationData.Patch`).
- Where the source mutates state, the model is a class:
  - the hook's record and URL (`SearchParams.PaginationSearchParams`, `PaginationData.PaginationData`);
  - the form values of the drawers;
  - the picker's date;
  - the search bars' selections.

  The leave-hours loop is a method proved equal to an independent day-by-day definition
  (`TimeCalculator.LeaveMinutes`).

Inside the loop, `calculateLeaveHours` compares `getDate()` (day of month). The model
compares the absolute day instead. `TimeCalculator.EarlyEndIsSameDay` shows the two never
differ where the comparison is made.

## Model

| member | source | states |
|---|---|---|
| TimeCalculator.NextMidnight | src/lib/timeCalculator.ts:102-104 | the cursor moves strictly forward, by at most a day, to the midnight that starts the next calendar day |
| TimeCalculator.ReplaceFirstSpace | src/lib/timeCalculator.ts:18 | only the first space becomes `T`; every other character, later spaces included, is kept |
| TimeCalculator.LocalToUtc | src/lib/timeCalculator.ts:15-29 | null exactly when the parsed text fails `isValidDate` (IsValidDate: an invalid Date); otherwise the instant the parser produced |
| TimeCalculator.ReplaceFirstSpaceOfDateTime | src/lib/timeCalculator.ts:18 | for a date text without spaces, `"date time"` becomes `"dateTtime"` |
| TimeCalculator.LocalToUtcOfDateTime | src/lib/timeCalculator.ts:15-29 | a `"date time"` text converts to what the parser makes of `"dateTtime"`, or null when that is invalid |
| TimeCalculator.DifferenceInMinutes | src/lib/timeCalculator.ts:39 | whole minutes between the instants, truncated toward zero in both directions |
| TimeCalculator.OvertimeOfEqualInstants | src/lib/timeCalculator.ts:31-43 | equal instants plan 0 hours |
| TimeCalculator.OvertimeOfWholeMinutes | src/lib/timeCalculator.ts:31-43 | `calculateOvertimePlannedHours` (OvertimePlannedHours): k whole minutes apart plan k/60 hours, negative k included (no clipping) |
| TimeCalculator.OvertimeOfNinetyMinutes | src/lib/timeCalculator.ts:31-43 | a 90-minute gap plans 1.5 hours |
| TimeCalculator.OvertimeSwapNegates | src/lib/timeCalculator.ts:31-43 | swapping start and end negates the planned hours |
| TimeCalculator.LunchAdjusted | src/lib/timeCalculator.ts:95-98 | spans up to 300 minutes are kept whole; longer ones lose 60 minutes and still count over 240 |
| TimeCalculator.Overlap | src/lib/timeCalculator.ts:75-89 | a day's clipped span lies between 0 and 540 minutes |
| TimeCalculator.DayCredit | src/lib/timeCalculator.ts:66-100 | a day adds between 0 and 480 minutes, and nothing on Saturday or Sunday |
| TimeCalculator.CreditBetween | src/lib/timeCalculator.ts:65-105 | a run of days adds at most 480 minutes per day and never a negative amount |
| TimeCalculator.LeaveMinutes | src/lib/timeCalculator.ts:62-65 | the leave is never negative, and 0 when the start is not before the end |
| TimeCalculator.CreditSplit | src/lib/timeCalculator.ts:65-105 | a run of days splits into two consecutive runs |
| TimeCalculator.CreditCongruent | src/lib/timeCalculator.ts:65-105 | two requests whose per-day credits agree on a run of days agree on the run |
| TimeCalculator.SingleWeekday | src/lib/timeCalculator.ts:75-100 | a request inside one weekday is worth its overlap with 09:00–18:00, less lunch beyond 300 minutes |
| TimeCalculator.LunchBoundary | src/lib/timeCalculator.ts:96-98 | exactly 300 minutes count 300; 301 minutes count 241 |
| TimeCalculator.ClippedToWorkWindow | src/lib/timeCalculator.ts:75-98 | 07:00–20:00 on a weekday is worth the same 8 hours as 09:00–18:00 |
| TimeCalculator.UntilMidnight | src/lib/timeCalculator.ts:66-104 | from a minute of a day to the next midnight: that day's clipped span less lunch, or nothing on a weekend |
| TimeCalculator.WholeDay | src/lib/timeCalculator.ts:66-104 | a whole weekday is worth 480 minutes, a whole weekend day nothing |
| TimeCalculator.SplitAtMidnight | src/lib/timeCalculator.ts:65-105 | cutting a request at an inner midnight adds the worth of the two parts |
| TimeCalculator.MondayToWednesday | src/lib/timeCalculator.ts:65-107 | Monday 16:00 to Wednesday 10:00 is 120 + 480 + 60 minutes, 11 hours |
| TimeCalculator.WeekendIsFree | src/lib/timeCalculator.ts:67-72 | Saturday 00:00 to Sunday 23:59 is worth nothing |
| TimeCalculator.EarlyEndIsSameDay | src/lib/timeCalculator.ts:87 | an end before today's 18:00 reached inside the loop lies on the cursor's own day |
| TimeCalculator.CalculateLeaveMinutes | src/lib/timeCalculator.ts:57-105 | the day loop terminates and totals exactly the day-by-day leave of the request |
| TimeCalculator.CalculateLeaveHours | src/lib/timeCalculator.ts:51-108 | the hours are the day-by-day leave of the zoned start and end, divided by 60 |
| JsValues.JsRem | src/lib/utils.ts:144 | JS `%`: the remainder of truncating division, with the sign of the dividend |
| JsValues.IntToStringRoundTrip | src/hooks/usePaginationSearchParams.ts:21-46 | `+` (ParseNumber) reads back the integer that `n + ""` (IntToString) wrote |
| Utils.SplitMinutes | src/lib/utils.ts:142-146 | for `minute >= 0`, `h*60 + m == minute` with `0 <= m < 60`; a negative count gives `Math.floor` hours and a non-positive remainder |
| Utils.HourMinuteTextInjective | src/lib/utils.ts:145 | the `"{h}h {m}m"` text determines `h` and `m` |
| Utils.MinuteToHourMinuteOfParts | src/lib/utils.ts:142-146 | `minuteToHourMinute` (MinuteToHourMinute) of h*60 + m, m below 60, is "{h}h {m}m" |
| Utils.MinuteToHourMinuteOfNegative | src/lib/utils.ts:142-146 | a negative count gives a text starting with '-' (floored hours) |
| Utils.MinuteToHourMinuteInjective | src/lib/utils.ts:142-146 | distinct non-negative minute counts give distinct texts |
| Utils.DaysInMonth | src/lib/utils.ts:178 | every month has 28 to 31 days |
| Utils.PreviousDay | src/lib/utils.ts:178 | day 0 of a month is a valid date of the previous month |
| Utils.NextDay | src/lib/utils.ts:213-224 | the day after a valid date is a valid date |
| Utils.NextDayOfPreviousDay | src/lib/utils.ts:213-224 | the day before a date is followed by that date |
| Utils.TwoDigitYearIsTwentiethCentury | src/lib/utils.ts:160-184 | `getFormattedMonthBoundaries(month, 25)` gives the boundaries of that month of 1925: the `Date` constructor reads years 0 to 99 as 1900 + year |
| Utils.MakeDate | src/lib/utils.ts:174-178 | `new Date(y, m, d)`: an out-of-range month index moves the year; day 0 is the day before the month's first day |
| Utils.FormatDateInjective | src/lib/utils.ts:162-170 | `formatDate` (FormatDate) is injective for every year, negative ones included: the zero-padded `yyyy-mm-dd` text determines the date |
| Utils.DateTailUnique | src/lib/utils.ts:165-169 | the zero-padded `-mm-dd` tail determines the month and the day |
| Utils.IntToStringPrefixUnique | src/lib/utils.ts:162-170 | the unpadded year text `${yyyy}` followed by '-' determines the year, its sign included |
| Utils.MonthBoundariesOfMonth | src/lib/utils.ts:160-184 | `getFormattedMonthBoundaries` (FormattedMonthBoundaries): `firstDay` is the month's day 1 and `lastDay` its last day under the Gregorian leap-year rule |
| Utils.FebruaryAndDecember | src/lib/utils.ts:178-182 | February ends on the 28th or the 29th by the leap-year rule; month 12 ends on December 31 of the same year |
| Utils.LastMonthAdjoinsCurrentMonth | src/lib/utils.ts:213-224 | the last month's last day is followed by the current month's first day; the current month's boundaries are those of `getFormattedMonthBoundaries` |
| Utils.JanuaryLooksBackToDecember | src/lib/utils.ts:219-224 | in January the last month is December 1 to 31 of the previous year |
| Utils.LastMonthIsFormattedMonth | src/lib/utils.ts:186-230 | `getCurrentAndLastMonthBoundaries` (CurrentAndLastMonthBoundaries): last month's boundaries are those of `getFormattedMonthBoundaries` for the previous month, December of the previous year in January |
| Utils.DateStringToDateParses | src/lib/utils.ts:148-152 | `dateStringToDate` (DateStringToDate) is null exactly when `"dateT00:00"` is an invalid Date; otherwise that Date's instant |
| SearchParams.FromParams | src/hooks/usePaginationSearchParams.ts:20-38 | `sortDesc` is read when present, and is true exactly for the text "true" |
| SearchParams.InitialValue | src/hooks/usePaginationSearchParams.ts:8-40 | the initial queries unchanged when no recognised key is non-empty; otherwise the record built from the URL alone |
| SearchParams.ToParams | src/hooks/usePaginationSearchParams.ts:42-59 | only the nine keys are written: numbers and texts when truthy, `sortDesc` as "true"/"false" whenever defined |
| SearchParams.ParamsRoundTrip | src/hooks/usePaginationSearchParams.ts:20-58 | a canonical record with some field survives being written and read back, whatever the initial queries |
| SearchParams.CanonicalWritesSomething | src/hooks/usePaginationSearchParams.ts:9-19 | a canonical record with some field writes a key the next mount recognises |
| SearchParams.ReadBackWritten | src/hooks/usePaginationSearchParams.ts:20-56 | reading back the URL a canonical record writes gives the record: a number field through `+text`, a text field as written, each only when its parameter is non-empty |
| SearchParams.EmptyRecordFallsBack | src/hooks/usePaginationSearchParams.ts:9-59 | a record with nothing to write leaves an empty URL, and the next mount uses the initial queries |
| SearchParams.EntryOfFromParams | src/hooks/usePaginationSearchParams.ts:20-56 | each key of a canonical URL is written back with the text it was read from |
| SearchParams.RecordRoundTrip | src/hooks/usePaginationSearchParams.ts:8-59 | a canonical non-empty URL is reproduced exactly |
| SearchParams.LimitIsNotChecked | src/hooks/usePaginationSearchParams.ts:22-24 | `limit` takes any number from the URL, or NaN, never checked against the page sizes |
| SearchParams.PaginationSearchParams.constructor | src/hooks/usePaginationSearchParams.ts:8-59 | the record starts from the initialiser and the URL mirrors it |
| SearchParams.PaginationSearchParams.SetValue | src/hooks/usePaginationSearchParams.ts:42-61 | the record is replaced and the URL rewritten from it |
| PaginationData.Apply | src/hooks/usePaginationData.ts:23-25 | a key absent from the update keeps the old value; a present key, `undefined` included, overwrites it |
| PaginationData.NextQueries | src/hooks/usePaginationData.ts:12-26 | page 1 when a filter, the page size or the sort order changes; otherwise every field is the spread of the update over the record; the spread is Merge and the reset test ResetsPage |
| PaginationData.InitialQueries | src/hooks/usePaginationData.ts:4-10 | page is the initial one or 1 when falsy, limit the initial one or 10 when falsy; the other seven fields are the initial ones, or absent without initial queries |
| PaginationData.DefaultInitialQueries | src/hooks/usePaginationData.ts:5-10 | without initial queries the list starts at page 1 with 10 rows and nothing else |
| PaginationData.SortAlwaysResets | src/hooks/usePaginationData.ts:16-17 | putting `sortBy` or `sortDesc` resets the page even when unchanged |
| PaginationData.LimitChangeResets | src/hooks/usePaginationData.ts:15 | a different page size, or NaN, resets the page and changes nothing else |
| PaginationData.ClearingKeepsPage | src/hooks/usePaginationData.ts:13-25 | clearing filters to `undefined` does not reset the page; absent keys keep their values |
| PaginationData.UpdateIdempotent | src/hooks/usePaginationData.ts:12-26 | applying the same update twice equals applying it once, unless it names a page other than 1 |
| PaginationData.ResetOnlyOnce | src/hooks/usePaginationData.ts:13-21 | re-applying an update resets the page only if the first application did |
| PaginationData.PaginationData.constructor | src/hooks/usePaginationData.ts:4-10 | the record store starts from the URL or the defaulted initial queries |
| PaginationData.PaginationData.UpdateQueryValue | src/hooks/usePaginationData.ts:12-26 | the stored record becomes the merged record and the URL follows |
| RequireAuth.FindPermission | src/router/components/RequireAuth.tsx:18-20 | finds a permission exactly when some code is accepted, and returns the first accepted code |
| RequireAuth.FindRole | src/router/components/RequireAuth.tsx:16-21 | the first role (every earlier one fails) that is ADMIN or holds an accepted permission; none only when no role passes |
| RequireAuth.HasPermissionIff | src/router/components/RequireAuth.tsx:16-21 | `hasPermission` (HasPermission) holds exactly when some role is ADMIN or has some accepted permission (any-of) |
| RequireAuth.RequireAuth | src/router/components/RequireAuth.tsx:5-24 | without a list of accepted codes the children render |
| RequireAuth.AdminAlwaysPasses | src/router/components/RequireAuth.tsx:17 | an ADMIN role passes every list, the empty one included |
| RequireAuth.EmptyListOnlyAdmin | src/router/components/RequireAuth.tsx:16-21 | with an empty list only an ADMIN passes, and nobody without roles |
| RequireAuth.MoreAcceptedCodesKeepAccess | src/router/components/RequireAuth.tsx:16-21 | accepting more codes never removes access |
| RequireAuth.WithAuth | src/router/components/RequireAuth.tsx:49-52 | an unauthenticated user goes to "/login" before any permission check |
| RequireAuth.WithAuthDecision | src/router/components/RequireAuth.tsx:49-68 | renders exactly when authenticated with some granting role; "/unauthorized" exactly when authenticated with none |
| RequireAuth.OnePermissionSuffices | src/router/components/RequireAuth.tsx:30-68 | one of two required permissions is enough, although the comment says "all" |
| RequireAuth.WithAuthMatchesRequireAuth | src/router/components/RequireAuth.tsx:55-68 | for a signed-in user `withAuth` and `RequireAuth` agree |
| RootLayout.Decide | src/router/layout/RootLayout.tsx:5-18 | the layout only ever redirects to "/auth/login" or "/" |
| RootLayout.DecisionTable | src/router/layout/RootLayout.tsx:9-17 | each screen together with exactly the states that show it: loading, login redirect, home redirect, outlet |
| RootLayout.RedirectSettles | src/router/layout/RootLayout.tsx:11-17 | following a redirect lands on a page that renders |
| RootLayout.PrefixIsNotASegment | src/router/layout/RootLayout.tsx:11-15 | "/authors" counts as an auth page, because the test is a character prefix |
| RootLayout.LoginRedirectUnreachable | src/router/index.ts:19-80 | under the layout a page outside "/auth" renders only for a signed-in user, so `withAuth`'s redirect to "/login" is never taken |
| LeaveForm.LeaveIssues | src/feature/leave/components/EditLeaveDrawer.tsx:102-122 | no issue unless type, start and end are set; "Hours must be greater than 0" exactly for hours <= 0; "Insufficient balance" exactly for comp leave over the balance; no other message, and the hours message first |
| LeaveForm.LeaveValidIff | src/feature/leave/components/EditLeaveDrawer.tsx:102-122 | a form passes exactly when it is incomplete, or asks for more than 0 hours and, as compensatory leave, no more than the balance |
| LeaveForm.ExactBalancePasses | src/feature/leave/components/EditLeaveDrawer.tsx:114 | comp leave of exactly the balance is accepted |
| LeaveForm.NoBalanceNoCompLeave | src/feature/leave/components/EditLeaveDrawer.tsx:105-120 | with no balance left, a complete comp-leave request is always refused |
| LeaveForm.GetLeaveHours | src/feature/leave/components/EditLeaveDrawer.tsx:196-209 | hours are never negative, and 0 with a missing instant or a zoned start not before the end |
| LeaveForm.WeekendRequestRefused | src/feature/leave/components/EditLeaveDrawer.tsx:196-209 | a request covering only a weekend gets 0 hours and is refused |
| LeaveForm.FindCompType | src/feature/leave/components/EditLeaveDrawer.tsx:215 | the index of the first type with code "COMP", if any |
| LeaveForm.CheckIsCompLeaveIff | src/feature/leave/components/EditLeaveDrawer.tsx:211-220 | `checkIsCompLeave` (CheckIsCompLeave) is true exactly when the chosen id is that of the first "COMP" type; false with no type chosen or no types loaded |
| LeaveForm.BalanceMinute | src/feature/leave/components/EditLeaveDrawer.tsx:222-233 | the fetched balance, or 0 when it is null or the request fails |
| LeaveForm.HandleSubmit | src/feature/leave/components/EditLeaveDrawer.tsx:139-161 | nothing without an employee, or in update mode without data; otherwise create or update with the payload built from the values |
| LeaveForm.LeaveForm.constructor | src/feature/leave/components/EditLeaveDrawer.tsx:126-137 | the form opens with the edited leave or the defaults, not comp leave and with no balance |
| LeaveForm.LeaveForm.RecomputeHours | src/feature/leave/components/EditLeaveDrawer.tsx:196-209 | only `hours` changes, to the leave hours of the instants (0 when one is missing) |
| LeaveForm.LeaveForm.RecomputeIsCompLeave | src/feature/leave/components/EditLeaveDrawer.tsx:211-220 | only `isCompLeave` changes |
| LeaveForm.LeaveForm.ApplyBalance | src/feature/leave/components/EditLeaveDrawer.tsx:222-233 | the balance is set only while open with an employee |
| OvertimeForm.LocalInstant | src/feature/overtime/components/EditOvertimeDrawer.tsx:182-197 | for a date text without spaces, null exactly when the parser finds `"dateTtime"` invalid, else the instant it returns |
| OvertimeForm.GetPlannedHours | src/feature/overtime/components/EditOvertimeDrawer.tsx:182-202 | 0 when the date, start or end is missing, or when a conversion fails |
| OvertimeForm.PlannedHoursOfWallClock | src/feature/overtime/components/EditOvertimeDrawer.tsx:183-197 | on one day the planned hours are the wall-clock difference; an end before the start is negative |
| OvertimeForm.DefaultIsOneHour | src/feature/overtime/components/EditOvertimeDrawer.tsx:40-47 | the default 17:00–18:00 plans exactly 1 hour once a date is chosen |
| OvertimeForm.OvertimeIssues | src/feature/overtime/components/EditOvertimeDrawer.tsx:98-109 | "Planned hours must be greater than 0" exactly when a date is set and the hours are <= 0 |
| OvertimeForm.CrossingMidnightRefused | src/feature/overtime/components/EditOvertimeDrawer.tsx:186-197 | 22:00 to 01:00 plans -21 hours and is refused |
| OvertimeForm.HandleSubmit | src/feature/overtime/components/EditOvertimeDrawer.tsx:123-150 | nothing without an employee, in update mode without data, or when a conversion fails; otherwise the date-only work date and the two instants |
| OvertimeForm.SubmittedHoursMatchInstants | src/feature/overtime/components/EditOvertimeDrawer.tsx:128-143 | up-to-date planned hours equal the hours between the submitted instants |
| OvertimeForm.OvertimeData | src/feature/overtime/components/EditOvertimeDrawer.tsx:56-70 | the work date is read back by `dateStringToDate`; `convertToCompTime` defaults to false |
| OvertimeForm.OvertimeForm.constructor | src/feature/overtime/components/EditOvertimeDrawer.tsx:113-121 | the form opens with the edited request or the defaults |
| OvertimeForm.OvertimeForm.RecomputePlannedHours | src/feature/overtime/components/EditOvertimeDrawer.tsx:182-202 | only `plannedHours` changes, to the derived hours |
| ReviewOvertime.ReviewIssues | src/feature/overtime/components/ReviewOvertimeDialog.tsx:60-81 | a rejection has no issues; an approval fails with hours <= 0, or with hours over a defined plan |
| ReviewOvertime.ApprovalValidIff | src/feature/overtime/components/ReviewOvertimeDialog.tsx:61-80 | an approval passes exactly when 0 < hours <= the plan (when defined); equality is allowed |
| ReviewOvertime.InitialReview | src/feature/overtime/components/ReviewOvertimeDialog.tsx:38-44 | the dialog opens on approving all planned hours |
| ReviewOvertime.InitialApprovalValidIff | src/feature/overtime/components/ReviewOvertimeDialog.tsx:26-44 | the initial approval is valid exactly when the planned hours are positive |
| ReviewOvertime.HandleSubmit | src/feature/overtime/components/ReviewOvertimeDialog.tsx:93-103 | nothing without the owner or a signed-in reviewer; `approve` iff approve, and hours only on approve |
| ReviewOvertime.SubmittedApprovalWithinPlan | src/feature/overtime/components/ReviewOvertimeDialog.tsx:60-103 | a validated approval grants more than 0 and at most the planned hours; a rejection grants none |
| DatePicker.Hours | src/components/form/CustomDatePicker.tsx:48 | `getHours()` lies in 0..23 |
| DatePicker.Minutes | src/components/form/CustomDatePicker.tsx:51 | `getMinutes()` lies in 0..59 |
| DatePicker.Decompose | src/components/form/CustomDatePicker.tsx:45-56 | a time is its day, hours and minutes |
| DatePicker.ApplyTime | src/components/form/CustomDatePicker.tsx:44-57 | hour button h gives `h % 12` plus 12 in the afternoon; a minute button sets only the minutes; AM/PM shifts by 12 hours unconditionally |
| DatePicker.AmPmRollOver | src/components/form/CustomDatePicker.tsx:52-56 | AM/PM flips the half; pressed again in the same half it rolls the date to the next or previous day |
| DatePicker.OneHourButtonHighlighted | src/components/form/CustomDatePicker.tsx:113 | exactly one hour button is highlighted, and exactly one of AM and PM |
| DatePicker.PressedButtonHighlighted | src/components/form/CustomDatePicker.tsx:113-157 | the pressed hour or minute button becomes the highlighted one, and the half of the day is kept |
| DatePicker.DatePicker.constructor | src/components/form/CustomDatePicker.tsx:29 | the picker starts from the given value, with nothing reported |
| DatePicker.DatePicker.HandleDateSelect | src/components/form/CustomDatePicker.tsx:33-38 | a selected date is stored and reported; deselecting keeps the previous date |
| DatePicker.DatePicker.HandleTimeChange | src/components/form/CustomDatePicker.tsx:40-61 | no date, no effect; otherwise the new time is stored and reported as the same value |
| DatePicker.DatePicker.Clear | src/components/form/CustomDatePicker.tsx:86-92 | the clear icon, shown only while a date is set, empties the date and reports `undefined` |
| EmployeeFilter.FindEmployee | src/feature/leave/components/LeaveSearch.tsx:77 | the index of an employee with the id, or none when no employee has it |
| EmployeeFilter.ExtractEmployeeById | src/feature/leave/components/LeaveSearch.tsx:75-81 | anything other than "all" is the selected id itself |
| EmployeeFilter.ExtractEmployeeByIdIff | src/feature/attendance/components/AttendanceSearch.tsx:64-70 | "all" exactly for a missing or empty id, or one not among the loaded employees |
| EmployeeFilter.OnComboboxChange | src/feature/leave/components/LeaveSearch.tsx:125-127 | clearing or picking "all" selects no employee; any other pick is kept |
| EmployeeFilter.ShownOptionSelectsItself | src/feature/attendance/components/AttendanceSearch.tsx:94-97 | picking the shown option selects the id it was shown for, or none for "all" |
| LeaveSearch.InitialSelection | src/feature/leave/components/LeaveSearch.tsx:41-53 | status "all" when the query has none; a date only for a non-empty text |
| LeaveSearch.SubmitUpdate | src/feature/leave/components/LeaveSearch.tsx:55-73 | page 1, "all" sent as undefined, `employeeId` present only with the employee filter, dates as ISO texts; no update when a date is invalid |
| LeaveSearch.SubmitEffect | src/feature/leave/components/LeaveSearch.tsx:55-73 | after a submit: page 1, the chosen status, the employee filter kept unless shown, other fields untouched |
| LeaveSearch.UntouchedStatusSurvives | src/feature/leave/components/LeaveSearch.tsx:45-67 | resubmitting the initial status keeps the status filter |
| LeaveSearch.LeaveSearchBar.constructor | src/feature/leave/components/LeaveSearch.tsx:41-53 | the bar starts from the current queries |
| LeaveSearch.LeaveSearchBar.SetStatus | src/feature/leave/components/LeaveSearch.tsx:96 | only the status changes |
| LeaveSearch.LeaveSearchBar.OnEmployeeChange | src/feature/leave/components/LeaveSearch.tsx:125-127 | only the employee changes; clearing or "all" selects none |
| LeaveSearch.LeaveSearchBar.SetRange | src/feature/leave/components/LeaveSearch.tsx:137-147 | only the dates change |
| LeaveSearch.LeaveSearchBar.HandleSearchSubmit | src/feature/leave/components/LeaveSearch.tsx:55-73 | the page's queries become the merged update, on page 1; nothing changes when a date is invalid |
| AttendanceSearch.DateOf | src/feature/attendance/components/AttendanceSearch.tsx:36-44 | none for an absent or empty text; for a text without spaces, none exactly when the parser finds `"textT00:00"` invalid, else the instant the parser returns for it |
| AttendanceSearch.InitialSelection | src/feature/attendance/components/AttendanceSearch.tsx:32-44 | the queries' employee; each date none when its text is empty, else what the parser makes of local midnight of that text (none when invalid) |
| AttendanceSearch.SubmitUpdate | src/feature/attendance/components/AttendanceSearch.tsx:46-62 | page 1, no `status` key, `employeeId` only with the employee filter, dates as date-only texts |
| AttendanceSearch.SubmitEffect | src/feature/attendance/components/AttendanceSearch.tsx:46-62 | after a submit: page 1, status and other fields kept, the employee filter kept unless shown |
| AttendanceSearch.UntouchedFromDate | src/feature/attendance/components/AttendanceSearch.tsx:36-58 | a start date that reads back to its own text survives a resubmit; an unreadable one is dropped |
| AttendanceSearch.AttendanceSearchBar.constructor | src/feature/attendance/components/AttendanceSearch.tsx:32-44 | the bar starts from the current queries |
| AttendanceSearch.AttendanceSearchBar.OnEmployeeChange | src/feature/attendance/components/AttendanceSearch.tsx:95-97 | only the employee changes |
| AttendanceSearch.AttendanceSearchBar.SetRange | src/feature/attendance/components/AttendanceSearch.tsx:107-117 | only the dates change |
| AttendanceSearch.AttendanceSearchBar.HandleSearchSubmit | src/feature/attendance/components/AttendanceSearch.tsx:46-62 | the page's queries become the merged update, on page 1 with the status kept |

## Left out

- Time zones, DST and the `Date` parser are parameters (`zoned`, `parse`, `toIso`, `dateOnly`). The model assumes nothing about them beyond what the code checks. Day-light saving changes inside a request are not modelled.
- Time is modelled at minute resolution. Seconds are not reset at src/lib/timeCalculator.ts:104, and that sub-minute effect is not modelled.
- The `Intl`/date-fns/date-fns-tz internals are not modelled: `toDateOnlyString`, `toTimeOnlyString`, `toDateTimeString`, `formatDateTime` and `isWeekend`.
- `formatHourDuration` is left out: its result depends on floating-point rounding.
- Network calls, the auth provider, token refresh and react-query caching are left out. So are toasts, `onSuccess` and `setOpen`.
- The form resets run when a drawer or dialog opens or closes: EditLeaveDrawer.tsx:180-187, EditOvertimeDrawer.tsx:168-175 and ReviewOvertimeDialog.tsx:120-126 under src/feature. They are left out. The constructors and `ReviewOvertime.InitialReview` model the values these resets load, not the resets themselves.
- zod and react-hook-form are left out. The model keeps only the refine predicates; the schema's own required-field checks are taken as preconditions of `HandleSubmit`.
- `Number(...)` of decimal hour texts is left out; hours are given as real numbers.
- JsValues.ParseNumber: reads integer numerals with an optional '-' only. `+s` also accepts a leading '+', decimal and exponent forms, 0x/0o/0b literals, "Infinity" and "-Infinity", and surrounding whitespace; the model gives NaN for all of these. `+""` is 0 but gives NaN here; the hook never reads an empty parameter. The model's integers are unbounded, whereas `+s` gives a double: it loses precision above 2^53 and becomes Infinity beyond about 309 digits.
- SearchParams.ToParams: writes integer numbers only. Fractional page numbers are not modelled.
- Utils.MakeDate: covers days 0 to 28 only, the days `new Date(y, m, d)` is called with here.
- The "not a Date object" branch of `isValidDate` is left out: every value reaching it is a `Date`.
- ISO texts produced by `toISOString` are represented by the instants they denote.
- `new Date()` in `getCurrentAndLastMonthBoundaries` is a parameter: the current year and month index.
- URL parameters beyond the nine keys, their order and repeated keys are left out.
- Employee labels (JSX) and the select's list of status values are left out; any status text is allowed.
- The leave and attendance list pages that use these hooks are left out, and so is the route table beyond where it places the `withAuth` pages: they are rendering and configuration.
