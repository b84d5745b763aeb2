# HR attendance app — a verified model of its core

This project models the logic of a small HR application in Dafny. The
application keeps employees and their daily attendance marks. The model has
three parts:

- **The record store** (`Crud.RecordStore`). It has two tables, `employees`
  and `attendance`. They are sequence fields of a class, and the operations
  that change them in place are methods with `modifies` clauses:
  `create_employee`, `delete_employee` (which cascades to attendance) and
  `create_attendance`. The queries are functions: one employee, a page of
  employees, attendance by employee and attendance by date. A raised
  `ValueError` becomes an `Err` result that leaves both tables as they were.
  Every method keeps the store invariant (`Crud.StoreInvariant`):
  - employee ids are unique;
  - emails are unique;
  - every attendance row names an existing employee;
  - there is at most one row per (employee, date);
  - every stored id passed the id validator.
- **The list views.**
  - The attendance table (`AttendanceList`): its statistics, its search,
    status and date-range filters, its comparator and its header-click sort
    state.
  - The employee table (`EmployeeList`): its department choices, its filter,
    its comparator and its header clicks.
  - The dashboard's counts and its recent-employees slice (`Dashboard`).
  - `Array.prototype.sort` is modelled as the stable sort ECMAScript
    requires (`Sorting.SortBy`).
- **The two forms** (`EmployeeForm`, `AttendanceForm`): the validators, the
  change handlers that clear a field's error, and the submit handlers with
  their gating and reset.
  - React component state is an explicit record passed in and returned.
  - The errors object is a record with one optional message per field.
    `None` means the field has no key; the change handler stores
    `Some("")`.
  - The current date ("today") is a parameter.
  - Whether the parent's callback succeeded is a boolean parameter.
  - The records fetched for the form's date are part of the state.

Dates are (year, month, day) triples in the proleptic Gregorian calendar.
They use the `YYYY-MM-DD` extended format of ISO 8601:2004 section 4.1.2.2
(`Dates.FormatIso`, `Dates.ParseIso`) and a day number for ordering. Strings
are `seq<char>`. Lower-casing and white space follow ASCII and JavaScript's
`\s` set.

## Model

| member | source | states |
|---|---|---|
| Models.StatusValues | backend/app/models.py:6-8 | The status enum has exactly the values "Present" and "Absent". Lookup by value inverts the member-to-value map, both ways. |
| Models.TablesAllowSameDayTwice | backend/app/models.py:21-29 | Two attendance rows for the same employee and date satisfy every constraint the table declarations state. |
| Schemas.IdPrefixLength | backend/app/schemas.py:14 | The greedy `+` of the id pattern: the longest prefix of id characters. The character after it, if any, is not an id character. |
| Schemas.PythonIdMatchMeaning | backend/app/schemas.py:14 | Running the pattern under `re.match` accepts exactly the non-empty id-character strings, plus those followed by one final newline (Python's `$`). |
| Schemas.ValidateEmployeeId | backend/app/schemas.py:12-16 | On success the validator returns the id unchanged. |
| Schemas.ValidateAcceptsIdStrings | backend/app/schemas.py:12-16 | Every non-empty string of letters, digits, `_` and `-` is accepted unchanged. |
| Schemas.ValidateRejects | backend/app/schemas.py:14-15 | The empty string is rejected. So is any string with another character, unless that character is a newline ending the string. |
| Schemas.ValidateAcceptsFinalNewline | backend/app/schemas.py:14 | `"EMP001\n"` is accepted as it is. |
| Schemas.ToResponse | backend/app/schemas.py:27-39 | A stored row as the API returns it. Its status string looks up to the row's enum member, and its id and date are the row's. |
| Schemas.ToResponses | backend/app/schemas.py:35-39 | A table as returned: the same length, row by row. |
| Dates.ParseFormat | frontend/src/components/AttendanceForm.js:17 | Formatting a valid date as `yyyy-MM-dd` and parsing it back gives the date. |
| Dates.FormatParse | frontend/src/components/AttendanceList.js:54 | A string that parses is exactly the formatted form of its date. |
| Dates.SameWeekIsSevenDays | frontend/src/components/AttendanceList.js:60-61 | Sharing today's Sunday-started week means lying in the seven days from that Sunday. |
| Dates.DayNumberOrder | frontend/src/components/AttendanceList.js:76-78 | For valid dates, day-number order is calendar order, so the comparator's date difference orders by calendar. |
| Text.TrimEmptyIffAllSpace | frontend/src/components/EmployeeForm.js:32 | `trim()` gives the empty string exactly for strings made only of white space. |
| Sorting.SortBy | frontend/src/components/AttendanceList.js:74 | The sort's result is a permutation of its input. |
| Sorting.SortBySorted | frontend/src/components/AttendanceList.js:74-90 | Under a comparator that orders consistently, every element may precede every later one. |
| Sorting.SortByStable | frontend/src/components/AttendanceList.js:74 | Elements the comparator cannot tell apart keep their input order. |
| Crud.FindEmployee | backend/app/crud.py:11-12 | The lookup by id returns a row of the table with that id, and returns none exactly when no row has it. |
| Crud.FindByEmail | backend/app/crud.py:24 | The lookup by email returns a row with that email, or none when no row has it. |
| Crud.Page | backend/app/crud.py:14-15 | Offset and limit: at most `limit` rows, exactly `min(limit, n - skip)` of them, each the row `skip` places further on. |
| Crud.FindMarked | backend/app/crud.py:59-62 | The duplicate check returns a row with that employee and date, or none when no row has both. |
| Crud.AttendanceOfSpec | backend/app/crud.py:46-47 | The by-employee query holds exactly that employee's rows, as a subsequence in table order. |
| Crud.AttendanceOnSpec | backend/app/crud.py:49-50 | The by-date query holds exactly the rows of that date, as a subsequence in table order. |
| Crud.AttendancePartition | backend/app/crud.py:40 | One employee's rows and everyone else's rows add up to the whole table. |
| Crud.RecordStore.constructor | backend/app/models.py:10-29 | The empty store keeps the invariant. |
| Crud.RecordStore.GetEmployee | backend/app/crud.py:11-12 | Returns the employee with that id, or none exactly when no employee has it. |
| Crud.RecordStore.GetEmployees | backend/app/crud.py:14-15 | Exactly `min(limit, n - skip)` employees (none when `skip ≥ n`), those after the first `skip`, in table order. |
| Crud.RecordStore.GetAttendanceByEmployee | backend/app/crud.py:46-47 | Exactly the rows with that employee id. |
| Crud.RecordStore.GetAttendanceByDate | backend/app/crud.py:49-50 | Exactly the rows of that date. |
| Crud.RecordStore.CreateEmployee | backend/app/crud.py:17-32 | A taken id fails with "already exists". A taken email fails next, so a request duplicating both reports the id. Both failures leave the tables unchanged. Otherwise exactly one row is appended, `get_employee` then finds it, and attendance is untouched. The invariant is kept. |
| Crud.RecordStore.DeleteEmployee | backend/app/crud.py:34-43 | An unknown id fails with "not found" and changes nothing. Otherwise the employee and all of their attendance rows are removed, and nothing else is: one employee fewer. The invariant is kept. |
| Crud.RecordStore.CreateAttendance | backend/app/crud.py:52-71 | An unknown employee fails with "not found". An existing (employee, date) row fails with "already marked". A status outside the enum is assumed refused when the row is written. Success happens exactly when all three checks pass, and appends exactly one row. Employees are never changed, and the invariant is kept. |
| Crud.UniqueFind | backend/app/crud.py:11-12 | With unique ids, the lookup of a stored employee's id returns that employee. |
| Crud.AttendanceOfNone | backend/app/crud.py:40 | An employee with no rows in the table has an empty by-employee query. |
| Crud.UniqueRemoveOne | backend/app/crud.py:41 | With unique ids, deleting an existing id removes exactly one employee. |
| Crud.UniqueCountOne | backend/app/models.py:14 | With unique ids, at most one row has a given id, and exactly one when it exists. |
| Crud.RemovalKeepsInvariant | backend/app/crud.py:39-42 | Removing an employee together with their attendance rows keeps the store invariant. |
| Crud.FilterKeepsUniqueIds | backend/app/models.py:14 | Removing rows keeps employee ids unique. |
| Crud.FilterKeepsUniqueEmails | backend/app/models.py:16 | Removing rows keeps emails unique. |
| Crud.FilterKeepsOnePerDay | backend/app/crud.py:58-65 | Removing rows keeps at most one row per (employee, date). |
| AttendanceList.RoundedPercent | frontend/src/components/AttendanceList.js:38 | 0 for no records. Otherwise the integer nearest to 100·part/total, with a half rounded up. It is at most 100 when part ≤ total. |
| AttendanceList.HalfUpBounds | frontend/src/components/AttendanceList.js:38 | Integer division brackets the dividend, which bounds the rounded rate by 100. |
| AttendanceList.ComputeStatistics | frontend/src/components/AttendanceList.js:35-38 | Total is the list length, present and absent are the counts of "Present" and "Absent" records, and the rate is the rounded percentage of present over total. Present + absent ≤ total, and the rate lies in 0..100 and is 0 for no records. |
| AttendanceList.StatisticsAddUp | frontend/src/components/AttendanceList.js:35-37 | When every status is "Present" or "Absent", present + absent = total. |
| AttendanceList.StoreRowsAddUp | frontend/src/components/AttendanceList.js:35-37 | Records served by the store have an enum status (under the assumption on the status column), so their counts add up to the total. |
| AttendanceList.ParseDateRange | frontend/src/components/AttendanceList.js:55-69 | A range value other than the five named ones behaves as "all" (the `default` branch), and only those do. |
| AttendanceList.PreviousMonth | frontend/src/components/AttendanceList.js:64-67 | The calendar month before today's, with January wrapping to December of the year before. |
| AttendanceList.LastMonthOverflows | frontend/src/components/AttendanceList.js:64-67 | On 2024-03-31 the view's "last month" date is 2024-03-02. It keeps a record of 2024-03-15 and drops one of 2024-02-10; the calendar's last month does the reverse. |
| AttendanceList.LastMonthAgreesWhenDayFits | frontend/src/components/AttendanceList.js:64-67 | When today's day exists in the month before, the view's "last month" is the calendar's. |
| AttendanceList.LastMonthAsWrittenIsThisMonth | frontend/src/components/AttendanceList.js:64-67 | When it does not, the view's "last month" is today's month, disjoint from the calendar's last month. |
| AttendanceList.FilterAttendanceSpec | frontend/src/components/AttendanceList.js:41-71 | The filtered rows are an order-preserving subsequence of the input and hold exactly the records that pass all three filters, "lastMonth" read as written (the month of `setMonth(getMonth() - 1)`). Each kept record's id contains the search text ignoring case, and its status is the chosen one when one is chosen. |
| AttendanceList.LastMonthFilterAsWritten | frontend/src/components/AttendanceList.js:64-67 | On 2024-03-31 with "lastMonth", the view keeps a record of 2024-03-15 and drops one of 2024-02-10, and the intended filter does the reverse. |
| AttendanceList.FilterAttendanceIntendedSpec | frontend/src/components/AttendanceList.js:41-71 | The intended filter keeps, in order, exactly the records passing search and status that, for "lastMonth", lie in the calendar month before today's. It equals the view's filter on every other range, and on "lastMonth" when today's day exists in the month before. |
| AttendanceList.NoFilterKeepsAll | frontend/src/components/AttendanceList.js:44-69 | With no search text, no status and range "all" (or any unknown value), every record is kept. |
| AttendanceList.DateRangesConsistent | frontend/src/components/AttendanceList.js:56-61 | A record of yesterday is never in today's range. "This week" is the seven days from today's Sunday. |
| AttendanceList.CompareReverses | frontend/src/components/AttendanceList.js:74-90 | For both keys, descending is the exact reverse of ascending. Equal statuses compare 0. |
| AttendanceList.ComparatorIsPreorder | frontend/src/components/AttendanceList.js:74-90 | Under every sort configuration the comparator orders consistently (total and transitive). |
| AttendanceList.DateSortSpec | frontend/src/components/AttendanceList.js:75-78 | The date sort is a permutation in ascending (or descending) calendar order. Records of one date keep their filtered order. |
| AttendanceList.StatusSortSpec | frontend/src/components/AttendanceList.js:79-87 | The status sort is a permutation ordered by status string in the chosen direction. Records of one status keep their order. |
| AttendanceList.StatusPrecedes | frontend/src/components/AttendanceList.js:82-87 | A record the status comparator lets go first has the smaller status (the larger when descending). |
| AttendanceList.UnknownKeyKeepsOrder | frontend/src/components/AttendanceList.js:89 | Any other key compares 0, so the rows stay in filtered order. |
| AttendanceList.HandleSortCycles | frontend/src/components/AttendanceList.js:92-97 | A click selects its key. A new key sorts ascending, and repeated clicks alternate the direction. |
| AttendanceList.AttendanceViewSpec | frontend/src/components/AttendanceList.js:22-90 | The shown rows are a permutation of the records the as-written filter keeps, at most all of them ("Showing n of m"). The statistics do not depend on filters, sort or date. |
| EmployeeList.DepartmentsOf | frontend/src/components/EmployeeList.js:20 | The department of each employee, position by position. |
| EmployeeList.DepartmentsSpec | frontend/src/components/EmployeeList.js:20 | The choices are exactly the departments that occur, each once, in strictly increasing string order. |
| EmployeeList.EmptySearchKeepsAll | frontend/src/components/EmployeeList.js:23-33 | An empty search with no department keeps every employee. |
| EmployeeList.CompareOnTies | frontend/src/components/EmployeeList.js:44-48 | The comparator never returns 0. It is antisymmetric on different keys, but on equal keys it returns -1 both ways. |
| EmployeeList.ComparatorIsPreorder | frontend/src/components/EmployeeList.js:34-49 | Read as "may come first", the comparator is total and transitive. |
| EmployeeList.PrecedesOrdersKeys | frontend/src/components/EmployeeList.js:39-48 | A row the comparator lets go first has the lower-cased key that is not greater (not smaller when descending). |
| EmployeeList.ShownEmployeesSpec | frontend/src/components/EmployeeList.js:23-49 | The shown rows are a permutation of the filtered employees, hence at most all employees, and hold exactly the matching ones. They are ordered by lower-cased key, non-decreasing for asc and non-increasing for desc. |
| EmployeeList.HandleSortToggles | frontend/src/components/EmployeeList.js:51-58 | A click selects its field. A different field sorts ascending. The same field flips the direction, and a second click restores it. |
| EmployeeList.ChosenDepartmentIsShown | frontend/src/components/EmployeeList.js:20-33 | Choosing an offered department with no search text shows at least one employee of it. |
| EmployeeForm.Set | frontend/src/components/EmployeeForm.js:57-60 | Only the named field takes the new value. |
| EmployeeForm.SetError | frontend/src/components/EmployeeForm.js:64-67 | Only the named field's error changes. |
| EmployeeForm.EmailPatternSound | frontend/src/components/EmployeeForm.js:44 | A matched email has no white space, one `@` (not first) and a later `.` with text on both sides. |
| EmployeeForm.EmailPatternComplete | frontend/src/components/EmployeeForm.js:44 | Every string of that shape matches. |
| EmployeeForm.EmailPatternMeaning | frontend/src/components/EmployeeForm.js:44 | The email pattern accepts exactly the strings of that shape. |
| EmployeeForm.EmailPatternAccepts | frontend/src/components/EmployeeForm.js:44 | `ann@example.com` matches. |
| EmployeeForm.EmailPatternNeedsDot | frontend/src/components/EmployeeForm.js:44 | An address without a `.` after the `@` is rejected. |
| EmployeeForm.EmailPatternNeedsOneAtSign | frontend/src/components/EmployeeForm.js:44 | An address with two `@` is rejected. |
| EmployeeForm.EmailPatternRejectsSpace | frontend/src/components/EmployeeForm.js:44 | An address with white space anywhere is rejected. |
| EmployeeForm.PatternsAreNotBlank | frontend/src/components/EmployeeForm.js:32-46 | A string matching either pattern is never blank after trim. |
| EmployeeForm.ValidateFormSpec | frontend/src/components/EmployeeForm.js:29-53 | Each field has an error exactly when its check fails. No errors exactly when all four fields are non-blank, the id matches its pattern and the email matches its pattern. |
| EmployeeForm.ValidateFormMessagesShow | frontend/src/components/EmployeeForm.js:29-53 | Every recorded message is non-empty, so every failing field shows its error. |
| EmployeeForm.IdErrorSpec | frontend/src/components/EmployeeForm.js:32-36 | The id has an error exactly when it does not match the id pattern, and the message is non-empty. |
| EmployeeForm.EmailErrorSpec | frontend/src/components/EmployeeForm.js:42-46 | The email has an error exactly when it does not match the email pattern, and the message is non-empty. |
| EmployeeForm.RequiredErrorSpec | frontend/src/components/EmployeeForm.js:38-40 | A required field has its message exactly when it is all white space. |
| EmployeeForm.RequiredBeforeFormat | frontend/src/components/EmployeeForm.js:32-46 | A blank id or email gets the "required" message, not the format message. |
| EmployeeForm.PaddedIdIsMalformed | frontend/src/components/EmployeeForm.js:32-35 | An id with white space in it that is not blank passes the required check and fails the character check. |
| EmployeeForm.DepartmentChoicesAreValid | frontend/src/components/EmployeeForm.js:16-27 | Every department the select offers passes the department check. |
| EmployeeForm.IdCheckStricterThanServer | frontend/src/components/EmployeeForm.js:34 | An id the form accepts is accepted unchanged by the server. `"EMP001\n"` is accepted by the server and rejected by the form. |
| EmployeeForm.HandleChangeSpec | frontend/src/components/EmployeeForm.js:55-69 | Typing sets only the typed field and hides only that field's error. Other errors and the submitting flag are untouched. |
| EmployeeForm.HandleSubmitSpec | frontend/src/components/EmployeeForm.js:71-99 | The parent is called exactly when the form is valid, with the form's data. A rejected form keeps its data and shows the validation errors. A failed call keeps data and errors. A successful call clears the errors, and clears the fields only without initial data. |
| EmployeeForm.BlankFormRejected | frontend/src/components/EmployeeForm.js:6-13 | The initial blank form gets all four "required" messages. |
| AttendanceForm.FreshForm | frontend/src/components/AttendanceForm.js:15-19 | A fresh form has no employee, status "Present" and a date string that parses to today. |
| AttendanceForm.Set | frontend/src/components/AttendanceForm.js:71-74 | Only the named field takes the new value. |
| AttendanceForm.SetError | frontend/src/components/AttendanceForm.js:77-82 | Only the named field's error changes. |
| AttendanceForm.AvailableEmployeesSpec | frontend/src/components/AttendanceForm.js:42-47 | The offered employees are exactly those without a record on the chosen date, in list order, so no more than the list holds (the "Remaining" count). |
| AttendanceForm.NothingMarkedOffersAll | frontend/src/components/AttendanceForm.js:42-47 | With no record on the date, every employee is offered. |
| AttendanceForm.ValidateFormSpec | frontend/src/components/AttendanceForm.js:51-67 | Each field has an error exactly when it is empty. Changing one field leaves the others' errors as they were. No errors exactly when all three are filled. |
| AttendanceForm.HandleChangeSpec | frontend/src/components/AttendanceForm.js:69-83 | Typing sets only the typed field and hides only that field's error. Everything else is untouched. |
| AttendanceForm.SubmitSpec | frontend/src/components/AttendanceForm.js:85-122 | The parent is called exactly when the data is complete and the employee is not already marked on the date, and it gets that data. A refused submission keeps the fields. Success resets to no employee, today's date and "Present", with no errors. A failed call keeps data and errors. |
| AttendanceForm.QuickMarkDropsStatus | frontend/src/components/AttendanceForm.js:124-139 | As written, with "Present" in the form, the "Absent" button submits "Present". |
| AttendanceForm.HandleQuickMarkSpec | frontend/src/components/AttendanceForm.js:124-139 | Without a selected employee nothing happens. Otherwise the form is submitted with the button's status, under the submit button's checks, and is submitted whenever those pass. |
| AttendanceForm.PreCheckMatchesStore | frontend/src/components/AttendanceForm.js:94-102 | On the store's records of the chosen date, the form's pre-check refuses an employee exactly when the server's duplicate check would (backend/app/crud.py:58-65). |
| AttendanceForm.PreviewCountsBound | frontend/src/components/AttendanceForm.js:303-309 | The Present and Absent preview counts add up to at most the records of the date. |
| Dashboard.ComputeDashboardSpec | frontend/src/pages/Dashboard.js:33-43 | Present is the count of today's "Present" records, the total is the employee count, and present + absent = total. Present ≤ today's records. The recent list is the first min(5, n) employees, in order. |
| Dashboard.NoRecordsAllAbsent | frontend/src/pages/Dashboard.js:37-41 | With no record today, every employee counts as absent. |
| Dashboard.IdSet | backend/app/models.py:14 | The set of ids of a list holds exactly its employees' ids and is no larger than the list. |
| Dashboard.DistinctWithin | backend/app/crud.py:58-65 | Distinct ids drawn from a set are no more than the set holds. |
| Dashboard.RowsOfDayBound | backend/app/crud.py:49-65 | In a store that keeps its invariant, one date's rows are no more than the employees. |
| Dashboard.DashboardUndercounts | frontend/src/pages/Dashboard.js:25-41 | As written, with more than 100 employees all marked present, the total is 100 and the absent count is negative. |
| Dashboard.StoreDashboardSound | frontend/src/pages/Dashboard.js:33-41 | Over every employee of a consistent store, the total is the employee count and the absent count lies in 0..total. |
| Dashboard.DashboardAgreesUpToLimit | backend/app/main.py:44-46 | Up to 100 employees, the page's dashboard equals the dashboard over every employee. |

## Left out

- HTTP plumbing is not modelled: the FastAPI routes, CORS, the mapping of `ValueError` to 400/404 responses, the axios client and the router. Each store method's `Result` is what a route would map.
- Pydantic's `EmailStr` check on employee emails is a library the model does not see. An email is any string.
- Declared column lengths (`String(50)`, `String(100)`) are stated (`Models.WithinDeclaredLengths`) but not enforced, because the store never checks them. The integer surrogate key `id` is not modelled.
- Crud.RecordStore.GetEmployees: `skip` and `limit` are natural numbers. Negative values depend on the database. The query has no ORDER BY, so rows are taken in table (insertion) order.
- Sessions, commits, transactions and concurrent requests are not modelled. Each store call is atomic.
- Crud.RecordStore.CreateAttendance: it is an assumption about the database, not a fact of the source, that the `Enum(AttendanceStatus)` column refuses a status other than "Present"/"Absent". The library binds enum members by name and may accept other strings, depending on the database. The model refuses such a status with the error `StatusNotInEnum` and leaves the table unchanged. AttendanceList.StoreRowsAddUp rests on the same assumption.
- AttendanceList.RoundedPercent: uses exact half-up rounding. `Math.round` over floating point can differ on inputs such as 29/200, which is not modelled.
- `toLowerCase` is ASCII only. Unicode case folding is not modelled.
- Text.StrLt: strings are compared by Unicode scalar value. JavaScript's `<`, `>` and default `.sort()` compare UTF-16 code units. The two orders differ only between characters above U+FFFF and those in U+E000–U+FFFF.
- The date-range filters take "today" as a parameter. The wall clock, time zones and date-fns locales are not modelled. "This week" starts on Sunday, date-fns' default.
- Sorting.SortBy: `Array.prototype.sort` is the stable sort over `le(a, b) := cmp(a, b) <= 0`. This is exact for a consistent comparator (the attendance table). For the employee comparator, which returns -1 both ways on equal keys, ECMAScript leaves the order implementation-defined. So EmployeeList.ShownEmployeesSpec claims only the permutation and the key order, not where rows with equal keys land.
- The in-place sort of a fresh array is modelled on values. The input list is never changed, because the views sort a copy (`[...rows]`, or the array `.filter` returns).
- React reactivity is not modelled: effects, the fetch of the records for the chosen date (they are state here), `Promise.all`, and the `isSubmitting = true` interval while a call is awaited. Only the state after the handler settles is modelled.
- EmployeeForm.HandleSubmit: the parent's `onSubmit` is a boolean outcome. A rejected promise keeps the data and errors.
- Error message wording is kept as the source states it, but the toast texts are not modelled.
- JSX rendering, icons, CSS, toasts, `window.confirm`, printing and the CSV export are not modelled. Nor are `getSortIcon` (the header arrow) and the attendance table's employee-name lookup.
- The page containers (`EmployeeManagement`, `AttendanceManagement`), the render-only attendance page and `App.js` are not part of this model.
- Dashboard loading state and fetch error handling are not modelled. Only the counts and the slice are.

## Findings

| source | as written | input that shows it | evidently intended | confidence | as-written member | corrected member |
|---|---|---|---|---|---|---|
| frontend/src/components/AttendanceList.js:64-67 | "Last month" is `setMonth(getMonth() - 1)` on today's date, which keeps the day and rolls over when the earlier month is shorter. | Today 2024-03-31: the date becomes 2024-03-02, so March records are shown and February records are not. | The calendar month before today's month. | high, not executed | AttendanceList.LastMonthFilterAsWritten | AttendanceList.FilterAttendanceIntendedSpec |
| frontend/src/components/AttendanceForm.js:124-139 | `handleQuickMark` builds the form data with the button's status and passes it to `handleSubmit`, which ignores its second argument. | Form status "Present", employee selected, "Absent" button: "Present" is submitted. | The button's status is submitted. | high, not executed | AttendanceForm.QuickMarkDropsStatus | AttendanceForm.HandleQuickMarkSpec |
| frontend/src/pages/Dashboard.js:25-41 | The employee count comes from the default listing, capped at 100 employees (backend/app/main.py:45), but the present count covers all of today's records. | 101 employees, all marked Present today: total 100, absent -1. | Counts over every employee, so absent lies in 0..total. | medium, not executed | Dashboard.DashboardUndercounts | Dashboard.StoreDashboardSound |
