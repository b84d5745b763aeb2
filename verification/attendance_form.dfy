/**
 * The attendance form: the employees still to be marked on the chosen date,
 * the validation run before a submission, the change handler, the submit
 * handler with its duplicate pre-check, the quick-mark buttons and the
 * preview counts. The records fetched for the chosen date, the current date
 * and the outcome of the parent's callback are passed in.
 */
module AttendanceForm {
  import opened Wrappers
  import opened Seqs
  import opened Dates
  import opened Models
  import opened Schemas
  import Crud

  datatype Field = EmployeeId | DateField | Status

  /** The form fields, as the inputs hold them: the date is `yyyy-MM-dd` text. */
  datatype FormData = FormData(employee_id: string, date: string, status: string)

  /** The fields of a fresh form: no employee, today's date, "Present". */
  function FreshForm(today: Date): (d: FormData)
    requires ValidDate(today)
    ensures d.employee_id == "" && d.status == "Present"
    ensures ParseIso(d.date) == Some(today)
  {
    ParseFormat(today);
    FormData("", FormatIso(today), "Present")
  }

  function Get(data: FormData, field: Field): string
  {
    match field
    case EmployeeId => data.employee_id
    case DateField => data.date
    case Status => data.status
  }

  function Set(data: FormData, field: Field, value: string): (d: FormData)
    ensures Get(d, field) == value
    ensures forall f :: f != field ==> Get(d, f) == Get(data, f)
  {
    match field
    case EmployeeId => data.(employee_id := value)
    case DateField => data.(date := value)
    case Status => data.(status := value)
  }

  // ---------------------------------------------------------------------
  // Employees still to be marked

  /** Some record of the chosen date belongs to this employee. */
  predicate IsMarked(todayAttendance: seq<AttendanceRecord>, employee_id: string)
  {
    exists r :: r in todayAttendance && r.employee_id == employee_id
  }

  /** `getAvailableEmployees`: the employees without a record on the chosen date. */
  function AvailableEmployees(employees: seq<Employee>, todayAttendance: seq<AttendanceRecord>): (r: seq<Employee>)
  {
    Filter(employees, (e: Employee) => !IsMarked(todayAttendance, e.employee_id))
  }

  /**
   * The employees offered are those of the list without a record on the
   * chosen date, in the list's order, so never more than the list holds.
   */
  lemma AvailableEmployeesSpec(employees: seq<Employee>, todayAttendance: seq<AttendanceRecord>)
    ensures IsSubsequence(AvailableEmployees(employees, todayAttendance), employees)
    ensures |AvailableEmployees(employees, todayAttendance)| <= |employees|
    ensures forall e :: e in AvailableEmployees(employees, todayAttendance) <==>
              e in employees && forall r :: r in todayAttendance ==> r.employee_id != e.employee_id
  {
    FilterIsSubsequence(employees, (e: Employee) => !IsMarked(todayAttendance, e.employee_id));
  }

  /** With nothing marked yet, every employee is offered. */
  lemma NothingMarkedOffersAll(employees: seq<Employee>)
    ensures AvailableEmployees(employees, []) == employees
  {
    FilterAll(employees, (e: Employee) => !IsMarked([], e.employee_id));
  }

  // ---------------------------------------------------------------------
  // Validation

  /** The errors object: `None` when a field has no key, `Some(message)` otherwise. */
  datatype Errors = Errors(employee_id: Option<string>, date: Option<string>, status: Option<string>)

  const NoErrors := Errors(None, None, None)

  function GetError(errors: Errors, field: Field): Option<string>
  {
    match field
    case EmployeeId => errors.employee_id
    case DateField => errors.date
    case Status => errors.status
  }

  function SetError(errors: Errors, field: Field, message: Option<string>): (e: Errors)
    ensures GetError(e, field) == message
    ensures forall f :: f != field ==> GetError(e, f) == GetError(errors, f)
  {
    match field
    case EmployeeId => errors.(employee_id := message)
    case DateField => errors.(date := message)
    case Status => errors.(status := message)
  }

  /** `validateForm`: one message per empty field. */
  function ValidateForm(data: FormData): (errors: Errors)
  {
    Errors(
      if data.employee_id == "" then Some("Please select an employee") else None,
      if data.date == "" then Some("Date is required") else None,
      if data.status == "" then Some("Please select attendance status") else None)
  }

  /** Each field is checked on its own: it has an error exactly when it is empty, and nothing else matters. */
  lemma ValidateFormSpec(data: FormData, field: Field, value: string)
    ensures forall f :: GetError(ValidateForm(data), f).Some? <==> Get(data, f) == ""
    ensures ValidateForm(data) == NoErrors <==> data.employee_id != "" && data.date != "" && data.status != ""
    ensures forall f :: f != field ==> GetError(ValidateForm(Set(data, field, value)), f) == GetError(ValidateForm(data), f)
  {
  }

  // ---------------------------------------------------------------------
  // Component state

  datatype FormState = FormState(data: FormData, errors: Errors, isSubmitting: bool, todayAttendance: seq<AttendanceRecord>)

  function InitialState(today: Date): (st: FormState)
    requires ValidDate(today)
  {
    FormState(FreshForm(today), NoErrors, false, [])
  }

  predicate ShowsError(errors: Errors, field: Field)
  {
    GetError(errors, field).Some? && GetError(errors, field).value != ""
  }

  /** `handleChange`: the field takes the value, and a shown error of that field is replaced by the empty message. */
  function HandleChange(st: FormState, field: Field, value: string): (st': FormState)
  {
    st.(data := Set(st.data, field, value),
        errors := if ShowsError(st.errors, field) then SetError(st.errors, field, Some("")) else st.errors)
  }

  /** Typing changes only the typed field and hides only its error. */
  lemma HandleChangeSpec(st: FormState, field: Field, value: string)
    ensures var st' := HandleChange(st, field, value);
            && Get(st'.data, field) == value
            && (forall f :: f != field ==> Get(st'.data, f) == Get(st.data, f))
            && !ShowsError(st'.errors, field)
            && (forall f :: f != field ==> GetError(st'.errors, f) == GetError(st.errors, f))
            && st'.isSubmitting == st.isSubmitting && st'.todayAttendance == st.todayAttendance
  {
  }

  // ---------------------------------------------------------------------
  // Submission

  /** The pre-check: the fetched records already hold one for this employee. */
  function AlreadyMarked(todayAttendance: seq<AttendanceRecord>, employee_id: string): (r: Option<AttendanceRecord>)
  {
    FirstMatch(todayAttendance, (r: AttendanceRecord) => r.employee_id == employee_id)
  }

  datatype SubmitResult = SubmitResult(state: FormState, submitted: Option<FormData>)

  /**
   * The steps of `handleSubmit` on the given data: an invalid form shows its
   * errors; an employee already marked is refused; otherwise the data goes to
   * the parent, and on success the form is reset to a fresh one.
   */
  function Submit(st: FormState, data: FormData, today: Date, submitSucceeds: bool): (res: SubmitResult)
    requires ValidDate(today)
  {
    var errors := ValidateForm(data);
    if errors != NoErrors then SubmitResult(st.(errors := errors), None)
    else if AlreadyMarked(st.todayAttendance, data.employee_id).Some? then SubmitResult(st, None)
    else if submitSucceeds then
      SubmitResult(st.(data := FreshForm(today), errors := NoErrors, isSubmitting := false), Some(data))
    else SubmitResult(st.(isSubmitting := false), Some(data))
  }

  /** `handleSubmit`: the steps above on the form's own data. */
  function HandleSubmit(st: FormState, today: Date, submitSucceeds: bool): (res: SubmitResult)
    requires ValidDate(today)
  {
    Submit(st, st.data, today, submitSucceeds)
  }

  /**
   * The parent is called only with complete data for an employee not yet
   * marked on the chosen date; a refused submission leaves the fields as they
   * were; a successful one resets the form to no employee, today's date and
   * "Present" with no errors.
   */
  lemma SubmitSpec(st: FormState, data: FormData, today: Date, submitSucceeds: bool)
    requires ValidDate(today)
    ensures var res := Submit(st, data, today, submitSucceeds);
            && (res.submitted.Some? <==>
                  ValidateForm(data) == NoErrors && !IsMarked(st.todayAttendance, data.employee_id))
            && (res.submitted.Some? ==> res.submitted.value == data && !res.state.isSubmitting)
            && (res.submitted.None? ==> res.state.data == st.data && res.state.isSubmitting == st.isSubmitting)
            && (ValidateForm(data) != NoErrors ==> res.state.errors == ValidateForm(data))
            && (res.submitted.Some? && submitSucceeds ==>
                  && res.state.data.employee_id == "" && res.state.data.status == "Present"
                  && ParseIso(res.state.data.date) == Some(today) && res.state.errors == NoErrors)
            && (res.submitted.Some? && !submitSucceeds ==> res.state.data == st.data && res.state.errors == st.errors)
            && res.state.todayAttendance == st.todayAttendance
  {
    var m := AlreadyMarked(st.todayAttendance, data.employee_id);
    if m.Some? {
      assert m.value in st.todayAttendance;
    }
  }

  /**
   * `handleQuickMark` as written: it needs a selected employee, then calls
   * `handleSubmit`, which takes only the event, so the form's own status is
   * submitted and the button's status is dropped.
   */
  function HandleQuickMarkAsWritten(st: FormState, status: string, today: Date, submitSucceeds: bool): (res: SubmitResult)
    requires ValidDate(today)
  {
    if st.data.employee_id == "" then SubmitResult(st, None)
    else HandleSubmit(st, today, submitSucceeds)
  }

  /** With "Present" in the form, the "Absent" button submits "Present". */
  lemma QuickMarkDropsStatus(today: Date)
    requires ValidDate(today)
    ensures var st := FormState(FormData("E1", "2024-03-01", "Present"), NoErrors, false, []);
            var res := HandleQuickMarkAsWritten(st, "Absent", today, true);
            res.submitted == Some(FormData("E1", "2024-03-01", "Present"))
  {
  }

  /** `handleQuickMark` as its buttons intend: the selected employee's form, with the button's status, is submitted. */
  function HandleQuickMark(st: FormState, status: string, today: Date, submitSucceeds: bool): (res: SubmitResult)
    requires ValidDate(today)
  {
    if st.data.employee_id == "" then SubmitResult(st, None)
    else Submit(st, st.data.(status := status), today, submitSucceeds)
  }

  /**
   * A quick mark does nothing without a selected employee; otherwise it
   * submits the form with the button's status, under the same checks as the
   * submit button.
   */
  lemma HandleQuickMarkSpec(st: FormState, status: string, today: Date, submitSucceeds: bool)
    requires ValidDate(today)
    ensures var res := HandleQuickMark(st, status, today, submitSucceeds);
            && (st.data.employee_id == "" ==> res == SubmitResult(st, None))
            && (res.submitted.Some? ==>
                  res.submitted.value == st.data.(status := status)
                  && !IsMarked(st.todayAttendance, st.data.employee_id))
            && ((st.data.employee_id != "" && st.data.date != "" && status != ""
                   && !IsMarked(st.todayAttendance, st.data.employee_id)) ==> res.submitted.Some?)
  {
    if st.data.employee_id != "" {
      SubmitSpec(st, st.data.(status := status), today, submitSucceeds);
    }
  }

  /**
   * The pre-check agrees with the server's duplicate check when the fetched
   * records are the store's records of the chosen date: an employee is
   * refused by the form exactly when the store holds a record for them on
   * that date.
   */
  lemma PreCheckMatchesStore(att: seq<Attendance>, date: Date, employee_id: string)
    ensures AlreadyMarked(ToResponses(Crud.AttendanceOn(att, date)), employee_id).Some?
            <==> Crud.FindMarked(att, employee_id, date).Some?
  {
    var rows := Crud.AttendanceOn(att, date);
    var records := ToResponses(rows);
    Crud.AttendanceOnSpec(att, date);
    var m := AlreadyMarked(records, employee_id);
    if m.Some? {
      var i :| 0 <= i < |records| && records[i] == m.value;
      assert rows[i] in rows;
      assert rows[i] in att && rows[i].employee_id == employee_id && rows[i].date == date;
    }
    var f := Crud.FindMarked(att, employee_id, date);
    if f.Some? {
      assert f.value in rows;
      var i :| 0 <= i < |rows| && rows[i] == f.value;
      assert records[i] in records && records[i].employee_id == employee_id;
    }
  }

  // ---------------------------------------------------------------------
  // Preview

  /** The present and absent counts of the records for the chosen date. */
  function PreviewCounts(todayAttendance: seq<AttendanceRecord>): (counts: (nat, nat))
  {
    (Count(todayAttendance, (a: AttendanceRecord) => a.status == "Present"),
     Count(todayAttendance, (a: AttendanceRecord) => a.status == "Absent"))
  }

  /** The two preview counts never exceed the number of records shown beside them. */
  lemma PreviewCountsBound(todayAttendance: seq<AttendanceRecord>)
    ensures PreviewCounts(todayAttendance).0 + PreviewCounts(todayAttendance).1 <= |todayAttendance|
  {
    CountDisjoint(todayAttendance, (a: AttendanceRecord) => a.status == "Present", (a: AttendanceRecord) => a.status == "Absent");
  }
}
