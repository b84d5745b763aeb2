/**
 * The employee form: its four text fields, the validation run before a
 * submission, the change handler that clears a field's error, and the submit
 * handler. The parent's submit callback is a parameter that says whether the
 * call succeeded.
 */
module EmployeeForm {
  import opened Wrappers
  import opened Text
  import Schemas

  datatype Field = EmployeeId | FullName | Email | Department

  datatype FormData = FormData(employee_id: string, full_name: string, email: string, department: string)

  const BlankForm := FormData("", "", "", "")

  /** The department choices the select offers. */
  const DepartmentChoices: seq<string> := [
    "Engineering", "Marketing", "Sales", "Human Resources", "Finance", "Operations",
    "IT Support", "Research & Development", "Customer Support", "Product Management"
  ]

  function Get(data: FormData, field: Field): string
  {
    match field
    case EmployeeId => data.employee_id
    case FullName => data.full_name
    case Email => data.email
    case Department => data.department
  }

  function Set(data: FormData, field: Field, value: string): (d: FormData)
    ensures Get(d, field) == value
    ensures forall f :: f != field ==> Get(d, f) == Get(data, f)
  {
    match field
    case EmployeeId => data.(employee_id := value)
    case FullName => data.(full_name := value)
    case Email => data.(email := value)
    case Department => data.(department := value)
  }

  // ---------------------------------------------------------------------
  // Patterns

  /** `/^[A-Za-z0-9_-]+$/`: without the m flag, `$` matches only at the very end. */
  predicate IdPattern(s: string)
  {
    |s| > 0 && AllIdChars(s)
  }

  /** A character of the class `[^\s@]`. */
  predicate PlainChar(c: char)
  {
    !IsJsSpace(c) && c != '@'
  }

  /** One or more characters of `[^\s@]`. */
  predicate PlainRun(s: string)
  {
    |s| > 0 && forall k :: 0 <= k < |s| ==> PlainChar(s[k])
  }

  /**
   * `/^[^\s@]+@[^\s@]+\.[^\s@]+$/`: some '@' at `i` and '.' at `j` split the
   * string into three non-empty runs without white space or '@'.
   */
  predicate EmailPattern(s: string)
  {
    exists i, j | 0 < i && i + 1 < j < |s| - 1 ::
      PlainRun(s[..i]) && s[i] == '@' && PlainRun(s[i + 1..j]) && s[j] == '.' && PlainRun(s[j + 1..])
  }

  /** No character of `s` is white space. */
  predicate NoSpace(s: string)
  {
    forall k :: 0 <= k < |s| ==> !IsJsSpace(s[k])
  }

  /** The only '@' of `s` is at `i`, which is not the first position. */
  predicate OnlyAtSignAt(s: string, i: int)
  {
    0 < i < |s| && s[i] == '@' && forall k :: 0 <= k < |s| && s[k] == '@' ==> k == i
  }

  /** Some '.' after position `i + 1` is followed by at least one character. */
  ghost predicate DotAfter(s: string, i: int)
  {
    exists j :: 0 <= i + 1 < j < |s| - 1 && s[j] == '.'
  }

  /**
   * An address as the pattern describes it in words: no white space, one
   * '@' not first, and a later '.' with at least one character on each side.
   */
  ghost predicate EmailShape(s: string)
  {
    NoSpace(s) && exists i :: OnlyAtSignAt(s, i) && DotAfter(s, i)
  }

  lemma EmailPatternSound(s: string)
    requires EmailPattern(s)
    ensures EmailShape(s)
  {
    var i, j :| 0 < i && i + 1 < j < |s| - 1 &&
      PlainRun(s[..i]) && s[i] == '@' && PlainRun(s[i + 1..j]) && s[j] == '.' && PlainRun(s[j + 1..]);
    forall k | 0 <= k < |s| && k != i && k != j ensures PlainChar(s[k]) {
      if k < i {
        assert s[..i][k] == s[k];
      } else if k < j {
        assert s[i + 1..j][k - i - 1] == s[k];
      } else {
        assert s[j + 1..][k - j - 1] == s[k];
      }
    }
    assert OnlyAtSignAt(s, i) && DotAfter(s, i);
  }

  lemma EmailPatternComplete(s: string)
    requires EmailShape(s)
    ensures EmailPattern(s)
  {
    var i :| OnlyAtSignAt(s, i) && DotAfter(s, i);
    var j :| i + 1 < j < |s| - 1 && s[j] == '.';
    assert PlainRun(s[..i]);
    assert PlainRun(s[i + 1..j]);
    assert PlainRun(s[j + 1..]);
  }

  /** The email pattern accepts exactly the strings of `EmailShape`. */
  lemma EmailPatternMeaning(s: string)
    ensures EmailPattern(s) <==> EmailShape(s)
  {
    if EmailPattern(s) {
      EmailPatternSound(s);
    }
    if EmailShape(s) {
      EmailPatternComplete(s);
    }
  }

  /** An address the pattern accepts. */
  lemma EmailPatternAccepts()
    ensures EmailPattern("ann@example.com")
  {
    var good := "ann@example.com";
    assert OnlyAtSignAt(good, 3) && good[11] == '.';
    EmailPatternComplete(good);
  }

  /** The pattern rejects an address without a '.' after the '@'. */
  lemma EmailPatternNeedsDot()
    ensures !EmailPattern("ann@example")
  {
    EmailPatternMeaning("ann@example");
  }

  /** The pattern rejects an address with two '@'. */
  lemma EmailPatternNeedsOneAtSign()
    ensures !EmailPattern("a@b@c.d")
  {
    EmailPatternMeaning("a@b@c.d");
    assert "a@b@c.d"[1] == '@' && "a@b@c.d"[3] == '@';
  }

  /** The pattern rejects white space anywhere, a leading space included. */
  lemma EmailPatternRejectsSpace(s: string, k: int)
    requires 0 <= k < |s| && IsJsSpace(s[k])
    ensures !EmailPattern(s)
  {
    EmailPatternMeaning(s);
  }

  // ---------------------------------------------------------------------
  // Validation

  /**
   * The errors object, one entry per field: `None` when the field has no key,
   * `Some(message)` otherwise (the change handler stores the empty message).
   */
  datatype Errors = Errors(employee_id: Option<string>, full_name: Option<string>, email: Option<string>, department: Option<string>)

  /** `{}`. */
  const NoErrors := Errors(None, None, None, None)

  function GetError(errors: Errors, field: Field): Option<string>
  {
    match field
    case EmployeeId => errors.employee_id
    case FullName => errors.full_name
    case Email => errors.email
    case Department => errors.department
  }

  function SetError(errors: Errors, field: Field, message: Option<string>): (e: Errors)
    ensures GetError(e, field) == message
    ensures forall f :: f != field ==> GetError(e, f) == GetError(errors, f)
  {
    match field
    case EmployeeId => errors.(employee_id := message)
    case FullName => errors.(full_name := message)
    case Email => errors.(email := message)
    case Department => errors.(department := message)
  }

  /** The message `validateForm` records for the employee id, if any. */
  function IdError(id: string): Option<string>
  {
    if Trim(id) == "" then Some("Employee ID is required")
    else if !IdPattern(id) then Some("Only letters, numbers, underscores, and hyphens allowed")
    else None
  }

  /** The message `validateForm` records for the email, if any. */
  function EmailError(email: string): Option<string>
  {
    if Trim(email) == "" then Some("Email is required")
    else if !EmailPattern(email) then Some("Invalid email format")
    else None
  }

  /** The "required" message of a field that must not be blank. */
  function RequiredError(value: string, message: string): Option<string>
  {
    if Trim(value) == "" then Some(message) else None
  }

  /** `validateForm`: the message of every field whose check fails. */
  function ValidateForm(data: FormData): (errors: Errors)
  {
    Errors(
      IdError(data.employee_id),
      RequiredError(data.full_name, "Full name is required"),
      EmailError(data.email),
      RequiredError(data.department, "Department is required"))
  }

  /**
   * What an acceptable form is: an id matching the id pattern, a name and a
   * department with some non-space character, an email matching the email
   * pattern.
   */
  predicate FormValid(data: FormData)
  {
    && IdPattern(data.employee_id)
    && !AllSpace(data.full_name)
    && EmailPattern(data.email)
    && !AllSpace(data.department)
  }

  /** A string matching either pattern has no white space, so it is never blank. */
  lemma PatternsAreNotBlank(s: string)
    ensures IdPattern(s) ==> Trim(s) != ""
    ensures EmailPattern(s) ==> Trim(s) != ""
  {
    TrimEmptyIffAllSpace(s);
    EmailPatternMeaning(s);
    if |s| > 0 {
      assert !IsJsSpace(s[0]) || !AllIdChars(s);
    }
  }

  /**
   * A field has an error exactly when its check fails, and the form passes
   * (an empty errors object) exactly when it is acceptable.
   */
  lemma ValidateFormSpec(data: FormData)
    ensures ValidateForm(data).employee_id.Some? <==> !IdPattern(data.employee_id)
    ensures ValidateForm(data).full_name.Some? <==> AllSpace(data.full_name)
    ensures ValidateForm(data).email.Some? <==> !EmailPattern(data.email)
    ensures ValidateForm(data).department.Some? <==> AllSpace(data.department)
    ensures ValidateForm(data) == NoErrors <==> FormValid(data)
  {
    IdErrorSpec(data.employee_id);
    EmailErrorSpec(data.email);
    RequiredErrorSpec(data.full_name, "Full name is required");
    RequiredErrorSpec(data.department, "Department is required");
  }

  /** Every message `validateForm` records is non-empty, so every failing field shows its error. */
  lemma ValidateFormMessagesShow(data: FormData, f: Field)
    ensures GetError(ValidateForm(data), f).Some? ==> ShowsError(ValidateForm(data), f)
  {
    match f
    case EmployeeId => IdErrorSpec(data.employee_id);
    case Email => EmailErrorSpec(data.email);
    case _ =>
  }

  lemma IdErrorSpec(id: string)
    ensures IdError(id).Some? <==> !IdPattern(id)
    ensures IdError(id).Some? ==> IdError(id).value != ""
  {
    PatternsAreNotBlank(id);
  }

  lemma EmailErrorSpec(email: string)
    ensures EmailError(email).Some? <==> !EmailPattern(email)
    ensures EmailError(email).Some? ==> EmailError(email).value != ""
  {
    PatternsAreNotBlank(email);
  }

  lemma RequiredErrorSpec(value: string, message: string)
    ensures RequiredError(value, message).Some? <==> AllSpace(value)
    ensures RequiredError(value, message).Some? ==> RequiredError(value, message).value == message
  {
    TrimEmptyIffAllSpace(value);
  }

  /** A blank field is reported as required rather than as malformed. */
  lemma RequiredBeforeFormat(data: FormData)
    requires AllSpace(data.employee_id) && AllSpace(data.email)
    ensures ValidateForm(data).employee_id == Some("Employee ID is required")
    ensures ValidateForm(data).email == Some("Email is required")
  {
    TrimEmptyIffAllSpace(data.employee_id);
    TrimEmptyIffAllSpace(data.email);
  }

  /**
   * An id with white space around it is not blank, so it passes the
   * "required" check and is reported as malformed instead.
   */
  lemma PaddedIdIsMalformed(id: string, k: int)
    requires !AllSpace(id) && 0 <= k < |id| && IsJsSpace(id[k])
    ensures IdError(id) == Some("Only letters, numbers, underscores, and hyphens allowed")
  {
    TrimEmptyIffAllSpace(id);
  }

  /** Every department the select offers passes its check. */
  lemma DepartmentChoicesAreValid(department: string)
    requires department in DepartmentChoices
    ensures !AllSpace(department)
  {
    assert 'A' <= department[0] <= 'Z';
  }

  /**
   * The form's id check is stricter than the server's: an id the form accepts
   * is accepted by the server unchanged, while the server also lets through an
   * id that ends in one newline, which the form rejects.
   */
  lemma IdCheckStricterThanServer(id: string)
    ensures IdPattern(id) ==> Schemas.ValidateEmployeeId(id) == Ok(id)
    ensures !IdPattern("EMP001\n") && Schemas.ValidateEmployeeId("EMP001\n").Ok?
  {
    if IdPattern(id) {
      Schemas.ValidateAcceptsIdStrings(id);
    }
    Schemas.ValidateAcceptsFinalNewline();
    assert !IsIdChar("EMP001\n"[6]);
  }

  // ---------------------------------------------------------------------
  // Component state

  datatype FormState = FormState(data: FormData, errors: Errors, isSubmitting: bool)

  /** The first render: the initial data when given, otherwise a blank form. */
  function InitialState(initialData: Option<FormData>): (st: FormState)
  {
    FormState(if initialData.Some? then initialData.value else BlankForm, NoErrors, false)
  }

  /** A field's error is shown when its message is present and non-empty. */
  predicate ShowsError(errors: Errors, field: Field)
  {
    GetError(errors, field).Some? && GetError(errors, field).value != ""
  }

  /**
   * `handleChange`: the field takes the typed value, and a shown error of
   * that field is replaced by the empty message.
   */
  function HandleChange(st: FormState, field: Field, value: string): (st': FormState)
  {
    FormState(
      Set(st.data, field, value),
      if ShowsError(st.errors, field) then SetError(st.errors, field, Some("")) else st.errors,
      st.isSubmitting)
  }

  /** Typing changes only the typed field and hides only its error. */
  lemma HandleChangeSpec(st: FormState, field: Field, value: string)
    ensures var st' := HandleChange(st, field, value);
            && Get(st'.data, field) == value
            && (forall f :: f != field ==> Get(st'.data, f) == Get(st.data, f))
            && !ShowsError(st'.errors, field)
            && (GetError(st'.errors, field).Some? <==> GetError(st.errors, field).Some?)
            && (forall f :: f != field ==> GetError(st'.errors, f) == GetError(st.errors, f))
            && st'.isSubmitting == st.isSubmitting
  {
  }

  /** What a submission leads to: the new state and the data passed to the parent, if any. */
  datatype SubmitResult = SubmitResult(state: FormState, submitted: Option<FormData>)

  /**
   * `handleSubmit`: a form with errors shows them and calls nothing;
   * otherwise the data goes to the parent, and on success a form that had no
   * initial data is cleared and the errors are emptied.
   */
  function HandleSubmit(st: FormState, hasInitialData: bool, submitSucceeds: bool): (res: SubmitResult)
  {
    var errors := ValidateForm(st.data);
    if errors != NoErrors then SubmitResult(st.(errors := errors), None)
    else if submitSucceeds then
      SubmitResult(FormState(if hasInitialData then st.data else BlankForm, NoErrors, false), Some(st.data))
    else SubmitResult(st.(isSubmitting := false), Some(st.data))
  }

  /**
   * The parent is called exactly when the form is acceptable, with the form's
   * data; a rejected form keeps its data and shows an error on exactly the
   * failing fields; a failed call keeps data and errors; a successful call
   * clears the errors and, unless editing given data, the fields.
   */
  lemma HandleSubmitSpec(st: FormState, hasInitialData: bool, submitSucceeds: bool)
    ensures var res := HandleSubmit(st, hasInitialData, submitSucceeds);
            && (res.submitted.Some? <==> FormValid(st.data))
            && (res.submitted.Some? ==> res.submitted.value == st.data && !res.state.isSubmitting)
            && (!FormValid(st.data) ==>
                  && res.state.data == st.data
                  && res.state.errors == ValidateForm(st.data)
                  && res.state.errors != NoErrors)
            && (FormValid(st.data) && !submitSucceeds ==> res.state.data == st.data && res.state.errors == st.errors)
            && (FormValid(st.data) && submitSucceeds ==>
                  res.state.errors == NoErrors && res.state.data == (if hasInitialData then st.data else BlankForm))
  {
    ValidateFormSpec(st.data);
  }

  /** The blank form is rejected with all four "required" messages. */
  lemma BlankFormRejected()
    ensures ValidateForm(BlankForm) == Errors(
              Some("Employee ID is required"), Some("Full name is required"),
              Some("Email is required"), Some("Department is required"))
  {
  }
}
