/**
 * Request and response shapes of the API and the one validator they carry:
 * an employee id must match `^[A-Za-z0-9_-]+$` under Python's `re.match`.
 */
module Schemas {
  import opened Wrappers
  import opened Text
  import opened Dates
  import opened Models

  /**
   * The pattern's meaning under Python's `re`: `$` matches at the end of the
   * string or just before a newline that ends it.
   */
  predicate PythonIdPattern(v: string)
  {
    || (|v| > 0 && AllIdChars(v))
    || (|v| > 1 && v[|v| - 1] == '\n' && AllIdChars(v[..|v| - 1]))
  }

  /** Length of the longest prefix of `v` drawn from `[A-Za-z0-9_-]`. */
  function IdPrefixLength(v: string): (n: nat)
    ensures n <= |v| && AllIdChars(v[..n])
    ensures n < |v| ==> !IsIdChar(v[n])
  {
    if v == [] || !IsIdChar(v[0]) then 0
    else
      var n := 1 + IdPrefixLength(v[1..]);
      assert v[..n] == [v[0]] + v[1..][..n - 1];
      n
  }

  /**
   * How the regular-expression engine runs the pattern: `+` takes the longest
   * run of id characters (a shorter run cannot help, since `$` never matches
   * before an id character), then `$` is tried at the position reached.
   */
  predicate PythonIdMatch(v: string)
  {
    var n := IdPrefixLength(v);
    n >= 1 && (n == |v| || (n == |v| - 1 && v[n] == '\n'))
  }

  /** The engine's run matches exactly the strings the pattern describes. */
  lemma PythonIdMatchMeaning(v: string)
    ensures PythonIdMatch(v) <==> PythonIdPattern(v)
  {
    var n := IdPrefixLength(v);
    if n == |v| {
      assert v[..n] == v;
    }
  }

  /** `EmployeeBase.validate_employee_id`: returns the id unchanged or raises `ValueError`. */
  function ValidateEmployeeId(v: string): (r: Result<string, string>)
    ensures r.Ok? ==> r.value == v
  {
    if PythonIdMatch(v) then Ok(v)
    else Err("Employee ID must contain only letters, numbers, underscores, and hyphens")
  }

  /** The validator accepts every non-empty string of id characters. */
  lemma ValidateAcceptsIdStrings(v: string)
    requires |v| > 0 && AllIdChars(v)
    ensures ValidateEmployeeId(v) == Ok(v)
  {
    PythonIdMatchMeaning(v);
  }

  /**
   * The validator rejects the empty string and any string holding a character
   * outside `[A-Za-z0-9_-]`, unless that character is a newline ending the string.
   */
  lemma ValidateRejects(v: string, i: int)
    requires v == [] || (0 <= i < |v| && !IsIdChar(v[i]) && !(i == |v| - 1 && v[i] == '\n'))
    ensures ValidateEmployeeId(v).Err?
  {
    PythonIdMatchMeaning(v);
    if v != [] && i < |v| - 1 {
      assert v[..|v| - 1][i] == v[i];
    }
  }

  /** One final newline is let through: `"EMP001\n"` is accepted as it is. */
  lemma ValidateAcceptsFinalNewline()
    ensures ValidateEmployeeId("EMP001\n") == Ok("EMP001\n")
  {
    PythonIdMatchMeaning("EMP001\n");
    assert "EMP001\n"[..6] == "EMP001";
  }

  /** What an `EmployeeCreate` request guarantees (the `EmailStr` check is not modelled). */
  predicate ValidEmployeeCreate(e: Employee)
  {
    ValidateEmployeeId(e.employee_id).Ok?
  }

  /**
   * `AttendanceBase` (and so `AttendanceCreate` and `AttendanceResponse`): the
   * date is a calendar date, but the status is any string.
   */
  datatype AttendanceRecord = AttendanceRecord(employee_id: string, date: Date, status: string)

  /** An attendance row as the API returns it. */
  function ToResponse(a: Attendance): (r: AttendanceRecord)
    ensures StatusFromValue(r.status) == Some(a.status)
    ensures r.employee_id == a.employee_id && r.date == a.date
  {
    AttendanceRecord(a.employee_id, a.date, StatusValue(a.status))
  }

  /** An attendance table as the API returns it, row by row. */
  function ToResponses(att: seq<Attendance>): (r: seq<AttendanceRecord>)
    ensures |r| == |att|
    ensures forall i :: 0 <= i < |att| ==> r[i] == ToResponse(att[i])
  {
    if att == [] then [] else [ToResponse(att[0])] + ToResponses(att[1..])
  }
}
