/**
 * The two tables of the record store: `employees` and `attendance`, their row
 * types and the constraints the table declarations state.
 */
module Models {
  import opened Wrappers
  import opened Dates

  /** The attendance status enumeration; its values are the strings "Present" and "Absent". */
  datatype AttendanceStatus = Present | Absent

  /** The string value of a status member. */
  function StatusValue(s: AttendanceStatus): string
  {
    match s
    case Present => "Present"
    case Absent => "Absent"
  }

  /** The member whose value is `v`: the enumeration's lookup by value. */
  function StatusFromValue(v: string): (r: Option<AttendanceStatus>)
  {
    if v == "Present" then Some(Present)
    else if v == "Absent" then Some(Absent)
    else None
  }

  /** The enumeration has exactly the values "Present" and "Absent", one per member. */
  lemma StatusValues(s: AttendanceStatus, v: string)
    ensures StatusFromValue(StatusValue(s)) == Some(s)
    ensures StatusFromValue(v).Some? <==> v == "Present" || v == "Absent"
    ensures StatusFromValue(v).Some? ==> StatusValue(StatusFromValue(v).value) == v
  {
  }

  /** A row of `employees` (the integer surrogate key `id` is not modelled). */
  datatype Employee = Employee(employee_id: string, full_name: string, email: string, department: string)

  /** A row of `attendance`: its status column holds a member of the enumeration. */
  datatype Attendance = Attendance(employee_id: string, date: Date, status: AttendanceStatus)

  /** Declared column lengths: `String(50)` for ids, `String(100)` for the other text columns. */
  const EmployeeIdLength: nat := 50
  const TextLength: nat := 100

  /** The declared lengths hold for a row (declared, but nothing in the store enforces them). */
  predicate WithinDeclaredLengths(e: Employee)
  {
    |e.employee_id| <= EmployeeIdLength && |e.full_name| <= TextLength
    && |e.email| <= TextLength && |e.department| <= TextLength
  }

  /** `employees.employee_id` is unique. */
  ghost predicate UniqueEmployeeIds(emps: seq<Employee>)
  {
    forall i, j :: 0 <= i < j < |emps| ==> emps[i].employee_id != emps[j].employee_id
  }

  /** `employees.email` is unique. */
  ghost predicate UniqueEmails(emps: seq<Employee>)
  {
    forall i, j :: 0 <= i < j < |emps| ==> emps[i].email != emps[j].email
  }

  /** Some row of `emps` has this `employee_id`. */
  predicate HasEmployee(emps: seq<Employee>, employee_id: string)
  {
    exists e :: e in emps && e.employee_id == employee_id
  }

  /** `attendance.employee_id` is a foreign key to `employees.employee_id`. */
  ghost predicate ForeignKeysHold(emps: seq<Employee>, att: seq<Attendance>)
  {
    forall a :: a in att ==> HasEmployee(emps, a.employee_id)
  }

  /** The constraints the two table declarations state. */
  ghost predicate DeclaredConstraints(emps: seq<Employee>, att: seq<Attendance>)
  {
    UniqueEmployeeIds(emps) && UniqueEmails(emps) && ForeignKeysHold(emps, att)
  }

  /** At most one attendance row per (employee_id, date). */
  ghost predicate OneRecordPerDay(att: seq<Attendance>)
  {
    forall i, j :: 0 <= i < j < |att| ==>
      !(att[i].employee_id == att[j].employee_id && att[i].date == att[j].date)
  }

  /**
   * The tables do not declare (employee_id, date) unique: two rows for one
   * employee and day satisfy every declared constraint.
   */
  lemma TablesAllowSameDayTwice()
    ensures var emps := [Employee("E1", "Ann", "ann@example.com", "Sales")];
            var att := [Attendance("E1", Date(2024, 3, 1), Present), Attendance("E1", Date(2024, 3, 1), Absent)];
            DeclaredConstraints(emps, att) && !OneRecordPerDay(att)
  {
    var emps := [Employee("E1", "Ann", "ann@example.com", "Sales")];
    assert HasEmployee(emps, "E1") by {
      assert emps[0] in emps;
    }
  }
}
