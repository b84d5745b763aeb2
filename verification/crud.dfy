/**
 * The record store behind the API: the `employees` and `attendance` tables
 * and the operations on them. Each operation is atomic (one commit); a raised
 * `ValueError` is an `Err` result and leaves both tables as they were.
 */
module Crud {
  import opened Wrappers
  import opened Dates
  import opened Seqs
  import opened Models
  import opened Schemas

  /** The `ValueError`s the operations raise, with the data their messages name. */
  datatype CrudError =
    | EmployeeIdExists(employee_id: string)
    | EmailExists(email: string)
    | EmployeeNotFound(employee_id: string)
    | AttendanceAlreadyMarked(date: Date)
    | StatusNotInEnum(status: string)

  /** The store's invariant: what every operation keeps. */
  ghost predicate StoreInvariant(emps: seq<Employee>, att: seq<Attendance>)
  {
    && DeclaredConstraints(emps, att)
    && OneRecordPerDay(att)
    && (forall e :: e in emps ==> ValidEmployeeCreate(e))
  }

  // ---------------------------------------------------------------------
  // Queries, as functions of the table contents

  /** The employee row with this `employee_id`, if any. */
  function FindEmployee(emps: seq<Employee>, employee_id: string): (r: Option<Employee>)
    ensures r.Some? ==> r.value in emps && r.value.employee_id == employee_id
    ensures r.None? <==> !HasEmployee(emps, employee_id)
  {
    FirstMatch(emps, (e: Employee) => e.employee_id == employee_id)
  }

  /** The employee row with this email, if any. */
  function FindByEmail(emps: seq<Employee>, email: string): (r: Option<Employee>)
    ensures r.Some? ==> r.value in emps && r.value.email == email
    ensures r.None? ==> forall e :: e in emps ==> e.email != email
  {
    FirstMatch(emps, (e: Employee) => e.email == email)
  }

  /** `OFFSET skip LIMIT limit` over the rows in table order. */
  function Page(emps: seq<Employee>, skip: nat, limit: nat): (r: seq<Employee>)
    ensures |r| <= limit
    ensures |r| == if skip >= |emps| then 0 else if |emps| - skip < limit then |emps| - skip else limit
    ensures forall i :: 0 <= i < |r| ==> r[i] == emps[skip + i]
  {
    if skip >= |emps| then []
    else if |emps| - skip < limit then emps[skip..]
    else emps[skip..skip + limit]
  }

  /** The attendance rows of one employee, in table order. */
  function AttendanceOf(att: seq<Attendance>, employee_id: string): (r: seq<Attendance>)
  {
    Filter(att, (a: Attendance) => a.employee_id == employee_id)
  }

  /** The attendance rows on one date, in table order. */
  function AttendanceOn(att: seq<Attendance>, date: Date): (r: seq<Attendance>)
  {
    Filter(att, (a: Attendance) => a.date == date)
  }

  /** The attendance rows of every employee but one, in table order. */
  function AttendanceNotOf(att: seq<Attendance>, employee_id: string): (r: seq<Attendance>)
  {
    Filter(att, (a: Attendance) => a.employee_id != employee_id)
  }

  /** The employee rows but the one with this `employee_id`, in table order. */
  function EmployeesNot(emps: seq<Employee>, employee_id: string): (r: seq<Employee>)
  {
    Filter(emps, (e: Employee) => e.employee_id != employee_id)
  }

  /** A row for this (employee_id, date) already exists. */
  function FindMarked(att: seq<Attendance>, employee_id: string, date: Date): (r: Option<Attendance>)
    ensures r.Some? ==> r.value in att && r.value.employee_id == employee_id && r.value.date == date
    ensures r.None? ==> forall a :: a in att ==> !(a.employee_id == employee_id && a.date == date)
  {
    FirstMatch(att, (a: Attendance) => a.employee_id == employee_id && a.date == date)
  }

  /** The by-employee query selects exactly that employee's rows, in order. */
  lemma AttendanceOfSpec(att: seq<Attendance>, employee_id: string)
    ensures forall a :: a in AttendanceOf(att, employee_id) <==> a in att && a.employee_id == employee_id
    ensures IsSubsequence(AttendanceOf(att, employee_id), att)
  {
    FilterIsSubsequence(att, (a: Attendance) => a.employee_id == employee_id);
  }

  /** The by-date query selects exactly the rows of that date, in order. */
  lemma AttendanceOnSpec(att: seq<Attendance>, date: Date)
    ensures forall a :: a in AttendanceOn(att, date) <==> a in att && a.date == date
    ensures IsSubsequence(AttendanceOn(att, date), att)
  {
    FilterIsSubsequence(att, (a: Attendance) => a.date == date);
  }

  /** The rows of one employee and the rows of the others partition the table. */
  lemma AttendancePartition(att: seq<Attendance>, employee_id: string)
    ensures |AttendanceOf(att, employee_id)| + |AttendanceNotOf(att, employee_id)| == |att|
  {
    CountSplit(att, (a: Attendance) => a.employee_id == employee_id, (a: Attendance) => a.employee_id != employee_id);
  }

  // ---------------------------------------------------------------------
  // The store

  class RecordStore {
    var employees: seq<Employee>
    var attendance: seq<Attendance>

    ghost predicate Valid()
      reads this
    {
      StoreInvariant(employees, attendance)
    }

    constructor ()
      ensures Valid() && employees == [] && attendance == []
    {
      employees := [];
      attendance := [];
    }

    /** `get_employee`: the employee with this id, or `None`. */
    function GetEmployee(employee_id: string): (r: Option<Employee>)
      reads this
      ensures r.Some? ==> r.value in employees && r.value.employee_id == employee_id
      ensures r.None? <==> !HasEmployee(employees, employee_id)
    {
      FindEmployee(employees, employee_id)
    }

    /** `get_employees`: at most `limit` employees, after skipping `skip`, in table order. */
    function GetEmployees(skip: nat, limit: nat): (r: seq<Employee>)
      reads this
      ensures |r| <= limit
      ensures |r| == if skip >= |employees| then 0 else if |employees| - skip < limit then |employees| - skip else limit
      ensures forall i :: 0 <= i < |r| ==> skip + i < |employees| && r[i] == employees[skip + i]
      ensures skip < |employees| && limit > 0 ==> r != []
    {
      Page(employees, skip, limit)
    }

    /** `get_attendance_by_employee`: exactly that employee's rows, in table order. */
    function GetAttendanceByEmployee(employee_id: string): (r: seq<Attendance>)
      reads this
      ensures forall a :: a in r <==> a in attendance && a.employee_id == employee_id
    {
      AttendanceOfSpec(attendance, employee_id);
      AttendanceOf(attendance, employee_id)
    }

    /** `get_attendance_by_date`: exactly the rows on that date, in table order. */
    function GetAttendanceByDate(date: Date): (r: seq<Attendance>)
      reads this
      ensures forall a :: a in r <==> a in attendance && a.date == date
    {
      AttendanceOnSpec(attendance, date);
      AttendanceOn(attendance, date)
    }

    /**
     * `create_employee`: rejects a taken employee id, then a taken email (so a
     * request duplicating both reports the id); otherwise appends one row.
     */
    method CreateEmployee(employee: Employee) returns (r: Result<Employee, CrudError>)
      requires Valid() && ValidEmployeeCreate(employee)
      modifies this
      ensures Valid()
      ensures attendance == old(attendance)
      ensures old(HasEmployee(employees, employee.employee_id)) ==>
                r == Err(EmployeeIdExists(employee.employee_id)) && employees == old(employees)
      ensures !old(HasEmployee(employees, employee.employee_id)) && old(FindByEmail(employees, employee.email)).Some? ==>
                r == Err(EmailExists(employee.email)) && employees == old(employees)
      ensures r.Ok? <==> !old(HasEmployee(employees, employee.employee_id)) && old(FindByEmail(employees, employee.email)).None?
      ensures r.Ok? ==> r.value == employee && employees == old(employees) + [employee]
      ensures r.Ok? ==> GetEmployee(employee.employee_id) == Some(employee)
    {
      if GetEmployee(employee.employee_id).Some? {
        return Err(EmployeeIdExists(employee.employee_id));
      }
      if FindByEmail(employees, employee.email).Some? {
        return Err(EmailExists(employee.email));
      }
      ghost var before := employees;
      employees := employees + [employee];
      r := Ok(employee);
      assert forall e :: e in before ==> e.employee_id != employee.employee_id;
      assert forall a :: a in attendance ==> HasEmployee(employees, a.employee_id) by {
        forall a | a in attendance ensures HasEmployee(employees, a.employee_id) {
          var e :| e in before && e.employee_id == a.employee_id;
          assert e in employees;
        }
      }
      assert FindEmployee(employees, employee.employee_id) == Some(employee) by {
        UniqueFind(employees, employee);
      }
    }

    /**
     * `delete_employee`: an unknown id raises "not found"; otherwise the
     * employee and every attendance row of theirs are removed, nothing else.
     */
    method DeleteEmployee(employee_id: string) returns (r: Result<bool, CrudError>)
      requires Valid()
      modifies this
      ensures Valid()
      ensures !old(HasEmployee(employees, employee_id)) ==>
                r == Err(EmployeeNotFound(employee_id))
                && employees == old(employees) && attendance == old(attendance)
      ensures old(HasEmployee(employees, employee_id)) ==>
                r == Ok(true)
                && employees == EmployeesNot(old(employees), employee_id)
                && attendance == AttendanceNotOf(old(attendance), employee_id)
      ensures !HasEmployee(employees, employee_id) && AttendanceOf(attendance, employee_id) == []
      ensures |employees| == |old(employees)| - (if old(HasEmployee(employees, employee_id)) then 1 else 0)
    {
      if GetEmployee(employee_id).None? {
        AttendanceOfNone(attendance, employee_id);
        return Err(EmployeeNotFound(employee_id));
      }
      ghost var emps, att := employees, attendance;
      attendance := AttendanceNotOf(attendance, employee_id);
      employees := EmployeesNot(employees, employee_id);
      r := Ok(true);
      RemovalKeepsInvariant(emps, att, employee_id);
      UniqueRemoveOne(emps, employee_id);
      AttendanceOfNone(attendance, employee_id);
    }

    /**
     * `create_attendance`: the employee must exist and have no row for that
     * date; the status must be a member of the enumeration, which the
     * `status` column checks when the row is written. On success one row is
     * appended.
     */
    method CreateAttendance(request: AttendanceRecord) returns (r: Result<Attendance, CrudError>)
      requires Valid()
      modifies this
      ensures Valid()
      ensures employees == old(employees)
      ensures !old(HasEmployee(employees, request.employee_id)) ==>
                r == Err(EmployeeNotFound(request.employee_id)) && attendance == old(attendance)
      ensures old(HasEmployee(employees, request.employee_id))
              && old(FindMarked(attendance, request.employee_id, request.date)).Some? ==>
                r == Err(AttendanceAlreadyMarked(request.date)) && attendance == old(attendance)
      ensures r.Ok? <==> old(HasEmployee(employees, request.employee_id))
                         && old(FindMarked(attendance, request.employee_id, request.date)).None?
                         && StatusFromValue(request.status).Some?
      ensures r.Ok? ==> ToResponse(r.value) == request && attendance == old(attendance) + [r.value]
      ensures r.Err? ==> attendance == old(attendance)
    {
      if GetEmployee(request.employee_id).None? {
        return Err(EmployeeNotFound(request.employee_id));
      }
      if FindMarked(attendance, request.employee_id, request.date).Some? {
        return Err(AttendanceAlreadyMarked(request.date));
      }
      var status := StatusFromValue(request.status);
      if status.None? {
        return Err(StatusNotInEnum(request.status));
      }
      var row := Attendance(request.employee_id, request.date, status.value);
      ghost var att := attendance;
      attendance := attendance + [row];
      r := Ok(row);
      assert forall i :: 0 <= i < |att| ==> att[i] in att;
    }
  }

  // ---------------------------------------------------------------------
  // Lemmas behind the store's methods

  /** With unique ids, the lookup finds the one row that has the id. */
  lemma UniqueFind(emps: seq<Employee>, e: Employee)
    requires UniqueEmployeeIds(emps) && e in emps
    ensures FindEmployee(emps, e.employee_id) == Some(e)
  {
    var r := FindEmployee(emps, e.employee_id);
    var i :| 0 <= i < |emps| && emps[i] == e;
    var j :| 0 <= j < |emps| && emps[j] == r.value;
  }

  /** An employee that does not exist has no attendance rows in a consistent store. */
  lemma AttendanceOfNone(att: seq<Attendance>, employee_id: string)
    requires forall a :: a in att ==> a.employee_id != employee_id
    ensures AttendanceOf(att, employee_id) == []
  {
    FilterAll(att, (a: Attendance) => a.employee_id != employee_id);
    AttendancePartition(att, employee_id);
  }

  /** With unique ids, removing an existing id removes exactly one row. */
  lemma UniqueRemoveOne(emps: seq<Employee>, employee_id: string)
    requires UniqueEmployeeIds(emps) && HasEmployee(emps, employee_id)
    ensures |EmployeesNot(emps, employee_id)| == |emps| - 1
  {
    var p := (e: Employee) => e.employee_id == employee_id;
    var q := (e: Employee) => e.employee_id != employee_id;
    CountSplit(emps, p, q);
    var e :| e in emps && e.employee_id == employee_id;
    UniqueCountOne(emps, employee_id);
  }

  lemma {:induction false} UniqueCountOne(emps: seq<Employee>, employee_id: string)
    requires UniqueEmployeeIds(emps)
    ensures |Filter(emps, (e: Employee) => e.employee_id == employee_id)| == if HasEmployee(emps, employee_id) then 1 else 0
  {
    if emps != [] {
      var init, last := emps[..|emps| - 1], emps[|emps| - 1];
      assert UniqueEmployeeIds(init);
      UniqueCountOne(init, employee_id);
      assert emps == init + [last];
      if HasEmployee(emps, employee_id) && last.employee_id != employee_id {
        var e :| e in emps && e.employee_id == employee_id;
        assert e in init;
      }
    }
  }

  /** Removing an employee together with their attendance rows keeps the invariant. */
  lemma RemovalKeepsInvariant(emps: seq<Employee>, att: seq<Attendance>, employee_id: string)
    requires StoreInvariant(emps, att)
    ensures StoreInvariant(EmployeesNot(emps, employee_id), AttendanceNotOf(att, employee_id))
  {
    var emps', att' := EmployeesNot(emps, employee_id), AttendanceNotOf(att, employee_id);
    FilterKeepsUniqueIds(emps, (e: Employee) => e.employee_id != employee_id);
    FilterKeepsUniqueEmails(emps, (e: Employee) => e.employee_id != employee_id);
    FilterKeepsOnePerDay(att, (a: Attendance) => a.employee_id != employee_id);
    forall a | a in att' ensures HasEmployee(emps', a.employee_id) {
      var e :| e in emps && e.employee_id == a.employee_id;
      assert e in emps';
    }
  }

  lemma {:induction false} FilterKeepsUniqueIds(emps: seq<Employee>, p: Employee -> bool)
    requires UniqueEmployeeIds(emps)
    ensures UniqueEmployeeIds(Filter(emps, p))
  {
    if emps != [] {
      var init, last := emps[..|emps| - 1], emps[|emps| - 1];
      FilterKeepsUniqueIds(init, p);
      forall e | e in Filter(init, p) ensures e.employee_id != last.employee_id {
        var i :| 0 <= i < |init| && init[i] == e;
        assert emps[i] == e;
      }
    }
  }

  lemma {:induction false} FilterKeepsUniqueEmails(emps: seq<Employee>, p: Employee -> bool)
    requires UniqueEmails(emps)
    ensures UniqueEmails(Filter(emps, p))
  {
    if emps != [] {
      var init, last := emps[..|emps| - 1], emps[|emps| - 1];
      FilterKeepsUniqueEmails(init, p);
      forall e | e in Filter(init, p) ensures e.email != last.email {
        var i :| 0 <= i < |init| && init[i] == e;
        assert emps[i] == e;
      }
    }
  }

  lemma {:induction false} FilterKeepsOnePerDay(att: seq<Attendance>, p: Attendance -> bool)
    requires OneRecordPerDay(att)
    ensures OneRecordPerDay(Filter(att, p))
  {
    if att != [] {
      var init, last := att[..|att| - 1], att[|att| - 1];
      FilterKeepsOnePerDay(init, p);
      var f := Filter(init, p);
      forall a | a in f ensures !(a.employee_id == last.employee_id && a.date == last.date) {
        var i :| 0 <= i < |init| && init[i] == a;
        assert att[i] == a;
      }
    }
  }
}
