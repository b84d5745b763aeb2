/**
 * The employee table view: the department choices, the rows kept by the
 * search box and the department filter, sorted by the chosen column, and the
 * column-header clicks that choose the sort. The search text, the department
 * filter and the sort state are passed in.
 */
module EmployeeList {
  import opened Wrappers
  import opened Text
  import opened Seqs
  import opened Sorting
  import opened Models

  // ---------------------------------------------------------------------
  // Department choices

  /** `employees.map(e => e.department)`. */
  function DepartmentsOf(employees: seq<Employee>): (ds: seq<string>)
    ensures |ds| == |employees|
    ensures forall i :: 0 <= i < |employees| ==> ds[i] == employees[i].department
  {
    seq(|employees|, i requires 0 <= i < |employees| => employees[i].department)
  }

  /** The default order of `sort()` on strings. */
  function StringOrder(): (string, string) -> bool
  {
    (a: string, b: string) => StrLe(a, b)
  }

  /** `[...new Set(employees.map(e => e.department))].sort()`. */
  function Departments(employees: seq<Employee>): (ds: seq<string>)
  {
    SortBy(Dedup(DepartmentsOf(employees)), StringOrder())
  }

  /**
   * The department choices are exactly the departments that occur, each once,
   * in strictly increasing string order.
   */
  lemma DepartmentsSpec(employees: seq<Employee>)
    ensures forall d :: d in Departments(employees) <==> exists e :: e in employees && e.department == d
    ensures forall i, j :: 0 <= i < j < |Departments(employees)| ==>
              StrLt(Departments(employees)[i], Departments(employees)[j])
  {
    var all := DepartmentsOf(employees);
    var unique := Dedup(all);
    var ds := Departments(employees);
    DedupSpec(all);
    NoDuplicatesPermutation(unique, ds);
    forall d ensures d in ds <==> exists e :: e in employees && e.department == d {
      assert d in ds <==> d in multiset(unique);
      if d in all {
        var i :| 0 <= i < |all| && all[i] == d;
        assert employees[i] in employees;
      }
      if e :| e in employees && e.department == d {
        var i :| 0 <= i < |employees| && employees[i] == e;
        assert all[i] == d;
      }
    }
    forall a, b, c: string ensures StrLe(a, b) || StrLe(b, a)
                             ensures StrLe(a, b) && StrLe(b, c) ==> StrLe(a, c) {
      StrLeTotalOrder(a, b, c);
    }
    SortBySorted(unique, StringOrder());
    forall i, j | 0 <= i < j < |ds| ensures StrLt(ds[i], ds[j]) {
      StrLtTrichotomy(ds[i], ds[j]);
    }
  }

  // ---------------------------------------------------------------------
  // Filtering

  /** The search text occurs, ignoring case, in the name, the id or the email. */
  predicate MatchesSearch(e: Employee, searchTerm: string)
  {
    || ContainsIgnoringCase(e.full_name, searchTerm)
    || ContainsIgnoringCase(e.employee_id, searchTerm)
    || ContainsIgnoringCase(e.email, searchTerm)
  }

  /** The search and, when one is chosen, the department. */
  predicate Matches(e: Employee, searchTerm: string, filterDepartment: string)
  {
    MatchesSearch(e, searchTerm) && (filterDepartment == "" || e.department == filterDepartment)
  }

  function FilterEmployees(employees: seq<Employee>, searchTerm: string, filterDepartment: string): (rows: seq<Employee>)
  {
    Filter(employees, (e: Employee) => Matches(e, searchTerm, filterDepartment))
  }

  /** The empty search text occurs in every field, so with no department chosen every employee is kept. */
  lemma EmptySearchKeepsAll(employees: seq<Employee>)
    ensures FilterEmployees(employees, "", "") == employees
  {
    forall e | e in employees ensures Matches(e, "", "") {
      ContainsTrivial(ToLower(e.full_name));
    }
    FilterAll(employees, (e: Employee) => Matches(e, "", ""));
  }

  // ---------------------------------------------------------------------
  // Sorting

  /** The sortable columns. */
  datatype SortField = EmployeeId | FullName | Email | Department

  datatype Direction = Asc | Desc

  datatype SortState = SortState(field: SortField, direction: Direction)

  const InitialSort := SortState(EmployeeId, Asc)

  function FieldValue(e: Employee, field: SortField): string
  {
    match field
    case EmployeeId => e.employee_id
    case FullName => e.full_name
    case Email => e.email
    case Department => e.department
  }

  /** The lower-cased value the comparator compares. */
  function SortKey(e: Employee, field: SortField): string
  {
    ToLower(FieldValue(e, field))
  }

  /**
   * The comparator: ascending returns 1 when `a`'s key is greater and -1
   * otherwise; descending returns 1 when `a`'s key is smaller and -1
   * otherwise. It never returns 0.
   */
  function Compare(a: Employee, b: Employee, sort: SortState): int
  {
    var ka, kb := SortKey(a, sort.field), SortKey(b, sort.field);
    if sort.direction == Asc then (if StrLt(kb, ka) then 1 else -1)
    else (if StrLt(ka, kb) then 1 else -1)
  }

  /**
   * The comparator is antisymmetric on different keys, but on equal keys it
   * answers -1 both ways: it is not a consistent comparator there.
   */
  lemma CompareOnTies(a: Employee, b: Employee, sort: SortState)
    ensures Compare(a, b, sort) != 0
    ensures SortKey(a, sort.field) != SortKey(b, sort.field) ==> Compare(a, b, sort) == -Compare(b, a, sort)
    ensures SortKey(a, sort.field) == SortKey(b, sort.field) ==> Compare(a, b, sort) == Compare(b, a, sort) == -1
  {
    StrLtTrichotomy(SortKey(a, sort.field), SortKey(b, sort.field));
    StrLtIrreflexive(SortKey(a, sort.field));
  }

  function Precedes(sort: SortState): (Employee, Employee) -> bool
  {
    (a: Employee, b: Employee) => Compare(a, b, sort) <= 0
  }

  lemma ComparatorIsPreorder(sort: SortState)
    ensures TotalPreorder(Precedes(sort))
  {
    forall a, b ensures Precedes(sort)(a, b) || Precedes(sort)(b, a) {
      StrLtTrichotomy(SortKey(a, sort.field), SortKey(b, sort.field));
    }
    forall a, b, c | Precedes(sort)(a, b) && Precedes(sort)(b, c) ensures Precedes(sort)(a, c) {
      StrLeTotalOrder(SortKey(a, sort.field), SortKey(b, sort.field), SortKey(c, sort.field));
      StrLeTotalOrder(SortKey(c, sort.field), SortKey(b, sort.field), SortKey(a, sort.field));
    }
  }

  /** Under the comparator, a row that may come first has the smaller (or, descending, larger) key. */
  lemma PrecedesOrdersKeys(a: Employee, b: Employee, sort: SortState)
    requires Precedes(sort)(a, b)
    ensures if sort.direction == Asc then StrLe(SortKey(a, sort.field), SortKey(b, sort.field))
            else StrLe(SortKey(b, sort.field), SortKey(a, sort.field))
  {
  }

  /** The rows the table shows. */
  function ShownEmployees(employees: seq<Employee>, searchTerm: string, filterDepartment: string, sort: SortState): (rows: seq<Employee>)
  {
    SortBy(FilterEmployees(employees, searchTerm, filterDepartment), Precedes(sort))
  }

  /**
   * The rows shown are the matching employees, each as often as in the input,
   * ordered by the lower-cased key of the sort column in the chosen direction.
   */
  lemma ShownEmployeesSpec(employees: seq<Employee>, searchTerm: string, filterDepartment: string, sort: SortState)
    ensures var rows := ShownEmployees(employees, searchTerm, filterDepartment, sort);
            && multiset(rows) == multiset(FilterEmployees(employees, searchTerm, filterDepartment))
            && |rows| <= |employees|
            && (forall e :: e in rows <==> e in employees && Matches(e, searchTerm, filterDepartment))
            && (forall i, j :: 0 <= i < j < |rows| ==>
                  if sort.direction == Asc then StrLe(SortKey(rows[i], sort.field), SortKey(rows[j], sort.field))
                  else StrLe(SortKey(rows[j], sort.field), SortKey(rows[i], sort.field)))
  {
    var filtered := FilterEmployees(employees, searchTerm, filterDepartment);
    var rows := ShownEmployees(employees, searchTerm, filterDepartment, sort);
    forall e ensures e in rows <==> e in filtered {
      assert e in rows <==> e in multiset(filtered);
    }
    ComparatorIsPreorder(sort);
    SortBySorted(filtered, Precedes(sort));
    forall i, j | 0 <= i < j < |rows|
      ensures if sort.direction == Asc then StrLe(SortKey(rows[i], sort.field), SortKey(rows[j], sort.field))
              else StrLe(SortKey(rows[j], sort.field), SortKey(rows[i], sort.field))
    {
      PrecedesOrdersKeys(rows[i], rows[j], sort);
    }
  }

  /** `handleSort`: the same column flips the direction; another column sorts ascending by it. */
  function HandleSort(sort: SortState, field: SortField): (next: SortState)
  {
    if sort.field == field then SortState(field, if sort.direction == Asc then Desc else Asc)
    else SortState(field, Asc)
  }

  /** A click always selects its column; a second click on it restores the direction before. */
  lemma HandleSortToggles(sort: SortState, field: SortField)
    ensures HandleSort(sort, field).field == field
    ensures sort.field != field ==> HandleSort(sort, field).direction == Asc
    ensures sort.field == field ==> HandleSort(sort, field).direction != sort.direction
    ensures HandleSort(HandleSort(sort, field), field).field == field
    ensures sort.field == field ==> HandleSort(HandleSort(sort, field), field) == sort
  {
  }

  // ---------------------------------------------------------------------
  // The whole view

  datatype View = View(departments: seq<string>, rows: seq<Employee>)

  /** Nothing but the empty-state panel for no employees; otherwise the choices and the rows. */
  function EmployeeView(employees: seq<Employee>, searchTerm: string, filterDepartment: string, sort: SortState): (v: Option<View>)
  {
    if employees == [] then None
    else Some(View(Departments(employees), ShownEmployees(employees, searchTerm, filterDepartment, sort)))
  }

  /**
   * A department chosen from the offered list selects a non-empty set of rows
   * when the search is empty: every offered department has an employee.
   */
  lemma ChosenDepartmentIsShown(employees: seq<Employee>, department: string, sort: SortState)
    requires department in Departments(employees)
    ensures exists e :: e in ShownEmployees(employees, "", department, sort) && e.department == department
  {
    DepartmentsSpec(employees);
    var e :| e in employees && e.department == department;
    ContainsTrivial(ToLower(e.full_name));
    ShownEmployeesSpec(employees, "", department, sort);
    assert e in ShownEmployees(employees, "", department, sort);
  }
}
