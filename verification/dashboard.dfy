/**
 * The dashboard: the employee count, today's present and absent counts, and
 * the first employees of the list. The two lists it fetches are passed in;
 * the store-level functions say which lists those are.
 */
module Dashboard {
  import opened Seqs
  import opened Dates
  import opened Models
  import opened Schemas
  import Crud
  import AttendanceList

  datatype Stats = Stats(totalEmployees: nat, todayPresent: nat, todayAbsent: int)

  datatype DashboardData = DashboardData(stats: Stats, recentEmployees: seq<Employee>)

  /** How many employees the dashboard lists. */
  const RecentCount: nat := 5

  /** The page size the employee listing uses when the request names none. */
  const ListLimit: nat := 100

  /**
   * The dashboard from the two fetched lists: every employee not counted
   * present today counts as absent, marked or not.
   */
  function ComputeDashboard(employees: seq<Employee>, todayAttendance: seq<AttendanceRecord>): (d: DashboardData)
  {
    var present := Count(todayAttendance, AttendanceList.HasStatus("Present"));
    DashboardData(
      Stats(|employees|, present, |employees| - present),
      employees[..if |employees| < RecentCount then |employees| else RecentCount])
  }

  /**
   * Present is the number of today's "Present" records; present and absent
   * add up to the employee count; the recent employees are the first
   * min(5, n) employees, in list order.
   */
  lemma ComputeDashboardSpec(employees: seq<Employee>, todayAttendance: seq<AttendanceRecord>)
    ensures var d := ComputeDashboard(employees, todayAttendance);
            && d.stats.totalEmployees == |employees|
            && d.stats.todayPresent == Count(todayAttendance, AttendanceList.HasStatus("Present"))
            && d.stats.todayPresent + d.stats.todayAbsent == d.stats.totalEmployees
            && d.stats.todayPresent <= |todayAttendance|
            && |d.recentEmployees| == (if |employees| < RecentCount then |employees| else RecentCount)
            && d.recentEmployees <= employees
  {
  }

  /** With no record today, every employee counts as absent. */
  lemma NoRecordsAllAbsent(employees: seq<Employee>)
    ensures ComputeDashboard(employees, []).stats.todayAbsent == |employees|
  {
  }

  // ---------------------------------------------------------------------
  // Counting distinct ids

  /** The set of employee ids of a list. */
  function IdSet(emps: seq<Employee>): (ids: set<string>)
    ensures |ids| <= |emps|
    ensures forall id :: id in ids <==> HasEmployee(emps, id)
  {
    if emps == [] then {}
    else
      var init, last := emps[..|emps| - 1], emps[|emps| - 1];
      assert emps == init + [last];
      assert forall id :: HasEmployee(emps, id) <==> HasEmployee(init, id) || id == last.employee_id;
      IdSet(init) + {last.employee_id}
  }

  /** Distinct values drawn from a set are no more than the set holds. */
  lemma {:induction false} DistinctWithin(ids: seq<string>, universe: set<string>)
    requires NoDuplicates(ids)
    requires forall i :: 0 <= i < |ids| ==> ids[i] in universe
    ensures |ids| <= |universe|
  {
    if ids != [] {
      var init, last := ids[..|ids| - 1], ids[|ids| - 1];
      forall i | 0 <= i < |init| ensures init[i] in universe - {last} {
        assert init[i] == ids[i];
      }
      DistinctWithin(init, universe - {last});
    }
  }

  /**
   * In a store that keeps its invariant, the rows of one date belong to
   * distinct existing employees, so there are no more of them than employees.
   */
  lemma RowsOfDayBound(emps: seq<Employee>, att: seq<Attendance>, date: Date)
    requires Crud.StoreInvariant(emps, att)
    ensures |Crud.AttendanceOn(att, date)| <= |emps|
  {
    var rows := Crud.AttendanceOn(att, date);
    Crud.AttendanceOnSpec(att, date);
    Crud.FilterKeepsOnePerDay(att, (a: Attendance) => a.date == date);
    var ids := seq(|rows|, i requires 0 <= i < |rows| => rows[i].employee_id);
    forall i, j | 0 <= i < j < |ids| ensures ids[i] != ids[j] {
      assert rows[i] in rows && rows[j] in rows;
    }
    forall i | 0 <= i < |ids| ensures ids[i] in IdSet(emps) {
      assert rows[i] in rows;
    }
    DistinctWithin(ids, IdSet(emps));
  }

  // ---------------------------------------------------------------------
  // The dashboard over the store

  /**
   * The dashboard as the page builds it: the employee list is the default
   * listing, which stops at the first `ListLimit` employees, while today's
   * records are all of them.
   */
  function StoreDashboardAsWritten(emps: seq<Employee>, att: seq<Attendance>, today: Date): (d: DashboardData)
  {
    ComputeDashboard(Crud.Page(emps, 0, ListLimit), ToResponses(Crud.AttendanceOn(att, today)))
  }

  /**
   * With more than `ListLimit` employees all marked present today, the page
   * shows `ListLimit` employees and a negative absent count.
   */
  lemma DashboardUndercounts(emps: seq<Employee>, att: seq<Attendance>, today: Date)
    requires |emps| > ListLimit
    requires Count(ToResponses(Crud.AttendanceOn(att, today)), AttendanceList.HasStatus("Present")) == |emps|
    ensures StoreDashboardAsWritten(emps, att, today).stats.totalEmployees == ListLimit
    ensures StoreDashboardAsWritten(emps, att, today).stats.todayAbsent == ListLimit - |emps| < 0
  {
  }

  /** The dashboard over every employee of the store. */
  function StoreDashboard(emps: seq<Employee>, att: seq<Attendance>, today: Date): (d: DashboardData)
  {
    ComputeDashboard(emps, ToResponses(Crud.AttendanceOn(att, today)))
  }

  /**
   * Over a store that keeps its invariant, the dashboard counts every
   * employee and its absent count is never negative.
   */
  lemma StoreDashboardSound(emps: seq<Employee>, att: seq<Attendance>, today: Date)
    requires Crud.StoreInvariant(emps, att)
    ensures StoreDashboard(emps, att, today).stats.totalEmployees == |emps|
    ensures 0 <= StoreDashboard(emps, att, today).stats.todayAbsent <= |emps|
  {
    RowsOfDayBound(emps, att, today);
    ComputeDashboardSpec(emps, ToResponses(Crud.AttendanceOn(att, today)));
  }

  /** Up to `ListLimit` employees, the page's dashboard is the dashboard over every employee. */
  lemma DashboardAgreesUpToLimit(emps: seq<Employee>, att: seq<Attendance>, today: Date)
    requires |emps| <= ListLimit
    ensures StoreDashboardAsWritten(emps, att, today) == StoreDashboard(emps, att, today)
  {
    assert Crud.Page(emps, 0, ListLimit) == emps;
  }
}
