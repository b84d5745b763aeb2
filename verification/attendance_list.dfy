/**
 * The attendance table view: summary statistics over every record, then the
 * records kept by the search, status and date-range filters, sorted by the
 * chosen column. Component state (search term, filters, sort configuration)
 * and the current date are passed in.
 */
module AttendanceList {
  import opened Wrappers
  import opened Text
  import opened Dates
  import opened Seqs
  import opened Sorting
  import Models
  import opened Schemas

  // ---------------------------------------------------------------------
  // Statistics

  datatype Statistics = Statistics(totalDays: nat, presentDays: nat, absentDays: nat, attendanceRate: nat)

  /** The records whose status is exactly `status`. */
  function HasStatus(status: string): AttendanceRecord -> bool
  {
    (r: AttendanceRecord) => r.status == status
  }

  /**
   * `Math.round((part / total) * 100)` when `total > 0`, else 0, in exact
   * arithmetic: the integer nearest to 100·part/total, a half rounding up.
   */
  function RoundedPercent(part: nat, total: nat): (r: nat)
    ensures total == 0 ==> r == 0
    ensures total > 0 ==> 200 * part - total < 2 * total * r <= 200 * part + total
    ensures part <= total ==> r <= 100
  {
    if total > 0 then
      HalfUpBounds(200 * part + total, 2 * total);
      (200 * part + total) / (2 * total)
    else 0
  }

  /** Euclidean division by a positive divisor brackets the dividend. */
  lemma HalfUpBounds(n: nat, d: nat)
    requires d > 0
    ensures d * (n / d) <= n < d * (n / d) + d
    ensures n < d * 101 ==> n / d <= 100
  {
    var q, m := n / d, n % d;
    assert n == d * q + m && 0 <= m < d;
    if q > 100 {
      assert d * q == d * 101 + d * (q - 101);
    }
  }

  /** The four summary cards, computed from the whole list. */
  function ComputeStatistics(attendance: seq<AttendanceRecord>): (st: Statistics)
    ensures st.totalDays == |attendance|
    ensures st.presentDays == Count(attendance, HasStatus("Present"))
    ensures st.absentDays == Count(attendance, HasStatus("Absent"))
    ensures st.attendanceRate == RoundedPercent(st.presentDays, st.totalDays)
    ensures st.presentDays + st.absentDays <= st.totalDays
    ensures st.attendanceRate <= 100
    ensures st.totalDays == 0 ==> st.attendanceRate == 0
  {
    var present := Count(attendance, HasStatus("Present"));
    var absent := Count(attendance, HasStatus("Absent"));
    CountDisjoint(attendance, HasStatus("Present"), HasStatus("Absent"));
    Statistics(|attendance|, present, absent, RoundedPercent(present, |attendance|))
  }

  /** When every status is "Present" or "Absent", the two counts add up to the total. */
  lemma StatisticsAddUp(attendance: seq<AttendanceRecord>)
    requires forall r :: r in attendance ==> r.status == "Present" || r.status == "Absent"
    ensures ComputeStatistics(attendance).presentDays + ComputeStatistics(attendance).absentDays
            == ComputeStatistics(attendance).totalDays
  {
    CountSplit(attendance, HasStatus("Present"), HasStatus("Absent"));
  }

  /** Records served from the store always have a status of the enumeration, so the counts add up. */
  lemma StoreRowsAddUp(rows: seq<Models.Attendance>)
    ensures var st := ComputeStatistics(ToResponses(rows));
            st.presentDays + st.absentDays == st.totalDays
  {
    var records := ToResponses(rows);
    forall r | r in records ensures r.status == "Present" || r.status == "Absent" {
      var i :| 0 <= i < |records| && records[i] == r;
      Models.StatusValues(rows[i].status, r.status);
    }
    StatisticsAddUp(records);
  }

  // ---------------------------------------------------------------------
  // Filtering

  /** The date-range choices; any value the select does not offer behaves as "all". */
  datatype DateRange = AllTime | Today | Yesterday | ThisWeek | ThisMonth | LastMonth

  function ParseDateRange(value: string): (r: DateRange)
    ensures r == AllTime <==>
            value !in {"today", "yesterday", "thisWeek", "thisMonth", "lastMonth"}
  {
    if value == "today" then Today
    else if value == "yesterday" then Yesterday
    else if value == "thisWeek" then ThisWeek
    else if value == "thisMonth" then ThisMonth
    else if value == "lastMonth" then LastMonth
    else AllTime
  }

  /** The filter controls: search text, status ("" for all) and date-range value. */
  datatype FilterState = FilterState(searchTerm: string, filterStatus: string, filterDateRange: string)

  /** The controls as the view first shows them. */
  const InitialFilters := FilterState("", "", "all")

  /** The calendar month before the month of `today`, as (year, month). */
  function PreviousMonth(today: Date): (ym: (int, int))
    ensures 1 <= today.month <= 12 ==>
              1 <= ym.1 <= 12 && ym.0 * 12 + ym.1 == today.year * 12 + today.month - 1
  {
    if today.month == 1 then (today.year - 1, 12) else (today.year, today.month - 1)
  }

  /**
   * `d.setMonth(d.getMonth() - 1)` on today's date, as JavaScript does it:
   * the day of the month is kept, and when the earlier month is too short for
   * it the date rolls over into the month after, which is today's month.
   */
  function JsMonthBack(today: Date): (d: Date)
  {
    var (y, m) := PreviousMonth(today);
    if today.day <= DaysInMonth(y, m) then Date(y, m, today.day)
    else Date(today.year, today.month, today.day - DaysInMonth(y, m))
  }

  /** `isSameMonth(record, lastMonth)` as the view computes `lastMonth`. */
  predicate InLastMonthAsWritten(d: Date, today: Date)
  {
    var back := JsMonthBack(today);
    d.year == back.year && d.month == back.month
  }

  /** The "Last Month" range: the calendar month before today's. */
  predicate InLastMonth(d: Date, today: Date)
  {
    (d.year, d.month) == PreviousMonth(today)
  }

  /**
   * On the 31st of March, the view's "last month" is March itself: a record
   * of the 15th of March is kept and one of the 10th of February is not.
   */
  lemma LastMonthOverflows()
    ensures JsMonthBack(Date(2024, 3, 31)) == Date(2024, 3, 2)
    ensures InLastMonthAsWritten(Date(2024, 3, 15), Date(2024, 3, 31))
    ensures !InLastMonthAsWritten(Date(2024, 2, 10), Date(2024, 3, 31))
    ensures InLastMonth(Date(2024, 2, 10), Date(2024, 3, 31))
    ensures !InLastMonth(Date(2024, 3, 15), Date(2024, 3, 31))
  {
  }

  /** The view's computation and the calendar month agree when the day fits the earlier month. */
  lemma LastMonthAgreesWhenDayFits(d: Date, today: Date)
    requires today.day <= DaysInMonth(PreviousMonth(today).0, PreviousMonth(today).1)
    ensures InLastMonthAsWritten(d, today) <==> InLastMonth(d, today)
  {
  }

  /** On days the earlier month lacks, the view's "last month" is today's month. */
  lemma LastMonthAsWrittenIsThisMonth(d: Date, today: Date)
    requires ValidDate(today)
    requires today.day > DaysInMonth(PreviousMonth(today).0, PreviousMonth(today).1)
    ensures InLastMonthAsWritten(d, today) <==> d.year == today.year && d.month == today.month
    ensures InLastMonthAsWritten(d, today) ==> !InLastMonth(d, today)
  {
  }

  /**
   * Whether a record's date falls in the chosen range, relative to `today`, as
   * the view decides it: "last month" is the month of `JsMonthBack(today)`.
   */
  predicate InDateRange(d: Date, range: DateRange, today: Date)
  {
    match range
    case AllTime => true
    case Today => d == today
    case Yesterday => DayNumber(d) == DayNumber(today) - 1
    case ThisWeek => StartOfWeek(d) == StartOfWeek(today)
    case ThisMonth => d.year == today.year && d.month == today.month
    case LastMonth => InLastMonthAsWritten(d, today)
  }

  /** The search and status filters, which come before the date range. */
  predicate MatchesSearchAndStatus(r: AttendanceRecord, f: FilterState)
  {
    && (f.searchTerm == "" || ContainsIgnoringCase(r.employee_id, f.searchTerm))
    && (f.filterStatus == "" || r.status == f.filterStatus)
  }

  /** The three filters, applied in the view's order: search, status, date range. */
  predicate Matches(r: AttendanceRecord, f: FilterState, today: Date)
  {
    MatchesSearchAndStatus(r, f) && InDateRange(r.date, ParseDateRange(f.filterDateRange), today)
  }

  /** The filtered list the view computes. */
  function FilterAttendance(attendance: seq<AttendanceRecord>, f: FilterState, today: Date): (rows: seq<AttendanceRecord>)
  {
    Filter(attendance, (r: AttendanceRecord) => Matches(r, f, today))
  }

  /** The date ranges with "last month" read as the calendar month before today's. */
  predicate InDateRangeIntended(d: Date, range: DateRange, today: Date)
  {
    if range == LastMonth then InLastMonth(d, today) else InDateRange(d, range, today)
  }

  /** The filters with the intended "last month". */
  predicate MatchesIntended(r: AttendanceRecord, f: FilterState, today: Date)
  {
    MatchesSearchAndStatus(r, f) && InDateRangeIntended(r.date, ParseDateRange(f.filterDateRange), today)
  }

  /** The filtered list with the intended "last month". */
  function FilterAttendanceIntended(attendance: seq<AttendanceRecord>, f: FilterState, today: Date): (rows: seq<AttendanceRecord>)
  {
    Filter(attendance, (r: AttendanceRecord) => MatchesIntended(r, f, today))
  }

  /**
   * The intended filter keeps, in order, exactly the records that pass the
   * search and status filters and, for "lastMonth", fall in the calendar month
   * before today's. It agrees with the view's filter on every other range, and
   * on "lastMonth" whenever today's day exists in the month before.
   */
  lemma FilterAttendanceIntendedSpec(attendance: seq<AttendanceRecord>, f: FilterState, today: Date)
    ensures IsSubsequence(FilterAttendanceIntended(attendance, f, today), attendance)
    ensures ParseDateRange(f.filterDateRange) == LastMonth ==>
              forall r :: r in FilterAttendanceIntended(attendance, f, today) <==>
                r in attendance && MatchesSearchAndStatus(r, f) && (r.date.year, r.date.month) == PreviousMonth(today)
    ensures ParseDateRange(f.filterDateRange) != LastMonth
            || today.day <= DaysInMonth(PreviousMonth(today).0, PreviousMonth(today).1) ==>
              FilterAttendanceIntended(attendance, f, today) == FilterAttendance(attendance, f, today)
  {
    var p := (r: AttendanceRecord) => MatchesIntended(r, f, today);
    var q := (r: AttendanceRecord) => Matches(r, f, today);
    FilterIsSubsequence(attendance, p);
    if ParseDateRange(f.filterDateRange) != LastMonth
       || today.day <= DaysInMonth(PreviousMonth(today).0, PreviousMonth(today).1) {
      forall r | r in attendance ensures p(r) == q(r) {
        if ParseDateRange(f.filterDateRange) == LastMonth {
          LastMonthAgreesWhenDayFits(r.date, today);
        }
      }
      FilterCongruent(attendance, p, q);
    }
  }

  /**
   * On the 31st of March, with the "lastMonth" range, the view keeps a record
   * of the 15th of March and drops one of the 10th of February; the intended
   * filter does the reverse.
   */
  lemma LastMonthFilterAsWritten()
    ensures var march, february := AttendanceRecord("E1", Date(2024, 3, 15), "Present"),
                                   AttendanceRecord("E1", Date(2024, 2, 10), "Present");
            var f := FilterState("", "", "lastMonth");
            && FilterAttendance([february, march], f, Date(2024, 3, 31)) == [march]
            && FilterAttendanceIntended([february, march], f, Date(2024, 3, 31)) == [february]
  {
    var march, february := AttendanceRecord("E1", Date(2024, 3, 15), "Present"),
                           AttendanceRecord("E1", Date(2024, 2, 10), "Present");
    var f := FilterState("", "", "lastMonth");
    var today := Date(2024, 3, 31);
    LastMonthOverflows();
    assert ParseDateRange(f.filterDateRange) == LastMonth;
    assert Matches(march, f, today) && !Matches(february, f, today);
    assert MatchesIntended(february, f, today) && !MatchesIntended(march, f, today);
    assert [february, march][..1] == [february];
    assert [february][..0] == [];
    var shown := (r: AttendanceRecord) => Matches(r, f, today);
    var intended := (r: AttendanceRecord) => MatchesIntended(r, f, today);
    assert Filter([february], shown) == [] && Filter([february], intended) == [february];
    assert Filter([february, march], shown) == [march];
    assert Filter([february, march], intended) == [february];
  }

  /**
   * The filtered rows are an order-preserving subsequence of the input; every
   * kept record's id contains the search term ignoring case and its status is
   * the chosen one, if any.
   */
  lemma FilterAttendanceSpec(attendance: seq<AttendanceRecord>, f: FilterState, today: Date)
    ensures IsSubsequence(FilterAttendance(attendance, f, today), attendance)
    ensures forall r :: r in FilterAttendance(attendance, f, today) <==> r in attendance && Matches(r, f, today)
    ensures forall r :: r in FilterAttendance(attendance, f, today) ==>
              ContainsIgnoringCase(r.employee_id, f.searchTerm)
              && (f.filterStatus != "" ==> r.status == f.filterStatus)
  {
    FilterIsSubsequence(attendance, (r: AttendanceRecord) => Matches(r, f, today));
    forall r | r in FilterAttendance(attendance, f, today)
      ensures ContainsIgnoringCase(r.employee_id, f.searchTerm)
    {
      ContainsTrivial(ToLower(r.employee_id));
    }
  }

  /** With no search, no status and the "all" range (or any unknown value), every record is kept. */
  lemma NoFilterKeepsAll(attendance: seq<AttendanceRecord>, f: FilterState, today: Date)
    requires f.searchTerm == "" && f.filterStatus == ""
    requires f.filterDateRange !in {"today", "yesterday", "thisWeek", "thisMonth", "lastMonth"}
    ensures FilterAttendance(attendance, f, today) == attendance
  {
    FilterAll(attendance, (r: AttendanceRecord) => Matches(r, f, today));
  }

  /** A record of yesterday is never in today's range, and "this week" spans at most seven days. */
  lemma DateRangesConsistent(d: Date, today: Date)
    ensures InDateRange(d, Yesterday, today) ==> !InDateRange(d, Today, today)
    ensures InDateRange(d, ThisWeek, today) <==>
              StartOfWeek(today) <= DayNumber(d) < StartOfWeek(today) + 7
  {
    SameWeekIsSevenDays(d, today);
  }

  // ---------------------------------------------------------------------
  // Sorting

  datatype Direction = Asc | Desc

  /** The sort state: a column key ("date" or "status") and a direction. */
  datatype SortConfig = SortConfig(key: string, direction: Direction)

  const InitialSort := SortConfig("date", Desc)

  /**
   * The comparator: dates by timestamp difference, statuses by string order
   * (0 when equal), and 0 for any other key.
   */
  function Compare(a: AttendanceRecord, b: AttendanceRecord, config: SortConfig): int
  {
    if config.key == "date" then
      if config.direction == Asc then DayNumber(a.date) - DayNumber(b.date)
      else DayNumber(b.date) - DayNumber(a.date)
    else if config.key == "status" then
      if a.status == b.status then 0
      else if config.direction == Asc then (if StrLt(a.status, b.status) then -1 else 1)
      else (if StrLt(b.status, a.status) then -1 else 1)
    else 0
  }

  /** `a` may come before `b` under the comparator. */
  function Precedes(config: SortConfig): (AttendanceRecord, AttendanceRecord) -> bool
  {
    (a: AttendanceRecord, b: AttendanceRecord) => Compare(a, b, config) <= 0
  }

  /** `[...rows].sort(comparator)`: a stable sort of a copy. */
  function SortAttendance(rows: seq<AttendanceRecord>, config: SortConfig): (sorted: seq<AttendanceRecord>)
  {
    SortBy(rows, Precedes(config))
  }

  /** Descending is the exact reverse of ascending, for both keys; equal statuses compare 0. */
  lemma CompareReverses(a: AttendanceRecord, b: AttendanceRecord, key: string)
    ensures Compare(a, b, SortConfig(key, Desc)) == Compare(b, a, SortConfig(key, Asc))
    ensures Compare(a, b, SortConfig(key, Desc)) == -Compare(a, b, SortConfig(key, Asc))
    ensures key == "status" && a.status == b.status ==> Compare(a, b, SortConfig(key, Asc)) == 0
  {
    StrLtTrichotomy(a.status, b.status);
  }

  /** The comparator orders consistently, whatever the configuration. */
  lemma ComparatorIsPreorder(config: SortConfig)
    ensures TotalPreorder(Precedes(config))
  {
    var le := Precedes(config);
    forall a, b, c | le(a, b) && le(b, c) ensures le(a, c) {
      StrLtTrichotomy(a.status, b.status);
      StrLtTrichotomy(b.status, c.status);
      StrLtTrichotomy(a.status, c.status);
      if config.key == "status" {
        if a.status != b.status && b.status != c.status && a.status != c.status {
          if config.direction == Asc {
            StrLtTransitive(a.status, b.status, c.status);
          } else {
            StrLtTransitive(c.status, b.status, a.status);
          }
        }
      }
    }
    forall a, b ensures le(a, b) || le(b, a) {
      StrLtTrichotomy(a.status, b.status);
    }
  }

  /**
   * Sorting by date gives a permutation of the rows in ascending (or
   * descending) calendar order, and rows of one date keep their order.
   */
  lemma DateSortSpec(rows: seq<AttendanceRecord>, direction: Direction, d: Date)
    requires forall r :: r in rows ==> ValidDate(r.date)
    ensures var sorted := SortAttendance(rows, SortConfig("date", direction));
            && multiset(sorted) == multiset(rows)
            && (forall i, j :: 0 <= i < j < |sorted| ==>
                  if direction == Asc then !DateBefore(sorted[j].date, sorted[i].date)
                  else !DateBefore(sorted[i].date, sorted[j].date))
            && Filter(sorted, (r: AttendanceRecord) => r.date == d) == Filter(rows, (r: AttendanceRecord) => r.date == d)
  {
    var config := SortConfig("date", direction);
    var sorted := SortAttendance(rows, config);
    ComparatorIsPreorder(config);
    SortBySorted(rows, Precedes(config));
    SortByStable(rows, Precedes(config), (r: AttendanceRecord) => r.date == d);
    forall i, j | 0 <= i < j < |sorted|
      ensures if direction == Asc then !DateBefore(sorted[j].date, sorted[i].date)
              else !DateBefore(sorted[i].date, sorted[j].date)
    {
      assert sorted[i] in multiset(rows) && sorted[j] in multiset(rows);
      DayNumberOrder(sorted[i].date, sorted[j].date);
      DayNumberOrder(sorted[j].date, sorted[i].date);
    }
  }

  /** Sorting by status gives a permutation ordered by status, and equal statuses keep their order. */
  lemma StatusSortSpec(rows: seq<AttendanceRecord>, direction: Direction, status: string)
    ensures var sorted := SortAttendance(rows, SortConfig("status", direction));
            && multiset(sorted) == multiset(rows)
            && (forall i, j :: 0 <= i < j < |sorted| ==>
                  if direction == Asc then StrLe(sorted[i].status, sorted[j].status)
                  else StrLe(sorted[j].status, sorted[i].status))
            && Filter(sorted, HasStatus(status)) == Filter(rows, HasStatus(status))
  {
    var config := SortConfig("status", direction);
    var sorted := SortAttendance(rows, config);
    ComparatorIsPreorder(config);
    SortBySorted(rows, Precedes(config));
    SortByStable(rows, Precedes(config), HasStatus(status));
    forall i, j | 0 <= i < j < |sorted|
      ensures if direction == Asc then StrLe(sorted[i].status, sorted[j].status)
              else StrLe(sorted[j].status, sorted[i].status)
    {
      StatusPrecedes(sorted[i], sorted[j], direction);
    }
  }

  /** Under the status key, a record that may come first has the smaller (or larger) status. */
  lemma StatusPrecedes(a: AttendanceRecord, b: AttendanceRecord, direction: Direction)
    requires Precedes(SortConfig("status", direction))(a, b)
    ensures if direction == Asc then StrLe(a.status, b.status) else StrLe(b.status, a.status)
  {
    StrLtTrichotomy(a.status, b.status);
    StrLtIrreflexive(a.status);
  }

  /** Any other key compares every pair as 0, so the rows keep their filtered order. */
  lemma UnknownKeyKeepsOrder(rows: seq<AttendanceRecord>, config: SortConfig)
    requires config.key != "date" && config.key != "status"
    ensures SortAttendance(rows, config) == rows
  {
    SortByAllEqual(rows, Precedes(config));
  }

  /** `handleSort`: the clicked key, descending only when it was already the key in ascending order. */
  function HandleSort(prev: SortConfig, key: string): (next: SortConfig)
  {
    SortConfig(key, if prev.key == key && prev.direction == Asc then Desc else Asc)
  }

  /**
   * Clicking a header always selects its key; the first click on a new key
   * sorts ascending, and further clicks alternate between the two directions.
   */
  lemma HandleSortCycles(prev: SortConfig, key: string)
    ensures HandleSort(prev, key).key == key
    ensures prev.key != key ==> HandleSort(prev, key).direction == Asc
    ensures HandleSort(HandleSort(prev, key), key).direction != HandleSort(prev, key).direction
    ensures HandleSort(HandleSort(HandleSort(prev, key), key), key) == HandleSort(prev, key)
  {
  }

  // ---------------------------------------------------------------------
  // The whole view

  datatype View = View(rows: seq<AttendanceRecord>, stats: Statistics)

  /**
   * What the component shows: nothing but the empty-state panel for an empty
   * list; otherwise the filtered, sorted rows and the statistics of all records.
   */
  function AttendanceView(attendance: seq<AttendanceRecord>, f: FilterState, config: SortConfig, today: Date): (v: Option<View>)
  {
    if attendance == [] then None
    else Some(View(SortAttendance(FilterAttendance(attendance, f, today), config), ComputeStatistics(attendance)))
  }

  /**
   * The rows shown are a permutation of the filtered records, at most all of
   * them ("Showing n of m"), and the statistics do not depend on the filters,
   * the sort or the date.
   */
  lemma AttendanceViewSpec(attendance: seq<AttendanceRecord>, f: FilterState, config: SortConfig, today: Date,
                           f': FilterState, config': SortConfig, today': Date)
    requires attendance != []
    ensures var v := AttendanceView(attendance, f, config, today).value;
            && multiset(v.rows) == multiset(FilterAttendance(attendance, f, today))
            && |v.rows| <= |attendance|
            && (forall r :: r in v.rows ==> r in attendance && Matches(r, f, today))
            && v.stats == AttendanceView(attendance, f', config', today').value.stats
  {
    var v := AttendanceView(attendance, f, config, today).value;
    forall r | r in v.rows ensures r in attendance && Matches(r, f, today) {
      assert r in multiset(v.rows);
    }
  }
}
