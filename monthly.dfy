/** The monthly summary endpoint (src/app/api/reports/monthly/route.ts):
    picks the weekly reports whose period meets the month, and for each
    employee lists one KPI per week in which they have entries, averages
    those into a monthly KPI and converts it to money. The report table and
    employee list are passed in, in the order the database returns them. */
module Monthly {
  import opened Types
  import Kpi
  import Dates

  /** One element of `weeklyKpis`. */
  datatype WeekKpi = WeekKpi(reportId: string, periodStart: int, periodEnd: int, kpi: real)

  /** One element of `summary`. */
  datatype EmployeeSummary = EmployeeSummary(
    employee: Employee,
    weeklyKpis: seq<WeekKpi>,
    monthlyKpi: real,
    moneyKpi: Option<int>,
    weeksCount: int)

  datatype MonthlyResponse = MonthlyResponse(month: string, reportsCount: int, summary: seq<EmployeeSummary>)

  /** The endpoint's outcomes: the summary, or status 400 without a month. */
  datatype Response = Ok(body: MonthlyResponse) | BadRequest(error: string)

  // ---------------------------------------------------------------------
  // Selecting the month's reports
  // ---------------------------------------------------------------------

  /** The query's where-clause: the report's period intersects the month. */
  predicate Overlaps(r: WeeklyReport, startOfMonth: int, endOfMonth: int)
  {
    r.periodStart <= endOfMonth && r.periodEnd >= startOfMonth
  }

  /** The reports the query returns, in table order. */
  function SelectReports(all: seq<WeeklyReport>, startOfMonth: int, endOfMonth: int): (sel: seq<WeeklyReport>)
    ensures |sel| <= |all|
    ensures forall r :: r in sel <==> r in all && Overlaps(r, startOfMonth, endOfMonth)
  {
    if |all| == 0 then []
    else
      var rest := SelectReports(all[1..], startOfMonth, endOfMonth);
      assert forall r :: r in all <==> r == all[0] || r in all[1..];
      if Overlaps(all[0], startOfMonth, endOfMonth) then [all[0]] + rest else rest
  }

  /** The selection holds each overlapping report as often as the table
      does, and no other report: nothing is repeated or dropped, so
      `reportsCount` is the number of overlapping reports. */
  lemma {:induction false} SelectReportsCounts(all: seq<WeeklyReport>, startOfMonth: int, endOfMonth: int)
    ensures forall r :: multiset(SelectReports(all, startOfMonth, endOfMonth))[r] ==
              if Overlaps(r, startOfMonth, endOfMonth) then multiset(all)[r] else 0
  {
    if |all| > 0 {
      SelectReportsCounts(all[1..], startOfMonth, endOfMonth);
      assert all == [all[0]] + all[1..];
    }
  }

  predicate SortedByStart(rs: seq<WeeklyReport>)
  {
    forall i, j :: 0 <= i < j < |rs| ==> rs[i].periodStart <= rs[j].periodStart
  }

  /** Selection keeps the order of the table: reports ordered by period
      start stay so. */
  lemma {:induction false} SelectKeepsOrder(all: seq<WeeklyReport>, startOfMonth: int, endOfMonth: int)
    requires SortedByStart(all)
    ensures SortedByStart(SelectReports(all, startOfMonth, endOfMonth))
  {
    if |all| > 0 {
      var tail := all[1..];
      assert SortedByStart(tail) by {
        forall i, j | 0 <= i < j < |tail|
          ensures tail[i].periodStart <= tail[j].periodStart
        {
          assert tail[i] == all[i + 1] && tail[j] == all[j + 1];
        }
      }
      SelectKeepsOrder(tail, startOfMonth, endOfMonth);
      forall k | 0 <= k < |tail|
        ensures all[0].periodStart <= tail[k].periodStart
      {
        assert tail[k] == all[k + 1];
      }
      SelectedStartAtLeast(tail, startOfMonth, endOfMonth, all[0].periodStart);
    }
  }

  /** A lower bound on the period starts of the table bounds the selection
      too. */
  lemma SelectedStartAtLeast(all: seq<WeeklyReport>, startOfMonth: int, endOfMonth: int, lo: int)
    requires forall k :: 0 <= k < |all| ==> lo <= all[k].periodStart
    ensures forall r :: r in SelectReports(all, startOfMonth, endOfMonth) ==> lo <= r.periodStart
  {
    forall r | r in SelectReports(all, startOfMonth, endOfMonth)
      ensures lo <= r.periodStart
    {
      var k :| 0 <= k < |all| && all[k] == r;
    }
  }

  /** Whether instant t lies in the report's period. */
  predicate InPeriod(r: WeeklyReport, t: int)
  {
    r.periodStart <= t <= r.periodEnd
  }

  /** For a well-formed period and month, the overlap test holds exactly
      when some instant lies in both. */
  lemma OverlapMeansCommonInstant(r: WeeklyReport, startOfMonth: int, endOfMonth: int)
    requires r.periodStart <= r.periodEnd && startOfMonth <= endOfMonth
    ensures Overlaps(r, startOfMonth, endOfMonth) <==>
              exists t :: InPeriod(r, t) && startOfMonth <= t <= endOfMonth
  {
    if Overlaps(r, startOfMonth, endOfMonth) {
      var t := if r.periodStart >= startOfMonth then r.periodStart else startOfMonth;
      assert InPeriod(r, t) && startOfMonth <= t <= endOfMonth;
    }
  }

  /** A report stored from day `first` to day `last` (each at midnight) is
      selected for a month exactly when one of its days falls in the month:
      a week that straddles a month boundary counts toward both months. */
  lemma {:induction false} SelectedByDays(r: WeeklyReport, year: int, m: int, first: int, last: int)
    requires 1 <= m <= 12
    requires r.periodStart == Dates.StartOfDay(first) && r.periodEnd == Dates.StartOfDay(last)
    ensures var monthFirst := Dates.DaysFromCivil(Dates.FullYear(year), m, 1);
            var monthLast := monthFirst + Dates.DaysInMonth(Dates.FullYear(year), m) - 1;
            Overlaps(r, Dates.StartOfMonth(year, m), Dates.EndOfMonth(year, m)) <==>
              first <= monthLast && last >= monthFirst
  {
    Dates.MonthBounds(year, m);
  }

  // ---------------------------------------------------------------------
  // Weekly KPIs of one employee
  // ---------------------------------------------------------------------

  /** `report.entries.filter(e => e.employeeId === emp.id)` */
  function EntriesOf(entries: seq<ReportEntry>, employeeId: string): (es: seq<ReportEntry>)
    ensures |es| <= |entries|
    ensures forall e :: e in es <==> e in entries && e.employeeId == employeeId
  {
    if |entries| == 0 then []
    else
      var rest := EntriesOf(entries[1..], employeeId);
      assert forall e :: e in entries <==> e == entries[0] || e in entries[1..];
      if entries[0].employeeId == employeeId then [entries[0]] + rest else rest
  }

  /** The filter keeps each of the employee's entries as often as the
      report holds it, and no other entry, so the week's sum counts each of
      them exactly once. */
  lemma {:induction false} EntriesOfCounts(entries: seq<ReportEntry>, employeeId: string)
    ensures forall e :: multiset(EntriesOf(entries, employeeId))[e] ==
              if e.employeeId == employeeId then multiset(entries)[e] else 0
  {
    if |entries| > 0 {
      EntriesOfCounts(entries[1..], employeeId);
      assert entries == [entries[0]] + entries[1..];
    }
  }

  /** `entries.reduce((sum, e) => sum + e.weightedScore, 0)` */
  function ScoreSum(entries: seq<ReportEntry>): real
  {
    if |entries| == 0 then 0.0
    else ScoreSum(entries[..|entries| - 1]) + entries[|entries| - 1].weightedScore
  }

  /** Whether the report holds at least one entry of the employee. */
  predicate HasEntries(r: WeeklyReport, employeeId: string)
  {
    exists e :: e in r.entries && e.employeeId == employeeId
  }

  /** The weekly KPI an employee gets from one report: the two-decimal
      rounding of the sum of their stored weighted scores. */
  function WeekOf(r: WeeklyReport, employeeId: string): WeekKpi
  {
    WeekKpi(r.id, r.periodStart, r.periodEnd, Kpi.Round2(ScoreSum(EntriesOf(r.entries, employeeId))))
  }

  /** The `weeklyKpis` list: one WeekOf per report that has entries of the
      employee, in report order. */
  function WeeklyKpis(reports: seq<WeeklyReport>, employeeId: string): (weekly: seq<WeekKpi>)
    ensures |weekly| <= |reports|
  {
    if |reports| == 0 then []
    else
      var r := reports[|reports| - 1];
      WeeklyKpis(reports[..|reports| - 1], employeeId) + (if HasEntries(r, employeeId) then [WeekOf(r, employeeId)] else [])
  }

  /** The employee's loop over the month's reports (lines 44-59): skips a
      report with none of their entries, else pushes that week's KPI. */
  method CollectWeeklyKpis(reports: seq<WeeklyReport>, employeeId: string) returns (weekly: seq<WeekKpi>)
    ensures weekly == WeeklyKpis(reports, employeeId)
  {
    weekly := [];
    var i := 0;
    while i < |reports|
      invariant 0 <= i <= |reports|
      invariant weekly == WeeklyKpis(reports[..i], employeeId)
    {
      var report := reports[i];
      assert reports[..i + 1][..i] == reports[..i];
      var empEntries := EntriesOf(report.entries, employeeId);
      if |empEntries| == 0 {
        assert !HasEntries(report, employeeId);
        i := i + 1;
        continue;
      }
      assert HasEntries(report, employeeId) by {
        assert empEntries[0] in empEntries;
      }
      var weekKpi := ScoreSum(empEntries);
      weekly := weekly + [WeekKpi(report.id, report.periodStart, report.periodEnd, Kpi.Round2(weekKpi))];
      i := i + 1;
    }
    assert reports[..i] == reports;
  }

  /** The positions of the reports that have entries of the employee. */
  ghost function WeekIndices(reports: seq<WeeklyReport>, employeeId: string): seq<int>
  {
    if |reports| == 0 then []
    else
      var n := |reports| - 1;
      WeekIndices(reports[..n], employeeId) + (if HasEntries(reports[n], employeeId) then [n] else [])
  }

  /** The positions are, in increasing order, exactly those of the
      reports holding an entry of the employee. */
  lemma {:induction false} WeekIndicesExactly(reports: seq<WeeklyReport>, employeeId: string)
    ensures forall k :: 0 <= k < |WeekIndices(reports, employeeId)| ==>
              0 <= WeekIndices(reports, employeeId)[k] < |reports|
    ensures forall k :: 0 <= k < |WeekIndices(reports, employeeId)| ==>
              HasEntries(reports[WeekIndices(reports, employeeId)[k]], employeeId)
    ensures forall k, l :: 0 <= k < l < |WeekIndices(reports, employeeId)| ==>
              WeekIndices(reports, employeeId)[k] < WeekIndices(reports, employeeId)[l]
    ensures forall i :: 0 <= i < |reports| && HasEntries(reports[i], employeeId) ==> i in WeekIndices(reports, employeeId)
  {
    if |reports| > 0 {
      var n := |reports| - 1;
      var init := reports[..n];
      WeekIndicesExactly(init, employeeId);
      var idx0 := WeekIndices(init, employeeId);
      assert forall k :: 0 <= k < |idx0| ==> idx0[k] < n;
      forall i | 0 <= i < n
        ensures reports[i] == init[i]
      {
      }
    }
  }

  /** `weeklyKpis` has one item per position, each the KPI of the week at
      that position. */
  lemma {:induction false} WeeklyKpisExactly(reports: seq<WeeklyReport>, employeeId: string)
    ensures var idx := WeekIndices(reports, employeeId);
            var weekly := WeeklyKpis(reports, employeeId);
            && |idx| == |weekly|
            && (forall k :: 0 <= k < |idx| ==> 0 <= idx[k] < |reports| && weekly[k] == WeekOf(reports[idx[k]], employeeId))
  {
    if |reports| > 0 {
      var n := |reports| - 1;
      var init := reports[..n];
      WeeklyKpisExactly(init, employeeId);
      forall i | 0 <= i < n
        ensures reports[i] == init[i]
      {
      }
    }
  }

  // ---------------------------------------------------------------------
  // Monthly KPI, money and the response
  // ---------------------------------------------------------------------

  /** `weeklyKpis.reduce((s, w) => s + w.kpi, 0)` */
  function KpiSum(weekly: seq<WeekKpi>): real
  {
    if |weekly| == 0 then 0.0
    else KpiSum(weekly[..|weekly| - 1]) + weekly[|weekly| - 1].kpi
  }

  /** monthlyKpi: the two-decimal rounding of the mean of the (already
      rounded) weekly KPIs; 0 when there are none. */
  function MonthlyKpi(weekly: seq<WeekKpi>): (kpi: real)
    ensures |weekly| == 0 ==> kpi == 0.0
    ensures Kpi.Cents(kpi)
    ensures |weekly| > 0 ==>
              var mean := KpiSum(weekly) / |weekly| as real;
              mean - 0.005 < kpi <= mean + 0.005
  {
    if |weekly| > 0 then Kpi.Round2(KpiSum(weekly) / |weekly| as real)
    else
      assert (0.0 * 100.0).Floor == 0;
      0.0
  }

  /** The weekly sum lies between count * lo and count * hi. */
  lemma {:induction false} KpiSumBounds(weekly: seq<WeekKpi>, lo: real, hi: real)
    requires forall k :: 0 <= k < |weekly| ==> lo <= weekly[k].kpi <= hi
    ensures |weekly| as real * lo <= KpiSum(weekly) <= |weekly| as real * hi
  {
    if |weekly| > 0 {
      var init := weekly[..|weekly| - 1];
      assert forall k :: 0 <= k < |init| ==> init[k] == weekly[k];
      KpiSumBounds(init, lo, hi);
      assert |weekly| as real * lo == |init| as real * lo + lo;
      assert |weekly| as real * hi == |init| as real * hi + hi;
    }
  }

  /** A sum between n * lo and n * hi has its mean between lo and hi. */
  lemma MeanWithin(sum: real, n: real, lo: real, hi: real)
    requires n > 0.0 && n * lo <= sum <= n * hi
    ensures lo <= sum / n <= hi
  {
    var mean := sum / n;
    assert mean * n == sum;
    assert (mean - lo) * n == sum - n * lo;
    assert (hi - mean) * n == n * hi - sum;
  }

  /** When every weekly KPI lies between two two-decimal bounds, so does the
      monthly KPI: averaging and rounding never leave the weekly range. */
  lemma {:induction false} MonthlyKpiWithin(weekly: seq<WeekKpi>, lo: real, hi: real)
    requires |weekly| > 0
    requires Kpi.Cents(lo) && Kpi.Cents(hi)
    requires forall k :: 0 <= k < |weekly| ==> lo <= weekly[k].kpi <= hi
    ensures lo <= MonthlyKpi(weekly) <= hi
  {
    KpiSumBounds(weekly, lo, hi);
    var mean := KpiSum(weekly) / |weekly| as real;
    MeanWithin(KpiSum(weekly), |weekly| as real, lo, hi);
    Kpi.Round2Monotone(lo, mean);
    Kpi.Round2Monotone(mean, hi);
    Kpi.Round2OfCents(lo);
    Kpi.Round2OfCents(hi);
  }

  /** One employee's element of `summary`. */
  function SummaryFor(emp: Employee, reports: seq<WeeklyReport>): (s: EmployeeSummary)
    ensures s.employee == emp
    ensures s.weeklyKpis == WeeklyKpis(reports, emp.id)
    ensures s.monthlyKpi == MonthlyKpi(s.weeklyKpis)
    ensures s.weeksCount == |s.weeklyKpis| <= |reports|
    ensures s.moneyKpi.None? <==> emp.kpiBudget.None?
    ensures s.weeksCount == 0 ==> s.monthlyKpi == 0.0 && (s.moneyKpi.Some? ==> s.moneyKpi.value == 0)
    ensures s.moneyKpi == Kpi.MoneyKpi(s.monthlyKpi, emp.kpiBudget)
  {
    var weeklyKpis := WeeklyKpis(reports, emp.id);
    var monthlyKpi := MonthlyKpi(weeklyKpis);
    var moneyKpi := Kpi.MoneyKpi(monthlyKpi, emp.kpiBudget);
    assert weeklyKpis == [] ==> moneyKpi.None? || moneyKpi.value == 0 by {
      if weeklyKpis == [] && moneyKpi.Some? {
        Kpi.RoundUnique(emp.kpiBudget.value * (0.0 / 100.0), 0);
      }
    }
    EmployeeSummary(emp, weeklyKpis, monthlyKpi, moneyKpi, |weeklyKpis|)
  }

  /** GET: status 400 without a month; otherwise the selected reports'
      count and one summary per employee, in employee order. `year` and `m`
      are the two numbers of the "YYYY-MM" month string. */
  function Get(month: Option<string>, year: int, m: int, allReports: seq<WeeklyReport>, employees: seq<Employee>): (resp: Response)
    ensures resp.BadRequest? <==> month.None? || month.value == ""
    ensures resp.Ok? ==>
              var reports := SelectReports(allReports, Dates.StartOfMonth(year, m), Dates.EndOfMonth(year, m));
              && resp.body.month == month.value
              && resp.body.reportsCount == |reports| <= |allReports|
              && |resp.body.summary| == |employees|
              && forall i :: 0 <= i < |employees| ==>
                   resp.body.summary[i] == SummaryFor(employees[i], reports)
                   && resp.body.summary[i].weeksCount <= resp.body.reportsCount
  {
    if month.None? || month.value == "" then
      BadRequest("month parameter required (e.g. 2026-02)")
    else
      var reports := SelectReports(allReports, Dates.StartOfMonth(year, m), Dates.EndOfMonth(year, m));
      var summary := seq(|employees|, i requires 0 <= i < |employees| => SummaryFor(employees[i], reports));
      Ok(MonthlyResponse(month.value, |reports|, summary))
  }

  // ---------------------------------------------------------------------
  // Worked values
  // ---------------------------------------------------------------------

  /** Weeks at 58.89 and 61.11 average to 60.00, which pays 30000 of a
      50000 budget. */
  lemma ExampleTwoWeeks()
    ensures MonthlyKpi([WeekKpi("w1", 0, 0, 58.89), WeekKpi("w2", 0, 0, 61.11)]) == 60.0
    ensures Kpi.MoneyKpi(60.0, Some(50000.0)) == Some(30000)
  {
    var w := [WeekKpi("w1", 0, 0, 58.89), WeekKpi("w2", 0, 0, 61.11)];
    assert w[..1] == [w[0]];
    assert KpiSum(w) == 120.0;
    Kpi.Round2OfCents(60.0);
    Kpi.ExampleMoney();
  }

  /** Three reports: the employee scores 80 in the first, has no entries in
      the second, and scores 100 in the third. */
  function SkippedWeekReports(): seq<WeeklyReport>
  {
    [WeeklyReport("r1", 0, 1, [ReportEntry("e", "Sergey", "m1", 8.0, 10.0, 80.0, 80.0)]),
     WeeklyReport("r2", 2, 3, [ReportEntry("x", "Kirill", "m1", 5.0, 10.0, 50.0, 50.0)]),
     WeeklyReport("r3", 4, 5, [ReportEntry("e", "Sergey", "m1", 10.0, 10.0, 100.0, 100.0)])]
  }

  /** The report without the employee's entries gives no weekly KPI. */
  lemma SkippedWeekList()
    ensures WeeklyKpis(SkippedWeekReports(), "e") == [WeekKpi("r1", 0, 1, 80.0), WeekKpi("r3", 4, 5, 100.0)]
  {
    var reports := SkippedWeekReports();
    var r1, r2, r3 := reports[0], reports[1], reports[2];
    var e1, e3 := r1.entries[0], r3.entries[0];
    assert HasEntries(r1, "e") by { assert e1 in r1.entries; }
    assert !HasEntries(r2, "e");
    assert HasEntries(r3, "e") by { assert e3 in r3.entries; }
    assert EntriesOf([e1], "e") == [e1];
    assert EntriesOf([e3], "e") == [e3];
    assert ScoreSum([e1]) == 80.0;
    assert ScoreSum([e3]) == 100.0;
    Kpi.Round2OfCents(80.0);
    Kpi.Round2OfCents(100.0);
    assert reports[..1] == [r1];
    assert reports[..2] == [r1, r2];
    assert WeeklyKpis([r1], "e") == [WeekKpi("r1", 0, 1, 80.0)];
    assert WeeklyKpis([r1, r2], "e") == [WeekKpi("r1", 0, 1, 80.0)];
  }

  /** A week without entries of the employee is left out of the mean, not
      counted as 0: weeks of 80 and 100 around an empty one average to 90. */
  lemma ExampleSkippedWeek()
    ensures MonthlyKpi(WeeklyKpis(SkippedWeekReports(), "e")) == 90.0
  {
    SkippedWeekList();
    var w := [WeekKpi("r1", 0, 1, 80.0), WeekKpi("r3", 4, 5, 100.0)];
    assert w[..1] == [w[0]];
    assert KpiSum(w) == 180.0;
    Kpi.Round2OfCents(90.0);
  }
}
