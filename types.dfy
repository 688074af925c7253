/** Data shapes shared by the KPI calculator's modules (src/lib/types.ts),
    reduced to the fields the scoring and aggregation code reads. */
module Types {

  /** A nullable/optional value: `T | null` (or `undefined`) in the source. */
  datatype Option<+T> = None | Some(value: T)

  /** A configured metric of one employee (MetricConfigData). The direction
      is kept as the stored string: the scorer only asks whether it equals
      "negative", the report form also asks whether it equals "positive". */
  datatype MetricConfig = MetricConfig(
    id: string,
    name: string,
    direction: string,
    weight: real,
    threshold: Option<real>)

  /** An employee with the metrics configured for them (EmployeeData). */
  datatype Employee = Employee(
    id: string,
    name: string,
    kpiBudget: Option<real>,
    metrics: seq<MetricConfig>)

  /** A stored report entry (ReportEntryData); `employeeName` stands for the
      joined `entry.employee.name`. */
  datatype ReportEntry = ReportEntry(
    employeeId: string,
    employeeName: string,
    metricConfigId: string,
    fact: real,
    goal: real,
    percent: real,
    weightedScore: real)

  /** A weekly report (WeeklyReportData); period bounds are instants in
      milliseconds since the epoch. */
  datatype WeeklyReport = WeeklyReport(
    id: string,
    periodStart: int,
    periodEnd: int,
    entries: seq<ReportEntry>)
}
