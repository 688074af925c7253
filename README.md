# KPI calculator — a verified Dafny model

This project models the calculation core of a small team KPI calculator. Each
week a team lead enters, per employee and per configured metric, a fact and a
goal. The core then:

- scores each metric as a percentage;
  - positive metrics score `fact / goal × 100`;
  - negative ("fewer is better") metrics score 100 up to a tolerance threshold,
    then decay linearly to 0.
- weights the percentage;
- sums the weighted scores into a weekly KPI per employee;
- averages the weeks that overlap a month into a monthly KPI;
- converts that monthly KPI into money from the employee's budget.

The modules follow the source files:

| module | file | source |
|---|---|---|
| `Types` | `types.dfy` | the records of `src/lib/types.ts` that the core reads |
| `Kpi` | `kpi.dfy` | `src/lib/kpi.ts`: the metric scorer, two-decimal rounding, the period total, money |
| `Dates` | `dates.dfy` | `src/lib/dates.ts`: the Monday–Sunday week range, the "YYYY-MM" month string and its display name. Also the calendar behind `new Date(year, monthIndex, day, …)` |
| `Monthly` | `monthly.dfy` | `src/app/api/reports/monthly/route.ts`: the month's report selection and the per-employee monthly summary |
| `ReportForm` | `report_form.dfy` | `src/app/reports/new/page.tsx`: the form's entry map, the goal auto-fill, the live percent and KPI, and the list it submits |
| `ReportList` | `report_list.dfy` | `src/app/reports/page.tsx`: a report's weighted scores grouped by employee |

How the source's values are represented:

- **Numbers** are exact `real`s.
  - `Math.round` is `⌊x + 0.5⌋`.
  - Rounding to two decimals is `Math.round(x * 100) / 100`.
  - Its results are characterised by `Cents` (a whole number of hundredths) and a ±0.005 window.
- **Instants** are whole milliseconds since the epoch, with local time taken as UTC.
- **`JsDate`** is a class with a mutable `time` field. `getWeekRange` copies and updates its dates in place, and the model does the same.
- **`parseFloat`** is a function parameter `parse`, where `None` stands for NaN.
- **The clock** is passed in: `getWeekRange` takes the date, and `getCurrentMonth` takes the year and month.

Two behaviours of the code that the model keeps as they are:

- **No input validation.** `src/lib/kpi.ts` checks no fact, goal or weight. A negative value is computed with like any other, so the scorer has no error path.
- **Rounding direction.** Every rounding site uses `Math.round`, which rounds halves toward +∞ (−2.5 becomes −2).

## Model

| member | source | states |
|---|---|---|
| Kpi.DirectionOf | src/lib/kpi.ts:19 | a metric is scored as negative exactly when its direction string is "negative"; anything else is scored as positive |
| Kpi.Round | src/lib/kpi.ts:48-49 | `Math.round`: the integer within (x − 0.5, x + 0.5] |
| Kpi.Round2 | src/lib/kpi.ts:48-49 | two-decimal rounding gives whole hundredths within (x − 0.005, x + 0.005] |
| Kpi.RoundUnique | src/lib/kpi.ts:48 | only one integer lies in that window, so the window determines the rounding |
| Kpi.Round2Unique | src/lib/kpi.ts:48-49 | whole hundredths in the window are the two-decimal rounding |
| Kpi.Round2OfCents | src/lib/kpi.ts:48-49 | rounding an already-rounded value changes nothing |
| Kpi.RoundMonotone | src/lib/kpi.ts:48 | rounding preserves ≤ |
| Kpi.Round2Monotone | src/lib/kpi.ts:48-49 | two-decimal rounding preserves ≤ |
| Kpi.MetricPercent | src/lib/kpi.ts:16-40 | a negative metric scores within [0, 100]; a positive metric with a goal scores p where p · goal = fact · 100 |
| Kpi.FactPercent | src/lib/kpi.ts:25 | the fact as a percent of a non-zero goal; NegativeDecay and NegativeMonotone state the score in terms of it |
| Kpi.Thresh | src/lib/kpi.ts:26 | `threshold ?? 0`: a missing threshold counts as 0, which NegativeZeroCases states for the score |
| Kpi.Max | src/lib/kpi.ts:31 | `Math.max` of two numbers: at least each of them and equal to one of them |
| Kpi.NegativeZeroCases | src/lib/kpi.ts:19-26 | for a negative metric: zero defects score 100 whatever the goal; defects with no goal score 0; a missing threshold acts as threshold 0 |
| Kpi.NegativeBand | src/lib/kpi.ts:25-29 | a fact percent at or under the threshold scores 100; over it, a threshold of 100 or more scores 0 |
| Kpi.NegativeDecay | src/lib/kpi.ts:25-31 | between the threshold and 100% of the goal, the score falls linearly from 100 to 0; at or beyond the goal it is 0 |
| Kpi.NegativeMonotone | src/lib/kpi.ts:19-31 | for a fixed positive goal and threshold, more defects never score higher |
| Kpi.PositiveAgainstGoal | src/lib/kpi.ts:34-39 | with a positive goal: score ≥ 100 iff fact ≥ goal; score = 100 iff fact = goal; score = 100 · fact / goal |
| Kpi.PositiveNoGoal | src/lib/kpi.ts:34-37 | a positive metric without a goal scores 100 |
| Kpi.CalculateMetric | src/lib/kpi.ts:42-51 | fact and goal pass through; the percent and the weighted score are each the two-decimal rounding of the unrounded percent (times the weight), so the score is not derived from the rounded percent |
| Kpi.TotalKpi | src/lib/kpi.ts:53-58 | the period total is the two-decimal rounding of Σ percent · weight; no metrics total 0 |
| Kpi.WeightedSum | src/lib/kpi.ts:56 | the left fold Σ percent · weight that `calculateTotalKpi` rounds; WeightedSumAppend and WeightedSumBounds give its properties |
| Kpi.WeightedSumAppend | src/lib/kpi.ts:56 | the weighted sum of two lists is the sum of their weighted sums |
| Kpi.WeightedSumBounds | src/lib/kpi.ts:56 | with percents in [0, 100] and non-negative weights, the weighted sum lies in [0, 100 · Σ weights] |
| Kpi.MoneyKpi | src/lib/kpi.ts:60-66 | money is absent exactly when the budget is; otherwise it is the integer within 0.5 of budget · kpi / 100 |
| Kpi.MoneyMonotone | src/lib/kpi.ts:60-66 | for a non-negative budget, a higher KPI never pays less |
| Kpi.ExamplePositive | src/lib/kpi.ts:35-50 | fact 8, goal 10, weight 0.5 gives percent 80 and weighted score 40 |
| Kpi.ExampleNegative | src/lib/kpi.ts:19-50 | fact 3, goal 20, weight 0.2, threshold 10 gives percent 94.44 and weighted score 18.89 |
| Kpi.ExampleMoney | src/lib/kpi.ts:60-66 | a KPI of 60 on a 50000 budget pays 30000 |
| Dates.DayOfStartOfDay | src/lib/dates.ts:7 | an instant between midnight and the next midnight lies on that day |
| Dates.DayOfShift | src/lib/dates.ts:6 | moving by n whole days moves the day number by n |
| Dates.Weekday | src/lib/dates.ts:3 | `getDay` lies in 0..6, where 0 is Sunday |
| Dates.EpochAnchor | src/lib/dates.ts:3 | day number 0 is 1970-01-01 and has weekday 4, Thursday, the anchor of the weekday offset |
| Dates.DiffToMonday | src/lib/dates.ts:4 | the shift back to Monday is between −6 and 0 days and lands on weekday 1 |
| Dates.MondayOf | src/lib/dates.ts:3-6 | the week's Monday is a Monday no more than 6 days before the given day |
| Dates.JsDate.constructor | src/lib/dates.ts:2 | the copy holds the given instant |
| Dates.JsDate.GetDay | src/lib/dates.ts:3 | the weekday of the held instant, in 0..6 |
| Dates.JsDate.AddDays | src/lib/dates.ts:6 | `setDate(getDate() + n)` moves the date by exactly n days, in place |
| Dates.JsDate.SetHours | src/lib/dates.ts:7 | `setHours(h, m, s, ms)` keeps the day and sets the time of day, in place |
| Dates.GetWeekRange | src/lib/dates.ts:1-14 | returns two new dates: the Monday 00:00:00.000 and the Sunday 23:59:59.999 of the given date's week |
| Dates.WeekStart | src/lib/dates.ts:5-7 | the Monday 00:00:00.000 of the instant's week (`setDate(getDate() + diffToMonday)`, then `setHours(0, 0, 0, 0)`); WeekRangeShape proves it is a Monday midnight no later than the instant, WeeksTile that every instant of the week has the same one |
| Dates.WeekEnd | src/lib/dates.ts:9-11 | six days after that Monday at 23:59:59.999; WeekRangeShape proves it is the last millisecond of a Sunday, 7 days less 1 ms after WeekStart and no earlier than the instant |
| Dates.WeekRangeShape | src/lib/dates.ts:1-14 | the week contains the date and is 7 days less 1 ms long; it starts at midnight on a Monday and ends at 23:59:59.999 on a Sunday |
| Dates.WeeksTile | src/lib/dates.ts:1-14 | every instant of a week has that same week, and the next week starts 1 ms after it ends, so weeks neither overlap nor leave gaps |
| Dates.DaysInMonth | src/app/api/reports/monthly/route.ts:18 | a month has 28 to 31 days |
| Dates.DaysFromCivilDay | src/app/api/reports/monthly/route.ts:17-18 | day d of a month is d − 1 days after its first day |
| Dates.DaysFromCivil | src/app/api/reports/monthly/route.ts:17-18 | the day number (days since 1970-01-01, proleptic Gregorian) of a civil date; DaysFromCivilDay, MonthLength and FebruaryLength prove that days and months follow one another with the calendar's month lengths |
| Dates.FullYear | src/app/api/reports/monthly/route.ts:17-18 | the Date constructor's year: 0..99 read as 1900..1999, any other year kept; StartOfMonthIs and EndOfMonthIs state the month bounds through it |
| Dates.MonthLength | src/app/api/reports/monthly/route.ts:18 | the next month starts DaysInMonth days after this one, including February in leap years and December into January |
| Dates.YearStartStep | src/app/api/reports/monthly/route.ts:17-18 | the year counted from March 1 of y − 1 to March 1 of y has 366 days when y is a leap year and 365 otherwise |
| Dates.LeapOfRemainder | src/app/api/reports/monthly/route.ts:18 | whether a year is a leap year depends only on its remainder by 400 |
| Dates.FebruaryLength | src/app/api/reports/monthly/route.ts:18 | February has 29 days in a leap year and 28 otherwise |
| Dates.LocalDate | src/app/api/reports/monthly/route.ts:17-18 | `new Date(y, mIdx, d, h, mi, s, ms)` in local time taken as UTC, with the month index carried into the year and years 0..99 read as 1900..1999; StartOfMonthIs and EndOfMonthIs give its values at the month bounds |
| Dates.StartOfMonth | src/app/api/reports/monthly/route.ts:17 | `startOfMonth`; StartOfMonthIs and MonthBounds state its value |
| Dates.EndOfMonth | src/app/api/reports/monthly/route.ts:18 | `endOfMonth`; EndOfMonthIs and MonthBounds state its value |
| Dates.StartOfMonthIs | src/app/api/reports/monthly/route.ts:17 | `new Date(y, m − 1, 1)` is midnight on the 1st of month m |
| Dates.EndOfMonthIs | src/app/api/reports/monthly/route.ts:18 | `new Date(y, m, 0, 23, 59, 59, 999)` is 1 ms before midnight after the month's last day |
| Dates.MonthBounds | src/app/api/reports/monthly/route.ts:16-18 | `new Date(y, m − 1, 1)` is midnight on the 1st; `new Date(y, m, 0, 23, 59, 59, 999)` is the last millisecond of the month's last day; the start precedes the end |
| Dates.NatToString | src/lib/dates.ts:31 | a number prints as one or more decimal digits, with no leading zero unless it is 0 |
| Dates.PadStart2 | src/lib/dates.ts:31 | `padStart(2, "0")` leaves strings of 2 or more unchanged and left-fills shorter ones with "0" to length 2 |
| Dates.Split | src/lib/dates.ts:35 | `split` gives at least one part |
| Dates.ParseInt | src/lib/dates.ts:40 | `parseInt` gives a number exactly when the string starts with a digit, or with a "-" or "+" followed by a digit |
| Dates.CurrentMonth | src/lib/dates.ts:29-32 | `getCurrentMonth` with the clock's year and month index passed in; CurrentMonthSplit shows the string splits and parses back to them |
| Dates.FormatMonth | src/lib/dates.ts:34-41 | `formatMonth`: the name indexed by `parseInt(m) - 1`, or "undefined" off the table, then a space and the year part; FormatMonthOfParts and CurrentMonthFormat give its result |
| Dates.NatToStringRoundTrip | src/lib/dates.ts:31 | printing a number and reading the digits back gives the number |
| Dates.PaddedMonth | src/lib/dates.ts:31 | a month number 1..12 padded to two places is exactly two characters, both digits, worth that number |
| Dates.SplitOnce | src/lib/dates.ts:35 | splitting a + sep + b, where neither part contains sep, gives [a, b] |
| Dates.SplitNone | src/lib/dates.ts:35 | a string without the separator splits into itself alone |
| Dates.CurrentMonthSplit | src/lib/dates.ts:29-40 | "YYYY-MM" splits on "-" into the year and the padded month, and both parse back to the year and month number that built it |
| Dates.FormatMonthOfParts | src/lib/dates.ts:34-41 | a string splitting on "-" into a year and a part that `parseInt` reads as 1..12 formats as that month's Russian name, a space, and the year |
| Dates.CurrentMonthFormat | src/lib/dates.ts:29-41 | `formatMonth(getCurrentMonth())` is the month's Russian name, a space, and the year |
| Dates.ParseDigits | src/lib/dates.ts:40 | `parseInt` of a string of digits is the digits' value, leading zeros included |
| Monthly.SelectReports | src/app/api/reports/monthly/route.ts:20-25 | the selection keeps exactly the reports whose period starts no later than the month's end and ends no earlier than the month's start (counts in SelectReportsCounts) |
| Monthly.SelectReportsCounts | src/app/api/reports/monthly/route.ts:20-25 | the selection holds each overlapping report exactly as often as the table does and no other report, so `reportsCount` is the number of overlapping reports |
| Monthly.Overlaps | src/app/api/reports/monthly/route.ts:22-25 | the query's where-clause; OverlapMeansCommonInstant and SelectedByDays say what it selects |
| Monthly.SelectedStartAtLeast | src/app/api/reports/monthly/route.ts:20-34 | a lower bound on the table's period starts also bounds the selection |
| Monthly.SelectKeepsOrder | src/app/api/reports/monthly/route.ts:34 | reports sorted by period start stay sorted after selection |
| Monthly.OverlapMeansCommonInstant | src/app/api/reports/monthly/route.ts:20-25 | for well-formed periods, the overlap test holds iff the report and the month share an instant |
| Monthly.SelectedByDays | src/app/api/reports/monthly/route.ts:16-25 | a report stored at midnights is selected iff its first day is no later than the month's last day and its last day no earlier than the month's first |
| Monthly.EntriesOf | src/app/api/reports/monthly/route.ts:47-49 | the filter keeps exactly the employee's entries |
| Monthly.EntriesOfCounts | src/app/api/reports/monthly/route.ts:47-52 | the filter holds each of the employee's entries exactly as often as the report does and no other entry, so the week's sum counts each once |
| Monthly.HasEntries | src/app/api/reports/monthly/route.ts:50 | the report holds an entry of the employee (`empEntries.length > 0`); WeekIndicesExactly proves a report yields a week exactly when this holds |
| Monthly.ScoreSum | src/app/api/reports/monthly/route.ts:52 | the left-to-right reduce of the employee's weighted scores from 0; EntriesOfCounts proves it adds each of the employee's entries once and no other entry |
| Monthly.WeekOf | src/app/api/reports/monthly/route.ts:52-57 | one week's item: the report's id and period and the two-decimal rounding of the employee's score sum; WeeklyKpisExactly places it |
| Monthly.WeeklyKpis | src/app/api/reports/monthly/route.ts:44-59 | there are no more weekly KPIs than reports |
| Monthly.CollectWeeklyKpis | src/app/api/reports/monthly/route.ts:44-59 | the loop, skipping reports without the employee's entries, builds exactly the weekly KPI list |
| Monthly.WeekIndicesExactly | src/app/api/reports/monthly/route.ts:46-50 | the positions kept are in increasing report order, each holds the employee's entries, and every report holding them is kept |
| Monthly.WeeklyKpisExactly | src/app/api/reports/monthly/route.ts:44-59 | there is one weekly KPI per position of a report holding the employee's entries, and each is that report's id and period with its rounded score sum |
| Monthly.MonthlyKpi | src/app/api/reports/monthly/route.ts:61-67 | no weeks give 0; otherwise the mean of the weekly KPIs, rounded to two decimals |
| Monthly.KpiSum | src/app/api/reports/monthly/route.ts:64 | the reduce of the weekly KPIs from 0; KpiSumBounds bounds it by the count times the bounds on the weekly KPIs |
| Monthly.KpiSumBounds | src/app/api/reports/monthly/route.ts:64 | weekly KPIs within [lo, hi] sum to within n · [lo, hi] |
| Monthly.MonthlyKpiWithin | src/app/api/reports/monthly/route.ts:61-67 | the monthly KPI lies between any whole-hundredth bounds on the weekly KPIs |
| Monthly.SummaryFor | src/app/api/reports/monthly/route.ts:43-78 | the summary carries the employee, the weekly KPIs of the given reports, the monthly KPI of those weeks (`MonthlyKpi`), `calculateMoneyKpi` of that monthly KPI, and weeksCount = the number of weekly KPIs, at most the number of reports; money is absent iff the budget is; no weeks give KPI 0 and money 0 |
| Monthly.Get | src/app/api/reports/monthly/route.ts:5-85 | a missing or empty month parameter is a bad request; otherwise the response echoes the month, counts the selected reports, and holds, in employee order, each employee's `SummaryFor` the selected reports |
| Monthly.ExampleTwoWeeks | src/app/api/reports/monthly/route.ts:61-69 | weeks of 58.89 and 61.11 average to 60, which pays 30000 of 50000 |
| Monthly.SkippedWeekList | src/app/api/reports/monthly/route.ts:46-58 | a report without the employee's entries adds no weekly KPI: three reports, the middle one without them, give two weekly KPIs |
| Monthly.ExampleSkippedWeek | src/app/api/reports/monthly/route.ts:46-67 | a week without the employee's entries is left out of the mean: 80, (none), 100 average to 90 |
| ReportForm.KeyInjective | src/app/reports/new/page.tsx:43 | keys `employeeId_metricId` tell pairs apart when employee ids hold no "_" |
| ReportForm.Key | src/app/reports/new/page.tsx:43 | the cell key `${employeeId}_${metricId}` (also built at lines 84 and 120); KeyInjective proves distinct "_"-free pairs get distinct keys and CellAtKey that a well-keyed map keeps each pair's cell under its key |
| ReportForm.CellAtKey | src/app/reports/new/page.tsx:43-49 | in a well-keyed map, when the employee id e and the id of the cell under Key(e, m) hold no "_", that cell belongs to employee e and metric m |
| ReportForm.InitialEntries | src/app/reports/new/page.tsx:40-51 | the initial map has a key for exactly each (employee, metric) pair; every cell is blank and stored under its own key |
| ReportForm.FindEmployee | src/app/reports/new/page.tsx:79 | `find` succeeds iff some employee has the id, and returns the first employee with that id |
| ReportForm.FindMetric | src/app/reports/new/page.tsx:80 | `find` returns the first metric with the id, or none when no metric has it |
| ReportForm.NegativeMetrics | src/app/reports/new/page.tsx:82 | the filter keeps exactly the negative metrics |
| ReportForm.FillGoals | src/app/reports/new/page.tsx:83-89 | the loop sets the goal of each existing cell of the listed metrics and adds no cell |
| ReportForm.UpdateEntry | src/app/reports/new/page.tsx:70-95 | the new map is exactly `Updated`: the edited field is set and, on an auto-filling edit, the goals of the employee's negative-metric cells are set |
| ReportForm.Updated | src/app/reports/new/page.tsx:72-90 | the map after an edit: the edited field set on the edited cell and, when the edit is the positive "Завершённые задачи" fact, that value as goal on the employee's existing negative-metric cells; UpdateKeepsShape, UpdateWithoutAutoFill, UpdateAutoFill and UpdateStaysWithEmployee state what it changes |
| ReportForm.SetField | src/app/reports/new/page.tsx:74 | `{ ...entry, [field]: value }`: the edited field takes the value and the other field is kept; UpdateWithoutAutoFill proves this is the whole edit when nothing auto-fills |
| ReportForm.AutoFills | src/app/reports/new/page.tsx:78-81 | the auto-fill test: the edit is to the fact and the cell's metric, found through its employee, is the positive "Завершённые задачи"; UpdateAutoFill and UpdateWithoutAutoFill state the map after each outcome |
| ReportForm.KeyOfSome | src/app/reports/new/page.tsx:83-84 | k is the key `${employeeId}_${nm.id}` of one of the listed metrics; UpdateAutoFill states the goals set under such keys |
| ReportForm.IsFillTarget | src/app/reports/new/page.tsx:82-86 | k is the key of a negative metric of the edited cell's employee, found through the employee list; UpdateAutoFill proves exactly the existing cells under such keys take the value as goal |
| ReportForm.UpdateKeepsShape | src/app/reports/new/page.tsx:72-93 | an edit keeps the set of keys and keeps every cell under its own key |
| ReportForm.UpdateWithoutAutoFill | src/app/reports/new/page.tsx:72-78 | editing a goal, or any fact but the positive "Завершённые задачи" one, changes only the edited field of the edited cell |
| ReportForm.UpdateAutoFill | src/app/reports/new/page.tsx:78-91 | editing the "Завершённые задачи" fact gives each existing negative-metric cell of the employee that value as its goal; other facts and other goals are unchanged |
| ReportForm.UpdateStaysWithEmployee | src/app/reports/new/page.tsx:83-88 | with "_"-free ids, an edit never changes another employee's cells |
| ReportForm.GetPercent | src/app/reports/new/page.tsx:97-112 | a percent exists iff the cell exists, both fields parse, and they are not both empty strings read as 0; it is then the metric scorer's result |
| ReportForm.EmptyGuardRedundant | src/app/reports/new/page.tsx:100-104 | since an empty string parses as NaN, the both-empty test never decides |
| ReportForm.Scores | src/app/reports/new/page.tsx:119-126 | there are no more scored metrics than metrics |
| ReportForm.ScoresNonEmpty | src/app/reports/new/page.tsx:118-125 | some metric is scored iff some metric of the employee has a percent |
| ReportForm.LiveKpi | src/app/reports/new/page.tsx:117-127 | `calculateTotalKpi` of the scored metrics, or 0 when none has a percent; EmployeeLiveKpi proves the loop computes it |
| ReportForm.HasData | src/app/reports/new/page.tsx:118-124 | some metric of the employee has a percent; EmployeeLiveKpi proves the loop's flag equals it and ScoresNonEmpty that it holds iff the score list is non-empty |
| ReportForm.LiveKpis | src/app/reports/new/page.tsx:114-129 | the live KPI of each employee under their id; LiveKpisKeys and LiveKpisByLastId give its keys and values |
| ReportForm.EmployeeLiveKpi | src/app/reports/new/page.tsx:117-127 | the loop's flag is set iff some metric has a percent; the KPI is `calculateTotalKpi` of the scored metrics, or 0 without data |
| ReportForm.EmployeeKpis | src/app/reports/new/page.tsx:114-131 | the loop builds exactly `LiveKpis`: each employee's live KPI stored under the employee's id, a later employee overwriting an earlier one with the same id |
| ReportForm.LiveKpisKeys | src/app/reports/new/page.tsx:116-128 | the result has a key for exactly the employees' ids |
| ReportForm.LiveKpisByLastId | src/app/reports/new/page.tsx:116-128 | under each id is the live KPI of the last employee with that id |
| ReportForm.SaveList | src/app/reports/new/page.tsx:161-168 | the submitted list holds exactly the cells with both fields filled, with both fields parsed; one cell gives one element when filled and none otherwise |
| ReportForm.SaveListAppend | src/app/reports/new/page.tsx:161-168 | filtering and mapping distribute over concatenation; with the one-cell case, the list is one element per filled cell, in the cells' order, repeats included |
| ReportForm.Submit | src/app/reports/new/page.tsx:163-168 | one submitted element: the cell's ids and its two fields parsed |
| ReportForm.Filled | src/app/reports/new/page.tsx:162 | the save filter: both fields are non-empty strings; SaveList and SaveListAppend prove the list has one element per filled cell, in order |
| ReportList.Ids | src/app/reports/page.tsx:37-49 | the ids are exactly the employees with an entry |
| ReportList.IdsDistinct | src/app/reports/page.tsx:40-47 | no employee is listed twice |
| ReportList.FirstIndex | src/app/reports/page.tsx:43-46 | the first entry of the employee |
| ReportList.Total | src/app/reports/page.tsx:41-45 | the unrounded running sum of one employee's weighted scores; GroupedAt proves it is the kpi the Map holds for the employee, TotalAbsent that it is 0 without entries, and GroupingKeepsTotal that the employees' totals add up to all the scores |
| ReportList.Grouped | src/app/reports/page.tsx:37-48 | the Map after the loop: a new employee inserted with the entry's name and score, a known one with the score added; GroupedKeyAt and GroupedAt say what it holds |
| ReportList.GroupedKeyAt | src/app/reports/page.tsx:37-47 | the Map has a key for exactly the employees with entries |
| ReportList.GroupedAt | src/app/reports/page.tsx:37-47 | under each employee the Map holds the name from the employee's first entry and the sum of the employee's weighted scores |
| ReportList.GetReportKpis | src/app/reports/page.tsx:36-50 | one item per distinct employee, in the order `Ids` lists them; each item is the name from that employee's first entry and the unrounded sum of that employee's weighted scores |
| ReportList.IdsInFirstOrder | src/app/reports/page.tsx:42-49 | items come in the order of each employee's first entry |
| ReportList.TotalAbsent | src/app/reports/page.tsx:39-46 | an employee without entries totals 0 |
| ReportList.TotalsOverStep | src/app/reports/page.tsx:39-46 | one more entry raises the sum over distinct ids by its score exactly when its employee is among them |
| ReportList.GroupingKeepsTotal | src/app/reports/page.tsx:39-46 | grouping loses nothing: the items' KPIs add up to the sum of all the report's weighted scores |
| ReportList.NoEntriesNoItems | src/app/reports/page.tsx:37-49 | example: a report without entries shows no items (the general statement is GetReportKpis: one item per distinct employee id) |

## Left out

- IEEE-754 doubles: all arithmetic is exact. Representation error in `x * 100` before `Math.round`, and overflow or NaN from out-of-domain input, are not modelled.
- Time zones and daylight saving: local time is taken to be UTC. `getDay`, `setDate`, `setHours` and `new Date(y, m, d, …)` are exact day and millisecond arithmetic.
- `Number()` on the month parameter (route.ts line 16): `Monthly.Get` takes the two numbers already split out. A non-numeric month, which gives NaN dates in the source, is not modelled.
- `parseFloat` is an arbitrary function parameter; its grammar is not modelled.
- `Dates.ParseInt` reads an optional sign and the leading decimal digits; leading whitespace and `0x` prefixes are not modelled.
- `Dates.CurrentMonth` takes a non-negative year; JavaScript's printing of negative years is not modelled.
- The Prisma queries become functions over sequences. `orderBy: periodStart asc` is taken as a precondition of the ordering lemma, and employees and metrics are taken in the order given.
- `toISOString` of period bounds, `formatDate` and `formatDateISO` (`toLocaleDateString`, `toISOString`): instants are kept as numbers and are not rendered.
- The HTTP layer: the `Request` object, `NextResponse` and the JSON encoding. A response is a `Response` value.
- The Map iteration order in the save list: `ReportForm.SaveList` takes the map's values as a sequence in iteration order, because Dafny maps are unordered.
- UpdateEntry requires the edited key to be in the map. Both callers in page.tsx (lines 275 and 295) pass the key built at line 258 for a rendered employee and metric, and the initial map holds every such key (`ReportForm.InitialEntries`). The source only asserts the key with `!`. For a missing key, a goal edit would insert a cell holding only `goal`, and a fact edit would throw reading `entry.employeeId` (line 79). The model covers neither case.
- React state plumbing (`useState`, `setEntries`, `useMemo`, effects), `getCompletedTasksMetric` (page.tsx 63-68, a rendering helper) and the category grouping (page.tsx 134-156): these are presentation only.
- `src/lib/pdf.ts`, the team page, the other API routes, the layout and the seed script are not part of this model.
