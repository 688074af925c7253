/** The new-report form (src/app/reports/new/page.tsx): a map of fact/goal
    text fields keyed "employeeId_metricId", the goal auto-fill from the
    "completed tasks" metric, the live percent of one field pair, each
    employee's live KPI, and the list the form submits. `parse` stands for
    `parseFloat`, None standing for NaN. */
module ReportForm {
  import opened Types
  import Kpi

  /** EntryState: the two text fields of one (employee, metric) cell. */
  datatype EntryState = EntryState(employeeId: string, metricConfigId: string, fact: string, goal: string)

  datatype Field = Fact | Goal

  /** The name of the positive metric whose fact is copied into goals. */
  const CompletedTasks: string := "Завершённые задачи"

  /** The map key `${emp.id}_${m.id}`. */
  function Key(employeeId: string, metricId: string): string
  {
    employeeId + "_" + metricId
  }

  /** An id without the key separator (database ids have none). */
  predicate PlainId(id: string)
  {
    '_' !in id
  }

  /** Keys tell employees and metrics apart once employee ids hold no "_". */
  lemma {:induction false} KeyInjective(e1: string, m1: string, e2: string, m2: string)
    requires PlainId(e1) && PlainId(e2)
    requires Key(e1, m1) == Key(e2, m2)
    ensures e1 == e2 && m1 == m2
  {
    var k := Key(e1, m1);
    assert k[|e1|] == '_' && k[|e2|] == '_';
    assert |e1| == |e2|;
    assert e1 == k[..|e1|] == e2;
    assert m1 == k[|e1| + 1..] == m2;
  }

  /** Every stored cell sits under its own key. */
  ghost predicate WellKeyed(entries: map<string, EntryState>)
  {
    forall k :: k in entries ==> Key(entries[k].employeeId, entries[k].metricConfigId) == k
  }

  /** A well-keyed map holds the cell of (e, m) under Key(e, m). */
  lemma CellAtKey(entries: map<string, EntryState>, e: string, m: string)
    requires WellKeyed(entries) && Key(e, m) in entries
    requires PlainId(e) && PlainId(entries[Key(e, m)].employeeId)
    ensures entries[Key(e, m)].employeeId == e && entries[Key(e, m)].metricConfigId == m
  {
    var c := entries[Key(e, m)];
    KeyInjective(c.employeeId, c.metricConfigId, e, m);
  }

  // ---------------------------------------------------------------------
  // The initial map
  // ---------------------------------------------------------------------

  /** Key k is the key of one of the first i employees' metrics, or of one
      of employee i's first j metrics. */
  ghost predicate Added(employees: seq<Employee>, i: int, j: int, k: string)
  {
    exists a, b :: 0 <= a <= i && a < |employees| && 0 <= b < |employees[a].metrics| && (a < i || b < j)
                   && k == Key(employees[a].id, employees[a].metrics[b].id)
  }

  /** Key k belongs to some (employee, metric) pair of the team. */
  ghost predicate InGrid(employees: seq<Employee>, k: string)
  {
    exists a, b :: 0 <= a < |employees| && 0 <= b < |employees[a].metrics|
                   && k == Key(employees[a].id, employees[a].metrics[b].id)
  }

  predicate Blank(e: EntryState)
  {
    e.fact == "" && e.goal == ""
  }

  /** The initial map (lines 40-51): one blank cell per (employee, metric)
      pair, under that pair's key. */
  method InitialEntries(employees: seq<Employee>) returns (entries: map<string, EntryState>)
    ensures forall k :: k in entries <==> InGrid(employees, k)
    ensures forall k :: k in entries ==> Blank(entries[k])
    ensures WellKeyed(entries)
  {
    entries := map[];
    var i := 0;
    while i < |employees|
      invariant 0 <= i <= |employees|
      invariant forall k :: k in entries <==> Added(employees, i, 0, k)
      invariant forall k :: k in entries ==> Blank(entries[k])
      invariant WellKeyed(entries)
    {
      var emp := employees[i];
      var j := 0;
      while j < |emp.metrics|
        invariant 0 <= j <= |emp.metrics|
        invariant forall k :: k in entries <==> Added(employees, i, j, k)
        invariant forall k :: k in entries ==> Blank(entries[k])
        invariant WellKeyed(entries)
      {
        var m := emp.metrics[j];
        var key := Key(emp.id, m.id);
        entries := entries[key := EntryState(emp.id, m.id, "", "")];
        forall k | Added(employees, i, j + 1, k)
          ensures k in entries
        {
          var a, b :| 0 <= a <= i && a < |employees| && 0 <= b < |employees[a].metrics| && (a < i || b < j + 1)
                      && k == Key(employees[a].id, employees[a].metrics[b].id);
          if a == i && b == j {
            assert k == key;
          } else {
            assert Added(employees, i, j, k);
          }
        }
        forall k | k in entries
          ensures Added(employees, i, j + 1, k)
        {
          if k == key {
            assert 0 <= i <= i && i < |employees| && 0 <= j < |employees[i].metrics|
                   && k == Key(employees[i].id, employees[i].metrics[j].id);
          } else {
            assert Added(employees, i, j, k);
          }
        }
        j := j + 1;
      }
      forall k | Added(employees, i, j, k)
        ensures Added(employees, i + 1, 0, k)
      {
        var a, b :| 0 <= a <= i && a < |employees| && 0 <= b < |employees[a].metrics| && (a < i || b < j)
                    && k == Key(employees[a].id, employees[a].metrics[b].id);
        assert 0 <= a <= i + 1 && a < i + 1;
      }
      forall k | Added(employees, i + 1, 0, k)
        ensures Added(employees, i, j, k)
      {
        var a, b :| 0 <= a <= i + 1 && a < |employees| && 0 <= b < |employees[a].metrics| && (a < i + 1 || b < 0)
                    && k == Key(employees[a].id, employees[a].metrics[b].id);
        assert a < i || b < j;
      }
      i := i + 1;
    }
    forall k | InGrid(employees, k)
      ensures Added(employees, i, 0, k)
    {
      var a, b :| 0 <= a < |employees| && 0 <= b < |employees[a].metrics|
                  && k == Key(employees[a].id, employees[a].metrics[b].id);
      assert 0 <= a <= i && a < i;
    }
  }

  // ---------------------------------------------------------------------
  // Editing a cell
  // ---------------------------------------------------------------------

  /** `employees.find(e => e.id === id)` */
  function FindEmployee(employees: seq<Employee>, id: string): (r: Option<Employee>)
    ensures r.Some? <==> exists e :: e in employees && e.id == id
    ensures r.Some? ==> r.value in employees && r.value.id == id
    ensures r.Some? ==> exists k :: 0 <= k < |employees| && employees[k] == r.value
                                    && forall j :: 0 <= j < k ==> employees[j].id != id
  {
    if |employees| == 0 then None
    else if employees[0].id == id then Some(employees[0])
    else
      var r := FindEmployee(employees[1..], id);
      assert r.Some? ==> exists k :: 0 <= k < |employees| && employees[k] == r.value
                                     && forall j :: 0 <= j < k ==> employees[j].id != id by {
        if r.Some? {
          var k :| 0 <= k < |employees[1..]| && employees[1..][k] == r.value
                   && forall j :: 0 <= j < k ==> employees[1..][j].id != id;
          assert employees[k + 1] == r.value;
          assert forall j :: 1 <= j < k + 1 ==> employees[j] == employees[1..][j - 1];
        }
      }
      assert forall e :: e in employees[1..] ==> e in employees;
      assert forall e :: e in employees && e.id == id ==> e in employees[1..] by {
        forall e | e in employees && e.id == id ensures e in employees[1..] {
          var k :| 0 <= k < |employees| && employees[k] == e;
          assert k > 0;
          assert employees[1..][k - 1] == e;
        }
      }
      r
  }

  /** `metrics.find(m => m.id === id)` */
  function FindMetric(metrics: seq<MetricConfig>, id: string): (r: Option<MetricConfig>)
    ensures r.Some? ==> r.value in metrics && r.value.id == id
    ensures r.None? ==> forall m :: m in metrics ==> m.id != id
    ensures r.Some? ==> exists k :: 0 <= k < |metrics| && metrics[k] == r.value
                                    && forall j :: 0 <= j < k ==> metrics[j].id != id
  {
    if |metrics| == 0 then None
    else if metrics[0].id == id then Some(metrics[0])
    else
      var r := FindMetric(metrics[1..], id);
      assert r.Some? ==> exists k :: 0 <= k < |metrics| && metrics[k] == r.value
                                     && forall j :: 0 <= j < k ==> metrics[j].id != id by {
        if r.Some? {
          var k :| 0 <= k < |metrics[1..]| && metrics[1..][k] == r.value
                   && forall j :: 0 <= j < k ==> metrics[1..][j].id != id;
          assert metrics[k + 1] == r.value;
          assert forall j :: 1 <= j < k + 1 ==> metrics[j] == metrics[1..][j - 1];
        }
      }
      assert forall m :: m in metrics ==> m == metrics[0] || m in metrics[1..];
      r
  }

  /** `metrics.filter(m => m.direction === "negative")` */
  function NegativeMetrics(metrics: seq<MetricConfig>): (ns: seq<MetricConfig>)
    ensures forall m :: m in ns <==> m in metrics && m.direction == "negative"
  {
    if |metrics| == 0 then []
    else
      var rest := NegativeMetrics(metrics[1..]);
      assert forall m :: m in metrics <==> m == metrics[0] || m in metrics[1..];
      if metrics[0].direction == "negative" then [metrics[0]] + rest else rest
  }

  /** Whether editing `field` of `entry` copies the value into goals: the
      field is the fact, and the entry's metric, looked up through its
      employee, is the positive "completed tasks" metric. */
  predicate AutoFills(employees: seq<Employee>, entry: EntryState, field: Field)
  {
    && field == Fact
    && var emp := FindEmployee(employees, entry.employeeId);
    && emp.Some?
    && var metric := FindMetric(emp.value.metrics, entry.metricConfigId);
    && metric.Some? && metric.value.name == CompletedTasks && metric.value.direction == "positive"
  }

  /** Whether k is the key of the given employee and one of `metrics`. */
  predicate KeyOfSome(employeeId: string, metrics: seq<MetricConfig>, k: string)
  {
    exists nm :: nm in metrics && k == Key(employeeId, nm.id)
  }

  /** Whether key k is that of one of the negative metrics of the entry's
      employee. */
  predicate IsFillTarget(employees: seq<Employee>, entry: EntryState, k: string)
  {
    var emp := FindEmployee(employees, entry.employeeId);
    emp.Some? && KeyOfSome(entry.employeeId, NegativeMetrics(emp.value.metrics), k)
  }

  function SetField(e: EntryState, field: Field, value: string): EntryState
  {
    if field == Fact then e.(fact := value) else e.(goal := value)
  }

  /** The map after an edit: the edited cell takes the new value; when the
      edit auto-fills, every existing cell of the employee's negative
      metrics also takes it as its goal. */
  function Updated(employees: seq<Employee>, prev: map<string, EntryState>, key: string, field: Field, value: string): map<string, EntryState>
    requires key in prev
  {
    var entry := prev[key];
    map k | k in prev ::
      var cell := if k == key then SetField(entry, field, value) else prev[k];
      if AutoFills(employees, entry, field) && IsFillTarget(employees, entry, k) then cell.(goal := value) else cell
  }

  /** Whether k is the key of the given employee and one of the first t
      metrics. */
  ghost predicate AmongFirst(employeeId: string, metrics: seq<MetricConfig>, t: int, k: string)
  {
    exists s :: 0 <= s < t && s < |metrics| && k == Key(employeeId, metrics[s].id)
  }

  /** The auto-fill loop of updateEntry (lines 86-92): for each metric, the
      cell under the employee's key for it, when present, takes the value
      as its goal; no cell is added. */
  method FillGoals(cells: map<string, EntryState>, employeeId: string, metrics: seq<MetricConfig>, value: string)
    returns (next: map<string, EntryState>)
    ensures next.Keys == cells.Keys
    ensures forall k :: k in next ==>
              next[k] == if KeyOfSome(employeeId, metrics, k) then cells[k].(goal := value) else cells[k]
  {
    next := cells;
    var t := 0;
    while t < |metrics|
      invariant 0 <= t <= |metrics|
      invariant next.Keys == cells.Keys
      invariant forall k :: k in next ==>
                  next[k] == if AmongFirst(employeeId, metrics, t, k) then cells[k].(goal := value) else cells[k]
    {
      var nKey := Key(employeeId, metrics[t].id);
      if nKey in next {
        next := next[nKey := next[nKey].(goal := value)];
      }
      forall k
        ensures AmongFirst(employeeId, metrics, t + 1, k) <==> AmongFirst(employeeId, metrics, t, k) || k == nKey
      {
        if AmongFirst(employeeId, metrics, t + 1, k) && k != nKey {
          var s :| 0 <= s < t + 1 && s < |metrics| && k == Key(employeeId, metrics[s].id);
          assert s != t;
        }
        if k == nKey {
          assert 0 <= t < t + 1 && t < |metrics| && k == Key(employeeId, metrics[t].id);
        }
      }
      t := t + 1;
    }
    forall k | k in next
      ensures AmongFirst(employeeId, metrics, t, k) <==> KeyOfSome(employeeId, metrics, k)
    {
      if KeyOfSome(employeeId, metrics, k) {
        var nm :| nm in metrics && k == Key(employeeId, nm.id);
        var s :| 0 <= s < |metrics| && metrics[s] == nm;
        assert AmongFirst(employeeId, metrics, t, k);
      }
    }
  }

  /** updateEntry (lines 70-95): copy the map, set the edited field, and on
      an auto-filling edit set the goal of each existing cell of the
      employee's negative metrics. The caller passes a key of the map (the
      source asserts it with `!`). */
  method UpdateEntry(employees: seq<Employee>, prev: map<string, EntryState>, key: string, field: Field, value: string)
    returns (next: map<string, EntryState>)
    requires key in prev
    ensures next == Updated(employees, prev, key, field, value)
  {
    var entry := prev[key];
    next := prev[key := SetField(entry, field, value)];
    ghost var base := next;
    var fills := false;
    if field == Fact {
      var emp := FindEmployee(employees, entry.employeeId);
      var metric := if emp.Some? then FindMetric(emp.value.metrics, entry.metricConfigId) else None;
      if metric.Some? && metric.value.name == CompletedTasks && metric.value.direction == "positive" {
        var negativeMetrics := NegativeMetrics(emp.value.metrics);
        next := FillGoals(next, entry.employeeId, negativeMetrics, value);
        fills := true;
      }
    }
    assert fills == AutoFills(employees, entry, field);
    ghost var want := Updated(employees, prev, key, field, value);
    assert next.Keys == want.Keys;
    forall k | k in next
      ensures next[k] == want[k]
    {
      assert base[k] == if k == key then SetField(entry, field, value) else prev[k];
    }
  }

  /** An edit keeps the set of keys, and keeps every cell under its key. */
  lemma UpdateKeepsShape(employees: seq<Employee>, prev: map<string, EntryState>, key: string, field: Field, value: string)
    requires key in prev
    ensures Updated(employees, prev, key, field, value).Keys == prev.Keys
    ensures WellKeyed(prev) ==> WellKeyed(Updated(employees, prev, key, field, value))
  {
    var next := Updated(employees, prev, key, field, value);
    assert next.Keys == prev.Keys;
  }

  /** Editing a goal, or the fact of any metric but the positive "completed
      tasks" one, changes only the edited field of the edited cell. */
  lemma UpdateWithoutAutoFill(employees: seq<Employee>, prev: map<string, EntryState>, key: string, field: Field, value: string)
    requires key in prev
    requires !AutoFills(employees, prev[key], field)
    ensures Updated(employees, prev, key, field, value) == prev[key := SetField(prev[key], field, value)]
  {
    var next := Updated(employees, prev, key, field, value);
    assert next.Keys == prev[key := SetField(prev[key], field, value)].Keys;
  }

  /** Editing the "completed tasks" fact sets the value as the goal of
      every existing cell of the employee's negative metrics; no fact
      changes except the edited one, and every other cell keeps its goal. */
  lemma UpdateAutoFill(employees: seq<Employee>, prev: map<string, EntryState>, key: string, value: string)
    requires key in prev
    requires AutoFills(employees, prev[key], Fact)
    ensures var next := Updated(employees, prev, key, Fact, value);
            var emp := FindEmployee(employees, prev[key].employeeId).value;
            && (forall nm :: nm in emp.metrics && nm.direction == "negative" && Key(prev[key].employeeId, nm.id) in prev ==>
                  next[Key(prev[key].employeeId, nm.id)].goal == value)
            && next[key].fact == value
            && (forall k :: k in prev && k != key ==> next[k].fact == prev[k].fact)
            && (forall k :: k in prev && !IsFillTarget(employees, prev[key], k) ==> next[k].goal == prev[k].goal)
  {
    var emp := FindEmployee(employees, prev[key].employeeId).value;
    forall nm | nm in emp.metrics && nm.direction == "negative"
      ensures IsFillTarget(employees, prev[key], Key(prev[key].employeeId, nm.id))
    {
      assert nm in NegativeMetrics(emp.metrics);
    }
  }

  /** With employee ids free of "_", an edit never touches another
      employee's cells. */
  lemma UpdateStaysWithEmployee(employees: seq<Employee>, prev: map<string, EntryState>, key: string, field: Field, value: string, k: string)
    requires key in prev && k in prev && WellKeyed(prev)
    requires PlainId(prev[k].employeeId) && PlainId(prev[key].employeeId)
    requires prev[k].employeeId != prev[key].employeeId
    ensures Updated(employees, prev, key, field, value)[k] == prev[k]
  {
    var entry := prev[key];
    assert k != key;
    if IsFillTarget(employees, entry, k) {
      var emp := FindEmployee(employees, entry.employeeId);
      var nm :| nm in NegativeMetrics(emp.value.metrics) && k == Key(entry.employeeId, nm.id);
      KeyInjective(prev[k].employeeId, prev[k].metricConfigId, entry.employeeId, nm.id);
      assert false;
    }
  }

  // ---------------------------------------------------------------------
  // Live percent and KPI
  // ---------------------------------------------------------------------

  /** getPercent (lines 97-112): the metric's percent from the cell's two
      fields; None when the cell is missing, a field is not a number, or
      both fields are empty and read as 0. */
  function GetPercent(metric: MetricConfig, key: string, entries: map<string, EntryState>, parse: string -> Option<real>): (r: Option<real>)
    ensures r.Some? <==>
              && key in entries
              && parse(entries[key].fact).Some? && parse(entries[key].goal).Some?
              && !(parse(entries[key].fact).value == 0.0 && parse(entries[key].goal).value == 0.0
                   && entries[key].fact == "" && entries[key].goal == "")
    ensures r.Some? ==>
              r.value == Kpi.MetricPercent(parse(entries[key].fact).value, parse(entries[key].goal).value,
                                           Kpi.DirectionOf(metric.direction), metric.threshold)
  {
    if key !in entries then None
    else
      var entry := entries[key];
      var fact := parse(entry.fact);
      var goal := parse(entry.goal);
      if fact.None? || goal.None? then None
      else if fact.value == 0.0 && goal.value == 0.0 && entry.fact == "" && entry.goal == "" then None
      else Some(Kpi.MetricPercent(fact.value, goal.value, Kpi.DirectionOf(metric.direction), metric.threshold))
  }

  /** parseFloat("") is NaN, so the "both empty" test never decides: the
      percent exists exactly when the cell exists and both fields parse. */
  lemma EmptyGuardRedundant(metric: MetricConfig, key: string, entries: map<string, EntryState>, parse: string -> Option<real>)
    requires parse("").None?
    ensures GetPercent(metric, key, entries, parse).Some? <==>
              key in entries && parse(entries[key].fact).Some? && parse(entries[key].goal).Some?
  {
  }

  /** The (percent, weight) pairs of an employee's metrics that have a
      percent, in metric order. */
  function Scores(emp: Employee, metrics: seq<MetricConfig>, entries: map<string, EntryState>, parse: string -> Option<real>): (s: seq<Kpi.Scored>)
    ensures |s| <= |metrics|
  {
    if |metrics| == 0 then []
    else
      var m := metrics[|metrics| - 1];
      var pct := GetPercent(m, Key(emp.id, m.id), entries, parse);
      Scores(emp, metrics[..|metrics| - 1], entries, parse) + (if pct.Some? then [Kpi.Scored(pct.value, m.weight)] else [])
  }

  /** Whether some metric of the employee has a percent. */
  predicate HasData(emp: Employee, entries: map<string, EntryState>, parse: string -> Option<real>)
  {
    exists j :: 0 <= j < |emp.metrics| && GetPercent(emp.metrics[j], Key(emp.id, emp.metrics[j].id), entries, parse).Some?
  }

  /** The employee's live KPI: the period total (calculateTotalKpi) of the
      metrics that have a percent, 0 when none has. */
  function LiveKpi(emp: Employee, entries: map<string, EntryState>, parse: string -> Option<real>): real
  {
    if HasData(emp, entries, parse) then Kpi.TotalKpi(Scores(emp, emp.metrics, entries, parse)) else 0.0
  }

  /** A metric has a percent exactly when it contributes a score. */
  lemma {:induction false} ScoresNonEmpty(emp: Employee, n: nat, entries: map<string, EntryState>, parse: string -> Option<real>)
    requires n <= |emp.metrics|
    ensures |Scores(emp, emp.metrics[..n], entries, parse)| > 0 <==>
              exists j :: 0 <= j < n && GetPercent(emp.metrics[j], Key(emp.id, emp.metrics[j].id), entries, parse).Some?
  {
    if n > 0 {
      assert emp.metrics[..n][..n - 1] == emp.metrics[..n - 1];
      ScoresNonEmpty(emp, n - 1, entries, parse);
    }
  }

  /** One more metric adds its (percent, weight) pair to the scores when
      it has a percent, and nothing when it has none. */
  lemma ScoresStep(emp: Employee, j: nat, entries: map<string, EntryState>, parse: string -> Option<real>)
    requires j < |emp.metrics|
    ensures var m := emp.metrics[j];
            var pct := GetPercent(m, Key(emp.id, m.id), entries, parse);
            Scores(emp, emp.metrics[..j + 1], entries, parse) ==
              Scores(emp, emp.metrics[..j], entries, parse) + (if pct.Some? then [Kpi.Scored(pct.value, m.weight)] else [])
  {
    assert emp.metrics[..j + 1][..j] == emp.metrics[..j];
  }

  /** One employee's pass of employeeKpis (lines 117-127): add pct * weight
      over the metrics with a percent, note whether any had one, and round
      the total to two decimals, or give 0 without data. */
  method EmployeeLiveKpi(emp: Employee, entries: map<string, EntryState>, parse: string -> Option<real>)
    returns (kpi: real, hasData: bool)
    ensures hasData == HasData(emp, entries, parse)
    ensures hasData <==> |Scores(emp, emp.metrics, entries, parse)| > 0
    ensures kpi == LiveKpi(emp, entries, parse)
  {
    var totalKpi := 0.0;
    hasData := false;
    var j := 0;
    while j < |emp.metrics|
      invariant 0 <= j <= |emp.metrics|
      invariant totalKpi == Kpi.WeightedSum(Scores(emp, emp.metrics[..j], entries, parse))
      invariant hasData <==> |Scores(emp, emp.metrics[..j], entries, parse)| > 0
    {
      var m := emp.metrics[j];
      var key := Key(emp.id, m.id);
      var pct := GetPercent(m, key, entries, parse);
      ghost var before := Scores(emp, emp.metrics[..j], entries, parse);
      ScoresStep(emp, j, entries, parse);
      if pct.Some? {
        Kpi.WeightedSumSnoc(before, Kpi.Scored(pct.value, m.weight));
        totalKpi := totalKpi + pct.value * m.weight;
        hasData := true;
      } else {
        assert before + [] == before;
      }
      j := j + 1;
    }
    assert emp.metrics[..j] == emp.metrics;
    ScoresNonEmpty(emp, j, entries, parse);
    kpi := if hasData then Kpi.Round2(totalKpi) else 0.0;
  }

  /** The live KPIs of a list of employees, by id, each later employee
      overwriting an earlier one with the same id. */
  function LiveKpis(employees: seq<Employee>, entries: map<string, EntryState>, parse: string -> Option<real>): map<string, real>
  {
    if |employees| == 0 then map[]
    else
      var emp := employees[|employees| - 1];
      LiveKpis(employees[..|employees| - 1], entries, parse)[emp.id := LiveKpi(emp, entries, parse)]
  }

  /** employeeKpis (lines 114-131): one pass of the live KPI per employee,
      stored under the employee's id. */
  method EmployeeKpis(employees: seq<Employee>, entries: map<string, EntryState>, parse: string -> Option<real>)
    returns (result: map<string, real>)
    ensures result == LiveKpis(employees, entries, parse)
  {
    result := map[];
    var i := 0;
    while i < |employees|
      invariant 0 <= i <= |employees|
      invariant result == LiveKpis(employees[..i], entries, parse)
    {
      var emp := employees[i];
      var kpi, hasData := EmployeeLiveKpi(emp, entries, parse);
      assert employees[..i + 1][..i] == employees[..i];
      result := result[emp.id := kpi];
      i := i + 1;
    }
    assert employees[..i] == employees;
  }

  /** The map has a key for exactly the employees' ids. */
  lemma {:induction false} LiveKpisKeys(employees: seq<Employee>, entries: map<string, EntryState>, parse: string -> Option<real>)
    ensures forall id :: id in LiveKpis(employees, entries, parse) <==> exists e :: e in employees && e.id == id
  {
    if |employees| > 0 {
      var init := employees[..|employees| - 1];
      var last := employees[|employees| - 1];
      LiveKpisKeys(init, entries, parse);
      assert forall e :: e in employees <==> e in init || e == last by {
        assert employees == init + [last];
      }
    }
  }

  /** Under each id the map holds the live KPI of the last employee with
      that id. */
  lemma {:induction false} LiveKpisByLastId(employees: seq<Employee>, entries: map<string, EntryState>, parse: string -> Option<real>, i: int)
    requires 0 <= i < |employees|
    requires forall j :: i < j < |employees| ==> employees[j].id != employees[i].id
    ensures employees[i].id in LiveKpis(employees, entries, parse)
    ensures LiveKpis(employees, entries, parse)[employees[i].id] == LiveKpi(employees[i], entries, parse)
  {
    var init := employees[..|employees| - 1];
    if i < |employees| - 1 {
      assert employees[i] == init[i];
      LiveKpisByLastId(init, entries, parse, i);
    }
  }

  // ---------------------------------------------------------------------
  // Saving
  // ---------------------------------------------------------------------

  /** One element of the submitted `entries` list; None is a NaN number. */
  datatype Submitted = Submitted(employeeId: string, metricConfigId: string, fact: Option<real>, goal: Option<real>)

  predicate Filled(e: EntryState)
  {
    e.fact != "" && e.goal != ""
  }

  /** The submitted form of a cell: its ids and both fields parsed. */
  function Submit(e: EntryState, parse: string -> Option<real>): Submitted
  {
    Submitted(e.employeeId, e.metricConfigId, parse(e.fact), parse(e.goal))
  }

  /** The save list (lines 161-168): the cells with both fields filled, in
      the map's order, with both fields parsed. `cells` is the map's values
      in iteration order. */
  function SaveList(cells: seq<EntryState>, parse: string -> Option<real>): (out: seq<Submitted>)
    ensures |out| <= |cells|
    ensures forall s :: s in out <==> exists e :: e in cells && Filled(e) && s == Submit(e, parse)
    ensures |cells| == 1 ==> out == if Filled(cells[0]) then [Submit(cells[0], parse)] else []
  {
    if |cells| == 0 then []
    else
      var e := cells[0];
      var rest := SaveList(cells[1..], parse);
      assert forall c :: c in cells <==> c == e || c in cells[1..];
      if Filled(e) then [Submit(e, parse)] + rest else rest
  }

  /** The save list of two runs of cells is the save list of the first
      followed by that of the second. With the one-cell case in SaveList's
      contract this fixes the list completely: one element per filled cell,
      in the cells' order, none for the others. */
  lemma {:induction false} SaveListAppend(a: seq<EntryState>, b: seq<EntryState>, parse: string -> Option<real>)
    ensures SaveList(a + b, parse) == SaveList(a, parse) + SaveList(b, parse)
  {
    if |a| == 0 {
      assert a + b == b;
    } else {
      assert (a + b)[0] == a[0] && (a + b)[1..] == a[1..] + b;
      SaveListAppend(a[1..], b, parse);
      var head := if Filled(a[0]) then [Submit(a[0], parse)] else [];
      assert SaveList(a, parse) == head + SaveList(a[1..], parse);
      assert SaveList(a + b, parse) == head + (SaveList(a[1..], parse) + SaveList(b, parse));
    }
  }
}
