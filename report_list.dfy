/** The per-employee KPIs shown for each report in the report list
    (src/app/reports/page.tsx): a report's entries grouped by employee,
    summing their weighted scores. */
module ReportList {
  import opened Types

  /** One line of a report's KPI column: the employee's name and KPI. */
  datatype ReportKpi = ReportKpi(name: string, kpi: real)

  /** Whether some entry belongs to the employee. */
  predicate Appears(entries: seq<ReportEntry>, id: string)
  {
    exists k :: 0 <= k < |entries| && entries[k].employeeId == id
  }

  /** The employee ids of the entries, each once, in order of first
      appearance. */
  function Ids(entries: seq<ReportEntry>): (ids: seq<string>)
    ensures forall id :: id in ids <==> Appears(entries, id)
  {
    if |entries| == 0 then []
    else
      var init := entries[..|entries| - 1];
      var id := entries[|entries| - 1].employeeId;
      var before := Ids(init);
      assert forall x :: Appears(entries, x) <==> Appears(init, x) || x == id by {
        forall x | Appears(entries, x) && x != id ensures Appears(init, x) {
          var k :| 0 <= k < |entries| && entries[k].employeeId == x;
          assert init[k] == entries[k];
        }
        forall x | Appears(init, x) ensures Appears(entries, x) {
          var k :| 0 <= k < |init| && init[k].employeeId == x;
          assert entries[k] == init[k];
        }
      }
      if id in before then before else before + [id]
  }

  /** Each employee is listed once. */
  lemma {:induction false} IdsDistinct(entries: seq<ReportEntry>)
    ensures forall a, b :: 0 <= a < b < |Ids(entries)| ==> Ids(entries)[a] != Ids(entries)[b]
  {
    if |entries| > 0 {
      IdsDistinct(entries[..|entries| - 1]);
    }
  }

  /** The index of the employee's first entry. */
  function FirstIndex(entries: seq<ReportEntry>, id: string): (k: nat)
    requires Appears(entries, id)
    ensures k < |entries| && entries[k].employeeId == id
    ensures forall j :: 0 <= j < k ==> entries[j].employeeId != id
  {
    var init := entries[..|entries| - 1];
    if Appears(init, id) then
      var k := FirstIndex(init, id);
      assert entries[k] == init[k];
      assert forall j :: 0 <= j < k ==> entries[j] == init[j];
      k
    else
      assert forall j :: 0 <= j < |init| ==> entries[j] == init[j];
      |entries| - 1
  }

  /** The unrounded sum of the employee's weighted scores. */
  function Total(entries: seq<ReportEntry>, id: string): real
  {
    if |entries| == 0 then 0.0
    else
      var last := entries[|entries| - 1];
      Total(entries[..|entries| - 1], id) + (if last.employeeId == id then last.weightedScore else 0.0)
  }

  /** The sum of every entry's weighted score. */
  function ScoreTotal(entries: seq<ReportEntry>): real
  {
    if |entries| == 0 then 0.0
    else ScoreTotal(entries[..|entries| - 1]) + entries[|entries| - 1].weightedScore
  }

  /** Growing the entries by one adds its employee to the ids when new. */
  lemma ExtendIds(entries: seq<ReportEntry>, n: nat)
    requires n < |entries|
    ensures Ids(entries[..n + 1]) ==
              if entries[n].employeeId in Ids(entries[..n]) then Ids(entries[..n]) else Ids(entries[..n]) + [entries[n].employeeId]
  {
    assert entries[..n + 1][..n] == entries[..n];
  }

  /** Growing the entries by one adds its score to its employee's total. */
  lemma ExtendTotal(entries: seq<ReportEntry>, n: nat, id: string)
    requires n < |entries|
    ensures Total(entries[..n + 1], id) ==
              Total(entries[..n], id) + (if entries[n].employeeId == id then entries[n].weightedScore else 0.0)
  {
    assert entries[..n + 1][..n] == entries[..n];
  }

  /** Growing the entries keeps each first entry, and makes the new entry
      the first of a new employee. */
  lemma ExtendFirst(entries: seq<ReportEntry>, n: nat, id: string)
    requires n < |entries|
    requires Appears(entries[..n], id) || id == entries[n].employeeId
    ensures Appears(entries[..n + 1], id)
    ensures FirstIndex(entries[..n + 1], id) == if Appears(entries[..n], id) then FirstIndex(entries[..n], id) else n
  {
    assert entries[..n + 1][..n] == entries[..n];
    assert entries[..n + 1][n] == entries[n];
  }

  /** The Map the loop builds, one entry at a time: a new employee is
      inserted with the entry's name and score, a known one has the score
      added to its kpi. */
  function Grouped(entries: seq<ReportEntry>): map<string, ReportKpi>
  {
    if |entries| == 0 then map[]
    else
      var g := Grouped(entries[..|entries| - 1]);
      var e := entries[|entries| - 1];
      if e.employeeId in g then g[e.employeeId := g[e.employeeId].(kpi := g[e.employeeId].kpi + e.weightedScore)]
      else g[e.employeeId := ReportKpi(e.employeeName, e.weightedScore)]
  }

  /** The Map has a key for exactly the employees with entries. */
  lemma {:induction false} GroupedKeyAt(entries: seq<ReportEntry>, id: string)
    ensures id in Grouped(entries) <==> id in Ids(entries)
  {
    if |entries| > 0 {
      GroupedKeyAt(entries[..|entries| - 1], id);
    }
  }

  /** Under each employee the Map holds the name from the employee's first
      entry and the sum of the employee's weighted scores. */
  lemma {:induction false} GroupedAt(entries: seq<ReportEntry>, id: string)
    requires id in Ids(entries)
    ensures id in Grouped(entries)
    ensures Grouped(entries)[id] == ReportKpi(entries[FirstIndex(entries, id)].employeeName, Total(entries, id))
  {
    var n := |entries| - 1;
    var init := entries[..n];
    assert entries[..n + 1] == entries;
    ExtendIds(entries, n);
    ExtendTotal(entries, n, id);
    GroupedKeyAt(init, id);
    if id in Ids(init) {
      GroupedAt(init, id);
    } else {
      TotalAbsent(init, id);
    }
    ExtendFirst(entries, n, id);
  }

  /** getReportKpis (lines 36-50): walk the entries keeping a Map from
      employee id to {name, kpi}; the first entry of an employee inserts
      its name and score, later ones add their score to the stored kpi;
      the result is the Map's values in insertion order. `order` holds that
      insertion order. */
  method GetReportKpis(entries: seq<ReportEntry>) returns (items: seq<ReportKpi>)
    ensures |items| == |Ids(entries)|
    ensures forall i :: 0 <= i < |items| ==>
              var id := Ids(entries)[i];
              items[i] == ReportKpi(entries[FirstIndex(entries, id)].employeeName, Total(entries, id))
  {
    var empMap: map<string, ReportKpi> := map[];
    var order: seq<string> := [];
    var i := 0;
    while i < |entries|
      invariant 0 <= i <= |entries|
      invariant order == Ids(entries[..i])
      invariant empMap == Grouped(entries[..i])
    {
      var entry := entries[i];
      ExtendIds(entries, i);
      GroupedKeyAt(entries[..i], entry.employeeId);
      assert entries[..i + 1][..i] == entries[..i];
      if entry.employeeId in empMap {
        var existing := empMap[entry.employeeId];
        empMap := empMap[entry.employeeId := existing.(kpi := existing.kpi + entry.weightedScore)];
      } else {
        empMap := empMap[entry.employeeId := ReportKpi(entry.employeeName, entry.weightedScore)];
        order := order + [entry.employeeId];
      }
      i := i + 1;
    }
    assert entries[..i] == entries;
    forall k | 0 <= k < |order|
      ensures order[k] in empMap
      ensures empMap[order[k]] == ReportKpi(entries[FirstIndex(entries, order[k])].employeeName, Total(entries, order[k]))
    {
      GroupedAt(entries, order[k]);
    }
    items := seq(|order|, k requires 0 <= k < |order| => empMap[order[k]]);
  }

  /** The items come in order of each employee's first entry. */
  lemma {:induction false} IdsInFirstOrder(entries: seq<ReportEntry>, a: int, b: int)
    requires 0 <= a < b < |Ids(entries)|
    ensures FirstIndex(entries, Ids(entries)[a]) < FirstIndex(entries, Ids(entries)[b])
  {
    var init := entries[..|entries| - 1];
    var ids := Ids(entries);
    if b < |Ids(init)| {
      assert ids[a] == Ids(init)[a] && ids[b] == Ids(init)[b];
      IdsInFirstOrder(init, a, b);
    } else {
      assert ids[a] in Ids(init);
      assert !Appears(init, ids[b]);
    }
  }

  /** The sum over `ids` of each employee's total. */
  function TotalsOver(entries: seq<ReportEntry>, ids: seq<string>): real
  {
    if |ids| == 0 then 0.0
    else TotalsOver(entries, ids[..|ids| - 1]) + Total(entries, ids[|ids| - 1])
  }

  /** An employee without entries totals 0. */
  lemma {:induction false} TotalAbsent(entries: seq<ReportEntry>, id: string)
    requires !Appears(entries, id)
    ensures Total(entries, id) == 0.0
  {
    if |entries| > 0 {
      TotalAbsent(entries[..|entries| - 1], id);
    }
  }

  /** Adding an entry adds its score to the sum over distinct ids exactly
      when its employee is among them. */
  lemma {:induction false} TotalsOverStep(entries: seq<ReportEntry>, ids: seq<string>)
    requires |entries| > 0
    requires forall a, b :: 0 <= a < b < |ids| ==> ids[a] != ids[b]
    ensures var last := entries[|entries| - 1];
            TotalsOver(entries, ids) ==
              TotalsOver(entries[..|entries| - 1], ids) + (if last.employeeId in ids then last.weightedScore else 0.0)
  {
    if |ids| > 0 {
      var front := ids[..|ids| - 1];
      assert forall x :: x in ids <==> x in front || x == ids[|ids| - 1];
      assert ids[|ids| - 1] !in front;
      TotalsOverStep(entries, front);
    }
  }

  /** Grouping loses nothing: the items' KPIs add up to the sum of all the
      report's weighted scores. */
  lemma {:induction false} GroupingKeepsTotal(entries: seq<ReportEntry>)
    ensures TotalsOver(entries, Ids(entries)) == ScoreTotal(entries)
  {
    if |entries| > 0 {
      var init := entries[..|entries| - 1];
      var last := entries[|entries| - 1];
      var ids, before := Ids(entries), Ids(init);
      assert Appears(entries, last.employeeId);
      IdsDistinct(entries);
      TotalsOverStep(entries, ids);
      assert TotalsOver(entries, ids) == TotalsOver(init, ids) + last.weightedScore;
      GroupingKeepsTotal(init);
      assert ScoreTotal(entries) == ScoreTotal(init) + last.weightedScore;
      if last.employeeId in before {
        assert ids == before;
      } else {
        assert ids == before + [last.employeeId];
        assert ids[..|ids| - 1] == before;
        TotalAbsent(init, last.employeeId);
        assert TotalsOver(init, ids) == TotalsOver(init, before) + Total(init, last.employeeId);
      }
    }
  }

  /** A report without entries shows no KPIs. */
  lemma NoEntriesNoItems()
    ensures Ids([]) == []
  {
  }
}
