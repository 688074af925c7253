/** The KPI scoring engine (src/lib/kpi.ts): a metric's achievement percent
    from fact, goal, direction and threshold; the weighted score; the period
    total; and its conversion to money. Numbers are exact reals. */
module Kpi {
  import opened Types

  datatype Direction = Positive | Negative

  /** The scorer tests `direction === "negative"`; every other string,
      "positive" included, is scored as a positive metric. */
  function DirectionOf(s: string): (d: Direction)
    ensures d == Negative <==> s == "negative"
  {
    if s == "negative" then Negative else Positive
  }

  /** MetricInput */
  datatype MetricInput = MetricInput(
    fact: real,
    goal: real,
    direction: Direction,
    weight: real,
    threshold: Option<real>)

  /** MetricResult */
  datatype MetricResult = MetricResult(
    fact: real,
    goal: real,
    percent: real,
    weightedScore: real)

  /** One (percent, weight) pair summed by the period total. */
  datatype Scored = Scored(percent: real, weight: real)

  // ---------------------------------------------------------------------
  // Rounding
  // ---------------------------------------------------------------------

  /** JavaScript's Math.round: the nearest integer, halves toward +infinity. */
  function Round(x: real): (n: int)
    ensures x - 0.5 < n as real <= x + 0.5
  {
    (x + 0.5).Floor
  }

  /** A value with at most two decimals (a whole number of hundredths). */
  ghost predicate Cents(r: real)
  {
    (r * 100.0).Floor as real == r * 100.0
  }

  /** `Math.round(x * 100) / 100`: the two-decimal value nearest to x,
      halves upward. */
  function Round2(x: real): (r: real)
    ensures Cents(r)
    ensures x - 0.005 < r <= x + 0.005
  {
    Round(x * 100.0) as real / 100.0
  }

  /** Round is the only integer within (x - 1/2, x + 1/2]. */
  lemma RoundUnique(x: real, n: int)
    requires x - 0.5 < n as real <= x + 0.5
    ensures Round(x) == n
  {
    var m := Round(x);
    assert -1.0 < m as real - n as real < 1.0;
  }

  /** Round2's contract pins its result down: only one two-decimal value
      lies in (x - 0.005, x + 0.005]. */
  lemma Round2Unique(x: real, r: real)
    requires Cents(r)
    requires x - 0.005 < r <= x + 0.005
    ensures Round2(x) == r
  {
    var n := (r * 100.0).Floor;
    assert n as real == r * 100.0;
    RoundUnique(x * 100.0, n);
  }

  /** Rounding a value that already has two decimals changes nothing. */
  lemma Round2OfCents(x: real)
    requires Cents(x)
    ensures Round2(x) == x
  {
    Round2Unique(x, x);
  }

  lemma RoundMonotone(x: real, y: real)
    requires x <= y
    ensures Round(x) <= Round(y)
  {
    assert (x + 0.5).Floor <= (y + 0.5).Floor;
  }

  lemma Round2Monotone(x: real, y: real)
    requires x <= y
    ensures Round2(x) <= Round2(y)
  {
    RoundMonotone(x * 100.0, y * 100.0);
  }

  // ---------------------------------------------------------------------
  // Metric scorer
  // ---------------------------------------------------------------------

  /** calculateMetricPercent. A negative metric (lower is better) is perfect
      with no defects, fails with defects but no goal, is perfect while the
      fact stays within `threshold` percent of the goal, and otherwise decays
      linearly to 0 at fact == goal, floored at 0. A positive metric scores
      fact/goal*100 with no upper clamp, or 100 when no goal was set. */
  function MetricPercent(fact: real, goal: real, direction: Direction, threshold: Option<real>): (p: real)
    ensures direction == Negative ==> 0.0 <= p <= 100.0
    ensures direction == Positive && goal != 0.0 ==> p * goal == fact * 100.0
  {
    if direction == Negative then
      if fact == 0.0 then 100.0
      else if goal == 0.0 then 0.0
      else
        var factPercent := FactPercent(fact, goal);
        var thresh := Thresh(threshold);
        if factPercent <= thresh then 100.0
        else if thresh >= 100.0 then 0.0
        else
          assert 0.0 <= (factPercent - thresh) / (100.0 - thresh) by {
            DivideMonotone(0.0, factPercent - thresh, 100.0 - thresh);
          }
          Max(0.0, 100.0 - ((factPercent - thresh) / (100.0 - thresh)) * 100.0)
    else
      if goal == 0.0 then 100.0
      else (fact / goal) * 100.0
  }

  function Max(a: real, b: real): (m: real)
    ensures m >= a && m >= b && (m == a || m == b)
  {
    if a >= b then a else b
  }

  /** The fact expressed as a percent of the goal. */
  function FactPercent(fact: real, goal: real): real
    requires goal != 0.0
  {
    (fact / goal) * 100.0
  }

  /** The threshold a negative metric applies: a missing one counts as 0. */
  function Thresh(threshold: Option<real>): real
  {
    if threshold.Some? then threshold.value else 0.0
  }

  /** Zero defects is always perfect; defects against a zero goal always
      score 0; a null threshold behaves as a threshold of 0. */
  lemma NegativeZeroCases(fact: real, goal: real, threshold: Option<real>)
    ensures fact == 0.0 ==> MetricPercent(fact, goal, Negative, threshold) == 100.0
    ensures fact != 0.0 && goal == 0.0 ==> MetricPercent(fact, goal, Negative, threshold) == 0.0
    ensures MetricPercent(fact, goal, Negative, None) == MetricPercent(fact, goal, Negative, Some(0.0))
  {
  }

  /** Within the tolerance band, the boundary included, the score is 100;
      past it, a threshold of 100 or more leaves nothing to decay over and
      the score is 0 with no division performed. */
  lemma NegativeBand(fact: real, goal: real, threshold: Option<real>)
    requires fact != 0.0 && goal != 0.0
    ensures FactPercent(fact, goal) <= Thresh(threshold) ==> MetricPercent(fact, goal, Negative, threshold) == 100.0
    ensures FactPercent(fact, goal) > Thresh(threshold) && Thresh(threshold) >= 100.0 ==>
              MetricPercent(fact, goal, Negative, threshold) == 0.0
  {
  }

  /** Between the threshold and the goal, the score falls on the straight
      line from 100 (fact percent == threshold) to 0 (fact percent == 100);
      from the goal on it is 0. */
  lemma {:induction false} NegativeDecay(fact: real, goal: real, threshold: Option<real>)
    requires fact != 0.0 && goal != 0.0
    requires Thresh(threshold) < FactPercent(fact, goal)
    requires Thresh(threshold) < 100.0
    ensures FactPercent(fact, goal) <= 100.0 ==>
              MetricPercent(fact, goal, Negative, threshold) * (100.0 - Thresh(threshold))
                == 100.0 * (100.0 - FactPercent(fact, goal))
    ensures FactPercent(fact, goal) >= 100.0 ==> MetricPercent(fact, goal, Negative, threshold) == 0.0
  {
    var fp, t := FactPercent(fact, goal), Thresh(threshold);
    var raw := 100.0 - ((fp - t) / (100.0 - t)) * 100.0;
    assert raw * (100.0 - t) == 100.0 * (100.0 - fp);
    QuotientVersusOne(fp - t, 100.0 - t);
  }

  /** a/d against 1 for a positive divisor d. */
  lemma QuotientVersusOne(a: real, d: real)
    requires d > 0.0
    ensures a <= d ==> a / d <= 1.0
    ensures a >= d ==> a / d >= 1.0
  {
    var q := a / d;
    assert (1.0 - q) * d == d - a;
  }

  /** Dividing by a positive number preserves <=. */
  lemma DivideMonotone(a: real, b: real, d: real)
    requires d > 0.0 && a <= b
    ensures a / d <= b / d
  {
    var q := b / d - a / d;
    assert q * d == b - a;
  }

  /** A non-zero factor cancels. */
  lemma Cancel(a: real, b: real, g: real)
    requires g != 0.0 && a * g == b * g
    ensures a == b
  {
    assert (a - b) * g == 0.0;
  }

  /** For a fixed positive goal and threshold, more defects never score
      higher. */
  lemma {:induction false} NegativeMonotone(f1: real, f2: real, goal: real, threshold: Option<real>)
    requires 0.0 <= f1 <= f2
    requires goal > 0.0
    ensures MetricPercent(f2, goal, Negative, threshold) <= MetricPercent(f1, goal, Negative, threshold)
  {
    if f1 == 0.0 || f1 == f2 {
      return;
    }
    var t := Thresh(threshold);
    var p1, p2 := FactPercent(f1, goal), FactPercent(f2, goal);
    DivideMonotone(f1, f2, goal);
    assert p1 <= p2;
    if p1 <= t || t >= 100.0 {
      return;
    }
    var r1 := 100.0 - ((p1 - t) / (100.0 - t)) * 100.0;
    var r2 := 100.0 - ((p2 - t) / (100.0 - t)) * 100.0;
    DivideMonotone(p1 - t, p2 - t, 100.0 - t);
    assert r2 <= r1;
  }

  /** A positive metric with a goal reaches 100 exactly when the fact meets
      the goal; the score is fact/goal*100 with no upper clamp. */
  lemma {:induction false} PositiveAgainstGoal(fact: real, goal: real, threshold: Option<real>)
    requires goal > 0.0
    ensures MetricPercent(fact, goal, Positive, threshold) >= 100.0 <==> fact >= goal
    ensures MetricPercent(fact, goal, Positive, threshold) == 100.0 <==> fact == goal
    ensures MetricPercent(fact, goal, Positive, threshold) == 100.0 * (fact / goal)
  {
    var p := MetricPercent(fact, goal, Positive, threshold);
    assert p * goal == fact * 100.0;
    if p >= 100.0 {
      assert p * goal >= 100.0 * goal;
    }
    if fact >= goal {
      assert p * goal >= 100.0 * goal;
    }
    assert (100.0 * (fact / goal)) * goal == fact * 100.0;
    Cancel(p, 100.0 * (fact / goal), goal);
  }

  /** A positive metric with no goal set scores 100 whatever the fact. */
  lemma PositiveNoGoal(fact: real, threshold: Option<real>)
    ensures MetricPercent(fact, 0.0, Positive, threshold) == 100.0
  {
  }

  /** calculateMetric: fact and goal pass through; percent and weighted score
      are each the two-decimal rounding of the UNROUNDED percent (times the
      weight); `Round2Unique` shows these bounds determine both values. */
  function CalculateMetric(input: MetricInput): (r: MetricResult)
    ensures r.fact == input.fact && r.goal == input.goal
    ensures var p := MetricPercent(input.fact, input.goal, input.direction, input.threshold);
            && Cents(r.percent) && p - 0.005 < r.percent <= p + 0.005
            && Cents(r.weightedScore) && p * input.weight - 0.005 < r.weightedScore <= p * input.weight + 0.005
  {
    var percent := MetricPercent(input.fact, input.goal, input.direction, input.threshold);
    var weightedScore := percent * input.weight;
    MetricResult(input.fact, input.goal, Round2(percent), Round2(weightedScore))
  }

  // ---------------------------------------------------------------------
  // Period total and money
  // ---------------------------------------------------------------------

  /** The exact sum of percent * weight, folded left to right as `reduce`. */
  function WeightedSum(metrics: seq<Scored>): real
  {
    if |metrics| == 0 then 0.0
    else WeightedSum(metrics[..|metrics| - 1]) + metrics[|metrics| - 1].percent * metrics[|metrics| - 1].weight
  }

  /** The sum of the weights. */
  function WeightTotal(metrics: seq<Scored>): real
  {
    if |metrics| == 0 then 0.0
    else WeightTotal(metrics[..|metrics| - 1]) + metrics[|metrics| - 1].weight
  }

  /** calculateTotalKpi: the weighted sum rounded to two decimals; 0 for no
      metrics. */
  function TotalKpi(metrics: seq<Scored>): (r: real)
    ensures |metrics| == 0 ==> r == 0.0
    ensures Cents(r)
    ensures WeightedSum(metrics) - 0.005 < r <= WeightedSum(metrics) + 0.005
  {
    var total := WeightedSum(metrics);
    assert |metrics| == 0 ==> Round2(0.0) == 0.0 by {
      if |metrics| == 0 { RoundUnique(0.0, 0); }
    }
    Round2(total)
  }

  /** One more pair adds its percent times its weight. */
  lemma WeightedSumSnoc(metrics: seq<Scored>, m: Scored)
    ensures WeightedSum(metrics + [m]) == WeightedSum(metrics) + m.percent * m.weight
  {
    assert (metrics + [m])[..|metrics|] == metrics;
  }

  /** Summing two lists of scores is summing their concatenation. */
  lemma {:induction false} WeightedSumAppend(a: seq<Scored>, b: seq<Scored>)
    ensures WeightedSum(a + b) == WeightedSum(a) + WeightedSum(b)
  {
    if |b| == 0 {
      assert a + b == a;
    } else {
      var b' := b[..|b| - 1];
      assert (a + b)[..|a + b| - 1] == a + b';
      WeightedSumAppend(a, b');
    }
  }

  /** When every percent lies in [0, 100] and weights are non-negative, the
      total lies in [0, 100 * (sum of weights)]: weights summing to 1 keep
      the period KPI a percentage. */
  lemma {:induction false} WeightedSumBounds(metrics: seq<Scored>)
    requires forall i :: 0 <= i < |metrics| ==> 0.0 <= metrics[i].percent <= 100.0 && metrics[i].weight >= 0.0
    ensures 0.0 <= WeightedSum(metrics) <= 100.0 * WeightTotal(metrics)
  {
    if |metrics| > 0 {
      var last := metrics[|metrics| - 1];
      var init := metrics[..|metrics| - 1];
      assert forall i :: 0 <= i < |init| ==> init[i] == metrics[i];
      WeightedSumBounds(init);
      var pw := ScaledByWeight(last.percent, last.weight);
      AddBounds(WeightedSum(init), WeightTotal(init), pw, last.weight);
    }
  }

  /** Two bounded summands give a bounded sum. */
  lemma AddBounds(sum: real, total: real, pw: real, w: real)
    requires 0.0 <= sum <= 100.0 * total
    requires 0.0 <= pw <= 100.0 * w
    ensures 0.0 <= sum + pw <= 100.0 * (total + w)
  {
  }

  /** A percent in [0, 100] times a non-negative weight lies in
      [0, 100 * weight]. */
  lemma ScaledByWeight(p: real, w: real) returns (pw: real)
    requires 0.0 <= p <= 100.0 && w >= 0.0
    ensures pw == p * w
    ensures 0.0 <= pw <= 100.0 * w
  {
    pw := p * w;
    MulNonNeg(p, w);
    assert (100.0 - p) * w == 100.0 * w - pw;
    MulNonNeg(100.0 - p, w);
  }

  /** The product of two non-negative numbers is non-negative. */
  lemma MulNonNeg(a: real, b: real)
    requires a >= 0.0 && b >= 0.0
    ensures a * b >= 0.0
  {
    if a > 0.0 && b > 0.0 {
      assert a * b > 0.0;
    }
  }

  /** calculateMoneyKpi: null exactly when the budget is null; otherwise the
      budget's share kpiPercent/100, rounded to a whole unit. */
  function MoneyKpi(kpiPercent: real, budget: Option<real>): (r: Option<int>)
    ensures r.None? <==> budget.None?
    ensures budget.Some? ==>
              budget.value * kpiPercent / 100.0 - 0.5 < r.value as real <= budget.value * kpiPercent / 100.0 + 0.5
  {
    if budget.None? then None
    else Some(Round(budget.value * (kpiPercent / 100.0)))
  }

  /** With a non-negative budget a higher KPI never pays less. */
  lemma MoneyMonotone(k1: real, k2: real, budget: real)
    requires k1 <= k2 && budget >= 0.0
    ensures MoneyKpi(k1, Some(budget)).value <= MoneyKpi(k2, Some(budget)).value
  {
    assert budget * (k1 / 100.0) <= budget * (k2 / 100.0);
    RoundMonotone(budget * (k1 / 100.0), budget * (k2 / 100.0));
  }

  // ---------------------------------------------------------------------
  // Worked values (seeded metric configurations)
  // ---------------------------------------------------------------------

  /** fact 8, goal 10, positive, weight 0.5: percent 80.00, weighted 40.00. */
  lemma ExamplePositive()
    ensures CalculateMetric(MetricInput(8.0, 10.0, Positive, 0.5, None)) == MetricResult(8.0, 10.0, 80.0, 40.0)
  {
    var p := MetricPercent(8.0, 10.0, Positive, None);
    assert p == 80.0;
    Round2OfCents(80.0);
    Round2OfCents(40.0);
  }

  /** fact 3, goal 20, negative, weight 0.2, threshold 10: fact percent 15,
      percent 94.44, weighted 18.89. */
  lemma ExampleNegative()
    ensures CalculateMetric(MetricInput(3.0, 20.0, Negative, 0.2, Some(10.0))) == MetricResult(3.0, 20.0, 94.44, 18.89)
  {
    var p := MetricPercent(3.0, 20.0, Negative, Some(10.0));
    assert FactPercent(3.0, 20.0) == 15.0;
    assert p == 100.0 - (5.0 / 90.0) * 100.0;
    Round2Unique(p, 94.44);
    Round2Unique(p * 0.2, 18.89);
  }

  /** Budget 50000 at a 60.00 KPI pays 30000. */
  lemma ExampleMoney()
    ensures MoneyKpi(60.0, Some(50000.0)) == Some(30000)
  {
    RoundUnique(30000.0, 30000);
  }
}
