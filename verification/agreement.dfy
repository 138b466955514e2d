/** How the two engines relate: without prepayments, under either recalculation policy, the
    adjusted schedule is the baseline schedule cut off where the balance falls within the
    loop's tolerance. */
module Agreement {
  import opened Numeric
  import opened Annuity
  import opened Schedule
  import opened Prepayments
  import opened Adjusted
  import Baseline

  /** A level payment over two or more months covers more than the interest and less than
      the balance plus interest. */
  lemma InteriorMonthAlgebra(b: real, r: real, f: real, a: real)
    requires b > 0.0 && r < f < 1.0 + r && a == b * f
    ensures 0.0 < a - b * r < b
  {
    var u := f - r;
    var v := 1.0 + r - f;
    MulPositive(b, u);
    MulPositive(b, v);
    assert b * u == b * f - b * r;
    assert b * v == b + b * r - b * f;
    assert a - b * r == b * u;
    assert b - (a - b * r) == b * v;
  }

  /** With no prepayment due, a month scheduled at the level payment for its balance over
      the months left of the term is the baseline's month, and it closes exactly when it is
      the last month of the term. */
  lemma MonthMatchesBaseline(plan: Plan, b: real, i: int)
    requires WellFormed(plan) && plan.list == []
    requires 1 <= i <= plan.n && b > 0.0
    requires plan.basePayment == Payment(b, plan.r, plan.n - i + 1)
    ensures MonthRow(plan, b, i) == Baseline.BaselineMonth(plan.n, plan.r, plan.basePayment, i, b)
    ensures Closes(MonthRow(plan, b, i)) <==> i == plan.n
  {
    var k := plan.n - i + 1;
    var a := plan.basePayment;
    assert RemainingMonths(plan.n, i) == k;
    assert ScheduledPayment(plan, b, i) == a;
    assert ExtraForMonth(i, plan.list) == 0.0;
    MonthRowColumns(plan, b, i);
    if i == plan.n {
      FactorLastMonth(plan.r);
      assert a == b + b * plan.r;
    } else {
      FactorBounds(plan.r, k);
      InteriorMonthAlgebra(b, plan.r, Factor(plan.r, k), a);
    }
  }

  /** The baseline month the agreement steps through: a month before the last leaves a
      balance for which the same payment is still the level payment. */
  lemma NextMonthLevel(plan: Plan, b: real, i: int)
    requires WellFormed(plan) && 1 <= i < plan.n && b >= 0.0
    requires plan.basePayment == Payment(b, plan.r, plan.n - i + 1)
    ensures var row := Baseline.BaselineMonth(plan.n, plan.r, plan.basePayment, i, b);
      row.endBalance >= 0.0 && plan.basePayment == Payment(row.endBalance, plan.r, plan.n - (i + 1) + 1)
  {
    Baseline.MiddleMonthExact(plan.n, plan.r, plan.basePayment, i, b);
    assert plan.n - (i + 1) + 1 == plan.n - i;
  }

  /** `short` is `long` cut off at a row that opens within the tolerance. */
  predicate CutAtTolerance(short: seq<Row>, long: seq<Row>)
  {
    && |short| <= |long|
    && short == long[..|short|]
    && (|short| < |long| ==> long[|short|].beginBalance <= BalanceTolerance)
  }

  lemma CutAtToleranceCons(row: Row, short: seq<Row>, long: seq<Row>)
    requires CutAtTolerance(short, long)
    ensures CutAtTolerance([row] + short, [row] + long)
  {
    assert ([row] + long)[..|short| + 1] == [row] + long[..|short|];
  }

  /** From month i, with the base payment the level payment for the balance over the months
      left, the loop without prepayments reproduces the baseline's months until the balance
      falls within the tolerance. */
  lemma {:induction false} RowsMatchBaseline(plan: Plan, b: real, i: int)
    requires WellFormed(plan) && plan.list == []
    requires 1 <= i <= plan.n && b >= 0.0
    requires plan.basePayment == Payment(b, plan.r, plan.n - i + 1)
    ensures CutAtTolerance(AdjustedRows(plan, b, i),
                           Baseline.BaselineRows(plan.n, plan.r, plan.basePayment, i, b))
    decreases plan.n - i
  {
    if Continues(plan.n, b, i) {
      var next := MatchStep(plan, b, i);
      if next.Some? {
        RowsMatchBaseline(plan, next.value, i + 1);
      }
    } else {
      assert MonthCap(plan.n) >= plan.n;
      assert Baseline.BaselineRows(plan.n, plan.r, plan.basePayment, i, b)[0].beginBalance == b;
    }
  }

  /** One step of the agreement: the month is the baseline's last month and the whole
      remaining schedule, or the agreement carries over from the next month, at which the
      base payment is still the level payment for the balance. */
  lemma MatchStep(plan: Plan, b: real, i: int) returns (next: Option<real>)
    requires WellFormed(plan) && plan.list == []
    requires 1 <= i <= plan.n && b >= 0.0 && Continues(plan.n, b, i)
    requires plan.basePayment == Payment(b, plan.r, plan.n - i + 1)
    ensures next.None? ==> CutAtTolerance(AdjustedRows(plan, b, i),
                                          Baseline.BaselineRows(plan.n, plan.r, plan.basePayment, i, b))
    ensures next.Some? ==> i < plan.n && next.value >= 0.0
    ensures next.Some? ==> plan.basePayment == Payment(next.value, plan.r, plan.n - (i + 1) + 1)
    ensures next.Some? && CutAtTolerance(AdjustedRows(plan, next.value, i + 1),
                                         Baseline.BaselineRows(plan.n, plan.r, plan.basePayment, i + 1, next.value)) ==>
      CutAtTolerance(AdjustedRows(plan, b, i), Baseline.BaselineRows(plan.n, plan.r, plan.basePayment, i, b))
  {
    var base := Baseline.BaselineRows(plan.n, plan.r, plan.basePayment, i, b);
    var row := MonthRow(plan, b, i);
    MonthMatchesBaseline(plan, b, i);
    RowsStep(plan, b, i);
    if i == plan.n {
      assert base == [row];
      CutAtToleranceCons(row, [], []);
      next := None;
    } else {
      NextMonthLevel(plan, b, i);
      var rest := Baseline.BaselineRows(plan.n, plan.r, plan.basePayment, i + 1, row.endBalance);
      assert base == [row] + rest;
      var adj := AdjustedRows(plan, row.endBalance, i + 1);
      if CutAtTolerance(adj, rest) {
        CutAtToleranceCons(row, adj, rest);
      }
      next := Some(row.endBalance);
    }
  }

  /** Without prepayments both policies agree with the baseline: the adjusted schedule is the
      baseline schedule up to the first month that would open within the tolerance, and so
      the two policies produce the same schedule. */
  lemma WithoutPrepaymentsMatchesBaseline(principal: real, annualRatePercent: real, years: real,
                                          mode: RecalcMode)
    requires principal >= 0.0 && annualRatePercent >= 0.0
    ensures CutAtTolerance(Compute(principal, annualRatePercent, years, [], mode).schedule,
                           Baseline.Compute(principal, annualRatePercent, years).schedule)
  {
    var plan := PlanFor(principal, annualRatePercent, years, [], mode);
    assert plan.n - 1 + 1 == plan.n;
    RowsMatchBaseline(plan, principal, 1);
  }

  /** Consequently, without prepayments the policy makes no difference. */
  lemma PolicyIrrelevantWithoutPrepayments(principal: real, annualRatePercent: real, years: real)
    requires principal >= 0.0 && annualRatePercent >= 0.0
    ensures Compute(principal, annualRatePercent, years, [], ReduceAmortization).schedule
         == Compute(principal, annualRatePercent, years, [], ReducePayment).schedule
  {
    var base := Baseline.Compute(principal, annualRatePercent, years).schedule;
    var a := Compute(principal, annualRatePercent, years, [], ReduceAmortization).schedule;
    var p := Compute(principal, annualRatePercent, years, [], ReducePayment).schedule;
    WithoutPrepaymentsMatchesBaseline(principal, annualRatePercent, years, ReduceAmortization);
    WithoutPrepaymentsMatchesBaseline(principal, annualRatePercent, years, ReducePayment);
    RowsFollowPolicy(PlanFor(principal, annualRatePercent, years, [], ReduceAmortization), principal, 1);
    RowsFollowPolicy(PlanFor(principal, annualRatePercent, years, [], ReducePayment), principal, 1);
    CutIsUnique(a, p, base);
  }

  /** Two cuts of the same schedule at the first row within the tolerance coincide, provided
      every row they keep opens above it. */
  lemma CutIsUnique(x: seq<Row>, y: seq<Row>, long: seq<Row>)
    requires CutAtTolerance(x, long) && CutAtTolerance(y, long)
    requires forall j :: 0 <= j < |x| ==> x[j].beginBalance > BalanceTolerance
    requires forall j :: 0 <= j < |y| ==> y[j].beginBalance > BalanceTolerance
    ensures x == y
  {
    CutKeepsOpenRows(x, long);
    CutKeepsOpenRows(y, long);
  }

  /** Every row a cut keeps opens above the tolerance when the rows it keeps do. */
  lemma CutKeepsOpenRows(x: seq<Row>, long: seq<Row>)
    requires CutAtTolerance(x, long)
    requires forall j :: 0 <= j < |x| ==> x[j].beginBalance > BalanceTolerance
    ensures forall j :: 0 <= j < |x| ==> long[j].beginBalance > BalanceTolerance
  {
    forall j | 0 <= j < |x|
      ensures long[j].beginBalance > BalanceTolerance
    {
      assert x[j] == long[j];
    }
  }
}
