/** The adjusted engine: the month-by-month schedule with prepayments applied, under one of
    two recalculation policies, stopped when the balance is paid off or an iteration cap is hit. */
module Adjusted {
  import opened Numeric
  import opened Term
  import opened Annuity
  import opened Schedule
  import opened Prepayments
  import Baseline

  /** After a prepayment, either keep the payment and shorten the loan, or keep the term
      and lower the payment. */
  datatype RecalcMode = ReduceAmortization | ReducePayment

  /** The result of a one-month step lemma (ShapeStep, PolicyStep, TrackStep, and MatchStep in
      Agreement): None when the month ends the schedule, or the closing balance the loop
      continues from. Stating each step once, without the month's arithmetic, keeps the
      inductions over the loop small enough to verify. */
  datatype Option<T> = None | Some(value: T)

  /** The loop runs only while the balance exceeds this. */
  const BalanceTolerance: real := 0.00001

  /** The inputs the loop works from: monthly rate, original term in months, the level
      payment for the principal over that term, the prepayment list and the policy. */
  datatype Plan = Plan(r: real, n: int, basePayment: real, list: seq<Prepayment>, mode: RecalcMode)

  predicate WellFormed(plan: Plan)
  {
    plan.r >= 0.0 && plan.n >= 1
  }

  /** The iteration cap: at most max(5n, 1000) months. */
  function MonthCap(n: int): (cap: int)
    ensures cap >= 5 * n && cap >= 1000
    ensures cap == 5 * n || cap == 1000
  {
    MaxInt(n * 5, 1000)
  }

  /** Months left of the original term at a given month, never below one. */
  function RemainingMonths(n: int, month: int): (k: int)
    ensures k >= 1
    ensures month <= n ==> k == n - month + 1
    ensures month >= n ==> k == 1
  {
    MaxInt(1, n - (month - 1))
  }

  /** The payment due before any extra: the base payment when amortization shortens, or the
      level payment for the current balance over the months left when the payment is recalculated. */
  function ScheduledPayment(plan: Plan, balance: real, month: int): (a: real)
    requires WellFormed(plan)
    ensures plan.mode == ReduceAmortization ==> a == plan.basePayment
    ensures plan.mode == ReducePayment ==>
      a == balance * Factor(plan.r, RemainingMonths(plan.n, month))
  {
    match plan.mode
    case ReduceAmortization => plan.basePayment
    case ReducePayment => Payment(balance, plan.r, RemainingMonths(plan.n, month))
  }

  /** The principal the scheduled payment covers, never negative. */
  function NominalPrincipal(row: Row): real
  {
    Max(0.0, row.scheduledPayment - row.interest)
  }

  /** A row is a closing row when the scheduled payment alone covers the balance. */
  predicate Closes(row: Row)
  {
    NominalPrincipal(row) >= row.beginBalance
  }

  /** One month of the loop, opening with `balance`. When the scheduled principal covers the
      balance the month is a closing row: no extra, and the payment is the balance plus its
      interest. Otherwise the month's due extra is applied, capped at what the scheduled
      principal leaves. */
  function MonthRow(plan: Plan, balance: real, month: int): (row: Row)
    requires WellFormed(plan)
    ensures row.month == month && row.beginBalance == balance
    ensures 0.0 <= row.extra <= ExtraForMonth(month, plan.list)
    ensures row.endBalance >= 0.0 && (balance >= 0.0 ==> row.endBalance <= balance)
  {
    var scheduled := ScheduledPayment(plan, balance, month);
    var interest := balance * plan.r;
    var nominal := Max(0.0, scheduled - interest);
    var closing := nominal >= balance;
    var afterScheduled := Max(0.0, balance - nominal);
    var requested := ExtraForMonth(month, plan.list);
    var applied := if requested > 0.0 then Min(requested, afterScheduled) else 0.0;
    var end := if requested > 0.0 then Max(0.0, afterScheduled - applied) else afterScheduled;
    Row(month, balance, interest, scheduled,
        if closing then 0.0 else applied,
        if closing then balance + interest else scheduled + applied,
        if closing then balance else nominal + applied,
        if closing then 0.0 else end)
  }

  /** What every row of the adjusted schedule satisfies, stated without the loop's
      arithmetic: interest on the opening balance, the policy's scheduled payment, and then
      either the closing shape, or an applied extra that is at most what is due that month and
      at most what the scheduled principal leaves, all of what is due unless it clears the
      balance, with the payment and principal columns each raised by exactly the applied extra. */
  predicate RowPolicy(plan: Plan, row: Row)
    requires WellFormed(plan)
  {
    var nominal := NominalPrincipal(row);
    var due := ExtraForMonth(row.month, plan.list);
    && row.interest == row.beginBalance * plan.r
    && row.scheduledPayment == ScheduledPayment(plan, row.beginBalance, row.month)
    && (if Closes(row) then
          && row.extra == 0.0
          && row.principalPaid == row.beginBalance
          && row.payment == row.beginBalance + row.interest
          && row.endBalance == 0.0
        else
          && 0.0 <= row.extra <= due
          && row.extra <= row.beginBalance - nominal
          && (row.extra == due || row.endBalance == 0.0)
          && row.endBalance == row.beginBalance - nominal - row.extra
          && row.payment == row.scheduledPayment + row.extra
          && row.principalPaid == nominal + row.extra)
  }

  /** One month of the loop obeys the row policy and never raises the balance. */
  lemma MonthFollowsPolicy(plan: Plan, balance: real, month: int)
    requires WellFormed(plan)
    ensures RowPolicy(plan, MonthRow(plan, balance, month))
    ensures MonthRow(plan, balance, month).month == month
    ensures MonthRow(plan, balance, month).beginBalance == balance
    ensures 0.0 <= MonthRow(plan, balance, month).endBalance
    ensures balance >= 0.0 ==> MonthRow(plan, balance, month).endBalance <= balance
  {
    var row := MonthRow(plan, balance, month);
    var nominal := Max(0.0, ScheduledPayment(plan, balance, month) - balance * plan.r);
    MonthRowColumns(plan, balance, month);
    assert NominalPrincipal(row) == nominal;
    if nominal >= balance {
      assert Closes(row);
    } else {
      assert !Closes(row);
    }
  }

  /** Whether the loop runs another month. */
  predicate Continues(n: int, balance: real, month: int)
  {
    balance > BalanceTolerance && month <= MonthCap(n)
  }

  /** The loop from `month` on, opening with `balance`: a month is produced while the balance
      exceeds the tolerance and the cap is not passed, and a closing row ends the loop. */
  function AdjustedRows(plan: Plan, balance: real, month: int): (rows: seq<Row>)
    requires WellFormed(plan)
    ensures rows == [] <==> !Continues(plan.n, balance, month)
    ensures rows != [] ==> rows[0].beginBalance == balance
    decreases MonthCap(plan.n) - month + 1
  {
    if !Continues(plan.n, balance, month) then []
    else
      var row := MonthRow(plan, balance, month);
      if Closes(row) then [row]
      else [row] + AdjustedRows(plan, row.endBalance, month + 1)
  }

  /** One step of the loop: a month that runs is followed by the loop from the next month
      unless it is a closing row. */
  lemma RowsStep(plan: Plan, balance: real, month: int)
    requires WellFormed(plan) && Continues(plan.n, balance, month)
    ensures var row := MonthRow(plan, balance, month);
      AdjustedRows(plan, balance, month) ==
        [row] + (if Closes(row) then [] else AdjustedRows(plan, row.endBalance, month + 1))
  {
  }

  /** Rows numbered consecutively from `month` within the cap, chained, never ending
      negative, the last of which ends within the tolerance or sits at the cap. */
  predicate ShapedRows(plan: Plan, rows: seq<Row>, month: int)
  {
    && (rows != [] ==> month + |rows| - 1 <= MonthCap(plan.n))
    && NumberedFrom(rows, month)
    && Chained(rows)
    && (forall j :: 0 <= j < |rows| ==> rows[j].endBalance >= 0.0)
    && (rows != [] ==>
          Last(rows).endBalance <= BalanceTolerance || Last(rows).month == MonthCap(plan.n))
  }

  lemma ShapedRowsCons(plan: Plan, row: Row, rest: seq<Row>, month: int)
    requires row.month == month <= MonthCap(plan.n) && row.endBalance >= 0.0
    requires ShapedRows(plan, rest, month + 1)
    requires rest != [] ==> rest[0].beginBalance == row.endBalance
    requires rest == [] ==> row.endBalance <= BalanceTolerance || month == MonthCap(plan.n)
    ensures ShapedRows(plan, [row] + rest, month)
  {
    var rows := [row] + rest;
    assert forall j :: 0 < j < |rows| ==> rows[j] == rest[j - 1];
    if rest != [] {
      assert Last(rows) == Last(rest);
    }
  }

  /** The loop's rows are numbered from the start month and never pass the cap; each opens
      with the balance the previous one closed with; no balance goes negative; and the loop
      stops because the balance fell within the tolerance or the cap was reached. */
  lemma {:induction false} RowsShape(plan: Plan, balance: real, month: int)
    requires WellFormed(plan)
    ensures ShapedRows(plan, AdjustedRows(plan, balance, month), month)
    decreases MonthCap(plan.n) - month + 1
  {
    if Continues(plan.n, balance, month) {
      var next := ShapeStep(plan, balance, month);
      if next.Some? {
        RowsShape(plan, next.value, month + 1);
      }
    }
  }

  /** One step of the loop for its shape: the month closes and is the whole remaining
      schedule, or the shape carries over from the next month's loop. */
  lemma ShapeStep(plan: Plan, balance: real, month: int) returns (next: Option<real>)
    requires WellFormed(plan) && Continues(plan.n, balance, month)
    ensures next.None? ==> ShapedRows(plan, AdjustedRows(plan, balance, month), month)
    ensures next.Some? && ShapedRows(plan, AdjustedRows(plan, next.value, month + 1), month + 1) ==>
      ShapedRows(plan, AdjustedRows(plan, balance, month), month)
  {
    var row := MonthRow(plan, balance, month);
    MonthFollowsPolicy(plan, balance, month);
    RowsStep(plan, balance, month);
    if Closes(row) {
      ShapedRowsCons(plan, row, [], month);
      next := None;
    } else {
      var rest := AdjustedRows(plan, row.endBalance, month + 1);
      if ShapedRows(plan, rest, month + 1) {
        ShapedRowsCons(plan, row, rest, month);
      }
      next := Some(row.endBalance);
    }
  }

  /** Rows that open above the tolerance and obey the row policy, of which only the last
      can be a closing row. */
  predicate PolicyRows(plan: Plan, rows: seq<Row>)
    requires WellFormed(plan)
  {
    && (forall j :: 0 <= j < |rows| ==>
          rows[j].beginBalance > BalanceTolerance && RowPolicy(plan, rows[j]))
    && (forall j :: 0 <= j < |rows| - 1 ==> !Closes(rows[j]))
  }

  lemma PolicyRowsCons(plan: Plan, row: Row, rest: seq<Row>)
    requires WellFormed(plan) && PolicyRows(plan, rest)
    requires row.beginBalance > BalanceTolerance && RowPolicy(plan, row)
    requires rest != [] ==> !Closes(row)
    ensures PolicyRows(plan, [row] + rest)
  {
    assert forall j :: 0 < j < |[row] + rest| ==> ([row] + rest)[j] == rest[j - 1];
  }

  /** Every month the loop produces opens above the tolerance and obeys the row policy, and
      only the last can be a closing row. */
  lemma {:induction false} RowsFollowPolicy(plan: Plan, balance: real, month: int)
    requires WellFormed(plan)
    ensures PolicyRows(plan, AdjustedRows(plan, balance, month))
    decreases MonthCap(plan.n) - month + 1
  {
    if Continues(plan.n, balance, month) {
      var next := PolicyStep(plan, balance, month);
      if next.Some? {
        RowsFollowPolicy(plan, next.value, month + 1);
      }
    }
  }

  /** One step of the loop for the row policy: the month closes and is the whole remaining
      schedule, or the policy carries over from the next month's loop. */
  lemma PolicyStep(plan: Plan, balance: real, month: int) returns (next: Option<real>)
    requires WellFormed(plan) && Continues(plan.n, balance, month)
    ensures next.None? ==> PolicyRows(plan, AdjustedRows(plan, balance, month))
    ensures next.Some? && PolicyRows(plan, AdjustedRows(plan, next.value, month + 1)) ==>
      PolicyRows(plan, AdjustedRows(plan, balance, month))
  {
    var row := MonthRow(plan, balance, month);
    MonthFollowsPolicy(plan, balance, month);
    RowsStep(plan, balance, month);
    if Closes(row) {
      PolicyRowsCons(plan, row, []);
      next := None;
    } else {
      var rest := AdjustedRows(plan, row.endBalance, month + 1);
      if PolicyRows(plan, rest) {
        PolicyRowsCons(plan, row, rest);
      }
      next := Some(row.endBalance);
    }
  }

  datatype AdjustedResult = AdjustedResult(
    initialPayment: real,
    paymentAfterRecalc: real,
    schedule: seq<Row>,
    totals: Totals)

  /** The plan the engine runs for the calculator's inputs. */
  function PlanFor(principal: real, annualRatePercent: real, years: real,
                   list: seq<Prepayment>, mode: RecalcMode): (plan: Plan)
    requires annualRatePercent >= 0.0
    ensures WellFormed(plan)
    ensures plan.n == MonthCount(years) && plan.r == MonthlyRate(annualRatePercent)
    ensures plan.basePayment == Baseline.Compute(principal, annualRatePercent, years).payment
    ensures plan.list == list && plan.mode == mode
  {
    var n := MonthCount(years);
    var r := MonthlyRate(annualRatePercent);
    Plan(r, n, Payment(principal, r, n), list, mode)
  }

  /** The adjusted engine. The initial payment is the baseline's level payment; the payment
      after recalculation is what the first month actually pays; the totals are the column
      sums, the principal total being their difference clamped at zero. */
  function Compute(principal: real, annualRatePercent: real, years: real,
                   list: seq<Prepayment>, mode: RecalcMode): (res: AdjustedResult)
    requires annualRatePercent >= 0.0
    ensures var plan := PlanFor(principal, annualRatePercent, years, list, mode);
      && res.schedule == AdjustedRows(plan, principal, 1)
      && res.initialPayment == Baseline.Compute(principal, annualRatePercent, years).payment
      && (res.schedule == [] <==> principal <= BalanceTolerance)
      && (res.schedule != [] ==> res.schedule[0].beginBalance == principal)
      && (res.schedule != [] ==> res.schedule[0].scheduledPayment == res.initialPayment)
      && res.paymentAfterRecalc == (if res.schedule == [] then res.initialPayment else res.schedule[0].payment)
      && res.totals.months == |res.schedule| <= MonthCap(MonthCount(years))
      && res.totals.totalInterest == TotalInterest(res.schedule)
      && res.totals.totalPaid == TotalPaid(res.schedule)
      && res.totals.totalPrincipal == Max(0.0, res.totals.totalPaid - res.totals.totalInterest)
  {
    var plan := PlanFor(principal, annualRatePercent, years, list, mode);
    var rows := AdjustedRows(plan, principal, 1);
    RowsShape(plan, principal, 1);
    var totalInterest := TotalInterest(rows);
    var totalPaid := TotalPaid(rows);
    AdjustedResult(
      plan.basePayment,
      if |rows| > 0 then rows[0].payment else plan.basePayment,
      rows,
      Totals(totalInterest, totalPaid, Max(0.0, totalPaid - totalInterest), |rows|))
  }

  // ---------------------------------------------------------------------------------------
  // Exact-arithmetic payoff: both policies retire the loan within the original term.

  /** The loop is on track at `month` with `balance` when the month lies within the original
      term, the balance is non-negative, and, when amortization shortens, the base payment is at
      least the level payment for the balance over the months left. */
  predicate OnTrack(plan: Plan, balance: real, month: int)
    requires WellFormed(plan)
  {
    && 1 <= month <= plan.n
    && balance >= 0.0
    && (plan.mode == ReduceAmortization ==>
          balance * Factor(plan.r, plan.n - month + 1) <= plan.basePayment)
  }

  /** A row obeying the policy whose scheduled payment covers its interest has columns that
      add up, and pays non-negative principal when it opens with a non-negative balance. */
  lemma PolicyRowBalanced(plan: Plan, row: Row)
    requires WellFormed(plan) && RowPolicy(plan, row)
    requires row.scheduledPayment >= row.interest && row.beginBalance >= 0.0
    ensures Balanced(row) && row.principalPaid >= 0.0
  {
  }

  /** On track, the scheduled payment is at least the level payment for the balance over the
      months left, and so covers the month's interest. */
  lemma ScheduledAtLeastLevel(plan: Plan, balance: real, month: int)
    requires WellFormed(plan) && OnTrack(plan, balance, month)
    ensures balance * Factor(plan.r, plan.n - month + 1) <= ScheduledPayment(plan, balance, month)
    ensures balance * plan.r <= ScheduledPayment(plan, balance, month)
  {
    var k := plan.n - month + 1;
    ScheduledCoversLevel(plan, balance, month);
    FactorBounds(plan.r, k);
    CoversInterestAlgebra(balance, plan.r, Factor(plan.r, k), ScheduledPayment(plan, balance, month));
  }

  lemma ScheduledCoversLevel(plan: Plan, balance: real, month: int)
    requires WellFormed(plan) && OnTrack(plan, balance, month)
    ensures balance * Factor(plan.r, plan.n - month + 1) <= ScheduledPayment(plan, balance, month)
  {
    if plan.mode == ReducePayment {
      assert RemainingMonths(plan.n, month) == plan.n - month + 1;
    }
  }

  /** The columns every month fills in the same way, closing or not. */
  lemma MonthRowColumns(plan: Plan, balance: real, month: int)
    requires WellFormed(plan)
    ensures var row := MonthRow(plan, balance, month);
      && row.month == month
      && row.beginBalance == balance
      && row.interest == balance * plan.r
      && row.scheduledPayment == ScheduledPayment(plan, balance, month)
  {
  }

  /** On track, the last month of the term is a closing row. */
  lemma LastMonthOfTermCloses(plan: Plan, balance: real)
    requires WellFormed(plan) && OnTrack(plan, balance, plan.n)
    ensures Closes(MonthRow(plan, balance, plan.n))
  {
    var a := ScheduledPayment(plan, balance, plan.n);
    ScheduledAtLeastLevel(plan, balance, plan.n);
    LastLevelStep(balance, plan.r, a);
    ClosesWhenCovered(plan, balance, plan.n);
  }

  /** A month whose scheduled payment less its interest covers the opening balance closes. */
  lemma ClosesWhenCovered(plan: Plan, balance: real, month: int)
    requires WellFormed(plan)
    requires ScheduledPayment(plan, balance, month) - balance * plan.r >= balance
    ensures Closes(MonthRow(plan, balance, month))
  {
    MonthRowColumns(plan, balance, month);
  }

  /** A row obeying the policy that does not close ends with the opening balance less the
      scheduled principal and the applied extra, so at most the opening balance less the
      scheduled principal. */
  lemma PolicyRowEndBound(plan: Plan, row: Row)
    requires WellFormed(plan) && RowPolicy(plan, row) && !Closes(row)
    requires row.scheduledPayment >= row.interest
    ensures 0.0 <= row.endBalance <= row.beginBalance - (row.scheduledPayment - row.interest)
  {
  }

  /** Under ReduceAmortization, a month opening on track with balance b that closes at e,
      with 0 <= e <= b - (a - b*r) for the base payment a, leaves the loop on track. */
  lemma AmortizationStaysOnTrack(plan: Plan, b: real, month: int, e: real)
    requires WellFormed(plan) && plan.mode == ReduceAmortization
    requires OnTrack(plan, b, month) && month < plan.n
    requires 0.0 <= e <= b - (plan.basePayment - b * plan.r)
    ensures OnTrack(plan, e, month + 1)
  {
    var k := plan.n - month + 1;
    LevelStep(b, plan.r, k, plan.basePayment, e);
    assert plan.n - (month + 1) + 1 == k - 1;
  }

  /** One on-track month: its columns add up, it pays non-negative principal, the last month
      of the term is a closing row, and a month that does not close leaves the loop on track. */
  lemma MonthOnTrack(plan: Plan, balance: real, month: int)
    requires WellFormed(plan) && OnTrack(plan, balance, month)
    ensures var row := MonthRow(plan, balance, month);
      && Balanced(row) && row.principalPaid >= 0.0
      && (month == plan.n ==> Closes(row))
      && (!Closes(row) ==> OnTrack(plan, row.endBalance, month + 1))
  {
    MonthBalanced(plan, balance, month);
    if month == plan.n {
      LastMonthOfTermCloses(plan, balance);
    } else {
      MonthStaysOnTrack(plan, balance, month);
    }
  }

  /** An on-track month's columns add up and it pays non-negative principal. */
  lemma MonthBalanced(plan: Plan, balance: real, month: int)
    requires WellFormed(plan) && OnTrack(plan, balance, month)
    ensures var row := MonthRow(plan, balance, month);
      Balanced(row) && row.principalPaid >= 0.0
  {
    MonthFollowsPolicy(plan, balance, month);
    ScheduledAtLeastLevel(plan, balance, month);
    PolicyRowBalanced(plan, MonthRow(plan, balance, month));
  }

  /** An on-track month before the last of the term that does not close leaves the loop on track. */
  lemma MonthStaysOnTrack(plan: Plan, balance: real, month: int)
    requires WellFormed(plan) && OnTrack(plan, balance, month) && month < plan.n
    ensures var row := MonthRow(plan, balance, month);
      !Closes(row) ==> OnTrack(plan, row.endBalance, month + 1)
  {
    var row := MonthRow(plan, balance, month);
    MonthFollowsPolicy(plan, balance, month);
    if plan.mode == ReduceAmortization && !Closes(row) {
      ScheduledAtLeastLevel(plan, balance, month);
      PolicyRowEndBound(plan, row);
      AmortizationStaysOnTrack(plan, balance, month, row.endBalance);
    }
  }

  /** From an on-track state the loop produces at most the months left of the term, every
      one balanced and paying non-negative principal. */
  lemma {:induction false} RowsOnTrack(plan: Plan, balance: real, month: int)
    requires WellFormed(plan) && OnTrack(plan, balance, month)
    ensures var rows := AdjustedRows(plan, balance, month);
      |rows| <= plan.n - month + 1 && ExactRows(rows)
    decreases plan.n - month
  {
    if Continues(plan.n, balance, month) {
      var next := TrackStep(plan, balance, month);
      if next.Some? {
        RowsOnTrack(plan, next.value, month + 1);
      }
    }
  }

  /** One on-track step of the loop, stated without the month's formula: either the month
      closes and is the whole remaining schedule, or it leaves the loop on track at the next
      month with a closing balance whose rows, if exact, extend to exact rows one longer. */
  lemma TrackStep(plan: Plan, balance: real, month: int) returns (next: Option<real>)
    requires WellFormed(plan) && OnTrack(plan, balance, month) && Continues(plan.n, balance, month)
    ensures next.None? ==> |AdjustedRows(plan, balance, month)| == 1
    ensures next.None? ==> ExactRows(AdjustedRows(plan, balance, month))
    ensures next.Some? ==> month < plan.n && OnTrack(plan, next.value, month + 1)
    ensures next.Some? ==>
      |AdjustedRows(plan, balance, month)| == 1 + |AdjustedRows(plan, next.value, month + 1)|
    ensures next.Some? && ExactRows(AdjustedRows(plan, next.value, month + 1)) ==>
      ExactRows(AdjustedRows(plan, balance, month))
  {
    var row := MonthRow(plan, balance, month);
    MonthOnTrack(plan, balance, month);
    RowsStep(plan, balance, month);
    if Closes(row) {
      ExactRowsCons(row, []);
      next := None;
    } else {
      var rest := AdjustedRows(plan, row.endBalance, month + 1);
      if ExactRows(rest) {
        ExactRowsCons(row, rest);
      }
      next := Some(row.endBalance);
    }
  }

  /** The first month is on track when the base payment is the level payment for the principal. */
  lemma StartsOnTrack(plan: Plan, principal: real)
    requires WellFormed(plan) && principal >= 0.0
    requires plan.basePayment == Payment(principal, plan.r, plan.n)
    ensures OnTrack(plan, principal, 1)
  {
    assert plan.n - 1 + 1 == plan.n;
  }

  /** A loop that stays within the term stops because the balance fell within the tolerance,
      never because of the cap. */
  lemma CapNotReached(plan: Plan, balance: real, month: int)
    requires WellFormed(plan) && month >= 1
    requires |AdjustedRows(plan, balance, month)| <= plan.n - month + 1
    ensures var rows := AdjustedRows(plan, balance, month);
      rows != [] ==> Last(rows).endBalance <= BalanceTolerance
  {
    var rows := AdjustedRows(plan, balance, month);
    RowsShape(plan, balance, month);
    if rows != [] {
      assert Last(rows).month == month + |rows| - 1 < MonthCap(plan.n);
    }
  }

  /** From the first month, with a base payment that is the level payment for the principal,
      the loop stops within the term with every row exact and the balance within the tolerance. */
  lemma PlanPaidOff(plan: Plan, principal: real)
    requires WellFormed(plan) && principal >= 0.0
    requires plan.basePayment == Payment(principal, plan.r, plan.n)
    ensures var rows := AdjustedRows(plan, principal, 1);
      && |rows| <= plan.n
      && ExactRows(rows)
      && (rows != [] ==> Last(rows).endBalance <= BalanceTolerance)
  {
    StartsOnTrack(plan, principal);
    RowsOnTrack(plan, principal, 1);
    CapNotReached(plan, principal, 1);
  }

  /** With a non-negative principal and rate, under either policy and whatever the prepayments,
      the loan is paid off within the original term: the cap max(5n, 1000) is never what stops
      the loop, every row's columns add up, and the final balance is within the tolerance. */
  lemma PaidOffWithinTerm(principal: real, annualRatePercent: real, years: real,
                          list: seq<Prepayment>, mode: RecalcMode)
    requires principal >= 0.0 && annualRatePercent >= 0.0
    ensures var res := Compute(principal, annualRatePercent, years, list, mode);
      && res.totals.months <= MonthCount(years)
      && ExactRows(res.schedule)
      && (res.schedule != [] ==> Last(res.schedule).endBalance <= BalanceTolerance)
  {
    PlanPaidOff(PlanFor(principal, annualRatePercent, years, list, mode), principal);
  }

  /** The totals account for the principal: total paid is total interest plus the reported
      principal, and the reported principal is the loan less a final balance within the
      tolerance (the whole loan when it starts within the tolerance). */
  lemma AdjustedAccounting(principal: real, annualRatePercent: real, years: real,
                           list: seq<Prepayment>, mode: RecalcMode)
    requires principal >= 0.0 && annualRatePercent >= 0.0
    ensures var res := Compute(principal, annualRatePercent, years, list, mode);
      var final := if res.schedule == [] then principal else Last(res.schedule).endBalance;
      && 0.0 <= final <= BalanceTolerance
      && res.totals.totalPrincipal == principal - final
      && res.totals.totalPaid == res.totals.totalInterest + res.totals.totalPrincipal
  {
    var res := Compute(principal, annualRatePercent, years, list, mode);
    var rows := res.schedule;
    PaidOffWithinTerm(principal, annualRatePercent, years, list, mode);
    RowsShape(PlanFor(principal, annualRatePercent, years, list, mode), principal, 1);
    if rows != [] {
      Telescoping(rows);
      TotalPrincipalPaidNonNegative(rows);
    }
  }
}
