/** The baseline engine: the level-payment schedule over the full term, without prepayments. */
module Baseline {
  import opened Numeric
  import opened Term
  import opened Annuity
  import opened Schedule

  datatype BaselineResult = BaselineResult(payment: real, schedule: seq<Row>, totals: Totals)

  /** Every row pays the level payment and no extra; interest accrues on the opening balance. */
  predicate LevelRow(row: Row, r: real, payment: real)
  {
    && row.extra == 0.0
    && row.scheduledPayment == payment
    && row.payment == payment
    && row.interest == row.beginBalance * r
    && row.endBalance >= 0.0
  }

  /** Months i..n of the baseline schedule, opening with `balance`. Every month but the last
      pays principal `payment - interest`; the last pays off whatever balance remains. */
  function BaselineRows(n: int, r: real, payment: real, i: int, balance: real): (rows: seq<Row>)
    requires 1 <= i <= n
    ensures |rows| == n - i + 1
    ensures NumberedFrom(rows, i)
    ensures rows[0].beginBalance == balance
    ensures Chained(rows)
    ensures forall j :: 0 <= j < |rows| ==> LevelRow(rows[j], r, payment)
    ensures Last(rows).principalPaid == Last(rows).beginBalance && Last(rows).endBalance == 0.0
    decreases n - i
  {
    var row := BaselineMonth(n, r, payment, i, balance);
    if i == n then [row] else [row] + BaselineRows(n, r, payment, i + 1, row.endBalance)
  }

  /** Month i of n, opening with `balance`. */
  function BaselineMonth(n: int, r: real, payment: real, i: int, balance: real): (row: Row)
    ensures row.month == i && row.beginBalance == balance && LevelRow(row, r, payment)
    ensures i == n ==> row.principalPaid == balance && row.endBalance == 0.0
  {
    var interest := balance * r;
    var principalPaid := if i == n then balance else payment - interest;
    Row(i, balance, interest, payment, 0.0, payment, principalPaid, Max(0.0, balance - principalPaid))
  }

  /** The baseline engine: the level payment for the principal over the term (straight-line
      when the rate is zero), the n-month schedule, and its totals. */
  function Compute(principal: real, annualRatePercent: real, years: real): (res: BaselineResult)
    requires annualRatePercent >= 0.0
    ensures |res.schedule| == MonthCount(years) == res.totals.months
    ensures NumberedFrom(res.schedule, 1)
    ensures res.schedule[0].beginBalance == principal
    ensures Chained(res.schedule)
    ensures forall j :: 0 <= j < |res.schedule| ==>
      LevelRow(res.schedule[j], MonthlyRate(annualRatePercent), res.payment)
    ensures Last(res.schedule).principalPaid == Last(res.schedule).beginBalance
    ensures Last(res.schedule).endBalance == 0.0
    ensures res.payment == Payment(principal, MonthlyRate(annualRatePercent), MonthCount(years))
    ensures res.totals.totalPrincipal == principal
    ensures res.totals.totalInterest == TotalInterest(res.schedule)
    ensures res.totals.totalPaid == TotalPaid(res.schedule)
  {
    var n := MonthCount(years);
    var r := MonthlyRate(annualRatePercent);
    var payment := Payment(principal, r, n);
    var rows := BaselineRows(n, r, payment, 1, principal);
    BaselineResult(payment, rows, Totals(TotalInterest(rows), TotalPaid(rows), principal, n))
  }

  /** Without interest the payment is the principal spread evenly over the term and no
      month charges interest. */
  lemma ZeroRateIsStraightLine(principal: real, years: real)
    ensures Compute(principal, 0.0, years).payment * MonthCount(years) as real == principal
    ensures forall j :: 0 <= j < |Compute(principal, 0.0, years).schedule| ==>
      Compute(principal, 0.0, years).schedule[j].interest == 0.0
  {
    var res := Compute(principal, 0.0, years);
    var n := MonthCount(years);
    assert MonthlyRate(0.0) == 0.0;
    assert res.payment == Payment(principal, 0.0, n);
    StraightLine(principal, n, res.payment);
    forall j | 0 <= j < |res.schedule|
      ensures res.schedule[j].interest == 0.0
    {
      assert LevelRow(res.schedule[j], MonthlyRate(0.0), res.payment);
    }
  }

  /** At a zero rate, n payments of the straight-line payment repay the principal. */
  lemma StraightLine(principal: real, n: int, payment: real)
    requires n >= 1 && payment == Payment(principal, 0.0, n)
    ensures payment * n as real == principal
  {
    DivCancel(principal, n as real);
  }

  /** The last baseline month in exact arithmetic: paying b(1+r) covers interest b*r and
      principal b. */
  lemma LastMonthExact(n: int, r: real, payment: real, balance: real)
    requires r >= 0.0 && balance >= 0.0
    requires payment == Payment(balance, r, 1)
    ensures var row := BaselineMonth(n, r, payment, n, balance);
      Balanced(row) && row.principalPaid >= 0.0
  {
    FactorLastMonth(r);
    assert payment == balance + balance * r;
  }

  /** A baseline month before the last in exact arithmetic: the principal is the payment less
      the interest, it is non-negative, and the closing balance is non-negative with the same
      level payment over the months still to go. */
  lemma MiddleMonthExact(n: int, r: real, payment: real, i: int, balance: real)
    requires 1 <= i < n && r >= 0.0 && balance >= 0.0
    requires payment == Payment(balance, r, n - i + 1)
    ensures var row := BaselineMonth(n, r, payment, i, balance);
      && Balanced(row) && row.principalPaid >= 0.0
      && row.endBalance >= 0.0 && payment == Payment(row.endBalance, r, n - i)
  {
    LevelMonth(balance, r, n - i + 1);
    var row := BaselineMonth(n, r, payment, i, balance);
    assert row.principalPaid == payment - balance * r;
    assert row.endBalance == balance - (payment - balance * r);
    assert n - i + 1 - 1 == n - i;
  }

  /** The opening month of BaselineRows in exact arithmetic: balanced, with non-negative
      principal, and (unless it is the last month) leaving a non-negative balance whose level
      payment over the months still to go is the same payment. */
  lemma FirstMonthExact(n: int, r: real, payment: real, i: int, balance: real)
    requires 1 <= i <= n && r >= 0.0 && balance >= 0.0
    requires payment == Payment(balance, r, n - i + 1)
    ensures var row := BaselineMonth(n, r, payment, i, balance);
      && Balanced(row) && row.principalPaid >= 0.0
      && (i < n ==> row.endBalance >= 0.0 && payment == Payment(row.endBalance, r, n - i))
  {
    if i == n {
      LastMonthExact(n, r, payment, balance);
    } else {
      MiddleMonthExact(n, r, payment, i, balance);
    }
  }

  /** In exact arithmetic, if the opening balance is non-negative and the payment is the level
      payment for it over the remaining months, every remaining row is balanced and pays
      non-negative principal. */
  lemma {:induction false} BaselineRowsExact(n: int, r: real, payment: real, i: int, balance: real)
    requires 1 <= i <= n && r >= 0.0 && balance >= 0.0
    requires payment == Payment(balance, r, n - i + 1)
    ensures ExactRows(BaselineRows(n, r, payment, i, balance))
    decreases n - i
  {
    var rows := BaselineRows(n, r, payment, i, balance);
    FirstMonthExact(n, r, payment, i, balance);
    if i < n {
      var next := rows[0].endBalance;
      BaselineRowsExact(n, r, payment, i + 1, next);
      assert rows == [rows[0]] + BaselineRows(n, r, payment, i + 1, next);
      ExactRowsCons(rows[0], BaselineRows(n, r, payment, i + 1, next));
    }
  }

  /** In exact arithmetic the forced payoff of the last month absorbs nothing: every row's
      columns add up, so total paid is total interest plus the principal. */
  lemma BaselineIsExact(principal: real, annualRatePercent: real, years: real)
    requires principal >= 0.0 && annualRatePercent >= 0.0
    ensures var res := Compute(principal, annualRatePercent, years);
      && (forall j :: 0 <= j < |res.schedule| ==> Balanced(res.schedule[j]))
      && res.totals.totalPaid == res.totals.totalInterest + principal
  {
    var res := Compute(principal, annualRatePercent, years);
    var n := MonthCount(years);
    assert res.schedule == BaselineRows(n, MonthlyRate(annualRatePercent), res.payment, 1, principal);
    BaselineRowsExact(n, MonthlyRate(annualRatePercent), res.payment, 1, principal);
    assert ExactRows(res.schedule);
    Telescoping(res.schedule);
  }

  /** A positive principal at a positive rate always costs some interest. */
  lemma BaselineChargesInterest(principal: real, annualRatePercent: real, years: real)
    requires principal > 0.0 && annualRatePercent > 0.0
    ensures Compute(principal, annualRatePercent, years).totals.totalInterest > 0.0
  {
    var res := Compute(principal, annualRatePercent, years);
    var r := MonthlyRate(annualRatePercent);
    var rows := res.schedule;
    forall j | 0 <= j < |rows|
      ensures rows[j].interest >= 0.0
    {
      assert rows[j].beginBalance >= 0.0 by {
        if j > 0 {
          assert rows[j].beginBalance == rows[j - 1].endBalance;
        }
      }
      MulNonNegative(rows[j].beginBalance, r);
    }
    MulPositive(principal, r);
    TotalInterestPositive(rows, 0);
  }
}
