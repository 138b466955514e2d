/** Amortization rows, schedules and the totals both engines derive from them. */
module Schedule {

  /** One month of a schedule. `extra` is the prepayment actually applied that month. */
  datatype Row = Row(
    month: int,
    beginBalance: real,
    interest: real,
    scheduledPayment: real,
    extra: real,
    payment: real,
    principalPaid: real,
    endBalance: real)

  /** Roll-up of a schedule. */
  datatype Totals = Totals(totalInterest: real, totalPaid: real, totalPrincipal: real, months: int)

  function Last(rows: seq<Row>): Row
    requires |rows| > 0
  {
    rows[|rows| - 1]
  }

  /** Sum of the interest column, accumulated front to back as the calculator's totals are. */
  function TotalInterest(rows: seq<Row>): real
  {
    if rows == [] then 0.0 else TotalInterest(rows[..|rows| - 1]) + Last(rows).interest
  }

  /** Sum of the payment column, accumulated front to back as the calculator's totals are. */
  function TotalPaid(rows: seq<Row>): real
  {
    if rows == [] then 0.0 else TotalPaid(rows[..|rows| - 1]) + Last(rows).payment
  }

  /** Sum of the principal column (the calculator does not report it; it is used to reason
      about the totals it does report). */
  function TotalPrincipalPaid(rows: seq<Row>): real
  {
    if rows == [] then 0.0 else TotalPrincipalPaid(rows[..|rows| - 1]) + Last(rows).principalPaid
  }

  /** Months are numbered consecutively starting at `first`. */
  predicate NumberedFrom(rows: seq<Row>, first: int)
  {
    forall i :: 0 <= i < |rows| ==> rows[i].month == first + i
  }

  /** Each month opens with the balance the previous month closed with. */
  predicate Chained(rows: seq<Row>)
  {
    forall i :: 0 < i < |rows| ==> rows[i].beginBalance == rows[i - 1].endBalance
  }

  /** The row's columns add up exactly: the principal paid is what left the balance,
      and the payment is interest plus principal. */
  predicate Balanced(row: Row)
  {
    && row.beginBalance - row.principalPaid == row.endBalance
    && row.payment == row.interest + row.principalPaid
  }

  /** Every row is balanced and pays non-negative principal. */
  predicate ExactRows(rows: seq<Row>)
  {
    forall j :: 0 <= j < |rows| ==> Balanced(rows[j]) && rows[j].principalPaid >= 0.0
  }

  lemma ExactRowsCons(row: Row, tail: seq<Row>)
    requires Balanced(row) && row.principalPaid >= 0.0 && ExactRows(tail)
    ensures ExactRows([row] + tail)
  {
    forall j | 0 < j < |[row] + tail|
      ensures Balanced(([row] + tail)[j]) && ([row] + tail)[j].principalPaid >= 0.0
    {
      assert ([row] + tail)[j] == tail[j - 1];
    }
  }

  /** In a chained schedule of balanced rows, payments minus interest is the principal
      paid, and that is the drop from the opening balance to the closing balance. */
  lemma {:induction false} Telescoping(rows: seq<Row>)
    requires |rows| > 0 && Chained(rows)
    requires forall i :: 0 <= i < |rows| ==> Balanced(rows[i])
    ensures TotalPaid(rows) - TotalInterest(rows) == TotalPrincipalPaid(rows)
    ensures TotalPrincipalPaid(rows) == rows[0].beginBalance - Last(rows).endBalance
  {
    var init := rows[..|rows| - 1];
    assert Balanced(Last(rows));
    if |init| == 0 {
      assert TotalPaid(init) == 0.0 && TotalInterest(init) == 0.0 && TotalPrincipalPaid(init) == 0.0;
    } else {
      assert Chained(init) by {
        forall i | 0 < i < |init|
          ensures init[i].beginBalance == init[i - 1].endBalance
        {
          assert init[i] == rows[i] && init[i - 1] == rows[i - 1];
        }
      }
      Telescoping(init);
      assert Last(rows).beginBalance == Last(init).endBalance;
    }
  }

  /** Non-negative interest in every row and positive interest in one give positive total interest. */
  lemma {:induction false} TotalInterestPositive(rows: seq<Row>, j: int)
    requires 0 <= j < |rows|
    requires forall i :: 0 <= i < |rows| ==> rows[i].interest >= 0.0
    requires rows[j].interest > 0.0
    ensures TotalInterest(rows) > 0.0
  {
    var init := rows[..|rows| - 1];
    if j == |rows| - 1 {
      TotalInterestNonNegative(init);
    } else {
      TotalInterestPositive(init, j);
    }
  }

  lemma {:induction false} TotalInterestNonNegative(rows: seq<Row>)
    requires forall i :: 0 <= i < |rows| ==> rows[i].interest >= 0.0
    ensures TotalInterest(rows) >= 0.0
  {
    if rows != [] {
      TotalInterestNonNegative(rows[..|rows| - 1]);
    }
  }

  /** Non-negative principal in every row gives a non-negative principal total. */
  lemma {:induction false} TotalPrincipalPaidNonNegative(rows: seq<Row>)
    requires forall i :: 0 <= i < |rows| ==> rows[i].principalPaid >= 0.0
    ensures TotalPrincipalPaid(rows) >= 0.0
  {
    if rows != [] {
      TotalPrincipalPaidNonNegative(rows[..|rows| - 1]);
    }
  }

  /** Each total is a column sum: it is additive over splitting the schedule in two, so it
      does not depend on the order of accumulation. */
  lemma {:induction false} ColumnSumsAppend(a: seq<Row>, b: seq<Row>)
    ensures TotalInterest(a + b) == TotalInterest(a) + TotalInterest(b)
    ensures TotalPaid(a + b) == TotalPaid(a) + TotalPaid(b)
    ensures TotalPrincipalPaid(a + b) == TotalPrincipalPaid(a) + TotalPrincipalPaid(b)
    decreases |b|
  {
    if b == [] {
      assert a + b == a;
    } else {
      var init := b[..|b| - 1];
      assert (a + b)[..|a + b| - 1] == a + init;
      assert Last(a + b) == Last(b);
      ColumnSumsAppend(a, init);
    }
  }
}
