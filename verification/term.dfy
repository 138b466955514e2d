/** The loan term as a month count, as every computation of the calculator derives it. */
module Term {
  import opened Numeric

  /** `max(1, round(12 * years))`: the term in whole months, never below one. */
  function MonthCount(years: real): (n: int)
    ensures n >= 1
    ensures 12.0 * years >= 0.5 ==> n as real - 0.5 <= 12.0 * years < n as real + 0.5
    ensures 12.0 * years < 0.5 ==> n == 1
  {
    MaxInt(1, Round(12.0 * years))
  }

  /** The terms used as examples: 2.5 years is 30 months and 25 years is 300 months;
      a half month rounds up and anything shorter is one month. */
  lemma MonthCountExamples()
    ensures MonthCount(2.5) == 30
    ensures MonthCount(25.0) == 300
    ensures MonthCount(1.0 / 24.0) == 1
    ensures MonthCount(0.0) == 1
  {
  }
}
