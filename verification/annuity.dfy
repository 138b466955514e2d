/** The level-payment (annuity) formula shared by both amortization engines. */
module Annuity {
  import opened Numeric

  /** The monthly rate for an annual percentage rate. */
  function MonthlyRate(annualRatePercent: real): (r: real)
    ensures annualRatePercent >= 0.0 ==> r >= 0.0
    ensures r == 0.0 <==> annualRatePercent == 0.0
    ensures r * 1200.0 == annualRatePercent
  {
    annualRatePercent / 100.0 / 12.0
  }

  /** The level payment per unit of balance over k months at monthly rate r:
      1/k without interest, r(1+r)^k / ((1+r)^k - 1) otherwise. */
  function Factor(r: real, k: int): real
    requires r >= 0.0 && k >= 1
  {
    if r == 0.0 then 1.0 / k as real
    else
      PowGrowth(1.0 + r, k);
      r * Pow(1.0 + r, k) / (Pow(1.0 + r, k) - 1.0)
  }

  /** The scheduled payment that amortizes `balance` over k months, written as the
      engines write it: straight-line when the rate is zero, the annuity formula otherwise.
      It is linear in the balance. */
  function Payment(balance: real, r: real, k: int): (a: real)
    requires r >= 0.0 && k >= 1
    ensures a == balance * Factor(r, k)
  {
    if r == 0.0 then balance / k as real
    else
      PowGrowth(1.0 + r, k);
      var q := Pow(1.0 + r, k);
      MulDiv(balance, r * q, q - 1.0);
      (balance * (r * q)) / (q - 1.0)
  }

  /** For a positive rate the factor is the annuity quotient r*g/(g-1) with growth g > 1,
      stated without division. */
  lemma FactorPositiveRate(r: real, k: int)
    requires r > 0.0 && k >= 1
    ensures Pow(1.0 + r, k) > 1.0
    ensures Factor(r, k) * (Pow(1.0 + r, k) - 1.0) == r * Pow(1.0 + r, k)
  {
    PowGrowth(1.0 + r, k);
    var q := Pow(1.0 + r, k);
    var f := Factor(r, k);
    assert f == r * q / (q - 1.0);
    DivCancel(r * q, q - 1.0);
    assert f * (q - 1.0) == r * q;
  }

  /** Over a single month the level payment is the balance plus its interest. */
  lemma FactorLastMonth(r: real)
    requires r >= 0.0
    ensures Factor(r, 1) == 1.0 + r
  {
    if r > 0.0 {
      FactorPositiveRate(r, 1);
      assert Pow(1.0 + r, 0) == 1.0;
      assert Pow(1.0 + r, 1) == 1.0 + r;
      LastMonthAlgebra(r, Pow(1.0 + r, 1), Factor(r, 1));
    }
  }

  /** The level payment always exceeds the month's interest and never exceeds the
      balance plus interest; it is strictly below the latter when more than one month remains. */
  lemma FactorBounds(r: real, k: int)
    requires r >= 0.0 && k >= 1
    ensures r < Factor(r, k) <= 1.0 + r
    ensures k >= 2 ==> Factor(r, k) < 1.0 + r
  {
    if r == 0.0 {
      assert Factor(r, k) == 1.0 / k as real;
    } else {
      FactorPositiveRate(r, k);
      PowGrowth(1.0 + r, k);
      BoundsAlgebra(r, Pow(1.0 + r, k), Factor(r, k));
    }
  }

  /** Paying one level installment and re-deriving the level payment for the remaining
      balance over one month fewer yields the same installment again. */
  lemma FactorStep(r: real, k: int)
    requires r >= 0.0 && k >= 2
    ensures (1.0 + r - Factor(r, k)) * Factor(r, k - 1) == Factor(r, k)
  {
    if r == 0.0 {
      var kr := k as real;
      assert Factor(r, k) == 1.0 / kr;
      assert Factor(r, k - 1) == 1.0 / (kr - 1.0);
      DivCancel(1.0, kr);
      DivCancel(1.0, kr - 1.0);
      ZeroRateStepAlgebra(kr, Factor(r, k), Factor(r, k - 1));
    } else {
      FactorPositiveRate(r, k);
      FactorPositiveRate(r, k - 1);
      assert Pow(1.0 + r, k) == (1.0 + r) * Pow(1.0 + r, k - 1);
      StepAlgebra(r, Pow(1.0 + r, k - 1), Pow(1.0 + r, k), Factor(r, k), Factor(r, k - 1));
    }
  }

  // The rational identities behind the lemmas above, over plain variables so that
  // every product the solver sees is a product of variables.

  lemma LastMonthAlgebra(r: real, q: real, f: real)
    requires r > 0.0 && q == 1.0 + r && f * (q - 1.0) == r * q
    ensures f == q
  {
    assert f * r == r * q;
    assert (f - q) * r == 0.0;
  }

  lemma BoundsAlgebra(r: real, g: real, f: real)
    requires r > 0.0 && g >= 1.0 + r && f * (g - 1.0) == r * g
    ensures r < f
    ensures f <= 1.0 + r
    ensures g > 1.0 + r ==> f < 1.0 + r
  {
    var d := g - 1.0;
    assert f * d == r * g;
    assert (f - r) * d == f * d - r * d;
    assert (f - r) * d == r;
    SignOfFactor(f - r, d);
    var q := 1.0 + r;
    assert (q - f) * d == q * d - f * d;
    assert q * d == d + r * d;
    assert (q - f) * d == d - r;
    SignOfFactor(q - f, d);
  }

  lemma ZeroRateStepAlgebra(kr: real, f: real, g: real)
    requires kr >= 2.0 && f * kr == 1.0 && g * (kr - 1.0) == 1.0
    ensures (1.0 - f) * g == f
  {
    var d := kr - 1.0;
    assert (1.0 - f) * kr == kr - f * kr;
    assert (1.0 - f) * kr == d;
    assert (1.0 - f) * g * kr == ((1.0 - f) * kr) * g;
    assert (1.0 - f) * g * kr == g * d;
    assert (1.0 - f) * g * kr == f * kr;
    MulCancel((1.0 - f) * g, f, kr);
  }

  lemma StepAlgebra(r: real, p: real, q: real, f: real, g: real)
    requires r > 0.0 && p > 1.0 && q == (1.0 + r) * p
    requires f * (q - 1.0) == r * q
    requires g * (p - 1.0) == r * p
    ensures (1.0 + r - f) * g == f
  {
    var s := 1.0 + r;
    var h := s - f;
    var dq := q - 1.0;
    var dp := p - 1.0;
    assert q == s * p;
    assert dq > 0.0;
    assert f * dq == r * q;
    assert g * dp == r * p;
    assert h * dq == s * dq - f * dq;
    assert s * dq == s * q - s;
    assert s * q - r * q == q;
    assert h * dq == q - s;
    assert s * dp == s * p - s;
    assert h * dq == s * dp;
    assert h * g * dq == (h * dq) * g;
    assert h * g * dq == (s * dp) * g;
    assert (s * dp) * g == s * (g * dp);
    assert h * g * dq == s * (r * p);
    assert s * (r * p) == r * (s * p);
    assert h * g * dq == r * q;
    MulCancel(h * g, f, dq);
  }

  /** FactorStep scaled by a balance: what is left of b after one month's interest and the
      k-month level payment b*f is a balance whose (k-1)-month level payment is again b*f. */
  lemma ScaleStep(b: real, r: real, f: real, g: real)
    requires (1.0 + r - f) * g == f
    ensures (b + b * r - b * f) * g == b * f
  {
    var h := 1.0 + r - f;
    assert h * g == f;
    assert b + b * r - b * f == b * h;
    assert (b * h) * g == b * (h * g);
  }

  // Level-payment bounds the engines rely on: a payment of at least the level payment
  // covers the interest, retires the balance in the last month, and keeps the remaining
  // balance within reach of the same payment.

  /** A payment at least the level payment b*f covers the interest b*r, since f > r. */
  lemma CoversInterestAlgebra(b: real, r: real, f: real, a: real)
    requires b >= 0.0 && r < f && b * f <= a
    ensures b * r <= a
  {
    MulNonNegative(b, f - r);
  }

  /** In the last month the level factor is s = 1+r, so a payment of at least b*s leaves
      a scheduled principal of at least b. */
  lemma LastMonthClosesAlgebra(b: real, r: real, s: real, a: real)
    requires s == 1.0 + r && b * s <= a
    ensures a - b * r >= b
  {
    assert b * s == b + b * r;
  }

  /** A month under ReduceAmortization keeps the loop on track: with f the level factor for
      the k months left and g the one for k-1, a closing balance e of at most b - (a - b*r)
      satisfies e*g <= a. */
  lemma AmortizationStepAlgebra(b: real, r: real, f: real, g: real, a: real, e: real)
    requires b >= 0.0 && g > 0.0 && (1.0 + r - f) * g == f && b * f <= a
    requires 0.0 <= e <= b - (a - b * r)
    ensures e * g <= a
  {
    var s := 1.0 + r;
    var h := s - f;
    assert h * g == f;
    assert b * s == b + b * r;
    assert b * h == b * s - b * f;
    assert e <= b * h;
    MulNonNegative(b * h - e, g);
    assert (b * h - e) * g == (b * h) * g - e * g;
    assert (b * h) * g == b * (h * g);
  }

  /** One exact baseline month, over plain variables: with f the level factor for the
      remaining months and g the one for a month fewer, the month's principal is
      non-negative, the closing balance b - (b*f - b*r) is non-negative, and re-deriving the
      level payment for it gives the same payment. */
  lemma ExactMonthAlgebra(b: real, r: real, f: real, g: real)
    requires b >= 0.0 && r < f <= 1.0 + r && (1.0 + r - f) * g == f
    ensures b * f - b * r >= 0.0
    ensures b - (b * f - b * r) >= 0.0
    ensures (b - (b * f - b * r)) * g == b * f
  {
    var h := 1.0 + r - f;
    MulNonNegative(b, f - r);
    assert b * (f - r) == b * f - b * r;
    MulNonNegative(b, h);
    assert b * h == b + b * r - b * f;
    ScaleStep(b, r, f, g);
  }

  /** Paying at least the one-month level payment b*(1+r) leaves a scheduled principal of at
      least b. */
  lemma LastLevelStep(b: real, r: real, a: real)
    requires r >= 0.0 && b * Factor(r, 1) <= a
    ensures a - b * r >= b
  {
    FactorLastMonth(r);
    LastMonthClosesAlgebra(b, r, 1.0 + r, a);
  }

  /** A payment a of at least the k-month level payment for b, against a closing balance e of
      at most b - (a - b*r), is still at least the (k-1)-month level payment for e. */
  lemma LevelStep(b: real, r: real, k: int, a: real, e: real)
    requires r >= 0.0 && k >= 2 && b >= 0.0
    requires b * Factor(r, k) <= a
    requires 0.0 <= e <= b - (a - b * r)
    ensures e * Factor(r, k - 1) <= a
  {
    var f, g := StepFacts(r, k);
    AmortizationStepAlgebra(b, r, f, g, a, e);
  }

  /** The factors over k and k - 1 months, with the facts one month's step needs. */
  lemma StepFacts(r: real, k: int) returns (f: real, g: real)
    requires r >= 0.0 && k >= 2
    ensures f == Factor(r, k) && g == Factor(r, k - 1)
    ensures g > 0.0 && (1.0 + r - f) * g == f
  {
    f := Factor(r, k);
    g := Factor(r, k - 1);
    FactorStep(r, k);
    FactorBounds(r, k - 1);
  }

  /** One level-payment month before the last: the payment covers the interest, the principal
      it pays leaves a non-negative balance, and the level payment for that balance over the
      months still to go is the same payment. */
  lemma LevelMonth(b: real, r: real, k: int)
    requires b >= 0.0 && r >= 0.0 && k >= 2
    ensures var a := Payment(b, r, k);
      && a - b * r >= 0.0
      && b - (a - b * r) >= 0.0
      && Payment(b - (a - b * r), r, k - 1) == a
  {
    var f, g := StepFacts(r, k);
    FactorBounds(r, k);
    ExactMonthAlgebra(b, r, f, g);
  }

  /** A product with a positive factor has the sign of the other factor. */
  lemma SignOfFactor(x: real, c: real)
    requires c > 0.0
    ensures x * c > 0.0 ==> x > 0.0
    ensures x * c >= 0.0 ==> x >= 0.0
  {
  }

  /** The balance left after j level payments of `a`, interest accruing monthly at r. */
  ghost function BalanceAfter(balance: real, r: real, a: real, j: nat): real
    decreases j
  {
    if j == 0 then balance else BalanceAfter(balance * (1.0 + r) - a, r, a, j - 1)
  }

  /** One month of level payments: after interest and the k-month level payment, the
      (k-1)-month level payment of what is left is the same payment. */
  lemma LevelPaymentStep(balance: real, r: real, k: int)
    requires r >= 0.0 && k >= 2
    ensures Payment(balance * (1.0 + r) - Payment(balance, r, k), r, k - 1) == Payment(balance, r, k)
  {
    var f := Factor(r, k);
    FactorStep(r, k);
    ScaleStep(balance, r, f, Factor(r, k - 1));
    assert balance * (1.0 + r) == balance + balance * r;
  }

  /** Over a single month the level payment is the balance with its interest. */
  lemma LevelPaymentLastMonth(balance: real, r: real)
    requires r >= 0.0
    ensures balance * (1.0 + r) - Payment(balance, r, 1) == 0.0
  {
    FactorLastMonth(r);
  }

  /** The annuity payment retires the balance exactly in k months: it is the payment
      the formula claims to be. */
  lemma {:induction false} PaymentRetiresBalance(balance: real, r: real, k: int)
    requires r >= 0.0 && k >= 1
    ensures BalanceAfter(balance, r, Payment(balance, r, k), k) == 0.0
    decreases k
  {
    var a := Payment(balance, r, k);
    var rest := balance * (1.0 + r) - a;
    assert BalanceAfter(balance, r, a, k) == BalanceAfter(rest, r, a, k - 1);
    if k == 1 {
      LevelPaymentLastMonth(balance, r);
    } else {
      LevelPaymentStep(balance, r, k);
      PaymentRetiresBalance(rest, r, k - 1);
    }
  }
}
