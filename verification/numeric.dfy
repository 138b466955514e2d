/** Exact-real stand-ins for the JavaScript `Math` functions the calculator uses. */
module Numeric {

  /** Math.max on two money values. */
  function Max(a: real, b: real): (m: real)
    ensures m >= a && m >= b
    ensures m == a || m == b
  {
    if a >= b then a else b
  }

  /** Math.min on two money values. */
  function Min(a: real, b: real): (m: real)
    ensures m <= a && m <= b
    ensures m == a || m == b
  {
    if a <= b then a else b
  }

  /** Math.max on two month counts. */
  function MaxInt(a: int, b: int): (m: int)
    ensures m >= a && m >= b
    ensures m == a || m == b
  {
    if a >= b then a else b
  }

  /** Math.min on two month counts. */
  function MinInt(a: int, b: int): (m: int)
    ensures m <= a && m <= b
    ensures m == a || m == b
  {
    if a <= b then a else b
  }

  /** Math.round: the nearest integer, with halves rounded up (towards +infinity). */
  function Round(x: real): (k: int)
    ensures k as real - 0.5 <= x < k as real + 0.5
  {
    (x + 0.5).Floor
  }

  /** Math.pow with a natural exponent. */
  function Pow(x: real, k: nat): real
  {
    if k == 0 then 1.0 else x * Pow(x, k - 1)
  }

  /** A growth factor of at least one never shrinks when raised to a power. */
  lemma {:induction false} PowGrowth(x: real, k: nat)
    requires x >= 1.0
    ensures Pow(x, k) >= 1.0
    ensures k >= 1 ==> Pow(x, k) >= x
    ensures x > 1.0 && k >= 1 ==> Pow(x, k) > 1.0
    ensures x > 1.0 && k >= 2 ==> Pow(x, k) > x
  {
    if k > 0 {
      PowGrowth(x, k - 1);
      var p := Pow(x, k - 1);
      assert Pow(x, k) == x * p;
      MulNonNegative(x, p - 1.0);
      assert x * p == x + x * (p - 1.0);
      if x > 1.0 && k >= 2 {
        assert p >= x;
        MulPositive(x, p - 1.0);
      }
    }
  }

  lemma MulNonNegative(a: real, b: real)
    requires a >= 0.0 && b >= 0.0
    ensures a * b >= 0.0
  {
  }

  lemma MulPositive(a: real, b: real)
    requires a > 0.0 && b > 0.0
    ensures a * b > 0.0
  {
  }

  /** Dividing by a non-zero real and multiplying back is the identity. */
  lemma DivCancel(a: real, c: real)
    requires c != 0.0
    ensures (a / c) * c == a
  {
  }

  /** Multiplication distributes over a quotient. */
  lemma MulDiv(a: real, b: real, c: real)
    requires c != 0.0
    ensures (a * b) / c == a * (b / c)
  {
    DivCancel(b, c);
    DivCancel(a * b, c);
    assert a * (b / c) * c == a * b;
    assert ((a * b) / c) * c == a * (b / c) * c;
    MulCancel((a * b) / c, a * (b / c), c);
  }

  /** A non-zero factor can be cancelled from both sides of an equation. */
  lemma MulCancel(x: real, y: real, c: real)
    requires c != 0.0 && x * c == y * c
    ensures x == y
  {
    assert (x - y) * c == 0.0;
  }
}
