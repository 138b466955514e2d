/** Prepayment definitions and the resolver that turns a list of them into the extra
    amount due in a given month. */
module Prepayments {

  /** The recurrence of a prepayment. `Unrecognized` stands for any other type tag,
      which the resolver ignores. */
  datatype Kind = OneTime | Monthly | Yearly | Unrecognized

  /** A prepayment definition; `startMonth` is 1-based against the loan's first payment. */
  datatype Prepayment = Prepayment(id: int, kind: Kind, amount: real, startMonth: int)

  /** The k-th anniversary (k = 0, 1, ...) of a start month. */
  function Anniversary(startMonth: int, k: nat): int
  {
    startMonth + 12 * k
  }

  /** When a definition is due, stated independently of the resolver's arithmetic:
      a one-time entry on its start month, a monthly entry on every month from its start,
      a yearly entry on its start month and every twelfth month after it. */
  ghost predicate DueIn(p: Prepayment, m: int)
  {
    match p.kind
    case OneTime => m == p.startMonth
    case Monthly => p.startMonth <= m
    case Yearly => exists k: nat :: Anniversary(p.startMonth, k) == m
    case Unrecognized => false
  }

  /** What one definition adds to month m's extra: its amount or nothing. Definitions
      with a non-positive amount are skipped. */
  function Contribution(p: Prepayment, m: int): (c: real)
    ensures c == 0.0 || c == p.amount
    ensures c >= 0.0
    ensures p.amount <= 0.0 ==> c == 0.0
  {
    if p.amount <= 0.0 then 0.0
    else
      match p.kind
      case OneTime => if p.startMonth == m then p.amount else 0.0
      case Monthly => if p.startMonth <= m then p.amount else 0.0
      case Yearly => if p.startMonth <= m && (m - p.startMonth) % 12 == 0 then p.amount else 0.0
      case Unrecognized => 0.0
  }

  /** The resolver pays a definition's amount exactly in the months it is due. */
  lemma ContributionIsDue(p: Prepayment, m: int)
    ensures Contribution(p, m) == (if p.amount > 0.0 && DueIn(p, m) then p.amount else 0.0)
  {
    if p.kind == Yearly && p.amount > 0.0 {
      YearlyDueIff(p.startMonth, m);
    }
  }

  /** A yearly entry fires at month m exactly when m is one of its anniversaries. */
  lemma YearlyDueIff(startMonth: int, m: int)
    ensures (startMonth <= m && (m - startMonth) % 12 == 0)
        <==> exists k: nat :: Anniversary(startMonth, k) == m
  {
    if startMonth <= m && (m - startMonth) % 12 == 0 {
      var k: nat := (m - startMonth) / 12;
      assert Anniversary(startMonth, k) == m;
    }
    if exists k: nat :: Anniversary(startMonth, k) == m {
      var k: nat :| Anniversary(startMonth, k) == m;
      assert m - startMonth == 12 * k;
      assert (12 * k) % 12 == 0;
    }
  }

  /** The extra amount due in month m: the contributions of all definitions, accumulated
      front to back as the calculator's loop does. */
  function ExtraForMonth(m: int, list: seq<Prepayment>): (extra: real)
    ensures extra >= 0.0
    ensures list == [] ==> extra == 0.0
    decreases |list|
  {
    if list == [] then 0.0
    else ExtraForMonth(m, list[..|list| - 1]) + Contribution(list[|list| - 1], m)
  }

  /** The resolver is additive over concatenation of lists. */
  lemma {:induction false} ExtraAppend(m: int, a: seq<Prepayment>, b: seq<Prepayment>)
    ensures ExtraForMonth(m, a + b) == ExtraForMonth(m, a) + ExtraForMonth(m, b)
    decreases |b|
  {
    if b == [] {
      assert a + b == a;
    } else {
      var b' := b[..|b| - 1];
      assert (a + b)[..|a + b| - 1] == a + b';
      assert (a + b)[|a + b| - 1] == b[|b| - 1];
      ExtraAppend(m, a, b');
    }
  }

  /** A one-element list resolves to that element's contribution. */
  lemma ExtraSingleton(m: int, p: Prepayment)
    ensures ExtraForMonth(m, [p]) == Contribution(p, m)
  {
    assert [p][..0] == [];
  }

  /** Appending a definition adds its contribution to every month, so no month's extra
      ever goes down. */
  lemma ExtraAppendOne(m: int, list: seq<Prepayment>, p: Prepayment)
    ensures ExtraForMonth(m, list + [p]) == ExtraForMonth(m, list) + Contribution(p, m)
    ensures ExtraForMonth(m, list + [p]) >= ExtraForMonth(m, list)
  {
    ExtraAppend(m, list, [p]);
    ExtraSingleton(m, p);
  }

  /** A monthly entry with a positive amount adds its amount to every month from its start on. */
  lemma MonthlyEveryMonth(p: Prepayment, m: int)
    requires p.kind == Monthly && p.amount > 0.0 && p.startMonth <= m
    ensures ExtraForMonth(m, [p]) == p.amount
  {
    ExtraSingleton(m, p);
  }

  /** A yearly entry with a positive amount fires exactly at its anniversaries. */
  lemma YearlyFiresOnAnniversaries(p: Prepayment, m: int)
    requires p.kind == Yearly && p.amount > 0.0
    ensures ExtraForMonth(m, [p]) == p.amount <==> exists k: nat :: Anniversary(p.startMonth, k) == m
    ensures ExtraForMonth(m, [p]) != p.amount ==> ExtraForMonth(m, [p]) == 0.0
  {
    ExtraSingleton(m, p);
    ContributionIsDue(p, m);
  }
}
