/** The list of active prepayments and the three operations that change it:
    add (guarded by the amount check and the annual-limit validator), remove by id, clear. */
module PrepaymentList {
  import opened Numeric
  import opened Term
  import opened Prepayments
  import opened AnnualLimit

  /** The outcome of an add: the new list, or why the candidate was rejected. A limit
      rejection carries the first violating block, which the caller reports. */
  datatype AddOutcome =
    | Accepted(list: seq<Prepayment>)
    | NonPositiveAmount
    | ExceedsLimit(violation: BlockError)

  /** The start month typed by the user, as stored: its floor, but at least month 1. */
  function StartMonthOf(input: real): (m: int)
    ensures m >= 1
    ensures input >= 1.0 ==> m as real <= input < m as real + 1.0
    ensures input < 1.0 ==> m == 1
  {
    MaxInt(1, input.Floor)
  }

  /** The definition an add would append. */
  function NewEntry(id: int, kind: Kind, amount: real, startInput: real): Prepayment
  {
    Prepayment(id, kind, amount, StartMonthOf(startInput))
  }

  /** Adds a definition built from the user's inputs, unless its amount is not positive or
      the list with it appended would break the annual limit in some block. The id is
      supplied by the caller. On success exactly one entry is appended and the new list
      passes validation; on a limit rejection the reported block is the first one over the limit. */
  function Add(list: seq<Prepayment>, id: int, kind: Kind, amount: real, startInput: real,
               years: real, limit: real): (out: AddOutcome)
    ensures out == NonPositiveAmount <==> amount <= 0.0
    ensures amount > 0.0 && !out.Accepted? ==> out.ExceedsLimit?
    ensures out.Accepted? <==>
      amount > 0.0 && Validate(list + [NewEntry(id, kind, amount, startInput)], years, limit) == []
    ensures out.Accepted? ==>
      && |out.list| == |list| + 1
      && out.list[..|list|] == list
      && out.list[|list|] == NewEntry(id, kind, amount, startInput)
      && Validate(out.list, years, limit) == []
    ensures out.ExceedsLimit? ==>
      var candidate := list + [NewEntry(id, kind, amount, startInput)];
      var blocks := Blocks(MonthCount(years));
      && amount > 0.0
      && ReportsBlock(candidate, blocks, limit, out.violation)
      && forall c :: 0 <= c < out.violation.block - 1 ==>
           !OverLimit(BlockSum(candidate, blocks[c].start, blocks[c].end), limit)
  {
    if amount <= 0.0 then NonPositiveAmount
    else
      var candidate := list + [NewEntry(id, kind, amount, startInput)];
      var errors := Validate(candidate, years, limit);
      if errors != [] then
        FirstErrorIsFirstBlock(candidate, years, limit);
        ExceedsLimit(errors[0])
      else
        assert candidate[..|list|] == list;
        Accepted(candidate)
  }

  /** The first error the validator returns is for the lowest-numbered block over the limit. */
  lemma FirstErrorIsFirstBlock(list: seq<Prepayment>, years: real, limit: real)
    requires Validate(list, years, limit) != []
    ensures var errors := Validate(list, years, limit);
      var blocks := Blocks(MonthCount(years));
      forall c :: 0 <= c < errors[0].block - 1 ==>
        !OverLimit(BlockSum(list, blocks[c].start, blocks[c].end), limit)
  {
    var errors := Validate(list, years, limit);
    var blocks := Blocks(MonthCount(years));
    forall c | 0 <= c < errors[0].block - 1
      ensures !OverLimit(BlockSum(list, blocks[c].start, blocks[c].end), limit)
    {
      assert ReportsBlock(list, blocks, limit, errors[0]);
      assert forall i :: 0 < i < |errors| ==> errors[i].block > errors[0].block;
      assert !Flags(errors, c + 1);
    }
  }

  /** Removes every entry with the given id, keeping the others in order. */
  function Remove(list: seq<Prepayment>, id: int): (out: seq<Prepayment>)
    ensures |out| <= |list|
    ensures forall i :: 0 <= i < |out| ==> out[i].id != id
    ensures forall p :: p in out ==> p in list
    ensures forall p :: p in list && p.id != id ==> p in out
    decreases |list|
  {
    if list == [] then []
    else
      var last := list[|list| - 1];
      Remove(list[..|list| - 1], id) + (if last.id != id then [last] else [])
  }

  /** Removal works entry by entry: removing from a concatenation removes from each part. */
  lemma {:induction false} RemoveDistributes(a: seq<Prepayment>, b: seq<Prepayment>, id: int)
    ensures Remove(a + b, id) == Remove(a, id) + Remove(b, id)
    decreases |b|
  {
    if b == [] {
      assert a + b == a;
    } else {
      var b' := b[..|b| - 1];
      var last := b[|b| - 1];
      assert (a + b)[..|a + b| - 1] == a + b';
      assert (a + b)[|a + b| - 1] == last;
      RemoveDistributes(a, b', id);
    }
  }

  /** On a single entry removal keeps it exactly when its id differs. Together with
      RemoveDistributes this pins Remove down as the order-preserving filter by id. */
  lemma RemoveSingleton(p: Prepayment, id: int)
    ensures Remove([p], id) == if p.id != id then [p] else []
  {
    assert [p][..0] == [];
  }

  /** Removing an id no entry carries leaves the list unchanged. */
  lemma {:induction false} RemoveAbsentId(list: seq<Prepayment>, id: int)
    requires forall i :: 0 <= i < |list| ==> list[i].id != id
    ensures Remove(list, id) == list
    decreases |list|
  {
    if list != [] {
      RemoveAbsentId(list[..|list| - 1], id);
      assert list[..|list| - 1] + [list[|list| - 1]] == list;
    }
  }

  /** Removing twice is removing once. */
  lemma RemoveIdempotent(list: seq<Prepayment>, id: int)
    ensures Remove(Remove(list, id), id) == Remove(list, id)
  {
    RemoveAbsentId(Remove(list, id), id);
  }

  /** Removing entries never raises any month's extra. */
  lemma {:induction false} RemoveLowersExtras(list: seq<Prepayment>, id: int, m: int)
    ensures ExtraForMonth(m, Remove(list, id)) <= ExtraForMonth(m, list)
    decreases |list|
  {
    if list != [] {
      var init := list[..|list| - 1];
      var last := list[|list| - 1];
      var kept := Remove(init, id);
      RemoveLowersExtras(init, id, m);
      ExtraAppendOne(m, init, last);
      assert ExtraForMonth(m, list) == ExtraForMonth(m, init) + Contribution(last, m);
      if last.id != id {
        assert Remove(list, id) == kept + [last];
        ExtraAppendOne(m, kept, last);
      } else {
        assert Remove(list, id) == kept + [];
        assert kept + [] == kept;
      }
    }
  }

  /** Block totals follow month-by-month extras. */
  lemma {:induction false} BlockSumMonotone(a: seq<Prepayment>, b: seq<Prepayment>, start: int, end: int)
    requires forall m :: ExtraForMonth(m, a) <= ExtraForMonth(m, b)
    ensures BlockSum(a, start, end) <= BlockSum(b, start, end)
    decreases end - start + 1
  {
    if end >= start {
      BlockSumMonotone(a, b, start, end - 1);
    }
  }

  /** A list that passes validation still passes after any removal. */
  lemma RemoveKeepsListValid(list: seq<Prepayment>, id: int, years: real, limit: real)
    requires Validate(list, years, limit) == []
    ensures Validate(Remove(list, id), years, limit) == []
  {
    var removed := Remove(list, id);
    var errors := Validate(removed, years, limit);
    var blocks := Blocks(MonthCount(years));
    forall m { RemoveLowersExtras(list, id, m); }
    forall c | 0 <= c < |blocks|
      ensures !OverLimit(BlockSum(removed, blocks[c].start, blocks[c].end), limit)
    {
      assert !Flags(Validate(list, years, limit), c + 1);
      BlockSumMonotone(removed, list, blocks[c].start, blocks[c].end);
    }
    assert |errors| > 0 ==> ReportsBlock(removed, blocks, limit, errors[0]);
  }

  /** Clearing asks the user first: once confirmed the list is emptied, otherwise it is kept. */
  function Clear(list: seq<Prepayment>, confirmed: bool): (out: seq<Prepayment>)
    ensures confirmed ==> |out| == 0
    ensures !confirmed ==> out == list
  {
    if confirmed then [] else list
  }

  /** Clearing never breaks the limit: the confirmed clear leaves a list that passes whenever
      the limit is not negative, and a declined clear keeps the list as it was. */
  lemma ClearedListValid(list: seq<Prepayment>, confirmed: bool, years: real, limit: real)
    requires limit >= 0.0
    ensures Validate(Clear(list, confirmed), years, limit) == [] <==>
      (!confirmed ==> Validate(list, years, limit) == [])
  {
    EmptyListValid(years, limit);
  }

  /** An accepted add only raises extras: every month gains exactly the new entry's contribution. */
  lemma AcceptedAddRaisesExtras(list: seq<Prepayment>, id: int, kind: Kind, amount: real,
                                startInput: real, years: real, limit: real, m: int)
    requires Add(list, id, kind, amount, startInput, years, limit).Accepted?
    ensures var added := Add(list, id, kind, amount, startInput, years, limit).list;
      ExtraForMonth(m, added) == ExtraForMonth(m, list) + Contribution(NewEntry(id, kind, amount, startInput), m)
  {
    ExtraAppendOne(m, list, NewEntry(id, kind, amount, startInput));
  }

  /** A list that already breaks the limit accepts no addition. */
  lemma InvalidListRejectsEveryAdd(list: seq<Prepayment>, id: int, kind: Kind, amount: real,
                                   startInput: real, years: real, limit: real)
    requires Validate(list, years, limit) != []
    ensures !Add(list, id, kind, amount, startInput, years, limit).Accepted?
  {
    var errors := Validate(list, years, limit);
    var blocks := Blocks(MonthCount(years));
    assert ReportsBlock(list, blocks, limit, errors[0]);
    assert Flags(errors, errors[0].block);
    AppendKeepsViolations(list, NewEntry(id, kind, amount, startInput), years, limit, errors[0].block);
  }
}
