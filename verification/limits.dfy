/** The annual prepayment limit: its resolution from the configuration and the validator
    that checks every 12-month block of the term against it. */
module AnnualLimit {
  import opened Numeric
  import opened Term
  import opened Prepayments

  datatype LimitKind = Percentage | FixedAmount

  /** The limit configuration: a percentage of a base principal, or a fixed amount. */
  datatype LimitConfig = LimitConfig(kind: LimitKind, value: real, basePrincipal: real)

  /** A block total must exceed the limit by more than this to be reported. */
  const Tolerance: real := 0.0001

  /** The effective annual limit. In percentage mode the base is the configured base
      principal, or the loan principal when no base is set (a zero base). */
  function EffectiveLimit(config: LimitConfig, principal: real): (limit: real)
    ensures config.kind == FixedAmount ==> limit == config.value
    ensures config.kind == Percentage && config.basePrincipal != 0.0 ==>
      limit * 100.0 == config.basePrincipal * config.value
    ensures config.kind == Percentage && config.basePrincipal == 0.0 ==>
      limit * 100.0 == principal * config.value
    ensures (config.kind == Percentage && config.value >= 0.0
             && config.basePrincipal >= 0.0 && principal >= 0.0) ==> limit >= 0.0
  {
    match config.kind
    case Percentage =>
      var base := if config.basePrincipal != 0.0 then config.basePrincipal else principal;
      MulDiv(base, config.value, 100.0);
      DivCancel(base * config.value, 100.0);
      base * (config.value / 100.0)
    case FixedAmount => config.value
  }

  /** A block of months, both bounds inclusive. */
  datatype Block = Block(start: int, end: int)

  /** The blocks the validator examines for an n-month term: ceil(n/12) of them, block b
      covering months 12b+1 through min(n, 12b+12). */
  function Blocks(n: int): (blocks: seq<Block>)
    requires n >= 1
    ensures 12 * (|blocks| - 1) < n <= 12 * |blocks|
    ensures forall b :: 0 <= b < |blocks| ==> blocks[b] == Block(12 * b + 1, MinInt(n, 12 * b + 12))
  {
    seq((n + 11) / 12, b => Block(12 * b + 1, MinInt(n, 12 * b + 12)))
  }

  /** The blocks partition the term: they start at month 1, end at month n, are
      non-empty and contiguous, and all but the last have exactly 12 months. */
  lemma BlocksPartitionTerm(n: int)
    requires n >= 1
    ensures |Blocks(n)| >= 1
    ensures Blocks(n)[0].start == 1
    ensures Blocks(n)[|Blocks(n)| - 1].end == n
    ensures forall b :: 0 <= b < |Blocks(n)| ==> 1 <= Blocks(n)[b].start <= Blocks(n)[b].end <= n
    ensures forall b :: 0 < b < |Blocks(n)| ==> Blocks(n)[b].start == Blocks(n)[b - 1].end + 1
    ensures forall b :: 0 <= b < |Blocks(n)| - 1 ==> Blocks(n)[b].end - Blocks(n)[b].start == 11
    ensures Blocks(n)[|Blocks(n)| - 1].end - Blocks(n)[|Blocks(n)| - 1].start <= 11
  {
  }

  /** Every month of the term lies in exactly one block, block (m-1)/12, and no month
      outside the term lies in any block. */
  lemma MonthInExactlyOneBlock(n: int, m: int, b: int)
    requires n >= 1 && 0 <= b < |Blocks(n)|
    ensures Blocks(n)[b].start <= m <= Blocks(n)[b].end <==> 1 <= m <= n && (m - 1) / 12 == b
  {
  }

  /** A 30-month (2.5-year) term has the three blocks 1-12, 13-24 and 25-30. */
  lemma ThirtyMonthBlocks()
    ensures Blocks(MonthCount(2.5)) == [Block(1, 12), Block(13, 24), Block(25, 30)]
  {
    MonthCountExamples();
    var bs := Blocks(30);
    assert |bs| == 3;
    assert bs[0] == Block(1, 12) && bs[1] == Block(13, 24) && bs[2] == Block(25, 30);
  }

  /** The prepayments due over months start..end, accumulated month by month. */
  function BlockSum(list: seq<Prepayment>, start: int, end: int): (total: real)
    ensures total >= 0.0
    decreases end - start + 1
  {
    if end < start then 0.0 else BlockSum(list, start, end - 1) + ExtraForMonth(end, list)
  }

  /** Appending a definition adds its own block total to every block total. */
  lemma {:induction false} BlockSumAppendOne(list: seq<Prepayment>, p: Prepayment, start: int, end: int)
    ensures BlockSum(list + [p], start, end) == BlockSum(list, start, end) + BlockSum([p], start, end)
    decreases end - start + 1
  {
    if end >= start {
      BlockSumAppendOne(list, p, start, end - 1);
      ExtraAppendOne(end, list, p);
      ExtraSingleton(end, p);
    }
  }

  /** Nothing is due on an empty list. */
  lemma {:induction false} BlockSumEmptyList(start: int, end: int)
    ensures BlockSum([], start, end) == 0.0
    decreases end - start + 1
  {
    if end >= start {
      BlockSumEmptyList(start, end - 1);
    }
  }

  /** Whether a block total breaks the limit. */
  predicate OverLimit(total: real, limit: real)
  {
    total - Tolerance > limit
  }

  /** A reported violation: the 1-based block number, its month range, its total and the limit. */
  datatype BlockError = BlockError(block: int, start: int, end: int, total: real, limit: real)

  /** `e` faithfully reports a block of `blocks` that breaks the limit. */
  predicate ReportsBlock(list: seq<Prepayment>, blocks: seq<Block>, limit: real, e: BlockError)
  {
    && 1 <= e.block <= |blocks|
    && e.start == blocks[e.block - 1].start
    && e.end == blocks[e.block - 1].end
    && e.total == BlockSum(list, e.start, e.end)
    && e.limit == limit
    && OverLimit(e.total, limit)
  }

  /** Some error reports block number k. */
  predicate Flags(errors: seq<BlockError>, k: int)
  {
    exists i :: 0 <= i < |errors| && errors[i].block == k
  }

  lemma FlagsCons(e: BlockError, rest: seq<BlockError>)
    ensures forall k :: Flags([e] + rest, k) <==> e.block == k || Flags(rest, k)
  {
    forall k
      ensures Flags([e] + rest, k) <==> e.block == k || Flags(rest, k)
    {
      if Flags(rest, k) {
        var i :| 0 <= i < |rest| && rest[i].block == k;
        assert ([e] + rest)[i + 1] == rest[i];
      }
      if Flags([e] + rest, k) && e.block != k {
        var i :| 0 <= i < |[e] + rest| && ([e] + rest)[i].block == k;
        assert rest[i - 1] == ([e] + rest)[i];
      }
      if e.block == k {
        assert ([e] + rest)[0] == e;
      }
    }
  }

  /** The errors for blocks b.. of `blocks`, in block order. */
  function CheckBlocks(list: seq<Prepayment>, blocks: seq<Block>, b: nat, limit: real): (errors: seq<BlockError>)
    requires b <= |blocks|
    ensures forall i :: 0 <= i < |errors| ==> errors[i].block > b && ReportsBlock(list, blocks, limit, errors[i])
    ensures forall i, j :: 0 <= i < j < |errors| ==> errors[i].block < errors[j].block
    decreases |blocks| - b
  {
    if b == |blocks| then []
    else
      var total := BlockSum(list, blocks[b].start, blocks[b].end);
      var rest := CheckBlocks(list, blocks, b + 1, limit);
      if OverLimit(total, limit) then
        var e := BlockError(b + 1, blocks[b].start, blocks[b].end, total, limit);
        ErrorsCons(list, blocks, b, limit, e, rest);
        [e] + rest
      else
        rest
  }

  /** CheckBlocks flags a block from b on exactly when its total is over the limit. */
  lemma {:induction false} CheckBlocksFlags(list: seq<Prepayment>, blocks: seq<Block>, b: nat, limit: real)
    requires b <= |blocks|
    ensures var errors := CheckBlocks(list, blocks, b, limit);
      forall c :: b <= c < |blocks| ==>
        (Flags(errors, c + 1) <==> OverLimit(BlockSum(list, blocks[c].start, blocks[c].end), limit))
    decreases |blocks| - b
  {
    if b < |blocks| {
      var errors := CheckBlocks(list, blocks, b, limit);
      var total := BlockSum(list, blocks[b].start, blocks[b].end);
      var rest := CheckBlocks(list, blocks, b + 1, limit);
      CheckBlocksFlags(list, blocks, b + 1, limit);
      if OverLimit(total, limit) {
        var e := BlockError(b + 1, blocks[b].start, blocks[b].end, total, limit);
        assert errors == [e] + rest;
        FlagsCons(e, rest);
      } else {
        assert errors == rest;
        assert !Flags(rest, b + 1);
      }
      forall c | b <= c < |blocks|
        ensures Flags(errors, c + 1) <==> OverLimit(BlockSum(list, blocks[c].start, blocks[c].end), limit)
      {
        if c == b {
          assert Flags(errors, c + 1) <==> OverLimit(total, limit);
        }
      }
    }
  }

  /** Prepending the report for block b + 1 to reports for later blocks keeps the reports
      faithful and in ascending block order. */
  lemma ErrorsCons(list: seq<Prepayment>, blocks: seq<Block>, b: nat, limit: real,
                   e: BlockError, rest: seq<BlockError>)
    requires b < |blocks| && e.block == b + 1 && ReportsBlock(list, blocks, limit, e)
    requires forall i :: 0 <= i < |rest| ==> rest[i].block > b + 1 && ReportsBlock(list, blocks, limit, rest[i])
    requires forall i, j :: 0 <= i < j < |rest| ==> rest[i].block < rest[j].block
    ensures forall i :: 0 <= i < |[e] + rest| ==>
      ([e] + rest)[i].block > b && ReportsBlock(list, blocks, limit, ([e] + rest)[i])
    ensures forall i, j :: 0 <= i < j < |[e] + rest| ==> ([e] + rest)[i].block < ([e] + rest)[j].block
  {
    assert forall i :: 0 < i < |[e] + rest| ==> ([e] + rest)[i] == rest[i - 1];
  }

  /** The validator: one error per 12-month block of the term whose prepayments exceed
      the annual limit, in ascending block order. */
  function Validate(list: seq<Prepayment>, years: real, limit: real): (errors: seq<BlockError>)
    ensures forall i :: 0 <= i < |errors| ==> ReportsBlock(list, Blocks(MonthCount(years)), limit, errors[i])
    ensures forall i, j :: 0 <= i < j < |errors| ==> errors[i].block < errors[j].block
    ensures forall c :: 0 <= c < |Blocks(MonthCount(years))| ==>
      var blk := Blocks(MonthCount(years))[c];
      (Flags(errors, c + 1) <==> OverLimit(BlockSum(list, blk.start, blk.end), limit))
  {
    CheckBlocksFlags(list, Blocks(MonthCount(years)), 0, limit);
    CheckBlocks(list, Blocks(MonthCount(years)), 0, limit)
  }

  /** An empty list passes validation exactly when the limit is not below minus the tolerance,
      in particular for every non-negative limit. */
  lemma EmptyListValid(years: real, limit: real)
    ensures Validate([], years, limit) == [] <==> limit >= -Tolerance
  {
    var blocks := Blocks(MonthCount(years));
    var errors := Validate([], years, limit);
    BlockSumEmptyList(blocks[0].start, blocks[0].end);
    if limit >= -Tolerance && errors != [] {
      var c := errors[0].block - 1;
      BlockSumEmptyList(blocks[c].start, blocks[c].end);
    }
    if limit < -Tolerance {
      assert OverLimit(BlockSum([], blocks[0].start, blocks[0].end), limit);
      assert Flags(errors, 1);
    }
  }

  /** Adding a definition never clears a violation: every block flagged before is flagged after. */
  lemma AppendKeepsViolations(list: seq<Prepayment>, p: Prepayment, years: real, limit: real, k: int)
    requires Flags(Validate(list, years, limit), k)
    ensures Flags(Validate(list + [p], years, limit), k)
  {
    var blocks := Blocks(MonthCount(years));
    var errors := Validate(list, years, limit);
    var i :| 0 <= i < |errors| && errors[i].block == k;
    assert ReportsBlock(list, blocks, limit, errors[i]);
    var c := k - 1;
    var blk := blocks[c];
    BlockSumAppendOne(list, p, blk.start, blk.end);
    assert OverLimit(BlockSum(list + [p], blk.start, blk.end), limit);
  }
}
