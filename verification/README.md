# Mortgage calculator amortization engine, in Dafny

This project models the computing core of the mortgage calculator component. That core is:

- the **baseline** engine: the level (annuity) payment, or straight-line `P/n` at a zero rate, and the `n`-month schedule whose last month closes the balance;
- the **prepayment resolver**: the extra amount due in a month from one-time, monthly and yearly prepayment definitions;
- the **annual limit**: a percentage of a base principal, or a fixed amount;
- the **block validator**: it checks every 12-month block of the term against the annual limit;
- the **adjusted** engine: a month-by-month loop with prepayments applied under one of two recalculation policies. Reduce-amortization keeps the payment and shortens the loan. Reduce-payment keeps the term and re-derives the payment. The loop has a closing-row shortcut and an iteration cap of `max(5n, 1000)`;
- the **list operations**: add (guarded by the amount check and the validator), remove by id, and clear.

## Modelling conventions

- Money is exact `real`.
- `Math.round` is `Floor(x + 0.5)`, and the term is `max(1, round(12 * years))` months.
- `(1 + r)^k` is a recursive power function.
- Both tolerances are exact constants: `0.00001` ends the loop and `0.0001` applies to the limit.
- Engines are pure functions returning immutable rows and totals. The adjusted loop is a recursion that decreases on the months left before the cap.

## Proved properties

Beyond each operation's own contract, the project proves these properties of the model:

- The level payment retires the balance in exactly `k` months, and re-deriving it after one month gives the same payment.
- In exact arithmetic the baseline's forced last-month payoff absorbs nothing. Every row balances and total paid is total interest plus principal.
- Under both policies and for any prepayments, the adjusted loop pays the loan off within the original `n` months. The cap never stops it, every row balances, and the reported principal is the loan less a final balance within the tolerance.
- Without prepayments, the adjusted schedule is the baseline schedule cut off at the first month that would open within the tolerance. Hence the two policies then agree.
- The validator reports exactly the over-limit blocks, in block order. An accepted add yields a list that passes validation. Removal never breaks a valid list, and an invalid list accepts no addition.

## Model

All source paths are relative to the repository root. Every row cites `src/components/MortgageCalculator/MortgageCalculator.jsx`.

| member | source | states |
|---|---|---|
| Term.MonthCount | src/components/MortgageCalculator/MortgageCalculator.jsx:33 | the term is at least one month and is 12·years rounded half-up; terms under half a month give one month |
| Term.MonthCountExamples | src/components/MortgageCalculator/MortgageCalculator.jsx:106 | 2.5 years is 30 months, 25 years is 300, and very short terms are one month |
| Annuity.MonthlyRate | src/components/MortgageCalculator/MortgageCalculator.jsx:32-34 | the monthly rate is the annual percentage over 1200; it is zero exactly at a zero annual rate and non-negative for a non-negative one |
| Annuity.Payment | src/components/MortgageCalculator/MortgageCalculator.jsx:36-43 | the engines' payment formula (straight-line at zero rate, annuity otherwise) is linear in the balance: balance times the per-unit level factor |
| Annuity.FactorLastMonth | src/components/MortgageCalculator/MortgageCalculator.jsx:36-43 | over one month the level payment is the balance plus its interest |
| Annuity.FactorBounds | src/components/MortgageCalculator/MortgageCalculator.jsx:36-43 | the level payment exceeds the interest and is at most the balance plus interest, strictly below it when two or more months remain |
| Annuity.FactorStep | src/components/MortgageCalculator/MortgageCalculator.jsx:147-155 | paying one level installment and re-deriving the level payment over one month fewer gives the same installment |
| Annuity.LevelMonth | src/components/MortgageCalculator/MortgageCalculator.jsx:47-62 | a level-payment month before the last covers its interest, leaves a non-negative balance, and keeps the same level payment for the months still to go |
| Annuity.PaymentRetiresBalance | src/components/MortgageCalculator/MortgageCalculator.jsx:36-43 | k level payments with monthly interest bring the balance to exactly zero |
| Schedule.Telescoping | src/components/MortgageCalculator/MortgageCalculator.jsx:211-213 | for chained balanced rows, total paid less total interest is the principal paid, which is the opening balance less the final balance |
| Schedule.ColumnSumsAppend | src/components/MortgageCalculator/MortgageCalculator.jsx:65-66 | the interest, payment and principal totals (`TotalInterest`, `TotalPaid`, `TotalPrincipalPaid`) are column sums: each is additive over any split of the schedule, so accumulating front to back as the `reduce` calls do gives the order-independent sum; the adjusted engine takes the same sums at lines 211-212 |
| Prepayments.Contribution | src/components/MortgageCalculator/MortgageCalculator.jsx:93-100 | one definition adds its amount or nothing to a month, and nothing when its amount is not positive |
| Prepayments.ContributionIsDue | src/components/MortgageCalculator/MortgageCalculator.jsx:90-103 | a definition with a positive amount pays its amount exactly in the months it is due: one-time on its start month, monthly from the start on, yearly on the anniversaries |
| Prepayments.YearlyDueIff | src/components/MortgageCalculator/MortgageCalculator.jsx:98-99 | the test start ≤ m and (m − start) mod 12 = 0 holds exactly at the months start + 12k |
| Prepayments.ExtraForMonth | src/components/MortgageCalculator/MortgageCalculator.jsx:90-103 | a month's extra is never negative, and it is zero for an empty list |
| Prepayments.ExtraAppend | src/components/MortgageCalculator/MortgageCalculator.jsx:90-103 | the resolver is additive over list concatenation |
| Prepayments.ExtraAppendOne | src/components/MortgageCalculator/MortgageCalculator.jsx:90-103 | appending a definition adds exactly its contribution to every month, so no month's extra goes down |
| Prepayments.MonthlyEveryMonth | src/components/MortgageCalculator/MortgageCalculator.jsx:96-97 | a positive monthly entry pays its amount in every month from its start |
| Prepayments.YearlyFiresOnAnniversaries | src/components/MortgageCalculator/MortgageCalculator.jsx:98-100 | a positive yearly entry pays its amount exactly at its anniversaries and nothing otherwise |
| AnnualLimit.EffectiveLimit | src/components/MortgageCalculator/MortgageCalculator.jsx:75-88 | fixed mode gives the value; percentage mode gives value% of the base principal, or of the loan principal when no base is set; the limit is non-negative for non-negative inputs |
| AnnualLimit.Blocks | src/components/MortgageCalculator/MortgageCalculator.jsx:106-111 | there are ceil(n/12) blocks, and block b covers months 12b+1 to min(n, 12b+12) |
| AnnualLimit.BlocksPartitionTerm | src/components/MortgageCalculator/MortgageCalculator.jsx:106-111 | the blocks start at month 1 and end at month n; they are non-empty and contiguous, and only the last can be shorter than 12 months |
| AnnualLimit.MonthInExactlyOneBlock | src/components/MortgageCalculator/MortgageCalculator.jsx:107-111 | a month lies in block b exactly when it is in the term and (m − 1) div 12 = b |
| AnnualLimit.ThirtyMonthBlocks | src/components/MortgageCalculator/MortgageCalculator.jsx:106-111 | a 2.5-year term gives the blocks 1–12, 13–24 and 25–30 |
| AnnualLimit.BlockSum | src/components/MortgageCalculator/MortgageCalculator.jsx:112-115 | a block total is never negative |
| AnnualLimit.BlockSumAppendOne | src/components/MortgageCalculator/MortgageCalculator.jsx:112-115 | appending a definition adds its own block total to every block total |
| AnnualLimit.CheckBlocks | src/components/MortgageCalculator/MortgageCalculator.jsx:109-126 | every error faithfully reports an over-limit block after block b, with its bounds, total and limit, and the errors are in strictly ascending block order |
| AnnualLimit.CheckBlocksFlags | src/components/MortgageCalculator/MortgageCalculator.jsx:109-126 | a block from b on is flagged exactly when its total less 0.0001 exceeds the limit |
| AnnualLimit.Validate | src/components/MortgageCalculator/MortgageCalculator.jsx:105-127 | over the term's blocks, each error reports a block with its bounds, total and limit; errors ascend; a block is flagged if and only if it is over the limit |
| AnnualLimit.EmptyListValid | src/components/MortgageCalculator/MortgageCalculator.jsx:105-127 | an empty list passes exactly when the limit is at least −0.0001, in particular for every non-negative limit |
| AnnualLimit.AppendKeepsViolations | src/components/MortgageCalculator/MortgageCalculator.jsx:105-127 | adding a definition never clears a flagged block |
| Baseline.BaselineRows | src/components/MortgageCalculator/MortgageCalculator.jsx:45-63 | months i..n are numbered consecutively and chained, opening with the given balance; every row pays the level payment with no extra; the last row pays off its opening balance and ends at zero |
| Baseline.BaselineMonth | src/components/MortgageCalculator/MortgageCalculator.jsx:48-61 | month i opens with the given balance, pays the level payment with no extra and interest on its opening balance, and closes non-negative; the last month of the term pays off its whole opening balance and closes at zero |
| Baseline.FirstMonthExact | src/components/MortgageCalculator/MortgageCalculator.jsx:48-61 | with the level payment for the balance over the months left, a baseline month balances and pays non-negative principal, and a month before the last leaves a non-negative balance with the same level payment over the months still to go |
| Baseline.Compute | src/components/MortgageCalculator/MortgageCalculator.jsx:30-73 | exactly n rows opening at the principal, all level rows; the payment is the level payment; the totals are the column sums with the principal as total principal and n as months |
| Baseline.ZeroRateIsStraightLine | src/components/MortgageCalculator/MortgageCalculator.jsx:37-38 | at a zero rate the payment times n is the principal, and no month charges interest |
| Baseline.BaselineRowsExact | src/components/MortgageCalculator/MortgageCalculator.jsx:45-63 | while the payment is the level payment for the remaining balance, every remaining row balances and pays non-negative principal |
| Baseline.BaselineIsExact | src/components/MortgageCalculator/MortgageCalculator.jsx:45-71 | in exact arithmetic every baseline row balances, and total paid is total interest plus the principal |
| Baseline.BaselineChargesInterest | src/components/MortgageCalculator/MortgageCalculator.jsx:48 | a positive principal at a positive rate always costs some interest |
| Adjusted.MonthCap | src/components/MortgageCalculator/MortgageCalculator.jsx:146 | the cap is at least 5n and at least 1000, and equals one of them |
| Adjusted.RemainingMonths | src/components/MortgageCalculator/MortgageCalculator.jsx:147 | the months left are n − month + 1 within the term, and 1 from the last month on |
| Adjusted.ScheduledPayment | src/components/MortgageCalculator/MortgageCalculator.jsx:147-158 | reduce-amortization pays the base payment; reduce-payment pays the level payment for the balance over the months left |
| Adjusted.MonthRow | src/components/MortgageCalculator/MortgageCalculator.jsx:160-205 | one month of the loop opens with the given balance under its month number; the extra it applies is between zero and what is due that month; its closing balance is never negative and never above a non-negative opening balance (the full row policy is `MonthFollowsPolicy`) |
| Adjusted.MonthFollowsPolicy | src/components/MortgageCalculator/MortgageCalculator.jsx:160-205 | one month obeys the row policy: a closing row has no extra, pays balance plus interest and ends at zero; otherwise the applied extra is at most what is due, at most what the scheduled principal leaves, and all that is due unless it clears the balance; the balance never goes up |
| Adjusted.AdjustedRows | src/components/MortgageCalculator/MortgageCalculator.jsx:142-209 | rows exist exactly while the balance exceeds the tolerance and the cap is not passed, and the first row opens with the given balance |
| Adjusted.RowsShape | src/components/MortgageCalculator/MortgageCalculator.jsx:146-209 | the rows are numbered from the start month and stay within the cap; each opens with the previous closing balance; no balance goes negative; the last row ends within the tolerance or sits at the cap |
| Adjusted.RowsFollowPolicy | src/components/MortgageCalculator/MortgageCalculator.jsx:146-209 | every row opens above the tolerance and obeys the row policy, and only the last row can be a closing row |
| Adjusted.Compute | src/components/MortgageCalculator/MortgageCalculator.jsx:129-222 | the schedule is empty exactly when the principal is within the tolerance and otherwise opens at the principal; the initial payment is the baseline's; the payment after recalculation is the first row's payment, or the base payment if there are no rows; months, interest and paid totals are the column counts and sums; total principal is their difference clamped at zero |
| Adjusted.LastMonthOfTermCloses | src/components/MortgageCalculator/MortgageCalculator.jsx:164 | while on track, the last month of the original term is a closing row |
| Adjusted.MonthOnTrack | src/components/MortgageCalculator/MortgageCalculator.jsx:146-209 | an on-track month balances and pays non-negative principal, closes if it is the last month of the term, and otherwise leaves the loop on track |
| Adjusted.RowsOnTrack | src/components/MortgageCalculator/MortgageCalculator.jsx:146-209 | from an on-track state the loop produces at most the months left of the term, all balanced |
| Adjusted.PaidOffWithinTerm | src/components/MortgageCalculator/MortgageCalculator.jsx:146-209 | under either policy and any prepayments, the loan is paid off within n months, every row balances, and the final balance is within the tolerance |
| Adjusted.AdjustedAccounting | src/components/MortgageCalculator/MortgageCalculator.jsx:211-220 | the final balance is in [0, 0.00001]; the reported principal is the loan less that final balance; total paid is total interest plus the reported principal |
| Agreement.MonthMatchesBaseline | src/components/MortgageCalculator/MortgageCalculator.jsx:160-209 | with no prepayment and the level payment for the balance, an adjusted month equals the baseline month and closes exactly in the last month of the term |
| Agreement.RowsMatchBaseline | src/components/MortgageCalculator/MortgageCalculator.jsx:146-209 | without prepayments the loop reproduces the baseline rows up to the first month that opens within the tolerance |
| Agreement.WithoutPrepaymentsMatchesBaseline | src/components/MortgageCalculator/MortgageCalculator.jsx:129-222 | without prepayments, under either policy, the adjusted schedule is the baseline schedule cut off at the first month that opens within the tolerance |
| Agreement.PolicyIrrelevantWithoutPrepayments | src/components/MortgageCalculator/MortgageCalculator.jsx:147-158 | without prepayments both recalculation policies produce the same schedule |
| PrepaymentList.StartMonthOf | src/components/MortgageCalculator/MortgageCalculator.jsx:286 | the stored start month is at least 1, and it is the floor of any input of 1 or more |
| PrepaymentList.Add | src/components/MortgageCalculator/MortgageCalculator.jsx:284-310 | the add is rejected for its amount exactly when the amount is not positive; otherwise it is accepted if and only if the candidate list passes validation, and a positive amount that is not accepted is always a limit rejection; an accepted add appends exactly the new entry and passes validation; a limit rejection reports the first over-limit block of the candidate with its bounds, total and limit |
| PrepaymentList.FirstErrorIsFirstBlock | src/components/MortgageCalculator/MortgageCalculator.jsx:294-296 | the first error reports the lowest-numbered over-limit block |
| PrepaymentList.AcceptedAddRaisesExtras | src/components/MortgageCalculator/MortgageCalculator.jsx:289-306 | an accepted add raises every month's extra by exactly the new entry's contribution |
| PrepaymentList.InvalidListRejectsEveryAdd | src/components/MortgageCalculator/MortgageCalculator.jsx:289-304 | a list that already breaks the limit accepts no addition |
| PrepaymentList.Remove | src/components/MortgageCalculator/MortgageCalculator.jsx:312-314 | no kept entry carries the id; every kept entry was in the list; every entry with another id is kept |
| PrepaymentList.RemoveDistributes | src/components/MortgageCalculator/MortgageCalculator.jsx:313 | removal from a concatenation is removal from each part, in order |
| PrepaymentList.RemoveSingleton | src/components/MortgageCalculator/MortgageCalculator.jsx:313 | on a single entry removal keeps it exactly when its id differs |
| PrepaymentList.RemoveAbsentId | src/components/MortgageCalculator/MortgageCalculator.jsx:313 | removing an id no entry carries leaves the list unchanged |
| PrepaymentList.RemoveIdempotent | src/components/MortgageCalculator/MortgageCalculator.jsx:313 | removing twice is removing once |
| PrepaymentList.RemoveLowersExtras | src/components/MortgageCalculator/MortgageCalculator.jsx:312-314 | removal never raises any month's extra |
| PrepaymentList.RemoveKeepsListValid | src/components/MortgageCalculator/MortgageCalculator.jsx:312-314 | a list that passes validation still passes after any removal |
| PrepaymentList.Clear | src/components/MortgageCalculator/MortgageCalculator.jsx:316-319 | a confirmed clear empties the list; a declined clear leaves it unchanged |
| PrepaymentList.ClearedListValid | src/components/MortgageCalculator/MortgageCalculator.jsx:316-319 | for a non-negative limit, the list after a clear passes validation exactly when the clear was confirmed or the list already passed |

## Left out

- React state and memoisation, the JSX rendering, and the pagination arithmetic with its `setCurrentPage` call: these are presentation only.
- Interest savings and months saved (lines 227–234) are display arithmetic over the two results' totals.
- Currency formatting, `toFixed(2)` CSV cells, and the CSV download (`Blob`, object URL, DOM anchor): locale, floating-point text rendering and browser I/O.
- The `alert` dialogs: a rejection is a result value (`AddOutcome`) instead.
- The `confirm` dialog is the `confirmed` parameter of `PrepaymentList.Clear`.
- The id from `Date.now() + Math.random()` is a parameter of `PrepaymentList.Add`, because it comes from the clock and randomness.
- The reset of the input fields and the `setLimitBasePrincipal` call after an accepted add (lines 307–309): these update UI state and are not list logic.
- `Number(x) || 0` coercion and NaN handling: inputs are well-typed numbers. A prepayment type other than the three known ones is the `Unrecognized` kind, which contributes nothing.
- IEEE-754 doubles: money is exact `real`. The payoff and agreement theorems are exact-arithmetic statements. With doubles the baseline's forced last payment absorbs rounding residue and the adjusted loop may run a month or so longer, which this model does not describe.
- Baseline.Compute: requires a non-negative annual rate. The source also runs with negative rates, where the annuity denominator can vanish.
- Adjusted.Compute: requires a non-negative annual rate, for the same reason.
- Annuity.Payment: requires a non-negative rate and at least one month, which every caller guarantees.
- src/App.tsx and vite.config.ts are component wiring and build configuration, and are not part of this model.
