# Autara lending: the arithmetic core, verified

A Dafny model of the parts of the Autara lending protocol where every step rounds and the
sum of the roundings decides who owns what: the two fixed-point formats, the share ledger,
the liquidation solver, continuous compounding, borrow positions and the market operations
that tie them together, and the two resumable on-chain deployment protocols.

Values are raw bits. `UFixed` is U64F64 and `IFixed` is I80F48; a pool's exact value is
`shares * price` in units of 2^-128 atoms, so a claim about values carries no rounding of
its own. A failure is a `Result`, and where the code fails after it has already changed
something, so does the model.

The library that implements the two formats is not part of this model. Non-negative
products and quotients truncate; how a negative inexact one rounds is the parameter `lib`,
and every theorem that has it holds for all four combinations.

| file | content |
|---|---|
| `Arithmetic.dfy` | products, cancellation and division on unbounded integers |
| `FixedPoint.dfy` | the two formats, checked operations, conversions, shifts |
| `SharePool.dfy`, `SharesTracker.dfy` | the ledger in closed form, and the object that refines it |
| `PoolTheorems.dfy`, `Ledger.dfy`, `Conservation.dfy` | what one operation costs; who owns what over whole runs; the pool against its books |
| `OraclePrice.dfy`, `Liquidation.dfy` | prices with confidence; the solver |
| `LiquidationTheorems.dfy`, `TargetLtv.dfy` | what a liquidation takes, and where it leaves the loan |
| `Compounding.dfy`, `CompoundingTheorems.dfy`, `Monotonicity.dfy` | the exponential, its bounds, and when it grows |
| `BorrowPosition.dfy`, `PositionRuns.dfy` | one position |
| `DebtBook.dfy`, `MarketEffects.dfy` | all positions with their ledger and vault, and what each operation does to them |
| `Health.dfy`, `LtvTest.dfy` | which loans are liquidated, for how much, and the loan-to-value test, decided before the call |
| `SupplyVault.dfy`, `MarketSolvency.dfy` | lenders against borrowers, in one clock update and over whole runs |
| `Bytes.dfy`, `ElfUpgrade.dfy`, `IdlPublish.dfy` | writing a program image and publishing a document over a lossy chain |

## What was found

- A deposit is worth exactly itself, rounded up, at *every* price, also at the very top of
  the price range, where the price bits exceed 2^128 - 2^64 (`PoolTheorems.DepositRoundTrip`).
- A withdrawal by atoms favours the claimant exactly when the price does not divide the
  amount (`PoolTheorems.WithdrawFavoursClaimantIff`); a four-step run overdraws
  (`Conservation.WithdrawalByAtomsCanOverdraw`), while rounded-down redemptions never do.
- The exponential is at least 1 + x on its whole range. It is not monotone, but nearly: it can
  fall only between two arguments less than four units of 2^-48 apart, on the same multiple of
  ln 2 and with a negative remainder, and by at most two units of its last place; both limits
  are attained. So interest grows with time at every non-negative rate except one, two and
  three units of 2^-48 per second, where one second more can yield less
  (`Monotonicity.GrowsWithTimeIff`, `Monotonicity.ExpNearlyMonotone`, `Monotonicity.FallsByTwoUnits`).
- `BorrowPosition::settle_capital_sweep` overwrites the collateral, so it conserves it exactly
  when none was deposited while the sweep was open (`PositionRuns.SettleConservesIff`). The
  market's guards never let that happen (`DebtBook.EveryRunBalances`).
- Creation allocates at most 10 000 bytes and publishing never enlarges the account, so a
  compressed document can be published if and only if it has at most 9956 bytes
  (`IdlPublish.UndisturbedRunPublishesIff`).
- A write that lands late keeps the published prefix if and only if it no longer fits or the
  document happens to continue with it (`IdlPublish.LateWriteKeepsPrefixIff`); a broken prefix
  is never repaired (`IdlPublish.BrokenPrefixStays`).
- The market refuses a liquidation that raises the loan-to-value ratio. After four ordinary
  operations a solvent loan can be solved, settled and still refused, because the debt that
  remains is rounded up afresh (`LtvTest.SmallLiquidationFails`). `LtvTest.MarketLiquidatesIff`
  says exactly when a liquidation goes through, in terms of the loan, its shares, their price
  and the seizure; `LtvTest.SolvedLiquidationPasses` gives a margin that always suffices.

## Model

| member | source | states |
|---|---|---|
| `FixedPoint.IShiftExact` | autara-lib/src/math/macros.rs:152-166 | for every signed value and 0 <= k < 128 the wrap-then-shift-back test succeeds if and only if value * 2^k is representable, and then returns exactly that product |
| `FixedPoint.UShiftExact` | autara-lib/src/math/macros.rs:152-166 | the same for the unsigned format |
| `FixedPoint.WrapIsDetected` | autara-lib/src/math/macros.rs:160-163 | losing any multiple of 2^128 in a left shift by less than 128 is always seen by shifting back, and nothing else is |
| `FixedPoint.ShiftRightIs` | autara-lib/src/math/macros.rs:153-158 | a right shift below 128 is division rounded down; a shift of 128 or more fails either way |
| `FixedPoint.URoundUpIsCeiling` | autara-lib/src/math/macros.rs:103-116 | rounding up is the true ceiling up to the largest integer and saturates one short above it |
| `FixedPoint.IRoundUpIsCeiling` | autara-lib/src/math/macros.rs:103-116 | signed rounding up succeeds exactly on [0, 2^64), is the ceiling there, and saturates only at the top |
| `FixedPoint.QuotientBounds` | autara-lib/src/math/macros.rs:222-241 | whichever way the library rounds negatives, a result is within one unit of exact and has its sign |
| `FixedPoint.SignedUnsignedRoundTrip` | autara-lib/src/math/ufixed_point.rs:17-19 | signed to unsigned succeeds exactly on [0, 2^64) and comes back unchanged |
| `FixedPoint.UnsignedSignedRoundTrip` | autara-lib/src/math/ifixed_point.rs:80-82 | unsigned to signed and back always succeeds and loses exactly the low 16 bits |
| `SharePool.SharesForFits` | autara-lib/src/math/shares_tracker.rs:44-46 | atoms convert to shares exactly when they are zero or below the price bits |
| `SharesTracker.SharesTracker.constructor` | autara-lib/src/math/shares_tracker.rs:24-29 | no shares, price one |
| `SharesTracker.SharesTracker.Initialize` | autara-lib/src/math/shares_tracker.rs:39-42 | resets to no shares at price one |
| `SharesTracker.SharesTracker.AtomsToShares` | autara-lib/src/math/shares_tracker.rs:44-46 | refines the closed form atoms * 2^128 / price, with its exact failure condition |
| `SharesTracker.SharesTracker.SharesToAtoms` | autara-lib/src/math/shares_tracker.rs:48-56 | refines the closed form on the exact product; rounding up sees only the 64 fractional bits the product keeps |
| `SharesTracker.SharesTracker.TotalAtoms` | autara-lib/src/math/shares_tracker.rs:58-62 | the same for all shares |
| `SharesTracker.SharesTracker.DepositAtoms` | autara-lib/src/math/shares_tracker.rs:64-68 | result and whole new state, on success and failure, are those of `SharePool.Deposit` |
| `SharesTracker.SharesTracker.WithdrawAtoms` | autara-lib/src/math/shares_tracker.rs:70-77 | likewise `SharePool.Withdraw` |
| `SharesTracker.SharesTracker.WithdrawAtomsCapped` | autara-lib/src/math/shares_tracker.rs:79-99 | likewise `SharePool.WithdrawCapped` |
| `SharesTracker.SharesTracker.WithdrawShares` | autara-lib/src/math/shares_tracker.rs:101-112 | likewise `SharePool.Redeem` |
| `SharesTracker.SharesTracker.ApplyInterestRate` | autara-lib/src/math/shares_tracker.rs:114-121 | likewise `SharePool.Accrue` |
| `SharesTracker.SharesTracker.ApplyInterestRateWithFee` | autara-lib/src/math/shares_tracker.rs:123-147 | likewise `SharePool.AccrueWithFee`, including a new price left behind when minting the fee fails |
| `SharesTracker.SharesTracker.DonateAtoms` | autara-lib/src/math/shares_tracker.rs:149-157 | likewise `SharePool.Donate` |
| `SharesTracker.SharesTracker.SocializeLossAtoms` | autara-lib/src/math/shares_tracker.rs:159-167 | likewise `SharePool.Socialize` |
| `PoolTheorems.DepositRoundTrip` | autara-lib/src/math/shares_tracker.rs:44-68 | at every price a deposit mints nothing only for nothing, redeems for itself or one atom less, is worth exactly itself rounded up, and redeeming it restores the ledger |
| `PoolTheorems.DepositSucceedsIff` | autara-lib/src/math/shares_tracker.rs:64-68 | one inequality that decides every deposit, and which error a failure is |
| `PoolTheorems.WithdrawSucceedsIff` | autara-lib/src/math/shares_tracker.rs:70-77 | the same for withdrawal by atoms |
| `PoolTheorems.RedeemSucceedsIff` | autara-lib/src/math/shares_tracker.rs:101-112 | the same for redemption |
| `PoolTheorems.CappedSucceedsIff` | autara-lib/src/math/shares_tracker.rs:79-99 | the same for capped repayment, in either rounding mode |
| `PoolTheorems.DonateSucceedsIff` | autara-lib/src/math/shares_tracker.rs:149-167 | the same for donation; an empty pool refuses donation and loss alike |
| `PoolTheorems.AccrueSucceedsIff` | autara-lib/src/math/shares_tracker.rs:114-121 | the same for accrual at a non-negative rate |
| `PoolTheorems.DepositShortfall` | autara-lib/src/math/shares_tracker.rs:44-56 | minted shares never fall short of the deposit by so much that the kept fraction vanishes |
| `PoolTheorems.WithdrawLowersTotal` | autara-lib/src/math/shares_tracker.rs:70-77 | paying n atoms lowers the rounded total by n or n-1 |
| `PoolTheorems.WithdrawFavoursClaimantIff` | autara-lib/src/math/shares_tracker.rs:70-77 | the removed value is within one atom of the payment and smaller than it if and only if the price does not divide it |
| `PoolTheorems.CappedNeverOvercharges` | autara-lib/src/math/shares_tracker.rs:79-99 | in either rounding mode: charges at most the offer, removes at most the cap, spends the whole offer or hits the cap, and charges what the removed shares are worth |
| `PoolTheorems.CappedAlwaysSettles` | autara-lib/src/math/shares_tracker.rs:79-99 | an offer that converts, with a cap the ledger holds, always settles |
| `PoolTheorems.DonateIsTight` | autara-lib/src/math/shares_tracker.rs:149-157 | raises exact value by more than n-1 and at most n |
| `PoolTheorems.SocializeIsTight` | autara-lib/src/math/shares_tracker.rs:159-167 | lowers exact value by more than n-1 and at most n |
| `PoolTheorems.SocializeSucceedsIff` | autara-lib/src/math/shares_tracker.rs:159-167 | exactly which losses can be written down; every loss within the pool value can |
| `PoolTheorems.DonateSocializeInverse` | autara-lib/src/math/shares_tracker.rs:149-167 | donation and an equal loss undo each other exactly, in either order |
| `PoolTheorems.GrownSandwich` | autara-lib/src/math/shares_tracker.rs:114-121 | the new price never exceeds the exact product and undershoots it by a bounded number of 2^-48 units |
| `PoolTheorems.GrownMonotone` | autara-lib/src/interest_rate/interest_rate.rs:26-31 | a higher rate never yields a lower price |
| `PoolTheorems.SplitIs` | autara-lib/src/math/shares_tracker.rs:136-139 | fee and net interest add up to gross interest within one truncation each; the net rate never exceeds the gross one |
| `PoolTheorems.FeeAccrualCreatesNoClaims` | autara-lib/src/math/shares_tracker.rs:123-147 | across all truncations and both formats exact value afterwards is at most value * (1 + rate) |
| `PoolTheorems.FeeAccrualLosesOnlyDust` | autara-lib/src/math/shares_tracker.rs:123-147 | and at least that minus one part in 2^48, interest on one atom and bounded truncation |
| `PoolTheorems.FeeIsBounded` | autara-lib/src/math/shares_tracker.rs:123-147 | fee shares are worth at most the fee's fraction of gross interest and the price is at most the fee-free one |
| `PoolTheorems.AccrualKeepsPrice` | autara-lib/src/math/shares_tracker.rs:114-147 | neither accrual brings the price below its own 48-bit part; a multiple of 2^16 stays one |
| `Ledger.RunIsOwned` | autara-lib/src/math/shares_tracker.rs:64-167 | every operation of every run, at any rate and fee, keeps the shares equal to positions plus fee shares |
| `Ledger.StepFollowsPool` | autara-lib/src/math/shares_tracker.rs:64-167 | in a run, an operation that the pool accepts and the position can afford happens to both |
| `Ledger.EveryRunIsSolvent` | autara-lib/src/math/shares_tracker.rs:48-167 | after every run shares equal positions plus fee shares, rounded-down claims never exceed the total, and up to 2^64 rounded-up debts never fall below it |
| `Conservation.PlainAccrualBounds` | autara-lib/src/math/shares_tracker.rs:114-121 | for every rate, negative ones included, the change of exact value is the interest due within a few units of 2^-48 per share, and never above it at a non-negative rate |
| `Conservation.FeeAccrualBounds` | autara-lib/src/math/shares_tracker.rs:123-147 | the same with a fee of at most one, within one part in 2^48 and interest on one atom more |
| `Conservation.UnmintedBounds` | autara-lib/src/math/shares_tracker.rs:140-145 | if minting the fee fails after the price was set, only the fee is missing |
| `Conservation.RunConserves` | autara-lib/src/math/shares_tracker.rs:64-167 | every operation of every run keeps exact value within its books: atoms in, atoms out, gross interest booked as value times rate before the accrual, and counted rounding |
| `Conservation.EveryRunConserves` | autara-lib/src/math/shares_tracker.rs:64-167 | from the empty pool, over every run with fees of at most one: value is atoms in minus atoms out plus gross interest, up to one atom per operation and the booked truncation; with non-negative rates truncation never adds |
| `Conservation.RedemptionsNeverOverdraw` | autara-lib/src/math/shares_tracker.rs:101-112 | a run at non-negative rates that pays out only by rounded-down redemption never owes more than atoms in minus atoms out plus gross interest |
| `Conservation.WithdrawalByAtomsCanOverdraw` | autara-lib/src/math/shares_tracker.rs:70-77 | a concrete run of four operations after which the pool owes more than that |
| `Ledger.ExitPays` | autara-lib/src/math/shares_tracker.rs:101-112 | all claims redeem one after another, each paid as if alone, leaving no shares |
| `Ledger.ExitInAnyOrder` | autara-lib/src/math/shares_tracker.rs:101-112 | after every run all claims exit in any order, all succeed, and are paid the total or up to k-1 atoms less |
| `Ledger.PriceNeverFalls` | autara-lib/src/math/shares_tracker.rs:24-147 | in every run without gifts or losses the price starts at one, never falls between any two moments and stays a multiple of 2^16 |
| `OraclePrice.ValidBounds` | autara-lib/src/oracle/oracle_price.rs:52-79 | validation makes the lower bound positive and the bounds ordered |
| `OraclePrice.AcceptedIff` | autara-lib/src/oracle/oracle_price.rs:32-63 | a rate is accepted, as it is, if and only if 0 <= confidence < rate; which error a refusal is |
| `OraclePrice.AtomsToValueIs` | autara-lib/src/oracle/oracle_price.rs:81-97 | the conversion succeeds exactly when price * amount fits and costs exactly one truncation |
| `OraclePrice.ValueToAtomsIs` | autara-lib/src/oracle/oracle_price.rs:87-103 | the quotient against the price, with its truncation bounds; never positive for a negative value |
| `OraclePrice.AtomsRoundTrip` | autara-lib/src/oracle/oracle_price.rs:81-103 | atoms to value to atoms always converts, never exceeds the original, and rounds up to it if and only if the first remainder is worth at most all but 2^-48 of an atom |
| `OraclePrice.RoundTripAtOrdinaryPrices` | autara-lib/src/oracle/oracle_price.rs:81-103 | a condition on the price alone under which the round trip is exact for every amount |
| `OraclePrice.BorrowValueDominates` | autara-lib/src/oracle/oracle_price.rs:81-97 | debt is never valued below the same amount of collateral |
| `Liquidation.Scaled` | autara-lib/src/operation/liquidation.rs:36-38 | scaling by cap / repay rounds down and never exceeds the amount |
| `Liquidation.LiquidationResult.AdjustForMaxRepay` | autara-lib/src/operation/liquidation.rs:15-22 | the whole new record; repayment at most the limit |
| `Liquidation.LiquidationResultWithBonus.AdjustForMaxRepay` | autara-lib/src/operation/liquidation.rs:34-44 | the whole new record, which `LiquidationTheorems.CappedWithBonusIs` determines |
| `Liquidation.LiquidationResultWithBonus.TotalCollateralAtomsToLiquidate` | autara-lib/src/operation/liquidation.rs:46-49 | the sum, failing exactly when it does not fit |
| `Liquidation.ComputeLiquidationWithFee` | autara-lib/src/operation/liquidation.rs:53-96 | the step-by-step computation refines the composed specification, errors included |
| `LiquidationTheorems.SolveMatches` | autara-lib/src/operation/liquidation.rs:104-129 | repayment and seizure bracket the solved value; a negative value can only seize nothing |
| `LiquidationTheorems.BonusIsBounded` | autara-lib/src/operation/liquidation.rs:79-89 | the bonus is at most its rate, within one atom of it unless clamped, and everything fits in the collateral |
| `LiquidationTheorems.CappedIsPaidFor` | autara-lib/src/operation/liquidation.rs:15-22 | rescaling to a limit keeps seized collateral paid for |
| `LiquidationTheorems.CappedIs` | autara-lib/src/operation/liquidation.rs:15-22 | beyond the limit, repayment is the limit and collateral its exact share, rounded down; within it nothing changes |
| `LiquidationTheorems.CappedWithBonusIs` | autara-lib/src/operation/liquidation.rs:34-44 | the same for collateral and bonus, each on its own |
| `LiquidationTheorems.LiquidatorIsPaid` | autara-lib/src/operation/liquidation.rs:53-96 | the repayment is the solved one within both limits, the collateral with two atoms more is worth all but one atom of it, and the bonus is its rate to within one atom unless clamped |
| `LiquidationTheorems.SeizureIsPaidFor` | autara-lib/src/operation/liquidation.rs:53-96 | every success takes collateral worth less than the repayment plus 2^-48 of a debt atom (one atom if the repayment saturated), for any target and limit |
| `LiquidationTheorems.BonusIsPaidFor` | autara-lib/src/operation/liquidation.rs:79-95 | bonus included, seized collateral is worth less than the repayment grown by the bonus rate |
| `LiquidationTheorems.CappedBonusIsPaidFor` | autara-lib/src/operation/liquidation.rs:34-44 | also after the final rescale |
| `LiquidationTheorems.NeverTakesALargerFraction` | autara-lib/src/operation/liquidation.rs:53-129 | if LTV * (1 + bonus) <= 1 no larger fraction of collateral goes than of debt; exact up to 2^48 collateral atoms |
| `LiquidationTheorems.CappedIsFair` | autara-lib/src/operation/liquidation.rs:34-44 | the final rescale keeps the fraction fair although it truncates twice |
| `TargetLtv.AdjustedIs` | autara-lib/src/operation/liquidation.rs:64-68 | both fee adjustments with their truncation bounds |
| `TargetLtv.TargetIsMet` | autara-lib/src/operation/liquidation.rs:53-129 | unless the cap binds, remaining debt value is below target times remaining collateral value, bonus included, up to two units of 2^-48 and 2^-48 of a debt atom |
| `TargetLtv.WellBacked` | autara-lib/src/operation/liquidation.rs:104-129 | conditions on the two values before the call under which seized atoms stay within the adjusted collateral and the repayment within the debt |
| `TargetLtv.TargetIsMetWhenBacked` | autara-lib/src/operation/liquidation.rs:53-129 | so the target is met under conditions a caller can test before the call |
| `TargetLtv.SolverDoesNotOvershoot` | autara-lib/src/operation/liquidation.rs:104-129 | and the solver repays no more than needed, up to one atom on each side and two units |
| `TargetLtv.SolveSucceedsIff` | autara-lib/src/operation/liquidation.rs:121-128 | the solver answers exactly if the value it moves converts to whole atoms on both sides |
| `TargetLtv.TypicalLiquidation` | autara-lib/src/operation/liquidation.rs:53-129 | one loan worked out to the atom; it meets the hypotheses of the liquidation theorems, whose conclusion it inherits |
| `Compounding.Exp7Terms` | autara-lib/src/math/ifixed_point.rs:43-52 | the loop computes the recursive series, and fails as it does |
| `Compounding.FailureSticks` | autara-lib/src/math/ifixed_point.rs:43-52 | a failed partial sum decides the result |
| `Compounding.NextIs` | autara-lib/src/math/ifixed_point.rs:47-50 | one loop step never fails on the reduced range and is bounded on both sides |
| `CompoundingTheorems.ReductionRange` | autara-lib/src/math/ifixed_point.rs:58-72 | the remainder is within half of ln 2; the quotient is at most 79, and 79 only with a negative remainder |
| `CompoundingTheorems.ReductionIsComputed` | autara-lib/src/math/ifixed_point.rs:68-72 | the chain of fixed-point steps computes the exact nearest multiple |
| `CompoundingTheorems.ExpIs` | autara-lib/src/math/ifixed_point.rs:32-78 | the result is exactly 2^q times the series of the remainder: no step fails, the shift never overflows |
| `CompoundingTheorems.ExpIsTotal` | autara-lib/src/math/ifixed_point.rs:32-78 | total on [0, 54.75], rejects everything above, at least 1 + x throughout |
| `CompoundingTheorems.ExpNearZero` | autara-lib/src/math/ifixed_point.rs:43-52 | with quotient zero the result exceeds 1 + x by at most x squared |
| `CompoundingTheorems.TermIsClose` | autara-lib/src/math/ifixed_point.rs:47-50 | every term is within two units of the exact x^n / n! |
| `CompoundingTheorems.SeriesIsClose` | autara-lib/src/math/ifixed_point.rs:43-52 | the sum is within two units per step of the exact truncated series |
| `CompoundingTheorems.SeriesMonotone` | autara-lib/src/math/ifixed_point.rs:43-52 | on non-negative remainders the sum is monotone |
| `CompoundingTheorems.CompoundingBeatsSimpleInterest` | autara-lib/src/interest_rate/interest_rate_per_second.rs:50-59 | succeeds exactly up to the largest argument and is never below simple interest |
| `CompoundingTheorems.CompoundingNearZero` | autara-lib/src/interest_rate/interest_rate_per_second.rs:50-59 | before the first half doubling: between x and x + x^2, and monotone in time |
| `Monotonicity.SeriesNearlyMonotone` | autara-lib/src/math/ifixed_point.rs:43-52 | at negative remainders the series loses at most two units as its argument grows, one from two units of growth on, none from four |
| `Monotonicity.DoublingMakesUp` | autara-lib/src/math/ifixed_point.rs:63-74 | from one multiple of ln 2 to the next the result never falls |
| `Monotonicity.ExpNearlyMonotone` | autara-lib/src/math/ifixed_point.rs:32-78 | for any two arguments: falls by at most two units times 2^q, not at all into a non-negative remainder, from an earlier multiple, or over four units |
| `Monotonicity.ExpGrowsOverFourUnits` | autara-lib/src/math/ifixed_point.rs:32-78 | in particular never over four units of 2^-48 |
| `Monotonicity.WaitingCostsAtMost` | autara-lib/src/interest_rate/interest_rate_per_second.rs:50-59 | at any non-negative rate a later moment yields at most two units times 2^q less, and nothing less in the first half of a doubling time |
| `Monotonicity.CompoundingCanDip` | autara-lib/src/interest_rate/interest_rate_per_second.rs:50-59 | for each rate of one, two and three units a concrete second after which interest falls |
| `Monotonicity.FallsByTwoUnits` | autara-lib/src/interest_rate/interest_rate_per_second.rs:50-59 | the bound on a fall is attained whichever way the library rounds |
| `Monotonicity.GrowsWithTimeIff` | autara-lib/src/interest_rate/interest_rate_per_second.rs:50-59 | interest grows with time, wherever it can be computed, if and only if the rate is zero or at least four units of 2^-48 per second |
| `BorrowPosition.WrittenOff` | autara-lib/src/state/borrow_position.rs:135-138 | a partial repayment never writes off more principal than there is |
| `BorrowPosition.BorrowPosition.constructor` | autara-lib/src/state/borrow_position.rs:41-48 | an empty position |
| `BorrowPosition.BorrowPosition.BeginCapitalSweep` | autara-lib/src/state/borrow_position.rs:92-98 | result and whole new state, on success and failure; `PositionRuns.EveryRunIsConsistent` and `DebtBook.SweepReturnsTheRest` say what the recorded amount is for |
| `BorrowPosition.BorrowPosition.SettleCapitalSweep` | autara-lib/src/state/borrow_position.rs:100-112 | the same |
| `BorrowPosition.BorrowPosition.DepositCollateral` | autara-lib/src/state/borrow_position.rs:114-117 | the same |
| `BorrowPosition.BorrowPosition.WithdrawCollateral` | autara-lib/src/state/borrow_position.rs:119-125 | the same |
| `BorrowPosition.BorrowPosition.BorrowShares` | autara-lib/src/state/borrow_position.rs:127-131 | the same, with the principal left raised when the shares overflow |
| `BorrowPosition.BorrowPosition.RepayShares` | autara-lib/src/state/borrow_position.rs:133-150 | the same; no checked step of the partial branch can fail |
| `BorrowPosition.BorrowPosition.RepayEverything` | autara-lib/src/state/borrow_position.rs:152-155 | clears debt and principal, nothing else |
| `BorrowPosition.BorrowPosition.LiquidateShares` | autara-lib/src/state/borrow_position.rs:157-167 | the same, with the debt left repaid when the collateral is short |
| `PositionRuns.RepayIsProportional` | autara-lib/src/state/borrow_position.rs:133-150 | a partial repayment leaves at least the exact proportional principal and less than that plus two |
| `PositionRuns.RepayKeepsPrincipal` | autara-lib/src/state/borrow_position.rs:133-155 | every repayment keeps "no principal exactly when no debt" and touches no collateral |
| `PositionRuns.BorrowKeepsPrincipal` | autara-lib/src/state/borrow_position.rs:127-131 | so does borrowing what the ledger mints, failures included; exactly when it succeeds, and that principal and debt grow by exactly the atoms and shares |
| `PositionRuns.RefusalsAre` | autara-lib/src/state/borrow_position.rs:92-167 | exactly when each operation refuses, with which error, and what it has changed by then |
| `PositionRuns.EveryRunIsConsistent` | autara-lib/src/state/borrow_position.rs:80-167 | over every run principal is zero exactly when debt is, non-empty sweeps begun minus settled is 0 or 1 and is the lock, and the position remembers exactly what the open sweep handed out |
| `PositionRuns.EveryAccountIsConsistent` | autara-lib/src/state/borrow_position.rs:41-167 | so for every run from a new position |
| `PositionRuns.SettleConservesIff` | autara-lib/src/state/borrow_position.rs:100-112 | settling keeps the books if and only if no collateral is on the position |
| `PositionRuns.EveryGuardedRunConserves` | autara-lib/src/state/borrow_position.rs:80-167 | every run without deposits during a sweep conserves collateral exactly |
| `PositionRuns.UnguardedDepositIsLost` | autara-lib/src/state/borrow_position.rs:100-117 | a concrete run in which a deposit disappears |
| `DebtBook.EveryRunBalances` | autara-lib/src/state/market.rs:278-580 | over every run of the market's borrower operations ledger shares equal the sum of positions' shares, the vault equals the sum of their collateral, and a swept position holds none |
| `DebtBook.EveryMarketBalances` | autara-lib/src/state/market.rs:278-580 | so for every run from the empty market |
| `DebtBook.CappedRepaymentIsAccepted` | autara-lib/src/state/supply_vault.rs:258-265 | whatever the capped repayment returns the position accepts, charging at most the offer, and the book stays balanced |
| `DebtBook.LiquidationAlwaysSettles` | autara-lib/src/state/market.rs:375-390 | a seizure within the collateral always settles if its repayment converts |
| `DebtBook.SolvedLiquidationSettles` | autara-lib/src/state/market.rs:359-402 | from the solver through the capped repayment and the last rescale to the position: it settles, takes exactly what was settled, in exact proportion to the charge, paid for by it, worth it to within three atoms, and a fair fraction |
| `DebtBook.EveryRunKeepsPrice` | autara-lib/src/state/market.rs:278-580 | over every market run at non-negative rates the price of debt never falls and stays a multiple of 2^16 |
| `DebtBook.EverySolvedLiquidationSettles` | autara-lib/src/state/market.rs:359-402 | so in every such run from the empty market every solved liquidation settles, fairly and paid for |
| `DebtBook.PayDebtIs` | autara-lib/src/state/market.rs:375-383 | the charge is the removed shares' worth rounded up, spends the offer or clears the debt, and rescales the seizure to itself |
| `DebtBook.LiquidateIs` | autara-lib/src/state/market.rs:375-390 | exactly when a seizure settles, and the whole book it leaves |
| `DebtBook.SettleIs` | autara-lib/src/state/market.rs:520-541 | the whole book a settlement leaves: what was swept and not seized comes back, within the caller's limit |
| `DebtBook.BeginIs` | autara-lib/src/state/market.rs:465-486 | a sweep begins exactly if none is open, and all of the collateral leaves and is remembered |
| `DebtBook.SweptStaysFrozen` | autara-lib/src/state/market.rs:278-580 | whatever the market does, a swept position does not change until it is settled |
| `DebtBook.SweepReturnsTheRest` | autara-lib/src/state/market.rs:465-554 | with any operations between beginning and settlement: collateral afterwards plus what was seized is the collateral before, and the vault moves by the same |
| `MarketEffects.DepositCollateralDoes` | autara-lib/src/state/market.rs:278-289 | exactly when it goes through, and everything it changes |
| `MarketEffects.WithdrawCollateralDoes` | autara-lib/src/state/market.rs:291-314 | the same, short of the health check |
| `MarketEffects.BorrowDoes` | autara-lib/src/state/market.rs:316-327 | the same |
| `MarketEffects.BorrowRaisesDebt` | autara-lib/src/state/market.rs:316-327 | the rounded-up debt grows by the atoms or one less |
| `MarketEffects.RepayDoes` | autara-lib/src/state/market.rs:338-347 | exactly when it goes through; the rounded-up debt falls by the atoms or one less |
| `MarketEffects.RepayAllDoes` | autara-lib/src/state/market.rs:349-357 | exactly when it goes through; no debt is left and the collateral stays |
| `MarketEffects.SocializeDoes` | autara-lib/src/state/market.rs:569-579 | the same, and all of the collateral leaves position and vault |
| `Health.DebtThatRemains` | autara-lib/src/state/market.rs:116-119 | after a capped repayment the rounded-up debt is the debt minus the charge or one atom more, and exactly when which |
| `Health.MarginPasses` | autara-lib/src/state/market.rs:391-396 | a seizure that is paid for, out of a solvent loan, passes if its repayment covers the roundings |
| `LtvTest.LeftIs` | autara-lib/src/state/market.rs:116-119 | the rounded-up debt after a capped repayment in closed form, for every price, position and offer, saturation included; if any is left the offer was spent whole |
| `LtvTest.LiquidationPassesIff` | autara-lib/src/state/market.rs:359-396 | for every book, position and seizure that settles: the ratio does not rise if and only if the debt that will be left has no value, or its value is below the first ratio above the old one on the collateral not seized; every term is known before the call |
| `LtvTest.SettlementPassesIff` | autara-lib/src/state/market.rs:488-547 | the same for the settlement of a capital sweep, valued against what was swept |
| `LtvTest.WholeSeizurePassesIff` | autara-lib/src/state/market.rs:440-447 | under water, where everything goes, the test passes if and only if no debt of value is left |
| `LtvTest.MarketSeizureIs` | autara-lib/src/state/market.rs:437-461 | by the values of debt and backing: nothing from a loan below the threshold, everything without bonus from one worth no more than its debt, else the solver's answer |
| `LtvTest.MarketRefusesIff` | autara-lib/src/state/market.rs:437-439 | the operation refuses a position as healthy if and only if its debt value is below the threshold times its backing value, or it has no debt value and the threshold is positive |
| `LtvTest.MarketLiquidatesIff` | autara-lib/src/state/market.rs:359-463 | in every market run at non-negative rates the whole operation succeeds if and only if no sweep is open, the loan has a ratio and a seizure, and the seizure will pass; nothing in between can fail, and the book it leaves has the debt known before the call |
| `LtvTest.SolvedLiquidationPasses` | autara-lib/src/state/market.rs:359-402 | a solved liquidation of a solvent loan always passes if its repayment covers the roundings |
| `LtvTest.SmallBookIsReached` | autara-lib/src/state/market.rs:278-335 | four operations lead from the empty market to the book of the counterexample |
| `LtvTest.SmallLiquidationFails` | autara-lib/src/state/market.rs:391-396 | there a solvent loan is solved and settled, and the operation is refused |
| `SupplyVault.UtilisationIs` | autara-lib/src/state/supply_vault.rs:168-179 | borrowed over supplied rounded down to 48 bits, failing exactly on a debt without supply |
| `SupplyVault.LendingRateIs` | autara-lib/src/state/supply_vault.rs:191-209 | interest on what is supplied at the utilisation-adjusted rate is interest on what is borrowed, within two truncations |
| `SupplyVault.CreditedAtMost` | autara-lib/src/state/supply_vault.rs:210-216 | what lenders are credited is bounded by the charge and interest on one atom |
| `SupplyVault.ChargedAtLeast` | autara-lib/src/state/supply_vault.rs:204-206 | what borrowers are charged is the exact interest up to truncation of the price |
| `SupplyVault.ClockCreditsAtMostWhatItCharges` | autara-lib/src/state/supply_vault.rs:183-230 | one clock update credits lenders and fee takers with at most what it charges borrowers, plus interest on two atoms and the truncation of the borrowers' price |
| `SupplyVault.ClockCreditsAtLeastWhatItCharges` | autara-lib/src/state/supply_vault.rs:183-230 | and with at most interest on one atom, two truncations per supplied atom and the accrual's dust less |
| `SupplyVault.SplitFeeIs` | autara-lib/src/math/bps.rs:19-23 | the protocol's part is its rate of the shares, rounded down, and nothing is lost |
| `SupplyVault.ClockSplitsEveryFeeShare` | autara-lib/src/state/supply_vault.rs:217-225 | every minted fee share becomes pending for the protocol, at its rate, or the curator |
| `SupplyVault.LossMovesToLenders` | autara-lib/src/state/supply_vault.rs:279-285 | lenders lose a written-off debt to within one atom; the two ledgers differ by less than an atom and 2^-64, or two atoms if the debt saturates |
| `SupplyVault.TypicalClock` | autara-lib/src/state/supply_vault.rs:183-230 | one clock update worked out to the bit, with a fee minted and split |
| `MarketSolvency.NegativeClock` | autara-lib/src/state/supply_vault.rs:183-230 | at a negative rate a clock update that goes through credits lenders nothing |
| `MarketSolvency.StepFollowsLedgers` | autara-lib/src/state/supply_vault.rs:232-290 | each operation goes through exactly if its ledger accepts it and its lender can afford it, and moves exactly those atoms |
| `MarketSolvency.RunKeeps` | autara-lib/src/state/supply_vault.rs:183-290 | every lend, withdrawal, borrow, repayment, clock update, write-off, donation and fee payout keeps every supply share a lender's or a pending fee, and lenders' exact claims equal to reserve plus debts within counted rounding on both sides |
| `MarketSolvency.EveryMarketIsSolvent` | autara-lib/src/state/supply_vault.rs:183-290 | so over every run from a new market, at any rates: at most two atoms per operation too much, one too little, and the clock's dust |
| `ElfUpgrade.MissingChunksIsExact` | autara-client/src/idl_deploy.rs:72-86 | lists in order and once each exactly the absent chunks; empty if and only if the image is a prefix of the payload |
| `ElfUpgrade.MissingShrinks` | autara-client/src/idl_deploy.rs:266-289 | whatever writes of this image land, in any order and number, no chunk becomes missing |
| `ElfUpgrade.LoopEndsWell` | autara-client/src/idl_deploy.rs:278-293 | however a pass ends, it has read what the environment made of the start; it gives up only if the last four readbacks in a row brought nothing, and polls at most 4 * (missing + 1) times |
| `ElfUpgrade.SteadyCompletes` | autara-client/src/idl_deploy.rs:274-293 | if something arrives within any four readbacks and no read fails, no pass gives up |
| `ElfUpgrade.ProgramAccount.WritePass` | autara-client/src/idl_deploy.rs:233-297 | one pass sends every missing chunk, keeps every right byte, ends as said, and completes in every steady environment, so in particular if nothing is lost |
| `ElfUpgrade.ProgramAccount.WriteAndDeploy` | autara-client/src/idl_deploy.rs:229-330 | against every environment the account becomes executable only with the whole image, verification never fails, right bytes stay right, it gives up only after four stalled passes, and in every steady environment it deploys |
| `IdlPublish.IdlAccount.PublishIdl` | autara-client/src/idl_deploy.rs:380-446 | the loop refines the recursive specification of one run |
| `IdlPublish.RunKeepsPrefix` | autara-client/src/idl_deploy.rs:380-446 | whatever fails in a run, the stored bytes stay a prefix of the document and only grow |
| `IdlPublish.EveryRerunKeepsPrefix` | autara-client/src/idl_deploy.rs:361-414 | so for any number of crashed runs |
| `IdlPublish.SuccessMeansEquality` | autara-client/src/idl_deploy.rs:436-444 | success means the stored bytes are the document, whatever was there before |
| `IdlPublish.WriteAllCalls` | autara-client/src/idl_deploy.rs:416-434 | an undisturbed run makes one call per chunk of 800 bytes |
| `IdlPublish.UndisturbedRunPublishesIff` | programs/autara-program/src/processor/idl.rs:208-208 | after any crashed runs an undisturbed run succeeds if and only if the document has at most 9956 bytes |
| `IdlPublish.LateWriteKeepsPrefixIff` | programs/autara-program/src/processor/idl.rs:283-306 | for any chunk of the document and any stored prefix: landing now keeps the prefix if and only if it no longer fits or the document continues with it |
| `IdlPublish.BrokenPrefixStays` | autara-client/src/idl_deploy.rs:400-414 | once broken, every run that reads the account refuses it and no run changes it |

## Left out

- Negative arguments of the exponential: modelled, for every rounding of the library, without theorems of their own.
- Fees above one: conservation excludes them; the market's configuration caps the fee at a fifth.
- `DebtBook`, `SupplyVault`, `LtvTest` and `MarketSolvency`: on values with revert on failure; update in place and aliasing of market accounts are not captured.
- Health and utilisation checks of the market operations other than liquidation: the runs of `DebtBook` are a superset of the ones they let through.
- SolvedLiquidationPasses: the margin is sufficient and not necessary, and leaves out a debt that saturates at the largest `u64`; `LtvTest.LiquidationPassesIff` is the exact condition.
- Token balances: the reserve of `MarketSolvency` is booked from the operations and may become negative, where a transfer would fail.
- Interest-rate curves: the rate per second, or the rate for the elapsed time, is an input.
- Decimals above 18: the table lookup panics there, so `decimals <= 18` is a precondition.
- Oracle account parsing, staleness and construction from price, exponent and confidence.
- Construction of rates from yearly rates, floating-point helpers, display and metrics.
- Retraction, resizing, rent, block hashes, signing and batching in the upgrade: the account is taken as sized and retracted.
- Compression of the published document, the account's authority and discriminator, buffers and the other handlers of the on-chain program.
- Account layouts, codecs, address derivation, events, error context, and the network.
