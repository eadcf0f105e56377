/**
 The last test of a liquidation in the market, decided before the call: which seizures, of
 which positions, the market accepts.
 */
module LtvTest {
  import opened Arithmetic
  import opened FixedPoint
  import opened SharePool
  import opened PoolTheorems
  import opened OraclePrice
  import opened Liquidation
  import opened LiquidationTheorems
  import opened Conservation
  import opened Health
  import BP = BorrowPosition
  import DB = DebtBook

  // ---------------------------------------------------------------- the debt that will be left

  /**
   What a position that owes `owed` shares, `debt` atoms rounded up, will owe after a capped
   repayment of `repay` atoms. If the repayment buys fewer shares than are owed, the debt falls
   by it, or by one atom less, depending on what the shares bought are short of it; a debt that
   saturated at the largest `u64` can have hidden one atom more.
   */
  function Left(price: UFixed, owed: UFixed, debt: U64, repay: U64): int
    requires SharesFor(price, repay).Ok?
  {
    var burnt := SharesFor(price, repay).value;
    if owed <= burnt then 0
    else
      var rest, n := (owed - burnt) * price, debt - repay;
      Min(debt, if rest < n * TWO128 + ONE_U then n else if rest < (n + 1) * TWO128 + ONE_U then n + 1 else n + 2)
  }

  lemma LeftArithmetic(value: int, burnt: int, debt: int, repay: int, left: int)
    requires 0 <= repay <= U64_MAX && 0 <= debt <= U64_MAX && 0 <= burnt < value
    requires (debt - 1) * TWO128 + ONE_U <= value < (if debt < U64_MAX then debt * TWO128 + ONE_U else TWO192)
    requires burnt <= repay * TWO128 && (0 < repay ==> (repay - 1) * TWO128 + ONE_U <= burnt)
    requires var rest, n := value - burnt, debt - repay;
             left == Min(debt, if rest < n * TWO128 + ONE_U then n else if rest < (n + 1) * TWO128 + ONE_U then n + 1 else n + 2)
    ensures 0 <= left <= debt
    ensures (left - 1) * TWO128 + ONE_U <= value - burnt < (if left < U64_MAX then left * TWO128 + ONE_U else TWO192)
  {
  }

  lemma LeftIs(p: Pool, owed: UFixed, debt: U64, repay: U64)
    requires Worth(p.price, owed, RoundUp) == Ok(debt) && WithdrawCapped(p, repay, owed, RoundUp).result.Ok?
    ensures var (charged, removed) := WithdrawCapped(p, repay, owed, RoundUp).result.value;
            && SharesFor(p.price, repay).Ok? && removed <= owed
            && Worth(p.price, owed - removed, RoundUp) == Ok(Left(p.price, owed, debt, repay))
            && 0 <= Left(p.price, owed, debt, repay) <= debt
            && (charged == repay || Left(p.price, owed, debt, repay) == 0)
  {
    var burnt := SharesFor(p.price, repay).value;
    if owed <= burnt {
      RoundedUp(p.price, 0, 0);
    } else {
      LeftOfPart(p.price, owed, debt, repay);
    }
  }

  lemma LeftOfPart(price: UFixed, owed: UFixed, debt: U64, repay: U64)
    requires Worth(price, owed, RoundUp) == Ok(debt) && SharesFor(price, repay).Ok? && SharesFor(price, repay).value < owed
    ensures var left := Left(price, owed, debt, repay);
            0 <= left <= debt && Worth(price, owed - SharesFor(price, repay).value, RoundUp) == Ok(left)
  {
    var burnt, left := SharesFor(price, repay).value, Left(price, owed, debt, repay);
    RoundedUp(price, owed, debt);
    SharesForBounds(price, repay);
    if 0 < repay {
      DepositShortfall(price, repay);
    }
    MulLt(burnt, owed, price);
    MulNonNeg(burnt, price);
    assert (owed - burnt) * price == owed * price - burnt * price;
    LeftArithmetic(owed * price, burnt * price, debt, repay, left);
    RoundedUp(price, owed - burnt, left);
  }

  // ---------------------------------------------------------------- the exact condition

  /**
   The values of the debt that will be left and of the collateral that is not seized: none of
   the first, or a ratio below the first one above the old.
   */
  ghost predicate WillPass(lib: Library, loan: Loan, price: UFixed, owed: UFixed, s: SeizureWithBonus)
    requires Supported(loan) && Ltv(lib, loan).Ok? && SharesFor(price, s.repay).Ok?
  {
    var debtLeft := DebtPrice(loan) * Left(price, owed, loan.borrowed, s.repay) / DebtUnit(loan);
    var backingLeft := CollateralPrice(loan) * (loan.collateral - s.collateral - s.bonus) / CollateralUnit(loan);
    debtLeft == 0 || (0 < backingLeft && debtLeft * ONE_I < (Ltv(lib, loan).value + 1) * backingLeft)
  }

  /** Any seizure that is paid at the ledger, whatever becomes of it in the books. */
  lemma SeizurePassesIff(lib: Library, b: DB.Book, i: nat, loan: Loan, s: SeizureWithBonus, after: Loan)
    requires i < |b.positions| && Priced(loan) && Ltv(lib, loan).Ok? && DB.PayDebt(b, i, s).Ok?
    requires Worth(b.pool.price, b.positions[i].shares, RoundUp) == Ok(loan.borrowed)
    requires var (pool, shares, settled) := DB.PayDebt(b, i, s).value;
             && shares <= b.positions[i].shares
             && Worth(b.pool.price, b.positions[i].shares - shares, RoundUp) == Ok(after.borrowed)
             && after == loan.(borrowed := after.borrowed, collateral := after.collateral)
             && after.collateral == loan.collateral - settled.collateral - settled.bonus
    ensures SharesFor(b.pool.price, s.repay).Ok?
    ensures PassesTest(lib, loan, after) <==> WillPass(lib, loan, b.pool.price, b.positions[i].shares, s)
  {
    PaidSeizure(b, i, s, loan.borrowed);
    LoanPassesIff(lib, loan, b.pool.price, b.positions[i].shares, s, after);
  }

  /** A seizure that leaves debt was paid in full, so the last rescale left it alone. */
  lemma PaidSeizure(b: DB.Book, i: nat, s: SeizureWithBonus, debt: U64)
    requires i < |b.positions| && DB.PayDebt(b, i, s).Ok?
    requires Worth(b.pool.price, b.positions[i].shares, RoundUp) == Ok(debt)
    ensures SharesFor(b.pool.price, s.repay).Ok?
    ensures var (pool, shares, settled) := DB.PayDebt(b, i, s).value;
            var left := Left(b.pool.price, b.positions[i].shares, debt, s.repay);
            && shares <= b.positions[i].shares
            && 0 <= left <= debt && Worth(b.pool.price, b.positions[i].shares - shares, RoundUp) == Ok(left)
            && (left == 0 || settled == s)
  {
    LeftIs(b.pool, b.positions[i].shares, debt, s.repay);
  }

  lemma LoanPassesIff(lib: Library, loan: Loan, price: UFixed, owed: UFixed, s: SeizureWithBonus, after: Loan)
    requires Priced(loan) && Ltv(lib, loan).Ok? && SharesFor(price, s.repay).Ok? && Reduces(loan, after)
    requires after.borrowed == Left(price, owed, loan.borrowed, s.repay)
    requires after.borrowed == 0 || after.collateral == loan.collateral - s.collateral - s.bonus
    ensures PassesTest(lib, loan, after) <==> WillPass(lib, loan, price, owed, s)
  {
    PassesTestIff(lib, loan, after);
    if after.borrowed == 0 {
      NoValue(DebtPrice(loan), DebtUnit(loan));
    }
  }

  lemma NoValue(price: int, unit: int)
    requires 0 < unit
    ensures price * 0 / unit == 0
  {
  }

  // ---------------------------------------------------------------- in the market

  /** The loan that position i stands for, valued against `collateral`; it fails if its debt does not convert. */
  function LoanOf(b: DB.Book, i: nat, terms: Loan, collateral: U64): Result<Loan>
    requires i < |b.positions|
  {
    var debt :- Worth(b.pool.price, b.positions[i].shares, RoundUp);
    Ok(terms.(borrowed := debt, collateral := collateral))
  }

  /** The market's last check on position i, which stood for `loan` before. */
  predicate Accepts(lib: Library, loan: Loan, after: DB.Book, i: nat)
    requires Supported(loan) && i < |after.positions|
  {
    var left := LoanOf(after, i, loan, after.positions[i].collateral);
    left.Ok? && PassesTest(lib, loan, left.value)
  }

  /** For every book, position and seizure that settles: exactly when the market accepts it. */
  lemma LiquidationPassesIff(lib: Library, b: DB.Book, i: nat, loan: Loan, s: SeizureWithBonus)
    requires i < |b.positions| && LoanOf(b, i, loan, b.positions[i].collateral) == Ok(loan)
    requires Priced(loan) && Ltv(lib, loan).Ok? && DB.LiquidateStep(b, i, s).Ok?
    ensures SharesFor(b.pool.price, s.repay).Ok?
    ensures Accepts(lib, loan, DB.LiquidateStep(b, i, s).value, i) <==> WillPass(lib, loan, b.pool.price, b.positions[i].shares, s)
  {
    DB.LiquidateIs(b, i, s);
    DB.PayDebtIs(b, i, s);
    LeftIs(b.pool, b.positions[i].shares, loan.borrowed, s.repay);
    var after := DB.LiquidateStep(b, i, s).value;
    SeizurePassesIff(lib, b, i, loan, s, LoanOf(after, i, loan, after.positions[i].collateral).value);
  }

  /** The same for the settlement of a capital sweep, where the loan is valued against what was swept. */
  lemma SettlementPassesIff(lib: Library, b: DB.Book, i: nat, loan: Loan, s: SeizureWithBonus, maxReturn: U64)
    requires i < |b.positions| && LoanOf(b, i, loan, b.positions[i].swept) == Ok(loan)
    requires Priced(loan) && Ltv(lib, loan).Ok? && DB.SettleStep(b, i, s, maxReturn).Ok?
    ensures SharesFor(b.pool.price, s.repay).Ok?
    ensures Accepts(lib, loan, DB.SettleStep(b, i, s, maxReturn).value, i)
       <==> WillPass(lib, loan, b.pool.price, b.positions[i].shares, s)
  {
    DB.SettleIs(b, i, s, maxReturn);
    DB.PayDebtIs(b, i, s);
    LeftIs(b.pool, b.positions[i].shares, loan.borrowed, s.repay);
    var after := DB.SettleStep(b, i, s, maxReturn).value;
    SeizurePassesIff(lib, b, i, loan, s, LoanOf(after, i, loan, after.positions[i].collateral).value);
  }

  // ---------------------------------------------------------------- the whole operation

  /** The market's seizure: refused while the loan is healthy, everything once it is under water, else solved. */
  function MarketSeizure(lib: Library, loan: Loan, unhealthy: IFixed, target: IFixed, bonus: IFixed, maxRepay: U64): Result<SeizureWithBonus>
    requires Supported(loan)
  {
    var ltv :- Ltv(lib, loan);
    if ltv < unhealthy then Err(PositionIsHealthy)
    else if ONE_I <= ltv then Ok(CappedWithBonus(SeizureWithBonus(loan.borrowed, loan.collateral, 0), maxRepay))
    else SolveWithFee(lib, loan, target, bonus, maxRepay)
  }

  function MarketLiquidate(lib: Library, b: DB.Book, i: nat, terms: Loan, unhealthy: IFixed, target: IFixed, bonus: IFixed, maxRepay: U64): Result<DB.Book>
    requires i < |b.positions| && Supported(terms)
  {
    var _ :- DB.Inactive(b.positions[i]);
    var loan :- LoanOf(b, i, terms, b.positions[i].collateral);
    var before :- Ltv(lib, loan);
    var s :- MarketSeizure(lib, loan, unhealthy, target, bonus, maxRepay);
    SeizeAndTest(lib, b, i, terms, before, s)
  }

  /** Settles the seizure in the books and compares the ratio that remains with the one before. */
  function SeizeAndTest(lib: Library, b: DB.Book, i: nat, terms: Loan, before: IFixed, s: SeizureWithBonus): Result<DB.Book>
    requires i < |b.positions| && Supported(terms)
  {
    var settled :- DB.LiquidateStep(b, i, s);
    DB.LiquidateIs(b, i, s);
    var left :- LoanOf(settled, i, terms, settled.positions[i].collateral);
    var after :- Ltv(lib, left);
    if before < after then Err(InvalidLiquidationLtvShouldDecrease) else Ok(settled)
  }

  // ---------------------------------------------------------------- which loans, and how much of them

  /** The ratio is below `bound`, in the two values and without a division. */
  ghost predicate IsBelow(loan: Loan, bound: int) {
    if DebtValue(loan) == 0 then 0 < bound else DebtValue(loan) * ONE_I < bound * BackingValue(loan)
  }

  lemma RatioIsBelow(lib: Library, loan: Loan, bound: IFixed)
    requires Priced(loan) && Ltv(lib, loan).Ok?
    ensures Ltv(lib, loan).value < bound <==> IsBelow(loan, bound)
    ensures 0 < DebtValue(loan) ==> 0 < BackingValue(loan)
  {
    ValuesFit(lib, loan);
    LtvIs(lib, loan);
    if 0 < DebtValue(loan) {
      RatioTest(DebtValue(loan), BackingValue(loan), bound - 1);
    }
  }

  /**
   The seizure by the values of debt and backing: none from a loan below the threshold; from one
   worth no more than its debt everything, scaled to the limit and without bonus; else the
   solver's answer.
   */
  lemma MarketSeizureIs(lib: Library, loan: Loan, unhealthy: IFixed, target: IFixed, bonus: IFixed, maxRepay: U64)
    requires Priced(loan) && Ltv(lib, loan).Ok?
    ensures var s := MarketSeizure(lib, loan, unhealthy, target, bonus, maxRepay);
            && (IsBelow(loan, unhealthy) ==> s == Err(PositionIsHealthy))
            && (!IsBelow(loan, unhealthy) && 0 < DebtValue(loan) && BackingValue(loan) <= DebtValue(loan) ==>
                  s.Ok? && Rescaled(SeizureWithBonus(loan.borrowed, loan.collateral, 0), s.value, maxRepay))
            && (!IsBelow(loan, unhealthy) && (DebtValue(loan) == 0 || DebtValue(loan) < BackingValue(loan)) ==>
                  s == SolveWithFee(lib, loan, target, bonus, maxRepay))
  {
    RatioIsBelow(lib, loan, unhealthy);
    RatioIsBelow(lib, loan, ONE_I);
    CappedWithBonusIs(SeizureWithBonus(loan.borrowed, loan.collateral, 0), maxRepay);
  }

  /** Refused because the position is healthy. */
  ghost predicate BlamesHealth<T>(r: Result<T>) {
    r == Err(PositionIsHealthy)
  }

  lemma SolverBlamesNoHealth(lib: Library, loan: Loan, collateral: U64, ltv: IFixed)
    requires Supported(loan)
    ensures !BlamesHealth(Solve(lib, loan, collateral, ltv))
  {
    ValueBlamesNoHealth(lib, loan, collateral, ltv);
  }

  lemma ValueBlamesNoHealth(lib: Library, loan: Loan, collateral: U64, ltv: IFixed)
    requires Supported(loan)
    ensures !BlamesHealth(SolvedValue(lib, loan, collateral, ltv))
  {
  }

  lemma SeizureBlamesNoHealth(lib: Library, loan: Loan, ltv: IFixed, fee: IFixed, maxRepay: U64)
    requires Supported(loan)
    ensures !BlamesHealth(SolveWithFee(lib, loan, ltv, fee, maxRepay))
  {
    if Adjusted(lib, loan, ltv, fee).Ok? {
      var (collateral, adjustedLtv) := Adjusted(lib, loan, ltv, fee).value;
      SolverBlamesNoHealth(lib, loan, collateral, adjustedLtv);
    }
  }

  lemma BooksBlameNoHealth(b: DB.Book, i: nat, s: SeizureWithBonus)
    requires i < |b.positions|
    ensures !BlamesHealth(DB.LiquidateStep(b, i, s))
  {
  }

  lemma RatioBlamesNoHealth(lib: Library, loan: Loan)
    requires Supported(loan)
    ensures !BlamesHealth(Ltv(lib, loan))
  {
  }

  lemma TestBlamesNoHealth(lib: Library, b: DB.Book, i: nat, terms: Loan, before: IFixed, s: SeizureWithBonus)
    requires i < |b.positions| && Supported(terms)
    ensures !BlamesHealth(SeizeAndTest(lib, b, i, terms, before, s))
  {
    BooksBlameNoHealth(b, i, s);
    if DB.LiquidateStep(b, i, s).Ok? {
      DB.LiquidateIs(b, i, s);
      var settled := DB.LiquidateStep(b, i, s).value;
      var left := LoanOf(settled, i, terms, settled.positions[i].collateral);
      if left.Ok? {
        RatioBlamesNoHealth(lib, left.value);
      }
    }
  }

  /** For a position that is not being swept: the market refuses it as healthy exactly if its ratio is below the threshold. */
  lemma MarketRefusesIff(lib: Library, b: DB.Book, i: nat, loan: Loan, unhealthy: IFixed, target: IFixed, bonus: IFixed, maxRepay: U64)
    requires i < |b.positions| && !BP.SweepPending(b.positions[i]) && LoanOf(b, i, loan, b.positions[i].collateral) == Ok(loan)
    requires Priced(loan) && Ltv(lib, loan).Ok?
    ensures BlamesHealth(MarketLiquidate(lib, b, i, loan, unhealthy, target, bonus, maxRepay)) <==> IsBelow(loan, unhealthy)
  {
    var s := MarketSeizure(lib, loan, unhealthy, target, bonus, maxRepay);
    SeizureRefusedIff(lib, loan, unhealthy, target, bonus, maxRepay);
    MarketLiquidateIs(lib, b, i, loan, unhealthy, target, bonus, maxRepay, s);
    if s.Ok? {
      TestBlamesNoHealth(lib, b, i, loan, Ltv(lib, loan).value, s.value);
    }
  }

  lemma SeizureRefusedIff(lib: Library, loan: Loan, unhealthy: IFixed, target: IFixed, bonus: IFixed, maxRepay: U64)
    requires Priced(loan) && Ltv(lib, loan).Ok?
    ensures BlamesHealth(MarketSeizure(lib, loan, unhealthy, target, bonus, maxRepay)) <==> IsBelow(loan, unhealthy)
  {
    RatioIsBelow(lib, loan, unhealthy);
    SeizureRefusedAt(lib, loan, unhealthy, target, bonus, maxRepay);
  }

  lemma SeizureRefusedAt(lib: Library, loan: Loan, unhealthy: IFixed, target: IFixed, bonus: IFixed, maxRepay: U64)
    requires Supported(loan) && Ltv(lib, loan).Ok?
    ensures BlamesHealth(MarketSeizure(lib, loan, unhealthy, target, bonus, maxRepay)) <==> Ltv(lib, loan).value < unhealthy
  {
    SeizureBlamesNoHealth(lib, loan, target, bonus, maxRepay);
  }

  lemma MarketLiquidateIs(lib: Library, b: DB.Book, i: nat, loan: Loan, unhealthy: IFixed, target: IFixed, bonus: IFixed, maxRepay: U64,
                          s: Result<SeizureWithBonus>)
    requires i < |b.positions| && !BP.SweepPending(b.positions[i]) && LoanOf(b, i, loan, b.positions[i].collateral) == Ok(loan)
    requires Supported(loan) && Ltv(lib, loan).Ok? && s == MarketSeizure(lib, loan, unhealthy, target, bonus, maxRepay)
    ensures MarketLiquidate(lib, b, i, loan, unhealthy, target, bonus, maxRepay)
         == if s.Ok? then SeizeAndTest(lib, b, i, loan, Ltv(lib, loan).value, s.value) else Err(s.error)
  {
  }

  lemma SeizureFits(lib: Library, loan: Loan, unhealthy: IFixed, target: IFixed, bonus: IFixed, maxRepay: U64)
    requires Priced(loan) && 0 <= bonus && MarketSeizure(lib, loan, unhealthy, target, bonus, maxRepay).Ok?
    ensures var s := MarketSeizure(lib, loan, unhealthy, target, bonus, maxRepay).value;
            s.collateral + s.bonus <= loan.collateral && s.repay <= loan.borrowed && s.repay <= maxRepay
  {
    if Ltv(lib, loan).value < ONE_I {
      SeizureIsPaidFor(lib, loan, target, bonus, maxRepay);
    }
  }

  /**
   What a liquidation leaves: the debt known before the call, the collateral minus the seizure,
   which is cut only if all of the debt went, the vault minus the same, and everything else as
   it was.
   */
  ghost predicate LeavesLoan(b: DB.Book, i: nat, loan: Loan, s: SeizureWithBonus, after: DB.Book)
    requires i < |b.positions|
  {
    && |after.positions| == |b.positions|
    && after == DB.Put(b, i, after.positions[i]).(pool := after.pool, vault := after.vault)
    && after.pool.price == b.pool.price
    && b.pool.shares - after.pool.shares == b.positions[i].shares - after.positions[i].shares
    && b.vault - after.vault == b.positions[i].collateral - after.positions[i].collateral
    && SharesFor(b.pool.price, s.repay).Ok?
    && var left := Left(b.pool.price, b.positions[i].shares, loan.borrowed, s.repay);
    && Worth(after.pool.price, after.positions[i].shares, RoundUp).Ok?
    && Worth(after.pool.price, after.positions[i].shares, RoundUp).value == left
    && (exists r: SeizureWithBonus ::
          && after.positions[i].collateral == loan.collateral - r.collateral - r.bonus
          && Rescaled(s, r, r.repay) && r.repay <= s.repay && (left == 0 || r == s))
  }

  /**
   Exactly when a liquidation goes through, in every market run at rates that are not negative:
   no sweep is open, the loan has a ratio, it yields a seizure, and the seizure will pass the
   last test. Nothing in between can fail, and each condition is known before the call.
   */
  lemma MarketLiquidatesIff(lib: Library, ops: seq<DB.Op>, i: nat, loan: Loan, unhealthy: IFixed, target: IFixed, bonus: IFixed, maxRepay: U64)
    requires forall k :: 0 <= k < |ops| ==> DB.RateIsNotNegative(ops[k])
    requires var b := DB.Run(lib, DB.EMPTY_BOOK, ops);
             i < |b.positions| && LoanOf(b, i, loan, b.positions[i].collateral) == Ok(loan)
    requires Priced(loan) && 0 <= bonus
    ensures var b := DB.Run(lib, DB.EMPTY_BOOK, ops);
            var s := MarketSeizure(lib, loan, unhealthy, target, bonus, maxRepay);
            MarketLiquidate(lib, b, i, loan, unhealthy, target, bonus, maxRepay).Ok? <==>
              && !BP.SweepPending(b.positions[i]) && Ltv(lib, loan).Ok? && s.Ok?
              && SharesFor(b.pool.price, s.value.repay).Ok?
              && WillPass(lib, loan, b.pool.price, b.positions[i].shares, s.value)
    ensures var s := MarketSeizure(lib, loan, unhealthy, target, bonus, maxRepay);
            s.Ok? ==> SharesFor(DB.Run(lib, DB.EMPTY_BOOK, ops).pool.price, s.value.repay).Ok?
    ensures var b := DB.Run(lib, DB.EMPTY_BOOK, ops);
            var r := MarketLiquidate(lib, b, i, loan, unhealthy, target, bonus, maxRepay);
            r.Ok? ==> LeavesLoan(b, i, loan, MarketSeizure(lib, loan, unhealthy, target, bonus, maxRepay).value, r.value)
  {
    var b := DB.Run(lib, DB.EMPTY_BOOK, ops);
    DB.EveryMarketBalances(lib, ops);
    DB.EveryRunKeepsPrice(lib, DB.EMPTY_BOOK, ops);
    BookLiquidatesIff(lib, b, i, loan, unhealthy, target, bonus, maxRepay);
  }

  lemma BookLiquidatesIff(lib: Library, b: DB.Book, i: nat, loan: Loan, unhealthy: IFixed, target: IFixed, bonus: IFixed, maxRepay: U64)
    requires DB.Balanced(b) && ONE_U <= b.pool.price
    requires i < |b.positions| && LoanOf(b, i, loan, b.positions[i].collateral) == Ok(loan)
    requires Priced(loan) && 0 <= bonus
    ensures var s := MarketSeizure(lib, loan, unhealthy, target, bonus, maxRepay);
            && (s.Ok? ==> SharesFor(b.pool.price, s.value.repay).Ok?)
            && (MarketLiquidate(lib, b, i, loan, unhealthy, target, bonus, maxRepay).Ok? <==>
                  && !BP.SweepPending(b.positions[i]) && Ltv(lib, loan).Ok? && s.Ok?
                  && WillPass(lib, loan, b.pool.price, b.positions[i].shares, s.value))
    ensures var r := MarketLiquidate(lib, b, i, loan, unhealthy, target, bonus, maxRepay);
            r.Ok? ==> LeavesLoan(b, i, loan, MarketSeizure(lib, loan, unhealthy, target, bonus, maxRepay).value, r.value)
  {
    var s := MarketSeizure(lib, loan, unhealthy, target, bonus, maxRepay);
    if s.Ok? && !BP.SweepPending(b.positions[i]) {
      SeizureFits(lib, loan, unhealthy, target, bonus, maxRepay);
      DB.LiquidationAlwaysSettles(b, i, s.value);
      MarketLiquidateIs(lib, b, i, loan, unhealthy, target, bonus, maxRepay, s);
      LiquidationPassesIff(lib, b, i, loan, s.value);
      LiquidationLeaves(b, i, loan, s.value);
    }
  }

  lemma LiquidationLeaves(b: DB.Book, i: nat, loan: Loan, s: SeizureWithBonus)
    requires i < |b.positions| && LoanOf(b, i, loan, b.positions[i].collateral) == Ok(loan) && DB.LiquidateStep(b, i, s).Ok?
    ensures LeavesLoan(b, i, loan, s, DB.LiquidateStep(b, i, s).value)
  {
    DB.LiquidateIs(b, i, s);
    DB.PayDebtIs(b, i, s);
    PaidSeizure(b, i, s, loan.borrowed);
  }

  /** Under water the whole collateral goes for the whole debt, which passes exactly if no debt of value is left. */
  lemma WholeSeizurePassesIff(lib: Library, loan: Loan, price: UFixed, owed: UFixed)
    requires Priced(loan) && Ltv(lib, loan).Ok? && SharesFor(price, loan.borrowed).Ok?
    ensures WillPass(lib, loan, price, owed, SeizureWithBonus(loan.borrowed, loan.collateral, 0)) <==>
              DebtPrice(loan) * Left(price, owed, loan.borrowed, loan.borrowed) / DebtUnit(loan) == 0
  {
    NoValue(CollateralPrice(loan), CollateralUnit(loan));
  }

  /**
   A solved liquidation of a solvent loan always passes if its repayment leaves the margin,
   although the debt that remains is rounded up afresh.
   */
  lemma SolvedLiquidationPasses(lib: Library, b: DB.Book, i: nat, loan: Loan, ltv: IFixed, fee: IFixed, maxRepay: U64)
    requires DB.Balanced(b) && i < |b.positions| && !BP.SweepPending(b.positions[i])
    requires LoanOf(b, i, loan, b.positions[i].collateral) == Ok(loan) && loan.borrowed < U64_MAX
    requires Priced(loan) && 0 <= fee && SolveWithFee(lib, loan, ltv, fee, maxRepay).Ok?
    requires SharesFor(b.pool.price, SolveWithFee(lib, loan, ltv, fee, maxRepay).value.repay).Ok?
    requires Ltv(lib, loan).Ok? && SolventWithBonus(loan, fee)
    requires HasMargin(loan, SolveWithFee(lib, loan, ltv, fee, maxRepay).value.repay, fee,
                       Slack(Uncapped(lib, loan, ltv, fee).value.repay))
    ensures var s := SolveWithFee(lib, loan, ltv, fee, maxRepay).value;
            DB.LiquidateStep(b, i, s).Ok? && |DB.LiquidateStep(b, i, s).value.positions| == |b.positions|
            && Accepts(lib, loan, DB.LiquidateStep(b, i, s).value, i)
  {
    DB.SolvedLiquidationSettles(lib, b, i, loan, ltv, fee, maxRepay);
    var s := SolveWithFee(lib, loan, ltv, fee, maxRepay).value;
    MarginAccepts(lib, b, i, loan, s, fee, Slack(Uncapped(lib, loan, ltv, fee).value.repay));
  }

  lemma MarginAccepts(lib: Library, b: DB.Book, i: nat, loan: Loan, s: SeizureWithBonus, fee: int, slack: int)
    requires i < |b.positions| && LoanOf(b, i, loan, b.positions[i].collateral) == Ok(loan) && loan.borrowed < U64_MAX
    requires Priced(loan) && Ltv(lib, loan).Ok? && 0 <= fee && 0 < slack
    requires SolventWithBonus(loan, fee) && HasMargin(loan, s.repay, fee, slack)
    requires DB.LiquidateStep(b, i, s).Ok? && DB.PayDebt(b, i, s).Ok?
    requires PaidForWithBonus(loan, DB.PayDebt(b, i, s).value.2, fee, slack)
    ensures |DB.LiquidateStep(b, i, s).value.positions| == |b.positions|
    ensures Accepts(lib, loan, DB.LiquidateStep(b, i, s).value, i)
  {
    var settled, step := DB.PayDebt(b, i, s).value.2, DB.LiquidateStep(b, i, s).value;
    DB.LiquidateIs(b, i, s);
    DB.PayDebtIs(b, i, s);
    PaidSeizure(b, i, s, loan.borrowed);
    var after := LoanOf(step, i, loan, step.positions[i].collateral).value;
    if after.borrowed == 0 {
      PassesTestIff(lib, loan, after);
      NoValue(DebtPrice(loan), DebtUnit(loan));
    } else {
      DebtThatRemains(b.pool, b.positions[i].shares, loan.borrowed, s.repay);
      MarginPasses(lib, loan, after, s, fee, slack);
    }
  }

  // ---------------------------------------------------------------- a liquidation that does not pass

  /** Two atoms borrowed and grown to three, against ten atoms worth half as much each. */
  const BOOK: DB.Book := DB.Book(Pool(2 * ONE_U, ONE_U + ONE_U / 2), [BP.Position(10, 2, 2 * ONE_U, 0)], 10)
  const SMALL_LOAN: Loan := Loan(3, 0, OracleRate(ONE_I, 0), 10, 0, OracleRate(ONE_I / 2, 0))
  const SMALL_SEIZURE: SeizureWithBonus := SeizureWithBonus(1, 1, 0)

  lemma SmallAdjustment(lib: Library)
    ensures Adjusted(lib, SMALL_LOAN, ONE_I / 2, ONE_I / 16) == Ok((9, ONE_I / 32 * 17))
  {
    ProductIs(lib, ONE_I / 2, ONE_I / 16 * 17, ONE_I / 32 * 17);
    RatioIs(lib, IFromInt(10), ONE_I / 16 * 17, 2649176251394409);
  }

  lemma SmallValue(lib: Library)
    ensures SolvedValue(lib, SMALL_LOAN, 9, ONE_I / 32 * 17) == Ok(365917469723852)
  {
    assert Pow10(0) == 1;
    AtomsToValueIs(lib, ONE_I, 3, 0);
    AtomsToValueIs(lib, ONE_I / 2, 9, 0);
    ProductIs(lib, ONE_I / 2 * 9, ONE_I / 32 * 17, ONE_I / 64 * 153);
    RatioIs(lib, ONE_I / 64 * 39, ONE_I / 32 * 15, 365917469723852);
  }

  lemma SmallAtoms(lib: Library)
    ensures Solve(lib, SMALL_LOAN, 9, ONE_I / 32 * 17) == Ok(Seizure(2, 2))
  {
    assert Pow10(0) == 1;
    SmallValue(lib);
    ScaledIs(lib, 365917469723852, 0);
    RatioIs(lib, 365917469723852, ONE_I / 2, 731834939447704);
    RatioIs(lib, 365917469723852, ONE_I, 365917469723852);
  }

  lemma SmallSolution(lib: Library)
    ensures SolveWithFee(lib, SMALL_LOAN, ONE_I / 2, ONE_I / 16, 1) == Ok(SMALL_SEIZURE)
  {
    SmallAdjustment(lib);
    SmallAtoms(lib);
    assert Capped(Seizure(2, 2), 1) == Seizure(1, 1);
    ProductIs(lib, IFromInt(1), ONE_I / 16, ONE_I / 16);
  }

  lemma SmallPayment()
    ensures DB.PayDebt(BOOK, 0, SMALL_SEIZURE) == Ok((Pool(2 * ONE_U - BOUGHT, BOOK.pool.price), BOUGHT, SMALL_SEIZURE))
  {
    OneAtomBuys();
    assert WithdrawCapped(BOOK.pool, 1, 2 * ONE_U, RoundUp) == Outcome(Pool(2 * ONE_U - BOUGHT, BOOK.pool.price), Ok((1, BOUGHT)));
  }

  lemma SmallStep()
    ensures DB.LiquidateStep(BOOK, 0, SMALL_SEIZURE).Ok?
    ensures var after := DB.LiquidateStep(BOOK, 0, SMALL_SEIZURE).value;
            |after.positions| == 1 && LoanOf(after, 0, SMALL_LOAN, after.positions[0].collateral) == Ok(SMALL_LOAN.(collateral := 9))
  {
    SmallPayment();
    DB.LiquidateIs(BOOK, 0, SMALL_SEIZURE);
    RoundedUp(BOOK.pool.price, 2 * ONE_U - BOUGHT, 3);
  }

  const SMALL_RUN: seq<DB.Op> :=
    [DB.OpenPosition, DB.DepositCollateral(0, 10), DB.BorrowAtoms(0, 2), DB.ChargeInterest(ONE_I / 2)]

  /** The book comes about: one position, ten atoms of collateral, two borrowed, half as much again in interest. */
  lemma SmallBookIsReached(lib: Library)
    ensures DB.Run(lib, DB.EMPTY_BOOK, SMALL_RUN) == BOOK
  {
    var b1 := DB.Book(EMPTY, [BP.NEW_POSITION], 0);
    var b2 := DB.Book(EMPTY, [BP.Position(10, 0, 0, 0)], 10);
    var b3 := DB.Book(Pool(2 * ONE_U, ONE_U), [BP.Position(10, 2, 2 * ONE_U, 0)], 10);
    assert DB.Step(lib, DB.EMPTY_BOOK, DB.OpenPosition) == b1;
    assert DB.Step(lib, b1, DB.DepositCollateral(0, 10)) == b2;
    SmallBorrow(lib, b2, b3);
    SmallCharge(lib, b3);
    RunMore(lib, DB.EMPTY_BOOK, DB.OpenPosition, SMALL_RUN[1..]);
    RunMore(lib, b1, DB.DepositCollateral(0, 10), SMALL_RUN[2..]);
    RunMore(lib, b2, DB.BorrowAtoms(0, 2), SMALL_RUN[3..]);
    RunMore(lib, b3, DB.ChargeInterest(ONE_I / 2), SMALL_RUN[4..]);
    assert [DB.OpenPosition] + SMALL_RUN[1..] == SMALL_RUN;
    assert [DB.DepositCollateral(0, 10)] + SMALL_RUN[2..] == SMALL_RUN[1..];
    assert [DB.BorrowAtoms(0, 2)] + SMALL_RUN[3..] == SMALL_RUN[2..];
    assert [DB.ChargeInterest(ONE_I / 2)] + SMALL_RUN[4..] == SMALL_RUN[3..];
  }

  lemma RunMore(lib: Library, b: DB.Book, op: DB.Op, rest: seq<DB.Op>)
    ensures DB.Run(lib, b, [op] + rest) == DB.Run(lib, DB.Step(lib, b, op), rest)
    ensures rest == [] ==> DB.Run(lib, b, [op] + rest) == DB.Step(lib, b, op)
  {
    assert ([op] + rest)[1..] == rest;
  }

  lemma SmallCharge(lib: Library, before: DB.Book)
    requires before == DB.Book(Pool(2 * ONE_U, ONE_U), [BP.Position(10, 2, 2 * ONE_U, 0)], 10)
    ensures DB.Step(lib, before, DB.ChargeInterest(ONE_I / 2)) == BOOK
  {
    ProductIs(lib, ONE_I / 2, ONE_I, ONE_I / 2);
  }

  lemma SmallBorrow(lib: Library, before: DB.Book, after: DB.Book)
    requires before == DB.Book(EMPTY, [BP.Position(10, 0, 0, 0)], 10)
    requires after == DB.Book(Pool(2 * ONE_U, ONE_U), [BP.Position(10, 2, 2 * ONE_U, 0)], 10)
    ensures DB.Step(lib, before, DB.BorrowAtoms(0, 2)) == after
  {
    DivIs(2 * TWO128, ONE_U, 2 * ONE_U);
    assert Deposit(EMPTY, 2) == Outcome(Pool(2 * ONE_U, ONE_U), Ok(2 * ONE_U));
  }

  lemma SmallRatios(lib: Library)
    ensures Ltv(lib, SMALL_LOAN) == Ok(168884986026393) && Ltv(lib, SMALL_LOAN.(collateral := 9)) == Ok(187649984473770)
  {
    assert Pow10(0) == 1;
    AtomsToValueIs(lib, ONE_I, 3, 0);
    AtomsToValueIs(lib, ONE_I / 2, 10, 0);
    AtomsToValueIs(lib, ONE_I / 2, 9, 0);
    RatioIs(lib, 3 * ONE_I, 5 * ONE_I, 168884986026393);
    RatioIs(lib, 3 * ONE_I, ONE_I / 2 * 9, 187649984473770);
  }

  /**
   Without the margin it need not pass: in a market that four operations lead to, a solvent loan
   at a ratio of 3/5, liquidated for a single atom, still owes three atoms after the rounding
   and has lost collateral.
   */
  lemma SmallLiquidationFails(lib: Library)
    ensures DB.Run(lib, DB.EMPTY_BOOK, SMALL_RUN) == BOOK && LoanOf(BOOK, 0, SMALL_LOAN, 10) == Ok(SMALL_LOAN)
    ensures Priced(SMALL_LOAN) && SolventWithBonus(SMALL_LOAN, ONE_I / 16)
    ensures MarketSeizure(lib, SMALL_LOAN, ONE_I / 2, ONE_I / 2, ONE_I / 16, 1) == Ok(SMALL_SEIZURE)
    ensures DB.LiquidateStep(BOOK, 0, SMALL_SEIZURE).Ok?
    ensures MarketLiquidate(lib, BOOK, 0, SMALL_LOAN, ONE_I / 2, ONE_I / 2, ONE_I / 16, 1) == Err(InvalidLiquidationLtvShouldDecrease)
  {
    SmallBookIsReached(lib);
    SmallLoanIs();
    SmallLoanIsSolvent();
    SmallMarketSeizure(lib);
    SmallStep();
    SmallRefusal(lib);
  }

  lemma SmallLoanIs()
    ensures LoanOf(BOOK, 0, SMALL_LOAN, 10) == Ok(SMALL_LOAN)
  {
    RoundedUp(BOOK.pool.price, 2 * ONE_U, 3);
  }

  lemma SmallMarketSeizure(lib: Library)
    ensures MarketSeizure(lib, SMALL_LOAN, ONE_I / 2, ONE_I / 2, ONE_I / 16, 1) == Ok(SMALL_SEIZURE)
  {
    SmallRatios(lib);
    SmallSolution(lib);
  }

  lemma SmallRefusal(lib: Library)
    ensures MarketLiquidate(lib, BOOK, 0, SMALL_LOAN, ONE_I / 2, ONE_I / 2, ONE_I / 16, 1) == Err(InvalidLiquidationLtvShouldDecrease)
  {
    SmallLoanIs();
    SmallRatios(lib);
    SmallMarketSeizure(lib);
    SmallStep();
  }

  lemma SmallLoanIsSolvent()
    ensures Priced(SMALL_LOAN) && SolventWithBonus(SMALL_LOAN, ONE_I / 16)
  {
    assert Pow10(0) == 1;
  }
}
