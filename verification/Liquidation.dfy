/** How much debt a liquidation repays and how much collateral it takes for it. */
module Liquidation {
  import opened Arithmetic
  import opened FixedPoint
  import opened OraclePrice

  datatype Seizure = Seizure(repay: U64, collateral: U64)
  datatype SeizureWithBonus = SeizureWithBonus(repay: U64, collateral: U64, bonus: U64)

  /** The position to liquidate and the prices it is valued at. */
  datatype Loan = Loan(borrowed: U64, borrowDecimals: nat, supplyOracle: OracleRate,
                       collateral: U64, collateralDecimals: nat, collateralOracle: OracleRate)

  predicate Supported(loan: Loan) {
    loan.borrowDecimals <= MAX_DECIMALS && loan.collateralDecimals <= MAX_DECIMALS
  }

  // ---------------------------------------------------------------- specification

  /** `amount` scaled by `cap / repay`, rounded down. */
  function Scaled(amount: U64, cap: U64, repay: U64): (scaled: U64)
    requires cap < repay
    ensures scaled <= amount && scaled * repay <= amount * cap < scaled * repay + repay
  {
    MulMono(cap, repay, amount, amount);
    DivAtMost(amount * cap, repay, amount);
    DivBounds(amount * cap, repay);
    amount * cap / repay
  }

  function Capped(s: Seizure, cap: U64): Seizure {
    if s.repay <= cap then s else Seizure(cap, Scaled(s.collateral, cap, s.repay))
  }

  function CappedWithBonus(s: SeizureWithBonus, cap: U64): SeizureWithBonus {
    if s.repay <= cap then s
    else SeizureWithBonus(cap, Scaled(s.collateral, cap, s.repay), Scaled(s.bonus, cap, s.repay))
  }

  /** The value whose transfer from collateral to debt brings the loan to `ltv`. */
  function SolvedValue(lib: Library, loan: Loan, collateral: U64, ltv: IFixed): Result<IFixed>
    requires Supported(loan)
  {
    var debt :- BorrowValue(lib, loan.supplyOracle, loan.borrowed, loan.borrowDecimals);
    var backing :- CollateralValue(lib, loan.collateralOracle, collateral, loan.collateralDecimals);
    var allowed :- IMul(lib, backing, ltv);
    var excess :- ISub(debt, allowed);
    var share :- ISub(ONE_I, ltv);
    IDiv(lib, excess, share)
  }

  function Solve(lib: Library, loan: Loan, collateral: U64, ltv: IFixed): Result<Seizure>
    requires Supported(loan)
  {
    var value :- SolvedValue(lib, loan, collateral, ltv);
    var collateralBits :- CollateralAtoms(lib, loan.collateralOracle, value, loan.collateralDecimals);
    var repayBits :- BorrowAtoms(lib, loan.supplyOracle, value, loan.borrowDecimals);
    var seized :- IRoundDown(collateralBits);
    var repay :- IRoundUp(repayBits);
    Ok(Seizure(repay, seized))
  }

  /** The target and the collateral as the solver sees them once the bonus is priced in. */
  function Adjusted(lib: Library, loan: Loan, ltv: IFixed, fee: IFixed): Result<(U64, IFixed)> {
    var onePlusFee :- IAdd(ONE_I, fee);
    var adjustedLtv :- IMul(lib, ltv, onePlusFee);
    var adjustedBits :- IDiv(lib, IFromInt(loan.collateral), onePlusFee);
    var adjustedCollateral :- IRoundDown(adjustedBits);
    Ok((adjustedCollateral, adjustedLtv))
  }

  /** The solver's answer before the caller's limit on repayment is applied. */
  function Uncapped(lib: Library, loan: Loan, ltv: IFixed, fee: IFixed): Result<Seizure>
    requires Supported(loan)
  {
    var adjusted :- Adjusted(lib, loan, ltv, fee);
    Solve(lib, loan, adjusted.0, adjusted.1)
  }

  /** The bonus on seized collateral, clamped so that no more than all of the collateral goes. */
  function WithBonus(lib: Library, s: Seizure, collateral: U64, fee: IFixed): Result<SeizureWithBonus> {
    var bonusBits :- IMul(lib, IFromInt(s.collateral), fee);
    var bonus :- IRoundDown(bonusBits);
    var total :- Add64(s.collateral, bonus);
    if total <= collateral then Ok(SeizureWithBonus(s.repay, s.collateral, bonus))
    else
      var clamped :- Sub64(collateral, s.collateral);
      Ok(SeizureWithBonus(s.repay, s.collateral, clamped))
  }

  function SolveWithFee(lib: Library, loan: Loan, ltv: IFixed, fee: IFixed, maxRepay: U64): Result<SeizureWithBonus>
    requires Supported(loan)
  {
    var uncapped :- Uncapped(lib, loan, ltv, fee);
    WithBonus(lib, Capped(uncapped, Min(maxRepay, loan.borrowed)), loan.collateral, fee)
  }

  // ---------------------------------------------------------------- the records and the computation

  class LiquidationResult {
    var repay: U64
    var collateral: U64

    constructor (repay: U64, collateral: U64)
      ensures View() == Seizure(repay, collateral)
    {
      this.repay, this.collateral := repay, collateral;
    }

    function View(): Seizure
      reads this
    {
      Seizure(repay, collateral)
    }

    method AdjustForMaxRepay(maxRepay: U64)
      modifies this
      ensures View() == Capped(old(View()), maxRepay)
      ensures repay <= maxRepay
    {
      if maxRepay < repay {
        collateral := Scaled(collateral, maxRepay, repay);
        repay := maxRepay;
      }
    }
  }

  class LiquidationResultWithBonus {
    var repay: U64
    var collateral: U64
    var bonus: U64

    constructor (repay: U64, collateral: U64, bonus: U64)
      ensures View() == SeizureWithBonus(repay, collateral, bonus)
    {
      this.repay, this.collateral, this.bonus := repay, collateral, bonus;
    }

    function View(): SeizureWithBonus
      reads this
    {
      SeizureWithBonus(repay, collateral, bonus)
    }

    method AdjustForMaxRepay(maxRepay: U64)
      modifies this
      ensures View() == CappedWithBonus(old(View()), maxRepay)
      ensures repay <= maxRepay
    {
      if maxRepay < repay {
        collateral := Scaled(collateral, maxRepay, repay);
        bonus := Scaled(bonus, maxRepay, repay);
        repay := maxRepay;
      }
    }

    method TotalCollateralAtomsToLiquidate() returns (r: Result<U64>)
      ensures r.Ok? <==> collateral + bonus <= U64_MAX
      ensures r.Ok? ==> r.value == collateral + bonus
    {
      r := Add64(collateral, bonus);
    }
  }

  method ComputeLiquidationWithFee(lib: Library, loan: Loan, ltv: IFixed, fee: IFixed, maxRepay: U64)
    returns (r: Result<SeizureWithBonus>)
    requires Supported(loan)
    ensures r == SolveWithFee(lib, loan, ltv, fee, maxRepay)
  {
    var onePlusFee :- IAdd(ONE_I, fee);
    var adjustedLtv :- IMul(lib, ltv, onePlusFee);
    var adjustedBits :- IDiv(lib, IFromInt(loan.collateral), onePlusFee);
    var adjustedCollateral :- IRoundDown(adjustedBits);
    var solved :- Solve(lib, loan, adjustedCollateral, adjustedLtv);
    var result := new LiquidationResult(solved.repay, solved.collateral);
    result.AdjustForMaxRepay(Min(maxRepay, loan.borrowed));
    var bonusBits :- IMul(lib, IFromInt(result.collateral), fee);
    var bonus :- IRoundDown(bonusBits);
    var total :- Add64(result.collateral, bonus);
    if loan.collateral < total {
      bonus :- Sub64(loan.collateral, result.collateral);
    }
    r := Ok(SeizureWithBonus(result.repay, result.collateral, bonus));
  }
}
