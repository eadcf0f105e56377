/** Where a liquidation leaves the loan: at its target ratio, from both sides. */
module TargetLtv {
  import opened Arithmetic
  import opened FixedPoint
  import opened OraclePrice
  import opened Liquidation
  import opened LiquidationTheorems
  import PoolTheorems

  /** The intermediate quantities of the solver for a target between 0 and 1, with their truncation bounds. */
  ghost predicate Chain(loan: Loan, collateral: int, ltv: int, debt: int, backing: int, allowed: int, value: int) {
    var u, l, debtUnit, unit := DebtPrice(loan), CollateralPrice(loan), DebtUnit(loan), CollateralUnit(loan);
    && debt * debtUnit <= u * loan.borrowed < debt * debtUnit + debtUnit
    && backing * unit <= l * collateral < backing * unit + unit
    && allowed * ONE_I <= backing * ltv < allowed * ONE_I + ONE_I
    && (debt < allowed <==> value < 0)
    && (allowed <= debt ==>
          value * (ONE_I - ltv) <= (debt - allowed) * ONE_I < value * (ONE_I - ltv) + (ONE_I - ltv))
  }

  lemma SolverChain(lib: Library, loan: Loan, collateral: U64, ltv: IFixed)
    returns (debt: int, backing: int, allowed: int)
    requires Priced(loan) && 0 <= ltv < ONE_I && SolvedValue(lib, loan, collateral, ltv).Ok?
    ensures Chain(loan, collateral, ltv, debt, backing, allowed, SolvedValue(lib, loan, collateral, ltv).value)
    ensures BorrowValue(lib, loan.supplyOracle, loan.borrowed, loan.borrowDecimals) == Ok(debt)
    ensures CollateralValue(lib, loan.collateralOracle, collateral, loan.collateralDecimals) == Ok(backing)
  {
    ValidBounds(loan.collateralOracle);
    var u: IFixed := UpperBound(loan.supplyOracle).value;
    var l: IFixed := LowerBound(loan.collateralOracle).value;
    AtomsToValueIs(lib, u, loan.borrowed, loan.borrowDecimals);
    AtomsToValueIs(lib, l, collateral, loan.collateralDecimals);
    debt := BorrowValue(lib, loan.supplyOracle, loan.borrowed, loan.borrowDecimals).value;
    backing := CollateralValue(lib, loan.collateralOracle, collateral, loan.collateralDecimals).value;
    DivBounds(u * loan.borrowed, DebtUnit(loan));
    DivBounds(l * collateral, CollateralUnit(loan));
    MulNonNeg(l, collateral);
    MulNonNeg(backing, ltv);
    allowed := backing * ltv / ONE_I;
    QuotientBounds(lib.mul, backing * ltv, ONE_I);
    DivBounds(backing * ltv, ONE_I);
    ShareOfExcess(lib.div, debt - allowed, ONE_I - ltv);
  }

  /** Dividing the excess by the share that moves keeps its sign. */
  lemma ShareOfExcess(mode: NegativeRounding, excess: int, share: int)
    requires 0 < share <= ONE_I
    ensures var value := Quotient(mode, excess * ONE_I, share);
            && (excess < 0 <==> value < 0)
            && (0 <= excess ==> value * share <= excess * ONE_I < value * share + share)
  {
  }

  // ---------------------------------------------------------------- not above the target

  /** Debt left over, in value, against the part of the collateral value that stays. */
  lemma DebtLeft(f: int, ltv: int, debt: int, backing: int, allowed: int, value: int)
    requires 0 <= ltv < f
    requires allowed * f <= backing * ltv
    requires (debt - allowed) * f < value * (f - ltv) + (f - ltv)
    ensures f * (debt - value) < f + ltv * (backing - value)
  {
  }

  /** Debt left over, in atoms: one truncation of the debt and one rounding of the repayment later. */
  lemma DebtLeftAtoms(f: int, borrowed: int, repay: int, u: int, debtUnit: int, debt: int, value: int, stay: int)
    requires 0 < f && 0 < debtUnit
    requires u * borrowed < debt * debtUnit + debtUnit
    requires value * debtUnit * f < (repay * f + 1) * u
    requires f * (debt - value) < f + stay
    ensures u * (borrowed - repay) * f < debtUnit * (2 * f + stay) + u
  {
    MulLt(u * borrowed, debt * debtUnit + debtUnit, f);
    MulLt(f * (debt - value) + f, 2 * f + stay, debtUnit);
    ValueOfGap(f, debt, value, debtUnit);
    AtomsOfGap(f, borrowed, repay, u);
  }

  lemma AtomsOfGap(f: int, borrowed: int, repay: int, u: int)
    ensures u * (borrowed - repay) * f == (u * borrowed) * f - (repay * f + 1) * u + u
  {
  }

  lemma ValueOfGap(f: int, debt: int, value: int, debtUnit: int)
    ensures (debt * debtUnit + debtUnit) * f - value * debtUnit * f == debtUnit * (f * (debt - value) + f)
  {
  }

  /** What stays of the adjusted collateral, at the adjusted target, is what stays of the real one at the real target. */
  lemma AdjustmentsCancel(f: int, target: int, ltv: int, growth: int, collateral: int, adjusted: int, c: int, total: int)
    requires 0 < f && 0 <= target && 0 <= ltv && 0 <= c <= adjusted
    requires ltv * f <= target * growth
    requires adjusted * growth <= collateral * f
    requires total * f <= c * growth
    ensures ltv * (adjusted - c) <= target * (collateral - total)
  {
  }

  /** Collateral value left over, in atoms. */
  lemma CollateralLeft(l: int, unit: int, ltv: int, debtUnit: int, backing: int, value: int, adjusted: int, c: int, staying: int)
    requires 0 < l && 0 < unit && 0 <= ltv && 0 < debtUnit
    requires backing * unit <= l * adjusted
    requires c * l <= value * unit
    requires ltv * (adjusted - c) <= staying
    ensures (debtUnit * (ltv * (backing - value))) * unit <= staying * l * debtUnit
  {
  }

  /**
   The debt left by the solver, on the scale of one debt unit: at most the target share of
   the value that stays, two units of 2^-48, and 2^-48 of a debt atom. `moved` is the value
   the solver moves, or nothing if the loan was already below its target.
   */
  lemma SolverLeaves(loan: Loan, collateral: int, ltv: int, debt: int, backing: int, allowed: int, value: int, s: Seizure)
    requires 0 <= ltv < ONE_I && Chain(loan, collateral, ltv, debt, backing, allowed, value)
    requires Matches(loan, value, s) && s.repay < U64_MAX
    ensures var moved := if value < 0 then 0 else value;
            DebtPrice(loan) * (loan.borrowed - s.repay) * ONE_I
            < DebtUnit(loan) * (2 * ONE_I + ltv * (backing - moved)) + DebtPrice(loan)
  {
    var u, debtUnit := DebtPrice(loan), DebtUnit(loan);
    if value < 0 {
      assert ONE_I * (debt - 0) < ONE_I + ltv * (backing - 0);
      DebtLeftAtoms(ONE_I, loan.borrowed, 0, u, debtUnit, debt, 0, ltv * (backing - 0));
    } else {
      DebtLeft(ONE_I, ltv, debt, backing, allowed, value);
      DebtLeftAtoms(ONE_I, loan.borrowed, s.repay, u, debtUnit, debt, value, ltv * (backing - value));
    }
  }

  lemma AdjustedIs(lib: Library, loan: Loan, target: IFixed, fee: IFixed)
    requires 0 <= target && 0 <= fee && Adjusted(lib, loan, target, fee).Ok?
    ensures var (adjusted, ltv) := Adjusted(lib, loan, target, fee).value;
            && 0 <= ltv
            && ltv * ONE_I <= target * (ONE_I + fee) < ltv * ONE_I + ONE_I
            && adjusted * (ONE_I + fee) <= loan.collateral * ONE_I < (adjusted + 1) * (ONE_I + fee)
  {
    var growth := ONE_I + fee;
    MulNonNeg(target, growth);
    QuotientBounds(lib.mul, target * growth, ONE_I);
    DivBounds(target * growth, ONE_I);
    var scaled := IFromInt(loan.collateral);
    QuotientBounds(lib.div, scaled * ONE_I, growth);
    DivBounds(scaled * ONE_I, growth);
    WholeAtomsDown(ONE_I, scaled * ONE_I / growth, growth, scaled);
  }

  /** Remaining debt value below target times remaining collateral value, up to two units and 2^-48 of a debt atom. */
  ghost predicate MeetsTarget(loan: Loan, target: int, repay: int, total: int) {
    (loan.borrowed - repay) * ONE_I * DebtWeight(loan)
    < target * (loan.collateral - total) * CollateralPrice(loan) * DebtUnit(loan)
      + 2 * ONE_I * (DebtUnit(loan) * CollateralUnit(loan)) + DebtWeight(loan)
  }

  lemma TargetArithmetic(f: int, left: int, u: int, debtUnit: int, unit: int, stay: int, kept: int)
    requires 0 < unit
    requires u * left * f < debtUnit * (2 * f + stay) + u
    requires (debtUnit * stay) * unit <= kept
    ensures left * f * (u * unit) < kept + 2 * f * (debtUnit * unit) + u * unit
  {
  }

  lemma MeetsTargetFromChain(loan: Loan, target: int, fee: int, adjusted: int, ltv: int,
                             debt: int, backing: int, allowed: int, value: int, s: Seizure, total: int)
    requires 0 <= target && 0 <= ltv < ONE_I && 0 <= s.collateral <= adjusted
    requires ltv * ONE_I <= target * (ONE_I + fee)
    requires adjusted * (ONE_I + fee) <= loan.collateral * ONE_I
    requires total * ONE_I <= s.collateral * (ONE_I + fee)
    requires Chain(loan, adjusted, ltv, debt, backing, allowed, value)
    requires Matches(loan, value, s) && s.repay < U64_MAX
    ensures MeetsTarget(loan, target, s.repay, total)
  {
    var moved := if value < 0 then 0 else value;
    SolverLeaves(loan, adjusted, ltv, debt, backing, allowed, value, s);
    var staying := target * (loan.collateral - total);
    AdjustmentsCancel(ONE_I, target, ltv, ONE_I + fee, loan.collateral, adjusted, s.collateral, total);
    CollateralLeft(CollateralPrice(loan), CollateralUnit(loan), ltv, DebtUnit(loan), backing, moved,
                   adjusted, s.collateral, staying);
    TargetArithmetic(ONE_I, loan.borrowed - s.repay, DebtPrice(loan), DebtUnit(loan), CollateralUnit(loan),
                     ltv * (backing - moved), staying * CollateralPrice(loan) * DebtUnit(loan));
  }

  /** A repayment of the whole debt meets any target. */
  lemma FullRepaymentMeetsTarget(loan: Loan, target: int, total: int)
    requires 0 < CollateralPrice(loan) && 0 < DebtPrice(loan) && 0 <= target && total <= loan.collateral
    ensures MeetsTarget(loan, target, loan.borrowed, total)
  {
    WeightsArePositive(loan);
    MulNonNeg(target, loan.collateral - total);
    MulNonNeg(target * (loan.collateral - total), CollateralPrice(loan));
    MulNonNeg(target * (loan.collateral - total) * CollateralPrice(loan), DebtUnit(loan));
    MulLt(0, DebtUnit(loan), CollateralUnit(loan));
  }

  /**
   The target ratio is met despite both fee adjustments: if the cap does not bind, the
   adjusted target is below one and the seized atoms are within the adjusted collateral,
   then what remains of the debt is worth less than the target share of what remains of
   the collateral, bonus included, up to two units of 2^-48 and 2^-48 of a debt atom.
   */
  lemma TargetIsMet(lib: Library, loan: Loan, target: IFixed, fee: IFixed, maxRepay: U64)
    requires Priced(loan) && 0 <= fee && 0 <= target && SolveWithFee(lib, loan, target, fee, maxRepay).Ok?
    requires Adjusted(lib, loan, target, fee).value.1 < ONE_I
    requires Uncapped(lib, loan, target, fee).value.repay <= Min(maxRepay, loan.borrowed)
    requires Uncapped(lib, loan, target, fee).value.collateral <= Adjusted(lib, loan, target, fee).value.0
    ensures var r := SolveWithFee(lib, loan, target, fee, maxRepay).value;
            MeetsTarget(loan, target, r.repay, r.collateral + r.bonus)
  {
    var r := SolveWithFee(lib, loan, target, fee, maxRepay).value;
    var (adjusted, ltv) := Adjusted(lib, loan, target, fee).value;
    var s := Uncapped(lib, loan, target, fee).value;
    AdjustedIs(lib, loan, target, fee);
    SolveMatches(lib, loan, adjusted, ltv);
    BonusIsBounded(lib, s, loan.collateral, fee);
    if s.repay == U64_MAX {
      FullRepaymentMeetsTarget(loan, target, r.collateral + r.bonus);
    } else {
      var debt, backing, allowed := SolverChain(lib, loan, adjusted, ltv);
      assert s.collateral * (ONE_I + fee) == s.collateral * ONE_I + s.collateral * fee;
      MeetsTargetFromChain(loan, target, fee, adjusted, ltv, debt, backing, allowed,
                           SolvedValue(lib, loan, adjusted, ltv).value, s, r.collateral + r.bonus);
    }
  }

  // ---------------------------------------------------------------- when nothing binds

  /**
   Conditions on the two values before the call. If the debt is worth less than the adjusted
   collateral, the seized atoms stay within it; if the difference, at the adjusted target, is
   at least one unit of 2^-48, the repayment stays within the debt.
   */
  lemma WellBacked(loan: Loan, adjusted: int, ltv: int, debt: int, backing: int, allowed: int, value: int, s: Seizure)
    requires 0 <= ltv < ONE_I && Chain(loan, adjusted, ltv, debt, backing, allowed, value) && Matches(loan, value, s)
    ensures debt < backing && 0 <= adjusted ==> s.collateral <= adjusted
    ensures ltv == 0 || ONE_I <= (backing - debt) * ltv ==> s.repay <= loan.borrowed
  {
    if 0 <= value && debt < backing && 0 <= adjusted {
      ValueBelowBacking(ONE_I, ltv, debt, backing, allowed, value);
      SeizedBelow(CollateralPrice(loan), CollateralUnit(loan), value, backing, s.collateral, adjusted);
    }
    if 0 <= value && (ltv == 0 || ONE_I <= (backing - debt) * ltv) {
      ValueBelowDebt(ONE_I, ltv, debt, backing, allowed, value);
      RepaidBelow(DebtPrice(loan), DebtUnit(loan), value, debt, s.repay, loan.borrowed);
    }
  }

  lemma SeizedBelow(l: int, unit: int, value: int, backing: int, c: int, adjusted: int)
    requires 0 < l && 0 < unit && value < backing && c * l <= value * unit && backing * unit <= l * adjusted
    ensures c <= adjusted
  {
    MulLt(value, backing, unit);
    CancelLt(c, adjusted, l);
  }

  lemma RepaidBelow(u: int, debtUnit: int, value: int, debt: int, repay: int, borrowed: int)
    requires 0 < u && 0 < debtUnit && value <= debt && debt * debtUnit <= u * borrowed && 0 <= borrowed
    requires 0 < repay ==> (repay - 1) * u < value * debtUnit
    ensures repay <= borrowed
  {
    MulLe(value, debt, debtUnit);
    if 0 < repay {
      CancelLt(repay - 1, borrowed, u);
    }
  }

  lemma ValueBelowBacking(f: int, ltv: int, debt: int, backing: int, allowed: int, value: int)
    requires 0 <= ltv < f && debt < backing && backing * ltv < allowed * f + f
    requires value * (f - ltv) <= (debt - allowed) * f
    ensures value < backing
  {
    MulLe(debt + 1, backing, f);
    assert backing * (f - ltv) == backing * f - backing * ltv;
    CancelLt(value, backing, f - ltv);
  }

  lemma ValueBelowDebt(f: int, ltv: int, debt: int, backing: int, allowed: int, value: int)
    requires 0 <= ltv < f && (ltv == 0 || f <= (backing - debt) * ltv) && backing * ltv < allowed * f + f
    requires value * (f - ltv) <= (debt - allowed) * f
    ensures value <= debt
  {
    if ltv == 0 {
      CancelLt(-1, allowed, f);
      MulLe(debt - allowed, debt, f);
      CancelLe(value, debt, f);
    } else {
      assert (backing - debt) * ltv == backing * ltv - debt * ltv;
      assert debt * (f - ltv) == debt * f - debt * ltv;
      CancelLe(value, debt, f - ltv);
    }
  }

  /** So the target is met whenever the values before the call leave room for it and the caller offers the whole debt. */
  lemma TargetIsMetWhenBacked(lib: Library, loan: Loan, target: IFixed, fee: IFixed, maxRepay: U64)
    requires Priced(loan) && 0 <= fee && 0 <= target && SolveWithFee(lib, loan, target, fee, maxRepay).Ok?
    requires loan.borrowed <= maxRepay
    requires var (adjusted, ltv) := Adjusted(lib, loan, target, fee).value;
             var debt := BorrowValue(lib, loan.supplyOracle, loan.borrowed, loan.borrowDecimals);
             var backing := CollateralValue(lib, loan.collateralOracle, adjusted, loan.collateralDecimals);
             && ltv < ONE_I && debt.Ok? && backing.Ok? && debt.value < backing.value
             && (ltv == 0 || ONE_I <= (backing.value - debt.value) * ltv)
    ensures var r := SolveWithFee(lib, loan, target, fee, maxRepay).value;
            MeetsTarget(loan, target, r.repay, r.collateral + r.bonus)
  {
    var (adjusted, ltv) := Adjusted(lib, loan, target, fee).value;
    AdjustedIs(lib, loan, target, fee);
    SolveMatches(lib, loan, adjusted, ltv);
    var debt, backing, allowed := SolverChain(lib, loan, adjusted, ltv);
    WellBacked(loan, adjusted, ltv, debt, backing, allowed, SolvedValue(lib, loan, adjusted, ltv).value,
               Uncapped(lib, loan, target, fee).value);
    TargetIsMet(lib, loan, target, fee, maxRepay);
  }

  // ---------------------------------------------------------------- not below the target

  lemma DebtKept(f: int, ltv: int, debt: int, backing: int, allowed: int, value: int)
    requires 0 <= ltv < f
    requires backing * ltv < allowed * f + f
    requires value * (f - ltv) <= (debt - allowed) * f
    ensures ltv * (backing - value) - f < f * (debt - value)
  {
  }

  lemma DebtKeptAtoms(f: int, borrowed: int, repay: int, u: int, debtUnit: int, debt: int, value: int, stay: int)
    requires 0 < f && 0 < debtUnit
    requires debt * debtUnit <= u * borrowed
    requires (repay - 1) * u <= value * debtUnit
    requires stay - f < f * (debt - value)
    ensures debtUnit * (stay - f) - u * f < u * (borrowed - repay) * f
  {
  }

  lemma CollateralKept(l: int, unit: int, ltv: int, debtUnit: int, backing: int, value: int, collateral: int, c: int)
    requires 0 < unit && 0 <= ltv && 0 < debtUnit
    requires l * collateral <= backing * unit + unit
    requires value * unit <= (c + 1) * l
    ensures ltv * debtUnit * (l * (collateral - c - 1) - unit) <= (debtUnit * (ltv * (backing - value))) * unit
  {
  }

  /** Debt left, plus one atom, above target times collateral left, minus one atom and two units of 2^-48. */
  ghost predicate StaysNearTarget(loan: Loan, collateral: int, ltv: int, s: Seizure) {
    var l, debtUnit, unit := CollateralPrice(loan), DebtUnit(loan), CollateralUnit(loan);
    ltv * debtUnit * (l * (collateral - s.collateral - 1) - unit) - debtUnit * unit * ONE_I
    < (loan.borrowed - s.repay + 1) * ONE_I * DebtWeight(loan)
  }

  /**
   The solver does not overshoot: what it leaves of the debt, plus one atom, is worth more
   than the target share of what it leaves of the collateral, minus one atom and two units.
   */
  lemma SolverDoesNotOvershoot(lib: Library, loan: Loan, collateral: U64, ltv: IFixed)
    requires Priced(loan) && 0 <= ltv < ONE_I && Solve(lib, loan, collateral, ltv).Ok?
    requires 0 <= SolvedValue(lib, loan, collateral, ltv).value
    ensures StaysNearTarget(loan, collateral, ltv, Solve(lib, loan, collateral, ltv).value)
  {
    var s, value := Solve(lib, loan, collateral, ltv).value, SolvedValue(lib, loan, collateral, ltv).value;
    SolveMatches(lib, loan, collateral, ltv);
    var debt, backing, allowed := SolverChain(lib, loan, collateral, ltv);
    OvershootFromChain(loan, collateral, ltv, debt, backing, allowed, value, s);
  }

  lemma OvershootFromChain(loan: Loan, collateral: int, ltv: int, debt: int, backing: int, allowed: int, value: int, s: Seizure)
    requires 0 <= ltv < ONE_I && 0 <= value && Chain(loan, collateral, ltv, debt, backing, allowed, value)
    requires Matches(loan, value, s)
    ensures StaysNearTarget(loan, collateral, ltv, s)
  {
    var u, l, debtUnit, unit := DebtPrice(loan), CollateralPrice(loan), DebtUnit(loan), CollateralUnit(loan);
    var stay := ltv * (backing - value);
    DebtKept(ONE_I, ltv, debt, backing, allowed, value);
    MulNonNeg(value, debtUnit);
    DebtKeptAtoms(ONE_I, loan.borrowed, s.repay, u, debtUnit, debt, value, stay);
    CollateralKept(l, unit, ltv, debtUnit, backing, value, collateral, s.collateral);
    KeptArithmetic(ONE_I, loan.borrowed - s.repay, u, debtUnit, unit, stay);
  }

  lemma KeptArithmetic(f: int, left: int, u: int, debtUnit: int, unit: int, stay: int)
    requires 0 < unit
    requires debtUnit * (stay - f) - u * f < u * left * f
    ensures (debtUnit * stay) * unit - debtUnit * unit * f < (left + 1) * f * (u * unit)
  {
  }

  // ---------------------------------------------------------------- when there is an answer

  /** A value converts to whole atoms exactly if it fits after scaling and comes to less than 2^64 of them. */
  lemma AtomsFitIff(lib: Library, price: IFixed, value: IFixed, decimals: nat)
    requires 0 < price && 0 <= value && decimals <= MAX_DECIMALS
    ensures var bits := ValueToAtoms(lib, price, value, decimals);
            (bits.Ok? && IRoundDown(bits.value).Ok?) <==>
              value * Pow10(decimals) < TWO127 && value * Pow10(decimals) < ONE_U * price
    ensures var bits := ValueToAtoms(lib, price, value, decimals);
            bits.Ok? ==> (IRoundDown(bits.value).Ok? <==> IRoundUp(bits.value).Ok?)
  {
    var scaled := value * Pow10(decimals);
    ScaledIs(lib, value, decimals);
    MulNonNeg(value, Pow10(decimals));
    QuotientBounds(lib.div, scaled * ONE_I, price);
    FitsIff(scaled, price);
    if ValueToAtoms(lib, price, value, decimals).Ok? {
      IRoundUpIsCeiling(ValueToAtoms(lib, price, value, decimals).value);
    }
  }

  lemma FitsIff(scaled: int, price: int)
    requires 0 <= scaled && 0 < price
    ensures 0 <= scaled * ONE_I / price
    ensures scaled * ONE_I / price < ONE_U * ONE_I <==> scaled < ONE_U * price
  {
    PoolTheorems.QuotientBelow(scaled * ONE_I, price, ONE_U * ONE_I);
    DivBounds(scaled * ONE_I, price);
    assert (ONE_U * ONE_I) * price == (ONE_U * price) * ONE_I;
  }

  /** The solver answers exactly if the value it moves converts to whole atoms on both sides. */
  lemma SolveSucceedsIff(lib: Library, loan: Loan, collateral: U64, ltv: IFixed, value: IFixed)
    requires Priced(loan) && SolvedValue(lib, loan, collateral, ltv) == Ok(value) && 0 <= value
    ensures Solve(lib, loan, collateral, ltv).Ok? <==>
              && value * CollateralUnit(loan) < TWO127 && value * CollateralUnit(loan) < ONE_U * CollateralPrice(loan)
              && value * DebtUnit(loan) < TWO127 && value * DebtUnit(loan) < ONE_U * DebtPrice(loan)
  {
    ValidBounds(loan.collateralOracle);
    AtomsFitIff(lib, LowerBound(loan.collateralOracle).value, value, loan.collateralDecimals);
    AtomsFitIff(lib, UpperBound(loan.supplyOracle).value, value, loan.borrowDecimals);
  }

  // ---------------------------------------------------------------- a typical loan

  /** 80 dollars owed against one coin worth 100 dollars, with exact prices. */
  const LOAN: Loan := Loan(80_000_000, 6, OracleRate(ONE_I, 0), 100_000_000, 8, OracleRate(100 * ONE_I, 0))

  const TARGET: IFixed := ONE_I / 8 * 5
  const BONUS: IFixed := ONE_I / 16

  lemma TypicalUnits()
    ensures Pow10(6) == 1_000_000 && Pow10(8) == 100_000_000
  {
    assert Pow10(6) == 1_000_000;
  }

  lemma TypicalFactors(lib: Library)
    ensures IMul(lib, TARGET, ONE_I + BONUS) == Ok(ONE_I / 128 * 85)
    ensures IDiv(lib, IFromInt(100_000_000), ONE_I + BONUS) == Ok(26_491_762_513_944_094_117_647)
    ensures IRoundDown(26_491_762_513_944_094_117_647) == Ok(94_117_647)
  {
    ProductIs(lib, TARGET, ONE_I + BONUS, ONE_I / 128 * 85);
    RatioIs(lib, IFromInt(100_000_000), ONE_I + BONUS, 26_491_762_513_944_094_117_647);
  }

  lemma TypicalAdjustment(lib: Library)
    ensures Adjusted(lib, LOAN, TARGET, BONUS) == Ok((94_117_647, ONE_I / 128 * 85))
  {
    TypicalFactors(lib);
    assert IAdd(ONE_I, BONUS) == Ok(ONE_I + BONUS);
  }

  lemma TypicalValue(lib: Library)
    ensures SolvedValue(lib, LOAN, 94_117_647, ONE_I / 128 * 85) == Ok(14_662_882_540_447_544)
  {
    TypicalUnits();
    AtomsToValueIs(lib, ONE_I, 80_000_000, 6);
    AtomsToValueIs(lib, 100 * ONE_I, 94_117_647, 8);
    ProductIs(lib, 26_491_762_497_386_742, ONE_I / 128 * 85, 17_592_186_033_420_883);
    RatioIs(lib, 80 * ONE_I - 17_592_186_033_420_883, ONE_I - ONE_I / 128 * 85, 14_662_882_540_447_544);
  }

  lemma TypicalAtoms(lib: Library)
    ensures CollateralAtoms(lib, LOAN.collateralOracle, 14_662_882_540_447_544, 8) == Ok(14_662_882_540_447_544_000_000)
    ensures BorrowAtoms(lib, LOAN.supplyOracle, 14_662_882_540_447_544, 6) == Ok(14_662_882_540_447_544_000_000)
  {
    TypicalUnits();
    ScaledIs(lib, 14_662_882_540_447_544, 6);
    ScaledIs(lib, 14_662_882_540_447_544, 8);
    RatioIs(lib, 1_466_288_254_044_754_400_000_000, 100 * ONE_I, 14_662_882_540_447_544_000_000);
    RatioIs(lib, 14_662_882_540_447_544_000_000, ONE_I, 14_662_882_540_447_544_000_000);
  }

  lemma TypicalRounding()
    ensures IRoundDown(14_662_882_540_447_544_000_000) == Ok(52_093_023)
    ensures IRoundUp(14_662_882_540_447_544_000_000) == Ok(52_093_024)
  {
  }

  lemma TypicalSolution(lib: Library)
    ensures Solve(lib, LOAN, 94_117_647, ONE_I / 128 * 85) == Ok(Seizure(52_093_024, 52_093_023))
  {
    TypicalValue(lib);
    TypicalAtoms(lib);
    TypicalRounding();
  }

  lemma TypicalBonus(lib: Library)
    ensures WithBonus(lib, Seizure(52_093_024, 52_093_023), 100_000_000, BONUS)
         == Ok(SeizureWithBonus(52_093_024, 52_093_023, 3_255_813))
  {
    ProductIs(lib, IFromInt(52_093_023), BONUS, 52_093_023 * BONUS);
  }

  /** The theorems speak of something: this loan meets the hypotheses of each of them. */
  lemma TypicalLiquidation(lib: Library)
    ensures Priced(LOAN) && SolventWithBonus(LOAN, BONUS)
    ensures SolveWithFee(lib, LOAN, TARGET, BONUS, U64_MAX) == Ok(SeizureWithBonus(52_093_024, 52_093_023, 3_255_813))
    ensures Adjusted(lib, LOAN, TARGET, BONUS).value.1 < ONE_I
    ensures Uncapped(lib, LOAN, TARGET, BONUS).value.repay <= Min(U64_MAX, LOAN.borrowed)
    ensures Uncapped(lib, LOAN, TARGET, BONUS).value.collateral <= Adjusted(lib, LOAN, TARGET, BONUS).value.0
    ensures MeetsTarget(LOAN, TARGET, 52_093_024, 52_093_023 + 3_255_813)
  {
    TypicalUnits();
    TypicalAdjustment(lib);
    TypicalSolution(lib);
    TypicalBonus(lib);
    TargetIsMet(lib, LOAN, TARGET, BONUS, U64_MAX);
  }
}
