/**
 What the liquidation solver guarantees across its chain of roundings.

 Throughout, `u` is the upper bound of the debt price and `l` the lower bound of the
 collateral price, both as I80F48 bits, and a claim about values is stated after
 multiplying out every denominator, so no claim hides a rounding of its own.
 */
module LiquidationTheorems {
  import opened Arithmetic
  import opened FixedPoint
  import opened OraclePrice
  import opened Liquidation

  ghost predicate Priced(loan: Loan) {
    && Supported(loan)
    && Valid(loan.supplyOracle)
    && Valid(loan.collateralOracle)
  }

  /** Upper bound of the debt price; only meaningful where it fits, which every success implies. */
  ghost function DebtPrice(loan: Loan): int {
    loan.supplyOracle.rate + loan.supplyOracle.confidence
  }

  ghost function CollateralPrice(loan: Loan): int {
    loan.collateralOracle.rate - loan.collateralOracle.confidence
  }

  ghost function DebtUnit(loan: Loan): int {
    Pow10(loan.borrowDecimals)
  }

  ghost function CollateralUnit(loan: Loan): int {
    Pow10(loan.collateralDecimals)
  }

  // ---------------------------------------------------------------- the solver

  /**
   How far a repayment can fall short of what it stands for, in units of 2^-48 atoms: one
   unit of truncation, or a whole atom if rounding up saturated at the largest `u64`.
   */
  function Slack(repay: U64): int {
    if repay < U64_MAX then 1 else ONE_I
  }

  /** What ties a seizure to the value it was computed from. A negative value can only seize nothing. */
  ghost predicate Matches(loan: Loan, value: int, s: Seizure) {
    var u, l, debtUnit, unit := DebtPrice(loan), CollateralPrice(loan), DebtUnit(loan), CollateralUnit(loan);
    && 0 < l && 0 < u
    && (value < 0 ==> s == Seizure(0, 0))
    && (0 <= value ==>
          && s.collateral * l <= value * unit < (s.collateral + 1) * l
          && (0 < s.repay ==> (s.repay - 1) * u < value * debtUnit)
          && value * debtUnit * ONE_I < (s.repay * ONE_I + Slack(s.repay)) * u)
  }

  /** Rounding atoms down against a price. */
  lemma WholeAtomsDown(f: int, bits: int, price: int, scaled: int)
    requires 0 < f && 0 < price && 0 <= bits
    requires bits * price <= scaled * f < bits * price + price
    ensures (bits / f) * price <= scaled < (bits / f + 1) * price
  {
    var n := bits / f;
    DivBounds(bits, f);
    MulLe(n * f, bits, price);
    MulLe(bits + 1, n * f + f, price);
    assert (n * f) * price == (n * price) * f;
    assert (n * f + f) * price == ((n + 1) * price) * f;
    assert (bits + 1) * price == bits * price + price;
    CancelLe(n * price, scaled, f);
    CancelLt(scaled, (n + 1) * price, f);
  }

  /** Rounding atoms up against a price. */
  lemma WholeAtomsUp(f: int, bits: int, price: int, scaled: int, n: int)
    requires 0 < f && 0 < price && (n - 1) * f < bits <= n * f
    requires bits * price <= scaled * f < bits * price + price
    ensures (n - 1) * price < scaled && scaled * f < (n * f + 1) * price
  {
  }

  /** Rounding up that stops at `n` although a fraction is left. */
  lemma SaturatedUp(f: int, bits: int, price: int, scaled: int, n: int)
    requires 0 < f && 0 < price && n * f < bits < n * f + f
    requires bits * price <= scaled * f < bits * price + price
    ensures (n - 1) * price < scaled && scaled * f < (n * f + f) * price
  {
    MulLt((n - 1) * f, bits, price);
    MulLe(bits + 1, n * f + f, price);
    assert ((n - 1) * f) * price == ((n - 1) * price) * f;
    assert (bits + 1) * price == bits * price + price;
    CancelLt((n - 1) * price, scaled, f);
  }

  lemma CollateralSide(lib: Library, loan: Loan, value: IFixed)
    requires Priced(loan)
    requires var bits := CollateralAtoms(lib, loan.collateralOracle, value, loan.collateralDecimals);
             bits.Ok? && IRoundDown(bits.value).Ok?
    ensures var bits := CollateralAtoms(lib, loan.collateralOracle, value, loan.collateralDecimals).value;
            var n, l := IRoundDown(bits).value, CollateralPrice(loan);
            && 0 < l
            && (value < 0 ==> n == 0)
            && (0 <= value ==> n * l <= value * CollateralUnit(loan) < (n + 1) * l)
  {
    ValidBounds(loan.collateralOracle);
    var l: IFixed := LowerBound(loan.collateralOracle).value;
    ValueToAtomsIs(lib, l, value, loan.collateralDecimals);
    var bits := CollateralAtoms(lib, loan.collateralOracle, value, loan.collateralDecimals).value;
    if 0 <= value {
      WholeAtomsDown(ONE_I, bits, l, value * CollateralUnit(loan));
    }
  }

  lemma DebtSide(lib: Library, loan: Loan, value: IFixed)
    requires Priced(loan)
    requires var bits := BorrowAtoms(lib, loan.supplyOracle, value, loan.borrowDecimals);
             bits.Ok? && IRoundUp(bits.value).Ok?
    ensures var bits := BorrowAtoms(lib, loan.supplyOracle, value, loan.borrowDecimals).value;
            var n, u := IRoundUp(bits).value, DebtPrice(loan);
            && 0 < u
            && (value < 0 ==> n == 0)
            && (0 <= value ==>
                  && (0 < n ==> (n - 1) * u < value * DebtUnit(loan))
                  && value * DebtUnit(loan) * ONE_I < (n * ONE_I + Slack(n)) * u)
  {
    var u: IFixed := UpperBound(loan.supplyOracle).value;
    ValueToAtomsIs(lib, u, value, loan.borrowDecimals);
    var bits := BorrowAtoms(lib, loan.supplyOracle, value, loan.borrowDecimals).value;
    var n := IRoundUp(bits).value;
    IRoundUpIsCeiling(bits);
    if 0 <= value {
      var scaled := value * DebtUnit(loan);
      if bits <= U64_MAX * ONE_I {
        WholeAtomsUp(ONE_I, bits, u, scaled, n);
        MulLe(n * ONE_I + 1, n * ONE_I + Slack(n), u);
      } else {
        SaturatedUp(ONE_I, bits, u, scaled, U64_MAX);
      }
    }
  }

  lemma SolveMatches(lib: Library, loan: Loan, collateral: U64, ltv: IFixed)
    requires Priced(loan) && Solve(lib, loan, collateral, ltv).Ok?
    ensures SolvedValue(lib, loan, collateral, ltv).Ok?
    ensures Matches(loan, SolvedValue(lib, loan, collateral, ltv).value, Solve(lib, loan, collateral, ltv).value)
  {
    var value := SolvedValue(lib, loan, collateral, ltv).value;
    CollateralSide(lib, loan, value);
    DebtSide(lib, loan, value);
  }

  // ---------------------------------------------------------------- seized collateral is paid for

  /** One collateral atom and 2^-48 of a debt atom, on a common scale. */
  ghost function CollateralWeight(loan: Loan): int {
    CollateralPrice(loan) * DebtUnit(loan) * ONE_I
  }

  ghost function DebtWeight(loan: Loan): int {
    DebtPrice(loan) * CollateralUnit(loan)
  }

  /** Collateral, without bonus, worth less than the repayment plus `slack` units of 2^-48 debt atoms. */
  ghost predicate PaidFor(loan: Loan, repay: int, collateral: int, slack: int) {
    collateral * CollateralWeight(loan) < (repay * ONE_I + slack) * DebtWeight(loan)
  }

  lemma PaidForArithmetic(f: int, c: int, paid: int, value: int, l: int, u: int, debtUnit: int, unit: int)
    requires 0 < unit && 0 < debtUnit && 0 < f
    requires c * l <= value * unit
    requires value * debtUnit * f < paid * u
    ensures c * (l * debtUnit * f) < paid * (u * unit)
  {
  }

  lemma WeightsArePositive(loan: Loan)
    requires 0 < CollateralPrice(loan) && 0 < DebtPrice(loan)
    ensures 0 < CollateralWeight(loan) && 0 < DebtWeight(loan)
  {
  }

  lemma MatchIsPaidFor(loan: Loan, value: int, s: Seizure)
    requires Matches(loan, value, s)
    ensures PaidFor(loan, s.repay, s.collateral, Slack(s.repay))
  {
    if value < 0 {
      WeightsArePositive(loan);
    } else {
      PaidForArithmetic(ONE_I, s.collateral, s.repay * ONE_I + Slack(s.repay), value, CollateralPrice(loan),
                        DebtPrice(loan), DebtUnit(loan), CollateralUnit(loan));
    }
  }

  /** Scaling both sides down by the same ratio keeps the bound: the collateral is truncated, the repayment is not. */
  lemma CapArithmetic(f: int, slack: int, c: int, cap: int, repay: int, weight: int, bound: int)
    requires 0 < f && 0 < slack && 0 <= c && 0 <= cap < repay && 0 <= weight && 0 < bound
    requires c * weight < (repay * f + slack) * bound
    ensures (c * cap / repay) * weight < (cap * f + slack) * bound
  {
    var scaled := c * cap / repay;
    DivBounds(c * cap, repay);
    MulLe(scaled * repay, c * cap, weight);
    MulLe(c * weight, (repay * f + slack) * bound, cap);
    assert (scaled * repay) * weight == (scaled * weight) * repay;
    assert (c * cap) * weight == (c * weight) * cap;
    ScaleBound(f, slack, cap, repay, bound);
    CancelLt(scaled * weight, (cap * f + slack) * bound, repay);
  }

  lemma ScaleBound(f: int, slack: int, cap: int, repay: int, bound: int)
    requires 0 < slack && cap < repay && 0 < bound
    ensures ((repay * f + slack) * bound) * cap < ((cap * f + slack) * bound) * repay
  {
  }

  lemma CappedIsPaidFor(loan: Loan, s: Seizure, cap: U64, slack: int)
    requires PaidFor(loan, s.repay, s.collateral, slack) && 0 < slack
    requires 0 < CollateralPrice(loan) && 0 < DebtPrice(loan)
    ensures PaidFor(loan, Capped(s, cap).repay, Capped(s, cap).collateral, slack)
  {
    if cap < s.repay {
      WeightsArePositive(loan);
      CapArithmetic(ONE_I, slack, s.collateral, cap, s.repay, CollateralWeight(loan), DebtWeight(loan));
    }
  }

  /** The bonus is at most its rate of the seized collateral, and together they fit in what there is. */
  lemma BonusIsBounded(lib: Library, s: Seizure, collateral: U64, fee: IFixed)
    requires 0 <= fee && WithBonus(lib, s, collateral, fee).Ok?
    ensures var r := WithBonus(lib, s, collateral, fee).value;
            && r.repay == s.repay && r.collateral == s.collateral
            && r.bonus * ONE_I <= r.collateral * fee
            && r.collateral + r.bonus <= collateral
            && (r.collateral * fee < (r.bonus + 1) * ONE_I || r.collateral + r.bonus == collateral)
  {
    var exact := s.collateral * fee;
    MulNonNeg(s.collateral, fee);
    assert IFromInt(s.collateral) * fee == exact * ONE_I;
    ExactQuotient(lib.mul, exact, ONE_I);
    DivBounds(exact, ONE_I);
  }

  /**
   Seized collateral is paid for. Whatever the target, every success repays within the
   limits, seizes within the collateral, pays a bonus of at most its rate, and takes
   collateral worth less than the repayment plus 2^-48 of a debt atom, also after the cap
   has rescaled it. Only if the repayment before the cap saturates at the largest `u64`
   does the margin widen to one debt atom.
   */
  lemma SeizureIsPaidFor(lib: Library, loan: Loan, ltv: IFixed, fee: IFixed, maxRepay: U64)
    requires Priced(loan) && 0 <= fee && SolveWithFee(lib, loan, ltv, fee, maxRepay).Ok?
    ensures var r := SolveWithFee(lib, loan, ltv, fee, maxRepay).value;
            && r.repay <= loan.borrowed && r.repay <= maxRepay
            && PaidFor(loan, r.repay, r.collateral, Slack(Uncapped(lib, loan, ltv, fee).value.repay))
            && r.bonus * ONE_I <= r.collateral * fee
            && r.collateral + r.bonus <= loan.collateral
            && 0 < CollateralPrice(loan) && 0 < DebtPrice(loan)
  {
    var (collateral, adjustedLtv) := Adjusted(lib, loan, ltv, fee).value;
    var s := Uncapped(lib, loan, ltv, fee).value;
    SolveMatches(lib, loan, collateral, adjustedLtv);
    var value := SolvedValue(lib, loan, collateral, adjustedLtv).value;
    MatchIsPaidFor(loan, value, s);
    var cap := Min(maxRepay, loan.borrowed);
    CappedIsPaidFor(loan, s, cap, Slack(s.repay));
    BonusIsBounded(lib, Capped(s, cap), loan.collateral, fee);
  }

  /** Bonus included, the collateral is worth less than the repayment grown by the bonus rate. */
  ghost predicate PaidForWithBonus(loan: Loan, s: SeizureWithBonus, fee: int, slack: int) {
    (s.collateral + s.bonus) * (ONE_I * CollateralWeight(loan))
    < (s.repay * ONE_I + slack) * (DebtWeight(loan) * (ONE_I + fee))
  }

  lemma BonusIsPaidFor(loan: Loan, s: SeizureWithBonus, fee: int, slack: int)
    requires PaidFor(loan, s.repay, s.collateral, slack) && s.bonus * ONE_I <= s.collateral * fee
    requires 0 < CollateralPrice(loan) && 0 <= fee
    ensures PaidForWithBonus(loan, s, fee, slack)
  {
    MulLt(0, CollateralPrice(loan), DebtUnit(loan));
    BonusArithmetic(s.collateral, s.bonus, fee, CollateralWeight(loan), s.repay * ONE_I + slack, DebtWeight(loan));
  }

  lemma BonusArithmetic(c: int, bonus: int, fee: int, weight: int, paid: int, debtWeight: int)
    requires 0 <= weight && 0 <= fee && bonus * ONE_I <= c * fee && c * weight < paid * debtWeight
    ensures (c + bonus) * (ONE_I * weight) < paid * (debtWeight * (ONE_I + fee))
  {
    MulLe(bonus * ONE_I, c * fee, weight);
    MulLt(c * weight, paid * debtWeight, ONE_I + fee);
    assert (c + bonus) * (ONE_I * weight) == (c * weight) * ONE_I + (bonus * ONE_I) * weight;
    assert (c * fee) * weight == (c * weight) * fee;
    assert (c * weight) * (ONE_I + fee) == (c * weight) * ONE_I + (c * weight) * fee;
    assert (paid * debtWeight) * (ONE_I + fee) == paid * (debtWeight * (ONE_I + fee));
  }

  /** Rescaling keeps that too: the two parts are truncated separately, their sum by more than the sum would be. */
  lemma CappedBonusIsPaidFor(loan: Loan, s: SeizureWithBonus, cap: U64, fee: int, slack: int)
    requires PaidForWithBonus(loan, s, fee, slack) && 0 < slack && 0 <= fee
    requires 0 < CollateralPrice(loan) && 0 < DebtPrice(loan)
    ensures PaidForWithBonus(loan, CappedWithBonus(s, cap), fee, slack)
  {
    if cap < s.repay {
      var r, total := CappedWithBonus(s, cap), s.collateral + s.bonus;
      var weight, bound := ONE_I * CollateralWeight(loan), DebtWeight(loan) * (ONE_I + fee);
      WeightsArePositive(loan);
      MulLt(0, DebtWeight(loan), ONE_I + fee);
      ScaledTotal(s, cap);
      CapArithmetic(ONE_I, slack, total, cap, s.repay, weight, bound);
      MulLe(r.collateral + r.bonus, total * cap / s.repay, weight);
    }
  }

  lemma ScaledTotal(s: SeizureWithBonus, cap: U64)
    requires cap < s.repay
    ensures var r := CappedWithBonus(s, cap); r.collateral + r.bonus <= (s.collateral + s.bonus) * cap / s.repay
  {
    var r, total := CappedWithBonus(s, cap), s.collateral + s.bonus;
    assert total * cap == s.collateral * cap + s.bonus * cap;
    assert (r.collateral + r.bonus) * s.repay == r.collateral * s.repay + r.bonus * s.repay;
    DivAtLeast(total * cap, s.repay, r.collateral + r.bonus);
  }

  // ---------------------------------------------------------------- and no less

  /** The whole part of `amount` times `cap` over `repay`. */
  ghost predicate IsShare(share: int, amount: int, cap: int, repay: int) {
    share * repay <= amount * cap < (share + 1) * repay
  }

  /** A seizure rescaled to a smaller repayment: each part in proportion, rounded down; otherwise unchanged. */
  ghost predicate Rescaled(s: SeizureWithBonus, r: SeizureWithBonus, cap: int) {
    if cap < s.repay then
      r.repay == cap && IsShare(r.collateral, s.collateral, cap, s.repay) && IsShare(r.bonus, s.bonus, cap, s.repay)
    else r == s
  }

  lemma CappedIs(s: Seizure, cap: U64)
    ensures var r := Capped(s, cap);
            if cap < s.repay then r.repay == cap && IsShare(r.collateral, s.collateral, cap, s.repay) else r == s
  {
  }

  lemma CappedWithBonusIs(s: SeizureWithBonus, cap: U64)
    ensures Rescaled(s, CappedWithBonus(s, cap), cap)
  {
  }

  /** Up to `atoms` more of the collateral would be worth all but one atom of the repayment. */
  ghost predicate Gives(loan: Loan, repay: int, collateral: int, atoms: int) {
    (repay - 1) * DebtWeight(loan) <= (collateral + atoms) * (CollateralPrice(loan) * DebtUnit(loan))
  }

  lemma MatchGives(loan: Loan, value: int, s: Seizure)
    requires Matches(loan, value, s)
    ensures Gives(loan, s.repay, s.collateral, 1)
  {
    GivesArithmetic(s.repay, s.collateral, value, DebtPrice(loan), CollateralPrice(loan), DebtUnit(loan), CollateralUnit(loan));
  }

  lemma GivesArithmetic(repay: int, c: int, value: int, u: int, l: int, debtUnit: int, unit: int)
    requires 0 <= repay && 0 <= c && 0 < u && 0 < l && 0 < debtUnit && 0 < unit
    requires 0 < repay ==> (repay - 1) * u < value * debtUnit && value * unit < (c + 1) * l
    ensures (repay - 1) * (u * unit) <= (c + 1) * (l * debtUnit)
  {
    MulLt(0, u, unit);
    MulLt(0, l, debtUnit);
    if repay == 0 {
      MulNonNeg(c + 1, l * debtUnit);
    } else {
      Crossed(repay - 1, value, c + 1, u, l, debtUnit, unit);
    }
  }

  lemma Crossed(r: int, value: int, c: int, u: int, l: int, debtUnit: int, unit: int)
    requires 0 < debtUnit && 0 < unit && r * u < value * debtUnit && value * unit < c * l
    ensures r * (u * unit) <= c * (l * debtUnit)
  {
    MulLt(r * u, value * debtUnit, unit);
    MulLt(value * unit, c * l, debtUnit);
  }

  /** A rescale costs the liquidator at most one more atom. */
  lemma ShareGives(repay: int, c: int, atoms: int, cap: int, share: int, x: int, y: int)
    requires 0 <= cap < repay && 0 <= c && 0 <= atoms && 0 < x && 0 < y
    requires (repay - 1) * x <= (c + atoms) * y && IsShare(share, c, cap, repay)
    ensures (cap - 1) * x <= (share + atoms + 1) * y
  {
    MulLe((repay - 1) * x, (c + atoms) * y, cap);
    LostOfOne(repay, cap, x);
    GainedShare(repay, c, atoms, cap, share, y);
    CancelLe((cap - 1) * x, (share + atoms + 1) * y, repay);
  }

  lemma LostOfOne(repay: int, cap: int, x: int)
    requires cap < repay && 0 < x
    ensures ((cap - 1) * x) * repay <= ((repay - 1) * x) * cap
  {
    MulLe(cap, repay, x);
    assert ((repay - 1) * x) * cap - ((cap - 1) * x) * repay == repay * x - cap * x;
  }

  lemma GainedShare(repay: int, c: int, atoms: int, cap: int, share: int, y: int)
    requires cap < repay && 0 <= atoms && 0 < y && c * cap < (share + 1) * repay
    ensures ((c + atoms) * y) * cap <= ((share + atoms + 1) * y) * repay
  {
    MulLe(cap, repay, atoms);
    MulLe(c * cap + atoms * cap, (share + 1) * repay + atoms * repay, y);
    assert ((c + atoms) * y) * cap == (c * cap + atoms * cap) * y;
    assert ((share + atoms + 1) * y) * repay == ((share + 1) * repay + atoms * repay) * y;
  }

  /**
   The liquidator gets what is paid for: the collateral, without bonus and with two atoms more,
   is worth all but one atom of the repayment, whatever the target and the limit.
   */
  lemma LiquidatorIsPaid(lib: Library, loan: Loan, ltv: IFixed, fee: IFixed, maxRepay: U64)
    requires Priced(loan) && 0 <= fee && SolveWithFee(lib, loan, ltv, fee, maxRepay).Ok?
    ensures var r := SolveWithFee(lib, loan, ltv, fee, maxRepay).value;
            && r.repay == Min(Uncapped(lib, loan, ltv, fee).value.repay, Min(maxRepay, loan.borrowed))
            && Gives(loan, r.repay, r.collateral, 2)
            && (r.collateral * fee < (r.bonus + 1) * ONE_I || r.collateral + r.bonus == loan.collateral)
  {
    var (collateral, adjustedLtv) := Adjusted(lib, loan, ltv, fee).value;
    var s, cap := Uncapped(lib, loan, ltv, fee).value, Min(maxRepay, loan.borrowed);
    SolveMatches(lib, loan, collateral, adjustedLtv);
    MatchGives(loan, SolvedValue(lib, loan, collateral, adjustedLtv).value, s);
    WeightsArePositive(loan);
    CappedGives(loan, s, cap, 1);
    BonusIsBounded(lib, Capped(s, cap), loan.collateral, fee);
  }

  lemma CappedGives(loan: Loan, s: Seizure, cap: U64, atoms: nat)
    requires Gives(loan, s.repay, s.collateral, atoms) && 0 < CollateralPrice(loan) && 0 < DebtPrice(loan)
    ensures Gives(loan, Capped(s, cap).repay, Capped(s, cap).collateral, atoms + 1)
  {
    var x, y := DebtWeight(loan), CollateralPrice(loan) * DebtUnit(loan);
    WeightsArePositive(loan);
    MulLt(0, CollateralPrice(loan), DebtUnit(loan));
    CappedIs(s, cap);
    if cap < s.repay {
      ShareGives(s.repay, s.collateral, atoms, cap, Capped(s, cap).collateral, x, y);
    } else {
      MulLe(s.collateral + atoms, s.collateral + atoms + 1, y);
    }
  }

  // ---------------------------------------------------------------- fractions

  /** The loan's exact loan-to-value ratio, bonus included, is at most one. */
  ghost predicate SolventWithBonus(loan: Loan, fee: int) {
    loan.borrowed * (ONE_I + fee) * DebtWeight(loan) <= loan.collateral * CollateralWeight(loan)
  }

  /** From "paid for" and "solvent" to "no larger fraction", by cancelling the collateral weight. */
  lemma CrossWeights(owed: int, collateral: int, c: int, paid: int, debtWeight: int, weight: int)
    requires 0 < owed && 0 < weight && 0 < paid
    requires c * weight < paid * debtWeight
    requires owed * debtWeight <= collateral * weight
    ensures c * owed < paid * collateral
  {
  }

  lemma FractionArithmetic(f: int, borrowed: int, collateral: int, c: int, bonus: int, paid: int,
                           fee: int, debtWeight: int, weight: int)
    requires 0 < f && 0 <= borrowed && 0 < collateral && 0 < paid && 0 <= fee && 0 < weight
    requires bonus * f <= c * fee
    requires c * weight < paid * debtWeight
    requires borrowed * (f + fee) * debtWeight <= collateral * weight
    ensures borrowed * (c + bonus) * f < paid * collateral
  {
    if borrowed == 0 {
      MulLt(0, paid, collateral);
    } else {
      MulLt(0, borrowed, f + fee);
      CrossWeights(borrowed * (f + fee), collateral, c, paid, debtWeight, weight);
      MulLe(bonus * f, c * fee, borrowed);
      assert c * (borrowed * (f + fee)) == borrowed * (c * f) + borrowed * (c * fee);
      assert borrowed * (c + bonus) * f == borrowed * (c * f) + borrowed * (bonus * f);
    }
  }

  /** No larger fraction of the collateral than of the debt, up to `slack` units of 2^-48 debt atoms. */
  ghost predicate FairFraction(loan: Loan, s: SeizureWithBonus, slack: int) {
    loan.borrowed * (s.collateral + s.bonus) * ONE_I < (s.repay * ONE_I + slack) * loan.collateral
  }

  lemma PaidForIsFair(loan: Loan, r: SeizureWithBonus, fee: int, slack: int)
    requires 0 < CollateralPrice(loan) && 0 < DebtPrice(loan) && 0 <= fee && 0 < slack && 0 < loan.collateral
    requires PaidFor(loan, r.repay, r.collateral, slack) && r.bonus * ONE_I <= r.collateral * fee
    requires SolventWithBonus(loan, fee)
    ensures FairFraction(loan, r, slack)
  {
    WeightsArePositive(loan);
    FractionArithmetic(ONE_I, loan.borrowed, loan.collateral, r.collateral, r.bonus, r.repay * ONE_I + slack,
                       fee, DebtWeight(loan), CollateralWeight(loan));
  }

  /**
   A liquidation never takes a larger fraction of the collateral than it repays of the
   debt, unless the loan with bonus was already under water. Up to 2^48 atoms of
   collateral, and short of saturation, the comparison is exact.
   */
  lemma NeverTakesALargerFraction(lib: Library, loan: Loan, ltv: IFixed, fee: IFixed, maxRepay: U64)
    requires Priced(loan) && 0 <= fee && SolveWithFee(lib, loan, ltv, fee, maxRepay).Ok?
    requires SolventWithBonus(loan, fee)
    ensures var r := SolveWithFee(lib, loan, ltv, fee, maxRepay).value;
            var uncapped := Uncapped(lib, loan, ltv, fee).value.repay;
            && (0 < loan.collateral ==> FairFraction(loan, r, Slack(uncapped)))
            && (loan.collateral <= ONE_I && uncapped < U64_MAX ==>
                  loan.borrowed * (r.collateral + r.bonus) <= r.repay * loan.collateral)
  {
    var r := SolveWithFee(lib, loan, ltv, fee, maxRepay).value;
    var uncapped := Uncapped(lib, loan, ltv, fee).value.repay;
    SeizureIsPaidFor(lib, loan, ltv, fee, maxRepay);
    if 0 < loan.collateral {
      PaidForIsFair(loan, r, fee, Slack(uncapped));
    }
    if loan.collateral <= ONE_I && uncapped < U64_MAX {
      FairIsExact(loan, r);
    }
  }

  lemma FairIsExact(loan: Loan, r: SeizureWithBonus)
    requires r.collateral + r.bonus <= loan.collateral <= ONE_I
    requires 0 < loan.collateral ==> FairFraction(loan, r, 1)
    ensures loan.borrowed * (r.collateral + r.bonus) <= r.repay * loan.collateral
  {
  }

  /** Rescaling to what was actually repaid keeps the fraction fair, although it truncates twice. */
  lemma CappedIsFair(loan: Loan, s: SeizureWithBonus, cap: U64, slack: int)
    requires FairFraction(loan, s, slack) && 0 < slack && 0 < loan.collateral
    ensures FairFraction(loan, CappedWithBonus(s, cap), slack)
  {
    if cap < s.repay {
      var r, total := CappedWithBonus(s, cap), s.collateral + s.bonus;
      ScaledTotal(s, cap);
      FairTotals(loan.borrowed, total, cap, s.repay, loan.collateral, slack, r.collateral + r.bonus);
    }
  }

  lemma FairTotals(borrowed: int, total: int, cap: int, repay: int, collateral: int, slack: int, scaled: int)
    requires 0 <= borrowed && 0 <= total && 0 <= cap < repay && 0 < collateral && 0 < slack
    requires borrowed * total * ONE_I < (repay * ONE_I + slack) * collateral
    requires scaled <= total * cap / repay
    ensures borrowed * scaled * ONE_I < (cap * ONE_I + slack) * collateral
  {
    assert total * (borrowed * ONE_I) == borrowed * total * ONE_I;
    CapArithmetic(ONE_I, slack, total, cap, repay, borrowed * ONE_I, collateral);
    MulLe(scaled, total * cap / repay, borrowed * ONE_I);
    assert scaled * (borrowed * ONE_I) == borrowed * scaled * ONE_I;
  }
}
