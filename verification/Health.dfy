/**
 The loan-to-value test that the market applies after a liquidation: the ratio, computed from
 the debt the remaining shares stand for and the collateral that remains, must not have risen.
 */
module Health {
  import opened Arithmetic
  import opened FixedPoint
  import opened SharePool
  import opened PoolTheorems
  import opened OraclePrice
  import opened Liquidation
  import opened LiquidationTheorems

  /** A loan without debt value has ratio zero, whatever its collateral. */
  function Ltv(lib: Library, loan: Loan): Result<IFixed>
    requires Supported(loan)
  {
    var debt :- BorrowValue(lib, loan.supplyOracle, loan.borrowed, loan.borrowDecimals);
    var backing :- CollateralValue(lib, loan.collateralOracle, loan.collateral, loan.collateralDecimals);
    if debt == 0 then Ok(0) else IDiv(lib, debt, backing)
  }

  /** The market's last check on a liquidation. */
  predicate PassesTest(lib: Library, before: Loan, after: Loan)
    requires Supported(before) && Supported(after)
  {
    Ltv(lib, before).Ok? && Ltv(lib, after).Ok? && Ltv(lib, after).value <= Ltv(lib, before).value
  }

  /** The same loan with less debt and less collateral. */
  ghost predicate Reduces(before: Loan, after: Loan) {
    && after == before.(borrowed := after.borrowed, collateral := after.collateral)
    && after.borrowed <= before.borrowed && after.collateral <= before.collateral
  }

  ghost function DebtValue(loan: Loan): int {
    DebtPrice(loan) * loan.borrowed / DebtUnit(loan)
  }

  ghost function BackingValue(loan: Loan): int {
    CollateralPrice(loan) * loan.collateral / CollateralUnit(loan)
  }

  /** The ratio in closed form. */
  ghost predicate IsRatio(r: Result<IFixed>, debt: int, backing: int) {
    && 0 <= debt && 0 <= backing
    && (debt == 0 ==> r == Ok(0))
    && (0 < debt && backing == 0 ==> r.Err?)
    && (0 < debt && 0 < backing ==> r == ICheck(debt * ONE_I / backing, DivisionOverflow))
  }

  lemma LtvIs(lib: Library, loan: Loan)
    requires Priced(loan) && UpperBound(loan.supplyOracle).Ok?
    requires DebtPrice(loan) * loan.borrowed < TWO127 && CollateralPrice(loan) * loan.collateral < TWO127
    ensures IsRatio(Ltv(lib, loan), DebtValue(loan), BackingValue(loan))
  {
    ValidBounds(loan.collateralOracle);
    var u: IFixed := UpperBound(loan.supplyOracle).value;
    var l: IFixed := LowerBound(loan.collateralOracle).value;
    AtomsToValueIs(lib, u, loan.borrowed, loan.borrowDecimals);
    AtomsToValueIs(lib, l, loan.collateral, loan.collateralDecimals);
    MulNonNeg(u, loan.borrowed);
    MulNonNeg(l, loan.collateral);
    DivBounds(u * loan.borrowed, DebtUnit(loan));
    DivBounds(l * loan.collateral, CollateralUnit(loan));
    if 0 < DebtValue(loan) && 0 < BackingValue(loan) {
      QuotientBounds(lib.div, DebtValue(loan) * ONE_I, BackingValue(loan));
    }
  }

  /** A ratio that can be computed fits. */
  lemma ValuesFit(lib: Library, loan: Loan)
    requires Priced(loan) && Ltv(lib, loan).Ok?
    ensures UpperBound(loan.supplyOracle).Ok? && 0 < CollateralPrice(loan) && 0 < DebtPrice(loan)
    ensures DebtPrice(loan) * loan.borrowed < TWO127 && CollateralPrice(loan) * loan.collateral < TWO127
  {
    ValidBounds(loan.collateralOracle);
    var u: IFixed := UpperBound(loan.supplyOracle).value;
    var l: IFixed := LowerBound(loan.collateralOracle).value;
    AtomsToValueIs(lib, u, loan.borrowed, loan.borrowDecimals);
    AtomsToValueIs(lib, l, loan.collateral, loan.collateralDecimals);
  }

  /**
   Exactly when the test passes, in the two values that remain: the debt has none, or it is
   below the first ratio above the old one. In particular whenever the exact ratio of the two
   values has not risen.
   */
  lemma PassesTestIff(lib: Library, before: Loan, after: Loan)
    requires Priced(before) && Reduces(before, after) && Ltv(lib, before).Ok?
    ensures PassesTest(lib, before, after) <==>
              || DebtValue(after) == 0
              || (0 < BackingValue(after) && DebtValue(after) * ONE_I < (Ltv(lib, before).value + 1) * BackingValue(after))
    ensures DebtValue(after) * BackingValue(before) <= DebtValue(before) * BackingValue(after) && 0 < BackingValue(after) ==>
              PassesTest(lib, before, after)
  {
    ReducedLtvs(lib, before, after);
    RatiosTest(Ltv(lib, before), DebtValue(before), BackingValue(before), Ltv(lib, after), DebtValue(after), BackingValue(after));
  }

  lemma ReducedLtvs(lib: Library, before: Loan, after: Loan)
    requires Priced(before) && Reduces(before, after) && Ltv(lib, before).Ok?
    ensures Supported(after)
    ensures IsRatio(Ltv(lib, before), DebtValue(before), BackingValue(before))
    ensures IsRatio(Ltv(lib, after), DebtValue(after), BackingValue(after))
    ensures DebtValue(after) <= DebtValue(before)
  {
    ValuesFit(lib, before);
    MulLe(after.borrowed, before.borrowed, DebtPrice(before));
    MulLe(after.collateral, before.collateral, CollateralPrice(before));
    LtvIs(lib, before);
    LtvIs(lib, after);
    DivMono(DebtPrice(before) * after.borrowed, DebtPrice(before) * before.borrowed, DebtUnit(before));
  }

  lemma RatiosTest(old': Result<IFixed>, debt: int, backing: int, new': Result<IFixed>, debtLeft: int, backingLeft: int)
    requires IsRatio(old', debt, backing) && old'.Ok? && IsRatio(new', debtLeft, backingLeft) && debtLeft <= debt
    ensures (new'.Ok? && new'.value <= old'.value) <==>
              debtLeft == 0 || (0 < backingLeft && debtLeft * ONE_I < (old'.value + 1) * backingLeft)
    ensures debtLeft * backing <= debt * backingLeft && 0 < backingLeft ==> new'.Ok? && new'.value <= old'.value
  {
    if debtLeft == 0 {
      if 0 < debt {
        DivBounds(debt * ONE_I, backing);
      }
    } else if 0 < backingLeft {
      RatioTest(debtLeft, backingLeft, old'.value);
      RatioOrder(debt, backing, debtLeft, backingLeft);
    }
  }

  lemma RatioTest(debt: int, backing: int, ltv: int)
    requires 0 < debt && 0 < backing
    ensures 0 <= debt * ONE_I / backing
    ensures debt * ONE_I / backing <= ltv <==> debt * ONE_I < (ltv + 1) * backing
  {
    DivBounds(debt * ONE_I, backing);
    assert (ltv + 1) * backing == ltv * backing + backing;
    if debt * ONE_I < (ltv + 1) * backing {
      DivAtMost(debt * ONE_I, backing, ltv);
    } else {
      DivAtLeast(debt * ONE_I, backing, ltv + 1);
    }
  }

  lemma RatioOrder(debt: int, backing: int, debtLeft: int, backingLeft: int)
    requires 0 < debtLeft <= debt && 0 < backingLeft
    ensures 0 < backing && debtLeft * backing <= debt * backingLeft ==>
              debtLeft * ONE_I / backingLeft <= debt * ONE_I / backing
  {
    if 0 < backing && debtLeft * backing <= debt * backingLeft {
      var q := debtLeft * ONE_I / backingLeft;
      DivBounds(debtLeft * ONE_I, backingLeft);
      MulLe(q * backingLeft, debtLeft * ONE_I, backing);
      MulLe(debtLeft * backing, debt * backingLeft, ONE_I);
      assert (q * backingLeft) * backing == (q * backing) * backingLeft;
      assert (debtLeft * ONE_I) * backing == (debtLeft * backing) * ONE_I;
      assert (debt * backingLeft) * ONE_I == (debt * ONE_I) * backingLeft;
      CancelLe(q * backing, debt * ONE_I, backingLeft);
      DivAtLeast(debt * ONE_I, backing, q);
    }
  }

  // ---------------------------------------------------------------- the debt that remains

  /** Rounding up looks at the 64 fractional bits the product keeps. */
  lemma RoundedUp(price: UFixed, shares: UFixed, n: U64)
    ensures Worth(price, shares, RoundUp) == Ok(n) <==>
              (n - 1) * TWO128 + ONE_U <= shares * price < (if n < U64_MAX then n * TWO128 + ONE_U else TWO192)
  {
    MulNonNeg(shares, price);
  }

  /**
   The debt that remains after `charged` atoms paid for `removed` shares is the debt minus the
   charge, or one atom more; which of the two, what the shares fell short of the charge decides.
   */
  ghost predicate Remains(price: UFixed, owed: UFixed, debt: U64, charged: U64, removed: UFixed) {
    && charged <= debt && removed <= owed
    && Worth(price, owed - removed, RoundUp).Ok?
    && var left := Worth(price, owed - removed, RoundUp).value;
    && debt - charged <= left <= debt - charged + 1 && left <= debt
    && (left == debt - charged <==> (owed - removed) * price < (debt - charged) * TWO128 + ONE_U)
  }

  /** A capped repayment at the ledger leaves a position this debt. */
  lemma DebtThatRemains(p: Pool, owed: UFixed, debt: U64, offer: U64)
    requires Worth(p.price, owed, RoundUp) == Ok(debt) && debt < U64_MAX
    requires WithdrawCapped(p, offer, owed, RoundUp).result.Ok?
    ensures var (charged, removed) := WithdrawCapped(p, offer, owed, RoundUp).result.value;
            Remains(p.price, owed, debt, charged, removed)
  {
    if SharesFor(p.price, offer).value <= owed {
      PartOfDebt(p.price, owed, debt, offer);
    } else {
      RoundedUp(p.price, 0, 0);
    }
  }

  lemma PartOfDebt(price: UFixed, owed: UFixed, debt: U64, offer: U64)
    requires Worth(price, owed, RoundUp) == Ok(debt) && debt < U64_MAX
    requires SharesFor(price, offer).Ok? && SharesFor(price, offer).value <= owed
    ensures Remains(price, owed, debt, offer, SharesFor(price, offer).value)
  {
    var removed := SharesFor(price, offer).value;
    PartBounds(price, owed, debt, offer);
    RoundedBetween(price, owed - removed, debt - offer);
  }

  lemma PartBounds(price: UFixed, owed: UFixed, debt: U64, offer: U64)
    requires Worth(price, owed, RoundUp) == Ok(debt) && debt < U64_MAX
    requires SharesFor(price, offer).Ok? && SharesFor(price, offer).value <= owed
    ensures var left := (owed - SharesFor(price, offer).value) * price;
            && offer <= debt
            && (debt - offer - 1) * TWO128 + ONE_U <= left < (debt - offer + 1) * TWO128 + ONE_U
            && (offer == 0 ==> left == owed * price < debt * TWO128 + ONE_U)
  {
    var removed := SharesFor(price, offer).value;
    RoundedUp(price, owed, debt);
    SharesForBounds(price, offer);
    if 0 < offer {
      DepositShortfall(price, offer);
    }
    MulLe(removed, owed, price);
    RemainderBounds(owed, removed, price, debt, offer);
  }

  lemma RoundedBetween(price: UFixed, shares: UFixed, n: U64)
    requires n < U64_MAX && (n - 1) * TWO128 + ONE_U <= shares * price < (n + 1) * TWO128 + ONE_U
    ensures Worth(price, shares, RoundUp).Ok? && n <= Worth(price, shares, RoundUp).value <= n + 1
    ensures Worth(price, shares, RoundUp).value == n <==> shares * price < n * TWO128 + ONE_U
  {
    RoundedUp(price, shares, n);
    if n + 1 < U64_MAX {
      RoundedUp(price, shares, n + 1);
    }
  }

  lemma RemainderBounds(owed: int, removed: int, price: int, debt: int, charged: int)
    requires (debt - 1) * TWO128 + ONE_U <= owed * price < debt * TWO128 + ONE_U
    requires removed * price <= charged * TWO128 && 0 <= charged
    requires 0 < charged ==> (charged - 1) * TWO128 + ONE_U <= removed * price
    requires charged == 0 ==> removed * price == 0
    requires 0 <= owed * price - removed * price
    ensures var left := (owed - removed) * price;
            (debt - charged - 1) * TWO128 + ONE_U <= left < (debt - charged + 1) * TWO128 + ONE_U
    ensures charged <= debt
  {
    assert (owed - removed) * price == owed * price - removed * price;
  }

  // ---------------------------------------------------------------- when a liquidation passes

  /**
   Room for the roundings: the repayment, times what the loan with bonus is short of being
   worth its collateral, is at least one atom, two units of value in atoms, and the slack.
   */
  ghost predicate HasMargin(loan: Loan, repay: int, fee: int, slack: int) {
    var backing, owed := loan.collateral * CollateralWeight(loan), loan.borrowed * (ONE_I + fee) * DebtWeight(loan);
    backing * (DebtPrice(loan) * (ONE_I + slack) + 2 * (DebtUnit(loan) * ONE_I)) <= repay * (DebtPrice(loan) * ONE_I) * (backing - owed)
  }

  /** Each rounding on one scale, against what the margin leaves. */
  lemma MarginCovers(f: int, u: int, l: int, d: int, e: int, b: int, c: int, total: int, r: int, fee: int, slack: int,
                     a: int, z: int)
    requires 0 < f && 0 < u && 0 < l && 0 < d && 0 < e && 0 <= b && 0 <= fee && 0 < slack
    requires a == c * (l * d * f) && z == b * (f + fee) * (u * e) && 0 <= z <= a
    requires total * (f * (l * d * f)) <= (r * f + slack) * ((u * e) * (f + fee))
    requires a * (u * (f + slack) + 2 * (d * f)) <= r * (u * f) * (a - z)
    ensures u * b * (l * total) + u * b * e + d * (l * c) + u * (l * c) <= u * r * (l * c)
  {
    var k := d * f * f;
    MulLt(0, d, f);
    MulLt(0, d * f, f);
    SeizedCost(f, u, l, d, e, b, total, r, fee, slack, z);
    DebtRounding(f, u, d, e, b, fee, z);
    Rearranged(d, l, c, d, f);
    Rearranged(u, l, c, d, f);
    Rearranged(u * r, l, c, d, f);
    MarginSum(f, u, d, r, slack, a, z);
    SumCancels(u * b * (l * total), u * b * e, d * (l * c), u * (l * c), u * r * (l * c), k);
  }

  lemma SumCancels(w: int, x: int, y: int, z: int, total: int, k: int)
    requires 0 < k && w * k + x * k + y * k + z * k <= total * k
    ensures w + x + y + z <= total
  {
    assert (w + x + y + z) * k == w * k + x * k + y * k + z * k;
    CancelLe(w + x + y + z, total, k);
  }

  lemma Rearranged(x: int, l: int, c: int, d: int, f: int)
    ensures (x * (l * c)) * (d * f * f) == x * f * (c * (l * d * f))
  {
  }

  lemma SeizedCost(f: int, u: int, l: int, d: int, e: int, b: int, total: int, r: int, fee: int, slack: int, z: int)
    requires 0 < u && 0 <= b && z == b * (f + fee) * (u * e)
    requires total * (f * (l * d * f)) <= (r * f + slack) * ((u * e) * (f + fee))
    ensures (u * b * (l * total)) * (d * f * f) <= u * (r * f + slack) * z
  {
    MulNonNeg(u, b);
    MulLe(total * (f * (l * d * f)), (r * f + slack) * ((u * e) * (f + fee)), u * b);
    Rearranged(u * b, l, total, d, f);
    Regrouped(u * b, f, total, l * d * f);
    Reordered(u, b, r * f + slack, u * e, f + fee);
  }

  lemma Regrouped(x: int, f: int, total: int, w: int)
    ensures (total * (f * w)) * x == x * f * (total * w)
  {
  }

  lemma Reordered(u: int, b: int, p: int, x: int, g: int)
    ensures (p * (x * g)) * (u * b) == u * p * (b * g * x)
  {
  }

  lemma DebtRounding(f: int, u: int, d: int, e: int, b: int, fee: int, z: int)
    requires 0 < f && 0 < u && 0 < d && 0 < e && 0 <= b && 0 <= fee && z == b * (f + fee) * (u * e)
    ensures (u * b * e) * (d * f * f) <= d * f * z
  {
    var x := u * e;
    MulLt(0, u, e);
    MulLe(f, f + fee, b);
    MulLe(b * f, b * (f + fee), x);
    MulLt(0, d, f);
    MulLe(b * f * x, z, d * f);
    assert (u * b * e) * (d * f * f) == (b * f * x) * (d * f);
  }

  lemma MarginSum(f: int, u: int, d: int, r: int, slack: int, a: int, z: int)
    requires 0 < f && 0 < u && 0 < d && 0 < slack && 0 <= z <= a
    requires a * (u * (f + slack) + 2 * (d * f)) <= r * (u * f) * (a - z)
    ensures u * (r * f + slack) * z + d * f * z + d * f * a + u * f * a <= u * r * f * a
  {
    var uf, us, df := u * f, u * slack, d * f;
    MulLt(0, u, slack);
    MulLt(0, d, f);
    MulLe(z, a, us);
    MulLe(z, a, df);
    assert a * (u * (f + slack) + 2 * (d * f)) == uf * a + us * a + 2 * (df * a);
    assert r * (u * f) * (a - z) == (r * uf) * a - (r * uf) * z;
    assert u * (r * f + slack) * z == (r * uf) * z + us * z;
    assert u * r * f * a == (r * uf) * a;
  }

  lemma ProductsOrdered(u: int, l: int, d: int, e: int, b: int, left: int, c: int, total: int, r: int)
    requires 0 < u && 0 < l && 0 < d && 0 < e && 0 <= c && 0 <= total && left <= b - r + 1
    requires u * b * (l * total) + u * b * e + d * (l * c) + u * (l * c) <= u * r * (l * c)
    ensures (u * left) * (l * c) <= (u * b - d) * (l * (c - total) - e)
  {
    var q, t := l * c, l * total;
    MulNonNeg(l, c);
    MulNonNeg(l, total);
    MulNonNeg(u, q);
    MulNonNeg(d, t);
    MulLt(0, d, e);
    MulLe(left, b - r + 1, u * q);
    Expanded(u, b, left, r, q, t, d, e);
    assert l * (c - total) - e == q - t - e;
  }

  lemma Expanded(u: int, b: int, left: int, r: int, q: int, t: int, d: int, e: int)
    ensures (u * left) * q == left * (u * q)
    ensures (b - r + 1) * (u * q) == u * b * q - u * r * q + u * q
    ensures (u * b - d) * (q - t - e) == u * b * q - u * b * t - u * b * e - d * q + d * t + d * e
  {
  }

  lemma ValuesOrdered(u: int, l: int, d: int, e: int, b: int, left: int, c: int, rest: int)
    requires 0 < u && 0 < l && 0 < d && 0 < e && left <= b
    requires 0 < u * left / d && 0 < l * c / e
    requires (u * left) * (l * c) <= (u * b - d) * (l * rest - e)
    ensures 0 < l * rest / e && (u * left / d) * (l * c / e) <= (u * b / d) * (l * rest / e)
  {
    DivBounds(u * left, d);
    DivBounds(l * c, e);
    DivBounds(u * b, d);
    DivBounds(l * rest, e);
    MulLe(left, b, u);
    Floors(u * left, l * c, u * b, l * rest, d, e, u * left / d, l * c / e, u * b / d, l * rest / e);
  }

  lemma Floors(p: int, q: int, m: int, n: int, d: int, e: int, pd: int, qe: int, md: int, ne: int)
    requires 0 < d && 0 < e && 0 < pd && 0 < qe && p <= m
    requires pd * d <= p && qe * e <= q && m - d < md * d && n - e < ne * e
    requires p * q <= (m - d) * (n - e)
    ensures 0 < ne && pd * qe <= md * ne
  {
    MulLe(1, pd, d);
    MulLe(1, qe, e);
    MulLt(0, p, q);
    PositiveFactor(m - d, n - e);
    CancelLt(0, ne, e);
    MulMono(pd * d, p, qe * e, q);
    MulMono(m - d, md * d, n - e, ne * e);
    CancelBoth(pd, qe, md, ne, d, e);
  }

  lemma PositiveFactor(x: int, y: int)
    requires 0 <= x && 0 < x * y
    ensures 0 < y
  {
  }

  lemma CancelBoth(a: int, b: int, x: int, y: int, d: int, e: int)
    requires 0 < d && 0 < e && (a * d) * (b * e) <= (x * d) * (y * e)
    ensures a * b <= x * y
  {
    MulLt(0, d, e);
    assert (a * d) * (b * e) == (a * b) * (d * e);
    assert (x * d) * (y * e) == (x * y) * (d * e);
    CancelLe(a * b, x * y, d * e);
  }

  /** A seizure that is paid for, out of a solvent loan, passes the test whenever it leaves the margin. */
  lemma MarginPasses(lib: Library, loan: Loan, after: Loan, s: SeizureWithBonus, fee: int, slack: int)
    requires Priced(loan) && Reduces(loan, after) && Ltv(lib, loan).Ok? && 0 <= fee && 0 < slack
    requires SolventWithBonus(loan, fee) && PaidForWithBonus(loan, s, fee, slack) && HasMargin(loan, s.repay, fee, slack)
    requires after.borrowed <= loan.borrowed - s.repay + 1
    requires after.collateral == loan.collateral - s.collateral - s.bonus
    ensures PassesTest(lib, loan, after)
  {
    ValuesFit(lib, loan);
    ReducedLtvs(lib, loan, after);
    PassesTestIff(lib, loan, after);
    if DebtValue(after) != 0 {
      MarginOrders(loan, after, s, fee, slack);
    }
  }

  lemma MarginOrders(loan: Loan, after: Loan, s: SeizureWithBonus, fee: int, slack: int)
    requires 0 < DebtPrice(loan) && 0 < CollateralPrice(loan) && Reduces(loan, after) && 0 <= fee && 0 < slack
    requires SolventWithBonus(loan, fee) && PaidForWithBonus(loan, s, fee, slack) && HasMargin(loan, s.repay, fee, slack)
    requires after.borrowed <= loan.borrowed - s.repay + 1
    requires after.collateral == loan.collateral - s.collateral - s.bonus
    requires 0 < DebtValue(after) && 0 < BackingValue(loan)
    ensures 0 < BackingValue(after)
    ensures DebtValue(after) * BackingValue(loan) <= DebtValue(loan) * BackingValue(after)
  {
    var u, l, d, e := DebtPrice(loan), CollateralPrice(loan), DebtUnit(loan), CollateralUnit(loan);
    var total := s.collateral + s.bonus;
    MulNonNeg(loan.borrowed, ONE_I + fee);
    MulLt(0, u, e);
    MulNonNeg(loan.borrowed * (ONE_I + fee), u * e);
    MarginCovers(ONE_I, u, l, d, e, loan.borrowed, loan.collateral, total, s.repay, fee, slack,
                 loan.collateral * CollateralWeight(loan), loan.borrowed * (ONE_I + fee) * DebtWeight(loan));
    ProductsOrdered(u, l, d, e, loan.borrowed, after.borrowed, loan.collateral, total, s.repay);
    ValuesOrdered(u, l, d, e, loan.borrowed, after.borrowed, loan.collateral, after.collateral);
  }
}
