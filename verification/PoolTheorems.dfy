/** What truncation costs, and whom it favours, in one ledger operation. */
module PoolTheorems {
  import opened Arithmetic
  import opened FixedPoint
  import opened SharePool

  /** Bought shares are worth at most what was paid, and less than one share-bit short of it. */
  lemma SharesForBounds(price: UFixed, atoms: U64)
    requires SharesFor(price, atoms).Ok?
    ensures var s := SharesFor(price, atoms).value;
            0 < price && s * price <= atoms * TWO128 < s * price + price
  {
  }

  // ---------------------------------------------------------------- deposit and redeem

  /**
   At every representable price a deposit of at least one atom mints something, and
   what it mints redeems for the deposit or one atom less; rounded up it is the
   deposit exactly.
   */
  lemma DepositRoundTrip(p: Pool, atoms: U64)
    requires Deposit(p, atoms).result.Ok?
    ensures var s := Deposit(p, atoms).result.value;
            && (s == 0 <==> atoms == 0)
            && Worth(p.price, s, RoundUp) == Ok(atoms)
            && Worth(p.price, s, RoundDown).Ok?
            && atoms - 1 <= Worth(p.price, s, RoundDown).value <= atoms
            && Redeem(Deposit(p, atoms).pool, s, RoundUp) == Outcome(p, Ok(atoms))
  {
    var s := Deposit(p, atoms).result.value;
    SharesForBounds(p.price, atoms);
    if 0 < atoms {
      DepositShortfall(p.price, atoms);
    }
  }

  /** A deposit goes through exactly if the shares it buys still fit. */
  lemma DepositSucceedsIff(p: Pool, atoms: U64)
    ensures Deposit(p, atoms).result.Ok? <==> 0 < p.price && atoms * TWO128 < (TWO128 - p.shares) * p.price
    ensures Deposit(p, atoms).result.Err? ==>
              Deposit(p, atoms) == Outcome(p, Err(if 0 < p.price && (atoms == 0 || atoms < p.price) then AdditionOverflow else DivisionOverflow))
  {
    if 0 < p.price {
      SharesForFits(p.price, atoms);
      QuotientBelow(atoms * TWO128, p.price, TWO128 - p.shares);
      QuotientBelow(atoms * TWO128, p.price, TWO128);
      MulLe(TWO128 - p.shares, TWO128, p.price);
    }
  }

  /** A withdrawal by atoms exactly if one share-bit more than there is would be worth more. */
  lemma WithdrawSucceedsIff(p: Pool, atoms: U64)
    ensures Withdraw(p, atoms).result.Ok? <==> 0 < p.price && atoms * TWO128 < (p.shares + 1) * p.price
    ensures Withdraw(p, atoms).result.Err? ==>
              Withdraw(p, atoms) == Outcome(p, Err(if 0 < p.price && (atoms == 0 || atoms < p.price) then SharesOverflow else DivisionOverflow))
  {
    if 0 < p.price {
      SharesForFits(p.price, atoms);
      QuotientBelow(atoms * TWO128, p.price, p.shares + 1);
      QuotientBelow(atoms * TWO128, p.price, TWO128);
      MulLe(p.shares + 1, TWO128, p.price);
    }
  }

  /** A redemption exactly if the pool has the shares and their value converts. */
  lemma RedeemSucceedsIff(p: Pool, shares: UFixed, mode: RoundingMode)
    ensures Redeem(p, shares, mode).result.Ok? <==> shares <= p.shares && shares * p.price < TWO192
    ensures Redeem(p, shares, mode).result.Err? ==>
              Redeem(p, shares, mode) == Outcome(p, Err(if shares * p.price < TWO192 then SharesOverflow else MultiplicationOverflow))
  {
  }

  lemma QuotientBelow(a: int, b: int, bound: int)
    requires 0 < b
    ensures a / b < bound <==> a < bound * b
  {
    DivBounds(a, b);
    if a / b < bound {
      MulLe(a / b + 1, bound, b);
    } else {
      MulLe(bound, a / b, b);
    }
  }

  lemma DonateSucceedsIff(p: Pool, atoms: U64)
    ensures Donate(p, atoms).result.Ok? <==> 0 < p.shares && atoms * TWO128 < (TWO128 - p.price) * p.shares
    ensures p.shares == 0 ==> Donate(p, atoms) == Socialize(p, atoms) == Outcome(p, Err(CantModifySharePriceIfZeroShares))
  {
    if 0 < p.shares {
      SharesForFits(p.shares, atoms);
      QuotientBelow(atoms * TWO128, p.shares, TWO128 - p.price);
      QuotientBelow(atoms * TWO128, p.shares, TWO128);
      MulLe(TWO128 - p.price, TWO128, p.shares);
    }
  }

  /** A capped repayment exactly if the offer converts and the ledger holds what it removes. */
  lemma CappedSucceedsIff(p: Pool, atoms: U64, cap: UFixed, mode: RoundingMode)
    ensures WithdrawCapped(p, atoms, cap, mode).result.Ok? <==>
              0 < p.price && (atoms == 0 || atoms < p.price) && (cap <= p.shares || atoms * TWO128 < (p.shares + 1) * p.price)
  {
    if 0 < p.price && (atoms == 0 || atoms < p.price) {
      SharesForFits(p.price, atoms);
      QuotientBelow(atoms * TWO128, p.price, p.shares + 1);
      if cap <= p.shares {
        CappedAlwaysSettles(p, atoms, cap, mode);
      }
    }
  }

  /** Accrual at a non-negative rate exactly if the grown price still fits. */
  lemma AccrueSucceedsIff(lib: Library, p: Pool, rate: IFixed)
    requires 0 <= rate
    ensures Accrue(lib, p, rate).result.Ok? <==> p.shares == 0 || (p.price / TWO16) * (ONE_I + rate) < TWO112 * ONE_I
  {
    var cut := p.price / TWO16;
    MulNonNeg(rate, cut);
    QuotientBounds(lib.mul, rate * cut, ONE_I);
    QuotientBelow(rate * cut, ONE_I, TWO112 - cut);
    assert cut * (ONE_I + rate) == cut * ONE_I + rate * cut;
    assert (TWO112 - cut) * ONE_I == TWO112 * ONE_I - cut * ONE_I;
  }

  /**
   The shortfall of a deposit never reaches the last 2^64 of an atom's 2^128 units.
   Below the top of the price range that is the price itself; at the top the number
   of shares equals the number of atoms, which are too few to add up to it.
   */
  lemma DepositShortfall(price: UFixed, atoms: U64)
    requires 0 < atoms && SharesFor(price, atoms).Ok?
    ensures var s := SharesFor(price, atoms).value;
            0 < s && (atoms - 1) * TWO128 + ONE_U <= s * price
  {
    SharesForBounds(price, atoms);
    if TWO128 - ONE_U < price {
      var d := TWO128 - price;
      MulMono(atoms, U64_MAX, d, U64_MAX);
      assert atoms * price == atoms * TWO128 - atoms * d;
      DivIs(atoms * TWO128, price, atoms);
    }
  }

  /** Paying out `atoms` lowers the rounded total by that amount or by one less. */
  lemma WithdrawLowersTotal(p: Pool, atoms: U64)
    requires Total(p, RoundDown).Ok? && Withdraw(p, atoms).result.Ok?
    ensures var rest := Withdraw(p, atoms).pool;
            && Total(rest, RoundDown).Ok?
            && atoms - 1 <= Total(p, RoundDown).value - Total(rest, RoundDown).value <= atoms
  {
    var s := Withdraw(p, atoms).result.value;
    SharesForBounds(p.price, atoms);
    assert (p.shares - s) * p.price == Value(p) - s * p.price;
    MulNonNeg(p.shares - s, p.price);
    MulNonNeg(s, p.price);
  }

  /**
   Withdrawing a number of atoms removes shares worth exactly that only when the price
   divides it; otherwise the claimant keeps the difference, which is less than one atom.
   */
  lemma WithdrawFavoursClaimantIff(p: Pool, atoms: U64)
    requires Withdraw(p, atoms).result.Ok?
    ensures var removed := Value(p) - Value(Withdraw(p, atoms).pool);
            && (atoms - 1) * TWO128 < removed <= atoms * TWO128
            && (removed < atoms * TWO128 <==> atoms * TWO128 % p.price != 0)
  {
  }

  // ---------------------------------------------------------------- capped repayment

  /**
   A capped repayment charges at most what was offered in either rounding mode,
   removes at most the cap, spends the whole offer unless it hits the cap, and when
   rounding up charges the exact value of the removed shares to within 2^-64 atoms.
   */
  lemma CappedNeverOvercharges(p: Pool, atoms: U64, cap: UFixed, mode: RoundingMode)
    requires WithdrawCapped(p, atoms, cap, mode).result.Ok?
    ensures var (charged, removed) := WithdrawCapped(p, atoms, cap, mode).result.value;
            && charged <= atoms
            && removed <= cap
            && removed <= p.shares
            && WithdrawCapped(p, atoms, cap, mode).pool == p.(shares := p.shares - removed)
            && (charged == atoms || removed == cap)
            && (mode == RoundUp ==> removed * p.price < charged * TWO128 + ONE_U)
            && (charged - 1) * TWO128 < removed * p.price
  {
    var s := SharesFor(p.price, atoms).value;
    SharesForBounds(p.price, atoms);
    if cap < s {
      MulLe(cap + 1, s, p.price);
      MulNonNeg(cap, p.price);
      assert (cap + 1) * p.price == cap * p.price + p.price;
    }
  }

  /** It fails only if the offer itself does not convert or the ledger does not hold the cap. */
  lemma CappedAlwaysSettles(p: Pool, atoms: U64, cap: UFixed, mode: RoundingMode)
    requires SharesFor(p.price, atoms).Ok? && cap <= p.shares
    ensures WithdrawCapped(p, atoms, cap, mode).result.Ok?
  {
    var s := SharesFor(p.price, atoms).value;
    SharesForBounds(p.price, atoms);
    if cap < s {
      MulLe(cap, s, p.price);
    }
  }

  // ---------------------------------------------------------------- donation and write-down

  /** Donating raises the exact value by more than `atoms - 1` and at most `atoms`. */
  lemma DonateIsTight(p: Pool, atoms: U64)
    requires Donate(p, atoms).result.Ok?
    ensures var q := Donate(p, atoms).pool;
            && q.shares == p.shares
            && (atoms - 1) * TWO128 < Value(q) - Value(p) <= atoms * TWO128
  {
  }

  lemma SocializeIsTight(p: Pool, atoms: U64)
    requires Socialize(p, atoms).result.Ok?
    ensures var q := Socialize(p, atoms).pool;
            && q.shares == p.shares
            && (atoms - 1) * TWO128 < Value(p) - Value(q) <= atoms * TWO128
  {
  }

  /** A loss can be written down exactly when it is less than the pool value plus one price-bit per share. */
  lemma SocializeSucceedsIff(p: Pool, atoms: U64)
    requires 0 < p.shares
    ensures Socialize(p, atoms).result.Ok? <==> atoms * TWO128 < Value(p) + p.shares
    ensures atoms * TWO128 <= Value(p) ==> Socialize(p, atoms).result.Ok?
  {
    SharesForFits(p.shares, atoms);
    DivBounds(atoms * TWO128, p.shares);
    var d := atoms * TWO128 / p.shares;
    assert (p.price + 1) * p.shares == Value(p) + p.shares;
    if d <= p.price {
      MulLe(d, p.price, p.shares);
    } else {
      MulLe(p.price + 1, d, p.shares);
    }
  }

  /** Either order of a donation and an equal loss leaves the pool as it was. */
  lemma DonateSocializeInverse(p: Pool, atoms: U64)
    ensures Donate(p, atoms).result.Ok? ==> Socialize(Donate(p, atoms).pool, atoms) == Outcome(p, Ok(()))
    ensures Socialize(p, atoms).result.Ok? ==> Donate(Socialize(p, atoms).pool, atoms) == Outcome(p, Ok(()))
  {
  }

  // ---------------------------------------------------------------- interest

  /** Growth in closed form: both factors are cut to 48 bits, the interest is truncated, the rest is exact. */
  lemma GrownIs(lib: Library, price: UFixed, rate: IFixed)
    requires 0 <= rate && Grown(lib, price, rate).Ok?
    ensures var cut, g := price / TWO16, Grown(lib, price, rate).value;
            var interest := rate * cut / ONE_I;
            && 0 <= interest
            && g == (cut + interest) * TWO16
            && interest * ONE_I <= rate * cut < interest * ONE_I + ONE_I
            && cut * TWO16 <= price < cut * TWO16 + TWO16
  {
    var cut := price / TWO16;
    MulNonNeg(rate, cut);
    QuotientBounds(lib.mul, rate * cut, ONE_I);
    DivBounds(rate * cut, ONE_I);
  }

  /** The price never falls below its own 48-bit part, and comes out a multiple of 2^16. */
  lemma GrownFloor(lib: Library, price: UFixed, rate: IFixed)
    requires 0 <= rate && Grown(lib, price, rate).Ok?
    ensures var g := Grown(lib, price, rate).value; price - price % TWO16 <= g && g % TWO16 == 0
  {
    GrownIs(lib, price, rate);
    var cut := price / TWO16;
    MultipleFloor(price, cut, cut + rate * cut / ONE_I);
  }

  lemma MultipleFloor(price: int, cut: int, grown: int)
    requires cut == price / TWO16 && cut <= grown
    ensures price - price % TWO16 <= grown * TWO16 && (grown * TWO16) % TWO16 == 0
  {
  }

  /** Interest never overshoots the exact product and undershoots it by a few units of 2^-48. */
  lemma GrownSandwich(lib: Library, price: UFixed, rate: IFixed)
    requires 0 <= rate && Grown(lib, price, rate).Ok?
    ensures var g := Grown(lib, price, rate).value;
            price * (ONE_I + rate) - TWO16 * (2 * ONE_I + rate) < g * ONE_I <= price * (ONE_I + rate)
  {
    GrownIs(lib, price, rate);
    var cut := price / TWO16;
    GrownBounds(price, rate, cut, rate * cut / ONE_I);
  }

  lemma GrownBounds(price: int, rate: int, cut: int, interest: int)
    requires 0 <= rate && cut * TWO16 <= price < cut * TWO16 + TWO16
    requires interest * ONE_I <= rate * cut < interest * ONE_I + ONE_I
    ensures price * (ONE_I + rate) - TWO16 * (2 * ONE_I + rate) < ((cut + interest) * TWO16) * ONE_I <= price * (ONE_I + rate)
  {
    MulLe(cut * TWO16, price, ONE_I + rate);
    MulLe(price - TWO16, cut * TWO16, ONE_I + rate);
    assert (cut * TWO16) * (ONE_I + rate) == TWO16 * (cut * ONE_I) + TWO16 * (rate * cut);
    assert (price - TWO16) * (ONE_I + rate) == price * (ONE_I + rate) - TWO16 * (ONE_I + rate);
  }

  /** For any rate, even a negative one, the same few units bound the error on both sides. */
  lemma GrownNear(lib: Library, price: UFixed, rate: IFixed)
    requires Grown(lib, price, rate).Ok?
    ensures var g, dust := Grown(lib, price, rate).value, TWO16 * (2 * ONE_I + Abs(rate));
            price * (ONE_I + rate) - dust <= g * ONE_I <= price * (ONE_I + rate) + dust
  {
    var cut := price / TWO16;
    DivBounds(price, TWO16);
    QuotientBounds(lib.mul, rate * cut, ONE_I);
    NearArithmetic(price, rate, cut, Quotient(lib.mul, rate * cut, ONE_I));
  }

  lemma NearArithmetic(price: int, rate: int, cut: int, interest: int)
    requires cut * TWO16 <= price < cut * TWO16 + TWO16
    requires rate * cut - ONE_I < interest * ONE_I < rate * cut + ONE_I
    ensures var g, dust := (cut + interest) * TWO16, TWO16 * (2 * ONE_I + Abs(rate));
            price * (ONE_I + rate) - dust <= g * ONE_I <= price * (ONE_I + rate) + dust
  {
    var low := price - cut * TWO16;
    MulLe(0, low, Abs(rate));
    MulLe(low, TWO16, Abs(rate));
    assert low * rate == low * Abs(rate) || low * rate == -(low * Abs(rate));
    assert price * (ONE_I + rate) == (cut * ONE_I) * TWO16 + (rate * cut) * TWO16 + low * ONE_I + low * rate;
  }

  lemma GrownMonotone(lib: Library, price: UFixed, rate: IFixed, more: IFixed)
    requires 0 <= rate <= more
    requires Grown(lib, price, rate).Ok? && Grown(lib, price, more).Ok?
    ensures Grown(lib, price, rate).value <= Grown(lib, price, more).value
  {
    GrownIs(lib, price, rate);
    GrownIs(lib, price, more);
    var cut := price / TWO16;
    MulLe(rate, more, cut);
    DivMono(rate * cut, more * cut, ONE_I);
  }

  /** The split is exact up to one truncation each: no atom of interest is counted twice. */
  lemma SplitIs(lib: Library, total: U64, rate: IFixed, fee: UFixed)
    requires 0 < total && 0 <= rate && fee <= ONE_U && Split(lib, total, rate, fee).Ok?
    ensures var (feeAtoms, netRate) := Split(lib, total, rate, fee).value;
            var feeCut := fee / TWO16;
            && 0 <= feeAtoms <= rate * total
            && 0 <= netRate <= rate
            && feeAtoms * ONE_I <= (rate * total) * feeCut < feeAtoms * ONE_I + ONE_I
            && netRate * total <= rate * total - feeAtoms < netRate * total + total
  {
    var interest, feeCut := rate * total, fee / TWO16;
    MulNonNeg(rate, total);
    MulNonNeg(interest, feeCut);
    QuotientBounds(lib.mul, interest * feeCut, ONE_I);
    DivBounds(interest * feeCut, ONE_I);
    MulLe(feeCut, ONE_I, interest);
    var feeAtoms := interest * feeCut / ONE_I;
    QuotientBounds(TowardZero, interest - feeAtoms, total);
    DivBounds(interest - feeAtoms, total);
    DivAtMost(interest - feeAtoms, total, rate);
  }

  lemma FeeSharesAre(lib: Library, feeAtoms: IFixed, price: UFixed)
    requires 0 <= feeAtoms && price % TWO16 == 0 && FeeShares(lib, feeAtoms, price).Ok?
    ensures var minted, cut := FeeShares(lib, feeAtoms, price).value, price / TWO16;
            && 0 < cut
            && minted % TWO16 == 0
            && (minted / TWO16) * cut <= feeAtoms * ONE_I < (minted / TWO16) * cut + cut
  {
  }

  /** The quantities of a successful accrual with fee on a non-empty pool, and what ties them together. */
  ghost predicate FeeAccrual(lib: Library, p: Pool, rate: IFixed, fee: UFixed, q: Pool, minted: UFixed,
                             total: U64, feeAtoms: IFixed, netRate: IFixed, cut: int, growth: int)
  {
    && 0 < total && total * TWO128 <= Value(p) < total * TWO128 + TWO128
    && Split(lib, total, rate, fee) == Ok((feeAtoms, netRate))
    && 0 <= feeAtoms <= rate * total
    && 0 <= netRate <= rate
    && feeAtoms * ONE_I <= (rate * total) * (fee / TWO16) < feeAtoms * ONE_I + ONE_I
    && netRate * total <= rate * total - feeAtoms < netRate * total + total
    && cut == p.price / TWO16 && cut * TWO16 <= p.price < cut * TWO16 + TWO16
    && 0 <= growth && growth * ONE_I <= netRate * cut < growth * ONE_I + ONE_I
    && Grown(lib, p.price, netRate) == Ok(q.price)
    && q.price == (cut + growth) * TWO16
    && q.shares == p.shares + minted
    && minted == (minted / TWO16) * TWO16
    && (minted / TWO16) * (cut + growth) <= feeAtoms * ONE_I < (minted / TWO16) * (cut + growth) + (cut + growth)
  }

  /** A success means that every one of the steps succeeded. */
  lemma FeeAccrualUnfolds(lib: Library, p: Pool, rate: IFixed, fee: UFixed)
    requires 0 <= rate && AccrueWithFee(lib, p, rate, fee).result.Ok? && Total(p, RoundDown) != Ok(0)
    ensures var out := AccrueWithFee(lib, p, rate, fee);
            && Total(p, RoundDown).Ok? && 0 < Total(p, RoundDown).value
            && Split(lib, Total(p, RoundDown).value, rate, fee).Ok?
            && var (feeAtoms, netRate) := Split(lib, Total(p, RoundDown).value, rate, fee).value;
            && Grown(lib, p.price, netRate) == Ok(out.pool.price)
            && FeeShares(lib, feeAtoms, out.pool.price) == Ok(out.result.value)
            && out.pool.shares == p.shares + out.result.value
  {
  }

  lemma FeeAccrualParts(lib: Library, p: Pool, rate: IFixed, fee: UFixed)
    returns (total: U64, feeAtoms: IFixed, netRate: IFixed, cut: int, growth: int)
    requires 0 <= rate && fee <= ONE_U && AccrueWithFee(lib, p, rate, fee).result.Ok?
    requires Total(p, RoundDown) != Ok(0)
    ensures var out := AccrueWithFee(lib, p, rate, fee);
            FeeAccrual(lib, p, rate, fee, out.pool, out.result.value, total, feeAtoms, netRate, cut, growth)
  {
    FeeAccrualUnfolds(lib, p, rate, fee);
    var out := AccrueWithFee(lib, p, rate, fee);
    total := Total(p, RoundDown).value;
    assert total * TWO128 <= Value(p) < total * TWO128 + TWO128 by {
      DivBounds(Value(p), TWO128);
    }
    SplitIs(lib, total, rate, fee);
    feeAtoms, netRate := Split(lib, total, rate, fee).value.0, Split(lib, total, rate, fee).value.1;
    GrownIs(lib, p.price, netRate);
    cut := p.price / TWO16;
    growth := netRate * cut / ONE_I;
    assert out.pool.price / TWO16 == cut + growth;
    FeeSharesAre(lib, feeAtoms, out.pool.price);
  }

  /** Value after the accrual: the old shares at the new price plus the minted ones. */
  lemma ValueAfter(shares: int, m: int, cut: int)
    ensures (shares + m * TWO16) * (cut * TWO16) == shares * (TWO16 * cut) + TWO16 * TWO16 * (m * cut)
  {
  }

  lemma ClaimsBound(value: int, shares: int, price: int, total: int, rate: int,
                    feeAtoms: int, netRate: int, cut: int, growth: int, m: int)
    requires value == shares * price && 0 <= shares && 0 <= cut
    requires 0 < total && total * TWO128 <= value && 0 <= feeAtoms && 0 <= netRate <= rate
    requires feeAtoms <= (rate - netRate) * total
    requires cut * TWO16 <= price
    requires growth * ONE_I <= netRate * cut < growth * ONE_I + ONE_I
    requires m * (cut + growth) <= feeAtoms * ONE_I
    ensures (shares + m * TWO16) * ((cut + growth) * TWO16) * ONE_I <= value * (ONE_I + rate)
  {
    var base := shares * (TWO16 * cut);
    HoldersPart(shares, price, cut, growth, netRate);
    MulLe(TWO16 * cut, price, shares);
    MulNonNeg(shares, TWO16 * cut);
    NetPlusFee(TWO128, value, base, total, rate, feeAtoms, netRate);
    ValueAfter(shares, m, cut + growth);
    assert value * (ONE_I + rate) == value * ONE_I + value * rate;
  }

  /**
   Accrual with a fee creates no claims beyond the gross interest: the exact value
   afterwards is at most `Value * (1 + rate)`. The pool total is truncated to whole
   atoms before the split, which raises the holders' net rate; the same truncation
   lowers the fee by exactly as much.
   */
  lemma FeeAccrualCreatesNoClaims(lib: Library, p: Pool, rate: IFixed, fee: UFixed)
    requires 0 <= rate && fee <= ONE_U && AccrueWithFee(lib, p, rate, fee).result.Ok?
    ensures Value(AccrueWithFee(lib, p, rate, fee).pool) * ONE_I <= Value(p) * (ONE_I + rate)
  {
    if Total(p, RoundDown) == Ok(0) {
      MulNonNeg(p.shares, p.price);
      MulLe(ONE_I, ONE_I + rate, Value(p));
    } else {
      var total, feeAtoms, netRate, cut, growth := FeeAccrualParts(lib, p, rate, fee);
      var minted := AccrueWithFee(lib, p, rate, fee).result.value;
      assert (rate - netRate) * total == rate * total - netRate * total;
      ClaimsBound(Value(p), p.shares, p.price, total, rate, feeAtoms, netRate, cut, growth, minted / TWO16);
    }
  }

  /** What the existing shares are worth after growth, against the 48-bit part of the price. */
  lemma HoldersPart(shares: int, price: int, cut: int, growth: int, netRate: int)
    requires 0 <= shares && 0 <= netRate && 0 <= cut && cut * TWO16 <= price
    requires growth * ONE_I <= netRate * cut < growth * ONE_I + ONE_I
    ensures var base := shares * (TWO16 * cut);
            var held := shares * (TWO16 * (cut + growth)) * ONE_I;
            base * ONE_I + base * netRate - shares * (TWO16 * ONE_I) <= held <= base * ONE_I + base * netRate
  {
  }

  /** Net interest on the exact value plus the fee on the truncated total is at most gross interest. */
  lemma NetPlusFee(unit: int, value: int, base: int, total: int, rate: int, feeAtoms: int, netRate: int)
    requires 0 <= unit && 0 < total && total * unit <= value && base <= value
    requires 0 <= feeAtoms && 0 <= netRate <= rate
    requires feeAtoms <= (rate - netRate) * total
    ensures base * netRate + feeAtoms * unit <= value * rate
  {
  }

  /** And at least gross interest on `base`, short of `base / 2^48` and the interest on one atom. */
  lemma NetPlusFeeBelow(unit: int, base: int, total: int, rate: int, feeAtoms: int, netRate: int)
    requires 0 <= unit && 0 < total && 0 <= base <= (total + 1) * unit
    requires 0 <= feeAtoms && 0 <= netRate && 0 <= rate
    requires (rate - netRate - 1) * total < feeAtoms
    ensures base * (rate - 1) - rate * unit <= base * netRate + feeAtoms * unit
  {
  }

  /** What reaches the holders, plus the fee in atoms, against the exact product. */
  lemma HeldBelow(shares: int, price: int, total: int, rate: int, feeAtoms: int, netRate: int, cut: int, growth: int)
    requires 0 <= shares && 0 <= cut && 0 <= rate
    requires 0 < total && shares * price <= (total + 1) * TWO128
    requires 0 <= feeAtoms && 0 <= netRate
    requires (rate - netRate - 1) * total < feeAtoms
    requires cut * TWO16 <= price < cut * TWO16 + TWO16
    requires growth * ONE_I <= netRate * cut < growth * ONE_I + ONE_I
    ensures (shares * price) * (ONE_I + rate - 1) - rate * TWO128 - TWO16 * (shares * (2 * ONE_I + rate))
            <= shares * (TWO16 * (cut + growth)) * ONE_I + feeAtoms * TWO128
  {
    var base := shares * (TWO16 * cut);
    HoldersPart(shares, price, cut, growth, netRate);
    MulLe(TWO16 * cut, price, shares);
    MulNonNeg(shares, TWO16 * cut);
    NetPlusFeeBelow(TWO128, base, total, rate, feeAtoms, netRate);
    BaseAgainstValue(shares, price, TWO16 * cut, rate);
  }

  lemma BaseAgainstValue(shares: int, price: int, cut: int, rate: int)
    requires 0 <= shares && 0 <= rate && price - TWO16 <= cut
    ensures (shares * price) * (ONE_I + rate - 1) - TWO16 * (shares * (ONE_I + rate)) <= (shares * cut) * (ONE_I + rate - 1)
  {
    MulLe(price - TWO16, cut, shares);
    MulLe((price - TWO16) * shares, cut * shares, ONE_I + rate - 1);
    assert ((price - TWO16) * shares) * (ONE_I + rate - 1)
        == (shares * price) * (ONE_I + rate - 1) - TWO16 * (shares * (ONE_I + rate - 1));
    assert shares * (ONE_I + rate) == shares * (ONE_I + rate - 1) + shares;
  }

  /**
   And it loses only dust: beyond one part in 2^48 of the pool, the interest on one
   atom, and a few units of 2^-48 per share and per atom of price, everything arrives.
   */
  lemma FeeAccrualLosesOnlyDust(lib: Library, p: Pool, rate: IFixed, fee: UFixed)
    requires 0 <= rate && fee <= ONE_U && AccrueWithFee(lib, p, rate, fee).result.Ok?
    requires Total(p, RoundDown) != Ok(0)
    ensures var q := AccrueWithFee(lib, p, rate, fee).pool;
            Value(p) * (ONE_I + rate - 1) - rate * TWO128
              - TWO16 * (p.shares * (2 * ONE_I + rate)) - TWO16 * q.price * ONE_I
            < Value(q) * ONE_I
  {
    var total, feeAtoms, netRate, cut, growth := FeeAccrualParts(lib, p, rate, fee);
    var minted := AccrueWithFee(lib, p, rate, fee).result.value;
    assert (rate - netRate - 1) * total == rate * total - netRate * total - total;
    HeldBelow(p.shares, p.price, total, rate, feeAtoms, netRate, cut, growth);
    ValueAfter(p.shares, minted / TWO16, cut + growth);
  }

  /**
   The minted fee shares are worth at most the fee atoms, hence at most the fee's
   fraction of gross interest, and the new price never exceeds the fee-free one.
   */
  lemma FeeIsBounded(lib: Library, p: Pool, rate: IFixed, fee: UFixed)
    requires 0 <= rate && fee <= ONE_U && AccrueWithFee(lib, p, rate, fee).result.Ok?
    ensures var out := AccrueWithFee(lib, p, rate, fee);
            && out.pool.shares == p.shares + out.result.value
            && out.result.value * out.pool.price * ONE_I * ONE_U <= Value(p) * rate * fee
            && (Total(p, RoundDown) != Ok(0) && Grown(lib, p.price, rate).Ok? ==>
                  out.pool.price <= Grown(lib, p.price, rate).value)
  {
    MulNonNeg(p.shares, p.price);
    MulNonNeg(Value(p), rate);
    MulNonNeg(Value(p) * rate, fee);
    if Total(p, RoundDown) != Ok(0) {
      var total, feeAtoms, netRate, cut, growth := FeeAccrualParts(lib, p, rate, fee);
      var minted := AccrueWithFee(lib, p, rate, fee).result.value;
      FeeWorth(Value(p), total, rate, fee, feeAtoms, cut + growth, minted / TWO16);
      if Grown(lib, p.price, rate).Ok? {
        GrownMonotone(lib, p.price, netRate, rate);
      }
    }
  }

  lemma FeeWorth(value: int, total: int, rate: int, fee: int, feeAtoms: int, cut: int, m: int)
    requires 0 <= rate && 0 <= fee && 0 <= total && total * TWO128 <= value
    requires m * cut <= feeAtoms * ONE_I
    requires feeAtoms * ONE_I <= (rate * total) * (fee / TWO16)
    ensures (m * TWO16) * (cut * TWO16) * ONE_I * ONE_U <= value * rate * fee
  {
  }

  /**
   With a non-negative rate and a fee of at most 1 the price never falls below its
   own 48-bit part, and a successful accrual leaves it a multiple of 2^16.
   */
  lemma AccrualKeepsPrice(lib: Library, p: Pool, rate: IFixed, fee: UFixed)
    requires 0 <= rate && fee <= ONE_U
    ensures p.price - p.price % TWO16 <= Accrue(lib, p, rate).pool.price
    ensures p.price - p.price % TWO16 <= AccrueWithFee(lib, p, rate, fee).pool.price
    ensures p.price % TWO16 == 0 ==> Accrue(lib, p, rate).pool.price % TWO16 == 0
    ensures p.price % TWO16 == 0 ==> AccrueWithFee(lib, p, rate, fee).pool.price % TWO16 == 0
  {
    if Grown(lib, p.price, rate).Ok? {
      GrownFloor(lib, p.price, rate);
    }
    match Total(p, RoundDown) {
      case Err(_) =>
      case Ok(total) =>
        if 0 < total && Split(lib, total, rate, fee).Ok? {
          SplitIs(lib, total, rate, fee);
          var netRate := Split(lib, total, rate, fee).value.1;
          if Grown(lib, p.price, netRate).Ok? {
            GrownFloor(lib, p.price, netRate);
          }
        }
    }
  }
}
