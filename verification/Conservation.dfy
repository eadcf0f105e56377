/**
 Conservation over whole runs of the share ledger: the exact value of the pool against atoms
 in, atoms out and the gross interest due. The books hold what each operation should have
 done; the theorems say that the pool did it, up to rounding that is counted and bounded.
 */
module Conservation {
  import opened Arithmetic
  import opened FixedPoint
  import opened SharePool
  import opened PoolTheorems
  import opened Ledger

  /** One atom, and the net of the books, in units of 2^-176 atoms. */
  const ATOM: int := TWO128 * ONE_I

  function Net(b: Books): int {
    (b.paidIn - b.paidOut) * ATOM + b.interest
  }

  /** The pool follows its books. */
  ghost predicate Conserved(l: Ledger) {
    && Net(l.books) - l.books.gains * ATOM - l.books.lost <= Value(l.pool) * ONE_I
    && Value(l.pool) * ONE_I <= Net(l.books) + l.books.leaks * ATOM + l.books.extra
  }

  /** The fee of a market is a fraction of the interest. */
  predicate FeeIsFraction(op: Op) {
    op.InterestWithFee? ==> op.fee <= ONE_U
  }

  // ---------------------------------------------------------------- operations on whole atoms

  /** A change of value within one atom of what is booked. */
  lemma MoveConserves(l: Ledger, after: Ledger, atoms: int, gains: nat, leaks: nat)
    requires Conserved(l)
    requires after.books.paidIn - after.books.paidOut == l.books.paidIn - l.books.paidOut + atoms
    requires after.books == l.books.(paidIn := after.books.paidIn, paidOut := after.books.paidOut,
                                     gains := l.books.gains + gains, leaks := l.books.leaks + leaks)
    requires (atoms - gains) * TWO128 <= Value(after.pool) - Value(l.pool) <= (atoms + leaks) * TWO128
    ensures Conserved(after)
  {
  }

  /** A payment of `atoms` against `shares` worth it to within an atom. */
  lemma PaymentConserves(l: Ledger, after: Ledger, shares: UFixed, atoms: U64, leaks: bool)
    requires Conserved(l) && Remove(l.pool, shares) == Ok(after.pool)
    requires after.books == HandedOut(l.books, atoms, leaks)
    requires shares * l.pool.price < atoms * TWO128 + TWO128
    requires (atoms - (if leaks then 1 else 0)) * TWO128 <= shares * l.pool.price
    ensures Conserved(after)
  {
    RemovedValue(l.pool, shares);
    MoveConserves(l, after, 0 - atoms, 1, if leaks then 1 else 0);
  }

  lemma DepositConserves(lib: Library, l: Ledger, h: nat, atoms: U64)
    requires Conserved(l)
    ensures Conserved(Step(lib, l, DepositBy(h, atoms)))
  {
    var after := Step(lib, l, DepositBy(h, atoms));
    if after != l {
      SharesForBounds(l.pool.price, atoms);
      var s := SharesFor(l.pool.price, atoms).value;
      assert (l.pool.shares + s) * l.pool.price == Value(l.pool) + s * l.pool.price;
      MoveConserves(l, after, atoms, 1, 0);
    }
  }

  lemma WithdrawConserves(lib: Library, l: Ledger, h: nat, atoms: U64)
    requires Conserved(l)
    ensures Conserved(Step(lib, l, WithdrawBy(h, atoms)))
  {
    var after := Step(lib, l, WithdrawBy(h, atoms));
    if after != l {
      SharesForBounds(l.pool.price, atoms);
      PaymentConserves(l, after, SharesFor(l.pool.price, atoms).value, atoms, true);
    }
  }

  lemma RedeemConserves(l: Ledger, after: Ledger, shares: UFixed, mode: RoundingMode)
    requires Conserved(l) && Redeem(l.pool, shares, mode).result.Ok?
    requires after.pool == Redeem(l.pool, shares, mode).pool
    requires after.books == HandedOut(l.books, Redeem(l.pool, shares, mode).result.value, mode == RoundUp)
    ensures Conserved(after)
  {
    WorthBounds(l.pool.price, shares, mode);
    PaymentConserves(l, after, shares, Worth(l.pool.price, shares, mode).value, mode == RoundUp);
  }

  lemma RepayConserves(lib: Library, l: Ledger, h: nat, atoms: U64, mode: RoundingMode)
    requires Conserved(l)
    ensures Conserved(Step(lib, l, RepayBy(h, atoms, mode)))
  {
    var after := Step(lib, l, RepayBy(h, atoms, mode));
    if after != l {
      var s := SharesFor(l.pool.price, atoms).value;
      SharesForBounds(l.pool.price, atoms);
      if s <= l.holders[h] {
        PaymentConserves(l, after, s, atoms, true);
      } else {
        WorthBounds(l.pool.price, l.holders[h], mode);
        PaymentConserves(l, after, l.holders[h], Worth(l.pool.price, l.holders[h], mode).value, true);
      }
    }
  }

  // ---------------------------------------------------------------- interest

  /** A change of value within `dust` of the interest due, and not above it unless the rate is negative. */
  ghost predicate Accrues(before: Pool, after: Pool, rate: IFixed, dust: int) {
    var change, due := (Value(after) - Value(before)) * ONE_I, Value(before) * rate;
    due - dust <= change <= due + (if rate < 0 then dust else 0)
  }

  lemma AccrualConserves(l: Ledger, after: Ledger, rate: IFixed, dust: int)
    requires Conserved(l) && after.books == Due(l.books, l.pool, rate, dust)
    requires Accrues(l.pool, after.pool, rate, dust)
    ensures Conserved(after)
  {
  }

  lemma PlainAccrualBounds(lib: Library, p: Pool, rate: IFixed)
    requires Accrue(lib, p, rate).result.Ok?
    ensures Accrues(p, Accrue(lib, p, rate).pool, rate, PlainDust(p, rate))
  {
    if p.shares != 0 {
      var dust := TWO16 * (2 * ONE_I + Abs(rate));
      GrownNear(lib, p.price, rate);
      if 0 <= rate {
        GrownSandwich(lib, p.price, rate);
      }
      TimesShares(p.shares, p.price, Grown(lib, p.price, rate).value, rate, dust, if rate < 0 then dust else 0);
      assert p.shares * dust == PlainDust(p, rate);
    }
  }

  lemma TimesShares(shares: int, price: int, g: int, rate: int, below: int, above: int)
    requires 0 <= shares && price * (ONE_I + rate) - below <= g * ONE_I <= price * (ONE_I + rate) + above
    ensures var change, due := (shares * g - shares * price) * ONE_I, (shares * price) * rate;
            due - shares * below <= change <= due + shares * above
  {
    var exact := price * (ONE_I + rate);
    MulLe(exact - below, g * ONE_I, shares);
    MulLe(g * ONE_I, exact + above, shares);
    assert exact * shares == (shares * price) * ONE_I + (shares * price) * rate;
    assert (g * ONE_I) * shares == (shares * g) * ONE_I;
    assert (exact - below) * shares == exact * shares - shares * below;
    assert (exact + above) * shares == exact * shares + shares * above;
  }

  lemma FeePriceBound(lib: Library, p: Pool, rate: IFixed, fee: UFixed)
    requires 0 <= rate && fee <= ONE_U && AccrueWithFee(lib, p, rate, fee).result.Ok? && Total(p, RoundDown) != Ok(0)
    ensures AccrueWithFee(lib, p, rate, fee).pool.price * ONE_I <= p.price * (ONE_I + rate)
  {
    var total, feeAtoms, netRate, cut, growth := FeeAccrualParts(lib, p, rate, fee);
    GrownSandwich(lib, p.price, netRate);
    MulLe(ONE_I + netRate, ONE_I + rate, p.price);
  }

  lemma FeeAccrualBounds(lib: Library, p: Pool, rate: IFixed, fee: UFixed)
    requires fee <= ONE_U && AccrueWithFee(lib, p, rate, fee).result.Ok?
    ensures Accrues(p, AccrueWithFee(lib, p, rate, fee).pool, rate, FeeDust(p, rate))
  {
    if Total(p, RoundDown) == Ok(0) {
      MulNonNeg(p.shares, p.price);
      MulNonNeg(p.shares, 2 * ONE_I + Abs(rate));
      MulNonNeg(p.price, ONE_I + Abs(rate));
      DivBounds(Value(p), TWO128);
      SmallDue(Value(p), rate);
    } else {
      var q := AccrueWithFee(lib, p, rate, fee).pool;
      FeeAccrualCreatesNoClaims(lib, p, rate, fee);
      FeeAccrualLosesOnlyDust(lib, p, rate, fee);
      FeePriceBound(lib, p, rate, fee);
      FeeDustCovers(Value(p), Value(q), p.price, q.price, rate, rate * TWO128 + TWO16 * (p.shares * (2 * ONE_I + rate)));
    }
  }

  lemma FeeDustCovers(value: int, after: int, price: int, newPrice: int, rate: int, dust: int)
    requires after * ONE_I <= value * (ONE_I + rate) && newPrice * ONE_I <= price * (ONE_I + rate)
    requires value * (ONE_I + rate - 1) - dust - TWO16 * newPrice * ONE_I < after * ONE_I
    ensures var change, due := (after - value) * ONE_I, value * rate;
            due - (value + dust + TWO16 * (price * (ONE_I + rate))) <= change <= due
  {
    assert value * (ONE_I + rate) == value * ONE_I + value * rate;
    assert value * (ONE_I + rate - 1) == value * ONE_I + value * rate - value;
  }

  /** Interest on less than one atom. */
  lemma SmallDue(value: int, rate: int)
    requires 0 <= value < TWO128
    ensures -(Abs(rate) * TWO128) <= value * rate <= Abs(rate) * TWO128
    ensures 0 <= rate ==> 0 <= value * rate
    ensures rate <= 0 ==> value * rate <= 0
  {
    MulMono(0, value, 0, Abs(rate));
    MulLe(value, TWO128, Abs(rate));
    assert value * rate == value * Abs(rate) || value * rate == -(value * Abs(rate));
  }

  /** If the fee cannot be minted the price stays raised, and only the fee is missing. */
  lemma UnmintedBounds(lib: Library, p: Pool, rate: IFixed, fee: UFixed)
    requires fee <= ONE_U && AccrueWithFee(lib, p, rate, fee).result.Err? && AccrueWithFee(lib, p, rate, fee).pool != p
    ensures Accrues(p, AccrueWithFee(lib, p, rate, fee).pool, rate, UnmintedDust(p, rate))
  {
    MulNonNeg(p.shares, p.price);
    MulNonNeg(Value(p), Abs(rate));
    if rate < 0 {
      PlainAccrualBounds(lib, p, rate);
    } else {
      var total := Total(p, RoundDown).value;
      SplitIs(lib, total, rate, fee);
      RaisedBounds(lib, p, rate, Split(lib, total, rate, fee).value.1);
    }
  }

  lemma RaisedBounds(lib: Library, p: Pool, rate: IFixed, netRate: IFixed)
    requires 0 <= netRate <= rate && Grown(lib, p.price, netRate).Ok?
    ensures Accrues(p, p.(price := Grown(lib, p.price, netRate).value), rate, UnmintedDust(p, rate))
  {
    var g := Grown(lib, p.price, netRate).value;
    var below := p.price * rate + TWO16 * ONE_I;
    GrownSandwich(lib, p.price, netRate);
    GrownFloor(lib, p.price, netRate);
    MulLe(ONE_I + netRate, ONE_I + rate, p.price);
    assert p.price * (ONE_I + rate) == p.price * ONE_I + p.price * rate;
    TimesShares(p.shares, p.price, g, rate, below, 0);
    UnmintedCovers(p.shares, p.price, rate);
  }

  lemma UnmintedCovers(shares: int, price: int, rate: int)
    requires 0 <= shares && 0 <= rate
    ensures shares * (price * rate + TWO16 * ONE_I) <= TWO16 * (shares * (2 * ONE_I + rate)) + (shares * price) * rate
  {
    MulNonNeg(shares, rate);
    assert shares * (price * rate + TWO16 * ONE_I) == (shares * price) * rate + shares * (TWO16 * ONE_I);
    assert TWO16 * (shares * (2 * ONE_I + rate)) == 2 * (shares * (TWO16 * ONE_I)) + TWO16 * (shares * rate);
  }

  // ---------------------------------------------------------------- runs

  lemma InterestConserves(lib: Library, l: Ledger, op: Op)
    requires Conserved(l) && (op.Interest? || op.InterestWithFee?) && FeeIsFraction(op)
    ensures Conserved(Step(lib, l, op))
  {
    var after, p := Step(lib, l, op), l.pool;
    if op.Interest? {
      if Accrue(lib, p, op.rate).result.Ok? {
        PlainAccrualBounds(lib, p, op.rate);
        AccrualConserves(l, after, op.rate, PlainDust(p, op.rate));
      }
    } else {
      var out := AccrueWithFee(lib, p, op.rate, op.fee);
      if out.result.Err? && out.pool != p {
        UnmintedBounds(lib, p, op.rate, op.fee);
        AccrualConserves(l, after, op.rate, UnmintedDust(p, op.rate));
      } else if out.result.Ok? && l.feeShares + out.result.value < TWO128 {
        FeeAccrualBounds(lib, p, op.rate, op.fee);
        AccrualConserves(l, after, op.rate, FeeDust(p, op.rate));
      }
    }
  }

  lemma PriceMoveConserves(lib: Library, l: Ledger, op: Op)
    requires Conserved(l) && (op.Gift? || op.Loss?)
    ensures Conserved(Step(lib, l, op))
  {
    var after := Step(lib, l, op);
    if op.Gift? && Donate(l.pool, op.atoms).result.Ok? {
      DonateIsTight(l.pool, op.atoms);
      MoveConserves(l, after, op.atoms, 1, 0);
    } else if op.Loss? && Socialize(l.pool, op.atoms).result.Ok? {
      SocializeIsTight(l.pool, op.atoms);
      MoveConserves(l, after, 0 - op.atoms, 0, 1);
    }
  }

  lemma RedemptionConserves(lib: Library, l: Ledger, op: Op)
    requires Conserved(l) && (op.RedeemBy? || op.RedeemFees?)
    ensures Conserved(Step(lib, l, op))
  {
    var after := Step(lib, l, op);
    if after != l {
      RedeemConserves(l, after, if op.RedeemBy? then op.shares else l.feeShares, op.mode);
    }
  }

  /** What one operation can add to the counters, whatever it does to the pool. */
  lemma StepCounts(lib: Library, l: Ledger, op: Op)
    ensures var b, c := l.books, Step(lib, l, op).books;
            && b.gains <= c.gains <= b.gains + 1
            && b.leaks <= c.leaks <= b.leaks + 1
            && (NeverLeaks(op) ==> c.leaks == b.leaks)
            && (RateIsNotNegative(op) ==> c.extra == b.extra)
  {
  }

  predicate RateIsNotNegative(op: Op) {
    op.Interest? || op.InterestWithFee? ==> 0 <= op.rate
  }

  /** The payouts that never favour the claimant: redemptions rounded down. */
  predicate NeverLeaks(op: Op) {
    match op
    case WithdrawBy(_, _) => false
    case RepayBy(_, _, _) => false
    case Loss(_) => false
    case RedeemBy(_, _, mode) => mode == RoundDown
    case RedeemFees(mode) => mode == RoundDown
    case _ => true
  }

  lemma {:induction false} RunConserves(lib: Library, l: Ledger, ops: seq<Op>)
    requires Conserved(l) && forall i :: 0 <= i < |ops| ==> FeeIsFraction(ops[i])
    ensures Conserved(Run(lib, l, ops))
    decreases |ops|
  {
    if ops != [] {
      assert FeeIsFraction(ops[0]);
      assert forall i :: 0 <= i < |ops[1..]| ==> ops[1..][i] == ops[i + 1];
      match ops[0] {
        case Open =>
        case DepositBy(h, atoms) => DepositConserves(lib, l, h, atoms);
        case WithdrawBy(h, atoms) => WithdrawConserves(lib, l, h, atoms);
        case RepayBy(h, atoms, mode) => RepayConserves(lib, l, h, atoms, mode);
        case RedeemBy(_, _, _) => RedemptionConserves(lib, l, ops[0]);
        case RedeemFees(_) => RedemptionConserves(lib, l, ops[0]);
        case Interest(_) => InterestConserves(lib, l, ops[0]);
        case InterestWithFee(_, _) => InterestConserves(lib, l, ops[0]);
        case Gift(_) => PriceMoveConserves(lib, l, ops[0]);
        case Loss(_) => PriceMoveConserves(lib, l, ops[0]);
      }
      RunConserves(lib, Step(lib, l, ops[0]), ops[1..]);
    }
  }

  lemma {:induction false} RunCounts(lib: Library, l: Ledger, ops: seq<Op>)
    ensures var b, c := l.books, Run(lib, l, ops).books;
            && b.gains <= c.gains <= b.gains + |ops|
            && b.leaks <= c.leaks <= b.leaks + |ops|
            && ((forall i :: 0 <= i < |ops| ==> NeverLeaks(ops[i])) ==> c.leaks == b.leaks)
            && ((forall i :: 0 <= i < |ops| ==> RateIsNotNegative(ops[i])) ==> c.extra == b.extra)
    decreases |ops|
  {
    if ops != [] {
      StepCounts(lib, l, ops[0]);
      assert forall i :: 0 <= i < |ops[1..]| ==> ops[1..][i] == ops[i + 1];
      RunCounts(lib, Step(lib, l, ops[0]), ops[1..]);
    }
  }

  /**
   Conservation over every run from the empty pool: the exact value of the pool is the atoms
   that came in, minus the atoms that went out, plus the gross interest due, short by at most
   one atom per operation and the booked truncation, and over by at most one atom per
   operation. Only negative rates can put it over by truncation.
   */
  lemma EveryRunConserves(lib: Library, ops: seq<Op>)
    requires forall i :: 0 <= i < |ops| ==> FeeIsFraction(ops[i])
    ensures var l := Run(lib, GENESIS, ops);
            && Conserved(l)
            && l.books.gains <= |ops| && l.books.leaks <= |ops|
            && ((forall i :: 0 <= i < |ops| ==> RateIsNotNegative(ops[i])) ==> l.books.extra == 0)
  {
    RunConserves(lib, GENESIS, ops);
    RunCounts(lib, GENESIS, ops);
  }

  /**
   A pool that pays out only by rounded-down redemption, at rates that are not negative,
   never owes more than what came in, minus what went out, plus the gross interest due.
   */
  lemma RedemptionsNeverOverdraw(lib: Library, l: Ledger, ops: seq<Op>)
    requires Conserved(l) && l.books.leaks == 0 && l.books.extra == 0
    requires forall i :: 0 <= i < |ops| ==> FeeIsFraction(ops[i]) && NeverLeaks(ops[i]) && RateIsNotNegative(ops[i])
    ensures var after := Run(lib, l, ops); Value(after.pool) * ONE_I <= Net(after.books)
  {
    RunConserves(lib, l, ops);
    RunCounts(lib, l, ops);
  }

  /**
   Paying out a number of atoms instead does favour the claimant: after a donation has
   moved the price to 3/2, withdrawing one atom removes shares worth less than one.
   */
  lemma WithdrawalByAtomsCanOverdraw(lib: Library)
    ensures var ops := [Open, DepositBy(0, 2), Gift(1), WithdrawBy(0, 1)];
            var l := Run(lib, GENESIS, ops);
            Net(l.books) < Value(l.pool) * ONE_I
  {
    var donated := DonatedLedger(lib);
    var last := [WithdrawBy(0, 1)];
    RunAppend(lib, GENESIS, [Open, DepositBy(0, 2), Gift(1)], last);
    assert [Open, DepositBy(0, 2), Gift(1)] + last == [Open, DepositBy(0, 2), Gift(1), WithdrawBy(0, 1)];
    RunMore(lib, donated, last);
    OneAtomOverdraws(lib, donated);
  }

  /** At a price of 3/2 one atom buys two thirds of a share, rounded down. */
  const BOUGHT: UFixed := 12297829382473034410

  lemma OneAtomBuys()
    ensures SharesFor(ONE_U + ONE_U / 2, 1) == Ok(BOUGHT)
  {
    DivIs(TWO128, ONE_U + ONE_U / 2, BOUGHT);
  }

  lemma OneAtomOverdraws(lib: Library, l: Ledger)
    requires l.pool == Pool(2 * ONE_U, ONE_U + ONE_U / 2) && l.holders == [2 * ONE_U] && Net(l.books) == 3 * ATOM
    ensures var after := Step(lib, l, WithdrawBy(0, 1)); Net(after.books) < Value(after.pool) * ONE_I
  {
    OneAtomBuys();
    var after := Step(lib, l, WithdrawBy(0, 1));
    assert after.books == HandedOut(l.books, 1, true);
    assert after.pool == Pool(2 * ONE_U - BOUGHT, ONE_U + ONE_U / 2);
    NetAfter(l.books, 1, true);
  }

  lemma NetAfter(b: Books, atoms: U64, leaks: bool)
    ensures Net(HandedOut(b, atoms, leaks)) == Net(b) - atoms * ATOM
  {
  }

  /** Two atoms deposited and one donated. */
  lemma DonatedLedger(lib: Library) returns (l: Ledger)
    ensures l == Run(lib, GENESIS, [Open, DepositBy(0, 2), Gift(1)])
    ensures l.pool == Pool(2 * ONE_U, ONE_U + ONE_U / 2) && l.holders == [2 * ONE_U] && Net(l.books) == 3 * ATOM
  {
    var l1 := Step(lib, GENESIS, Open);
    RunMore(lib, GENESIS, [Open, DepositBy(0, 2), Gift(1)]);
    var l2 := Step(lib, l1, DepositBy(0, 2));
    assert l2.pool == Pool(2 * ONE_U, ONE_U) && l2.holders == [2 * ONE_U];
    RunMore(lib, l1, [DepositBy(0, 2), Gift(1)]);
    l := Step(lib, l2, Gift(1));
    RunMore(lib, l2, [Gift(1)]);
    assert [Open, DepositBy(0, 2), Gift(1)][1..] == [DepositBy(0, 2), Gift(1)];
    assert [DepositBy(0, 2), Gift(1)][1..] == [Gift(1)];
  }

  lemma RunMore(lib: Library, l: Ledger, ops: seq<Op>)
    requires ops != []
    ensures Run(lib, l, ops) == Run(lib, Step(lib, l, ops[0]), ops[1..])
    ensures |ops| == 1 ==> Run(lib, l, ops) == Step(lib, l, ops[0])
  {
  }
}
