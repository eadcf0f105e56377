/**
 The two ledgers of a market together: lenders on one side, borrowers on the other, and
 the clock that charges one and credits the other. The rate that the interest curve yields
 for the elapsed time is an input; a failed operation changes nothing.
 */
module SupplyVault {
  import opened Arithmetic
  import opened FixedPoint
  import opened SharePool
  import opened PoolTheorems
  import LG = Ledger
  import opened Conservation

  datatype Vault = Vault(supply: Pool, borrow: Pool, protocolFee: UFixed, curatorFee: UFixed)

  const ONE_IN_BPS: U64 := 10_000

  // ---------------------------------------------------------------- the clock

  /** Borrowed over supplied; nothing borrowed from an empty pool counts as zero. */
  function Utilisation(lib: Library, borrowed: U64, supplied: U64): Result<IFixed> {
    var ratio := IDiv(lib, IFromInt(borrowed), IFromInt(supplied));
    if ratio.Err? && borrowed == 0 then Ok(0) else ratio
  }

  /** The protocol's part of newly minted fee shares; the curator gets the rest. */
  function SplitFee(minted: UFixed, protocolBps: U64): Result<(UFixed, UFixed)> {
    var scaled :- UMulInt(minted, protocolBps);
    var protocol := scaled / ONE_IN_BPS;
    var curator :- USub(minted, protocol);
    Ok((protocol, curator))
  }

  function SyncClock(lib: Library, v: Vault, rate: IFixed, fee: UFixed, protocolBps: U64): Result<Vault> {
    var supplied :- Total(v.supply, RoundDown);
    var borrowed :- Total(v.borrow, RoundUp);
    var utilisation :- Utilisation(lib, borrowed, supplied);
    var charged :- Committed(Accrue(lib, v.borrow, rate));
    var lendingRate :- IMul(lib, rate, utilisation);
    var credited :- Committed(AccrueWithFee(lib, v.supply, lendingRate, fee));
    var split :- SplitFee(credited.1, protocolBps);
    var protocolFee :- UAdd(v.protocolFee, split.0);
    var curatorFee :- UAdd(v.curatorFee, split.1);
    Ok(Vault(credited.0, charged.0, protocolFee, curatorFee))
  }

  /** Writes a borrower's whole debt off against the lenders. */
  function SocializeLoss(v: Vault, debtShares: UFixed): Result<(Vault, U64)> {
    var forgiven :- Committed(Redeem(v.borrow, debtShares, RoundUp));
    var reduced :- Committed(Socialize(v.supply, forgiven.1));
    Ok((v.(supply := reduced.0, borrow := forgiven.0), forgiven.1))
  }

  // ---------------------------------------------------------------- conservation between the ledgers

  /** Borrowed over supplied, rounded down to 48 bits; it fails exactly on a debt without supply. */
  lemma UtilisationIs(lib: Library, borrowed: U64, supplied: U64)
    ensures var r := Utilisation(lib, borrowed, supplied);
            && (r.Ok? <==> borrowed == 0 || 0 < supplied)
            && (r.Ok? ==> 0 <= r.value && r.value * supplied <= borrowed * ONE_I)
            && (r.Ok? && 0 < supplied ==> borrowed * ONE_I < r.value * supplied + supplied)
            && (r.Ok? && supplied == 0 ==> r.value == 0)
  {
    if 0 < supplied {
      var used := borrowed * ONE_I / supplied;
      DivBounds(borrowed * ONE_I, supplied);
      DivAtMost(borrowed * ONE_I, supplied, borrowed * ONE_I) by { MulLe(1, supplied, borrowed * ONE_I); }
      assert used * IFromInt(supplied) == (used * supplied) * ONE_I;
      assert IFromInt(borrowed) * ONE_I == (borrowed * ONE_I) * ONE_I;
      RatioIs(lib, IFromInt(borrowed), IFromInt(supplied), used);
    }
  }

  /** Interest on what is supplied is interest on what is borrowed, rounded down twice. */
  lemma LendingRateIs(lib: Library, rate: IFixed, borrowed: U64, supplied: U64)
    requires 0 <= rate && Utilisation(lib, borrowed, supplied).Ok?
    requires IMul(lib, rate, Utilisation(lib, borrowed, supplied).value).Ok?
    ensures var lending := IMul(lib, rate, Utilisation(lib, borrowed, supplied).value).value;
            && 0 <= lending && lending * supplied <= rate * borrowed
            && (rate * borrowed) * ONE_I <= (lending * supplied) * ONE_I + (rate + ONE_I) * supplied
  {
    var used := Utilisation(lib, borrowed, supplied).value;
    UtilisationIs(lib, borrowed, supplied);
    MulNonNeg(rate, used);
    QuotientBounds(lib.mul, rate * used, ONE_I);
    DivBounds(rate * used, ONE_I);
    if 0 < supplied {
      LendingBound(ONE_I, rate, used, rate * used / ONE_I, borrowed, supplied);
      LendingFloor(ONE_I, rate, used, rate * used / ONE_I, borrowed, supplied);
    }
  }

  lemma LendingBound(f: int, rate: int, used: int, lending: int, borrowed: int, supplied: int)
    requires 0 < f && 0 <= rate && 0 < supplied
    requires used * supplied <= borrowed * f && lending * f <= rate * used
    ensures lending * supplied <= rate * borrowed
  {
  }

  lemma LendingFloor(f: int, rate: int, used: int, lending: int, borrowed: int, supplied: int)
    requires 0 < f && 0 <= rate && 0 < supplied
    requires borrowed * f < used * supplied + supplied && rate * used < lending * f + f
    ensures (rate * borrowed) * f <= (lending * supplied) * f + (rate + f) * supplied
  {
    MulLe(borrowed * f, used * supplied + supplied, rate);
    MulLe(rate * used, lending * f + f, supplied);
  }

  /** What borrowers are charged: the exact interest, short by truncation of the price. */
  lemma ChargedAtLeast(lib: Library, p: Pool, rate: IFixed)
    requires 0 <= rate && Accrue(lib, p, rate).result.Ok?
    ensures var q := Accrue(lib, p, rate).pool;
            q.shares == p.shares && Value(p) * rate - TWO16 * (p.shares * (2 * ONE_I + rate)) <= (Value(q) - Value(p)) * ONE_I
  {
    PlainAccrualBounds(lib, p, rate);
  }

  /** What lenders are credited: interest on the borrowed atoms, plus interest on one atom of rounding. */
  lemma CreditedAtMost(lib: Library, p: Pool, supplied: U64, lending: IFixed, fee: UFixed, charge: int)
    requires Total(p, RoundDown) == Ok(supplied) && 0 <= lending && fee <= ONE_U
    requires AccrueWithFee(lib, p, lending, fee).result.Ok?
    requires lending * supplied <= charge
    ensures (Value(AccrueWithFee(lib, p, lending, fee).pool) - Value(p)) * ONE_I <= charge * TWO128 + lending * TWO128
  {
    FeeAccrualCreatesNoClaims(lib, p, lending, fee);
    DivBounds(Value(p), TWO128);
    CreditArithmetic(TWO128, ONE_I, Value(p), Value(AccrueWithFee(lib, p, lending, fee).pool), supplied, lending, charge);
  }

  lemma CreditArithmetic(unit: int, f: int, value: int, credited: int, supplied: int, lending: int, charge: int)
    requires 0 < unit && 0 <= lending && lending * supplied <= charge
    requires credited * f <= value * (f + lending) && value <= supplied * unit + unit
    ensures (credited - value) * f <= charge * unit + lending * unit
  {
  }

  /**
   The clock never credits lenders, fees included, with more than it charges borrowers,
   up to dust: interest on two atoms, because both totals are rounded to whole atoms in
   the lenders' favour, and the truncation of the borrowers' price to 48 bits. Neither
   ledger needs anything from the other for this; the rounding directions alone ensure it.
   */
  lemma ClockCreditsAtMostWhatItCharges(lib: Library, v: Vault, rate: IFixed, fee: UFixed, protocolBps: U64)
    requires 0 <= rate && fee <= ONE_U && SyncClock(lib, v, rate, fee, protocolBps).Ok?
    ensures var w := SyncClock(lib, v, rate, fee, protocolBps).value;
            var supplied, borrowed := Total(v.supply, RoundDown).value, Total(v.borrow, RoundUp).value;
            var lending := IMul(lib, rate, Utilisation(lib, borrowed, supplied).value).value;
            (Value(w.supply) - Value(v.supply)) * ONE_I
            <= (Value(w.borrow) - Value(v.borrow)) * ONE_I
               + (rate + lending) * TWO128 + TWO16 * (v.borrow.shares * (2 * ONE_I + rate))
  {
    var supplied, borrowed := Total(v.supply, RoundDown).value, Total(v.borrow, RoundUp).value;
    ClockUnfolds(lib, v, rate, fee, protocolBps);
    var lending := IMul(lib, rate, Utilisation(lib, borrowed, supplied).value).value;
    LendingRateIs(lib, rate, borrowed, supplied);
    CreditedAtMost(lib, v.supply, supplied, lending, fee, rate * borrowed);
    ChargedAtLeast(lib, v.borrow, rate);
    LG.WorthBounds(v.borrow.price, v.borrow.shares, RoundUp);
    ChargeArithmetic(TWO128, Value(v.borrow), rate, borrowed, lending);
  }

  lemma ClockUnfolds(lib: Library, v: Vault, rate: IFixed, fee: UFixed, protocolBps: U64)
    requires SyncClock(lib, v, rate, fee, protocolBps).Ok?
    ensures var w := SyncClock(lib, v, rate, fee, protocolBps).value;
            && Total(v.supply, RoundDown).Ok? && Total(v.borrow, RoundUp).Ok?
            && var used := Utilisation(lib, Total(v.borrow, RoundUp).value, Total(v.supply, RoundDown).value);
            && used.Ok? && IMul(lib, rate, used.value).Ok?
            && Accrue(lib, v.borrow, rate) == Outcome(w.borrow, Ok(()))
            && var out := AccrueWithFee(lib, v.supply, IMul(lib, rate, used.value).value, fee);
            && out.result.Ok? && out.pool == w.supply
  {}

  lemma ChargeArithmetic(unit: int, value: int, rate: int, borrowed: int, lending: int)
    requires 0 <= rate && borrowed * unit <= value + unit
    ensures (rate * borrowed) * unit + lending * unit <= value * rate + (rate + lending) * unit
  {
  }

  /** What is lost between charge and credit, in units of 2^-224 atoms: interest on one atom, two truncations on what is supplied, and the fee accrual's own dust. */
  function ClockLoss(v: Vault, rate: IFixed, lending: IFixed, supplied: U64): int {
    (rate * TWO128) * ONE_I + ((rate + ONE_I) * supplied) * TWO128 + LG.FeeDust(v.supply, lending) * ONE_I
  }

  /**
   And never with much less: what borrowers are charged reaches lenders and fee takers, short of
   interest on one atom, one unit of 2^-48 per supplied atom in each truncation, and the dust of
   the accrual.
   */
  lemma ClockCreditsAtLeastWhatItCharges(lib: Library, v: Vault, rate: IFixed, fee: UFixed, protocolBps: U64)
    requires 0 <= rate && fee <= ONE_U && SyncClock(lib, v, rate, fee, protocolBps).Ok?
    ensures var w := SyncClock(lib, v, rate, fee, protocolBps).value;
            var supplied, borrowed := Total(v.supply, RoundDown).value, Total(v.borrow, RoundUp).value;
            var lending := IMul(lib, rate, Utilisation(lib, borrowed, supplied).value).value;
            (Value(w.borrow) - Value(v.borrow)) * ONE_I * ONE_I
            <= (Value(w.supply) - Value(v.supply)) * ONE_I * ONE_I + ClockLoss(v, rate, lending, supplied)
  {
    var supplied, borrowed := Total(v.supply, RoundDown).value, Total(v.borrow, RoundUp).value;
    ClockUnfolds(lib, v, rate, fee, protocolBps);
    var lending := IMul(lib, rate, Utilisation(lib, borrowed, supplied).value).value;
    var w := SyncClock(lib, v, rate, fee, protocolBps).value;
    LendingRateIs(lib, rate, borrowed, supplied);
    PlainAccrualBounds(lib, v.borrow, rate);
    FeeAccrualBounds(lib, v.supply, lending, fee);
    LG.WorthBounds(v.borrow.price, v.borrow.shares, RoundUp);
    DivBounds(Value(v.supply), TWO128);
    LossArithmetic(TWO128, ONE_I, Value(v.borrow), Value(v.supply), rate, borrowed, lending, supplied,
                   (Value(w.borrow) - Value(v.borrow)) * ONE_I, (Value(w.supply) - Value(v.supply)) * ONE_I, LG.FeeDust(v.supply, lending));
  }

  lemma LossArithmetic(unit: int, f: int, debt: int, lent: int, rate: int, borrowed: int, lending: int, supplied: int,
                       charged: int, credited: int, dust: int)
    requires 0 < unit && 0 < f && 0 <= rate && 0 <= lending
    requires debt < borrowed * unit + unit && supplied * unit <= lent
    requires (rate * borrowed) * f <= (lending * supplied) * f + (rate + f) * supplied
    requires charged <= debt * rate && lent * lending - dust <= credited
    ensures charged * f <= credited * f + ((rate * unit) * f + ((rate + f) * supplied) * unit + dust * f)
  {
    ChargedBelow(unit, f, debt, rate, borrowed, charged);
    CreditedAbove(unit, f, lent, lending, supplied, credited, dust);
    MulLe((rate * borrowed) * f, (lending * supplied) * f + (rate + f) * supplied, unit);
    assert ((lending * supplied) * f + (rate + f) * supplied) * unit == ((lending * supplied) * unit) * f + ((rate + f) * supplied) * unit;
    assert ((rate * borrowed) * f) * unit == ((rate * borrowed) * unit) * f;
  }

  lemma ChargedBelow(unit: int, f: int, debt: int, rate: int, borrowed: int, charged: int)
    requires 0 < f && 0 <= rate && debt < borrowed * unit + unit && charged <= debt * rate
    ensures charged * f <= ((rate * borrowed) * unit) * f + (rate * unit) * f
  {
    MulLe(debt, borrowed * unit + unit, rate);
    assert (borrowed * unit + unit) * rate == (rate * borrowed) * unit + rate * unit;
    MulLe(charged, (rate * borrowed) * unit + rate * unit, f);
  }

  lemma CreditedAbove(unit: int, f: int, lent: int, lending: int, supplied: int, credited: int, dust: int)
    requires 0 < f && 0 <= lending && supplied * unit <= lent && lent * lending - dust <= credited
    ensures ((lending * supplied) * unit) * f <= credited * f + dust * f
  {
    MulLe(supplied * unit, lent, lending);
    assert (supplied * unit) * lending == (lending * supplied) * unit;
    MulLe((lending * supplied) * unit, credited + dust, f);
  }

  /** The protocol's part is its rate of the minted shares, rounded down, and the curator has the rest. */
  lemma SplitFeeIs(minted: UFixed, protocolBps: U64)
    requires SplitFee(minted, protocolBps).Ok?
    ensures var (protocol, curator) := SplitFee(minted, protocolBps).value;
            && protocol * 10_000 <= minted * protocolBps < protocol * 10_000 + 10_000
            && protocol + curator == minted
  {
    MulNonNeg(minted, protocolBps);
  }

  /** The clock mints only fee shares and splits them all: each is pending for the protocol, at its rate, or the curator. */
  lemma ClockSplitsEveryFeeShare(lib: Library, v: Vault, rate: IFixed, fee: UFixed, protocolBps: U64)
    requires SyncClock(lib, v, rate, fee, protocolBps).Ok?
    ensures var w := SyncClock(lib, v, rate, fee, protocolBps).value;
            var minted, protocol, curator := w.supply.shares - v.supply.shares, w.protocolFee - v.protocolFee, w.curatorFee - v.curatorFee;
            && w.borrow.shares == v.borrow.shares
            && 0 <= protocol && 0 <= curator && minted == protocol + curator
            && protocol * 10_000 <= minted * protocolBps < protocol * 10_000 + 10_000
  {
    ClockUnfolds(lib, v, rate, fee, protocolBps);
    var lending := IMul(lib, rate, Utilisation(lib, Total(v.borrow, RoundUp).value, Total(v.supply, RoundDown).value).value).value;
    LG.OnlyFeesAreMinted(lib, v.supply, lending, fee);
    SplitFeeIs(AccrueWithFee(lib, v.supply, lending, fee).result.value, protocolBps);
  }

  /**
   A written-off debt moves to the lenders whole: they lose it to within one atom, and the two
   ledgers change by less than an atom and 2^-64 of each other, or less than two atoms if the
   debt saturates at the largest `u64`.
   */
  lemma LossMovesToLenders(v: Vault, debtShares: UFixed)
    requires SocializeLoss(v, debtShares).Ok?
    ensures var (w, debt) := SocializeLoss(v, debtShares).value;
            var forgiven, lost := Value(v.borrow) - Value(w.borrow), Value(v.supply) - Value(w.supply);
            && (debt - 1) * TWO128 < lost <= debt * TWO128
            && -TWO128 < forgiven - lost < (if debt < U64_MAX then TWO128 + ONE_U else 2 * TWO128)
  {
    var debt := SocializeLoss(v, debtShares).value.1;
    LG.WorthBounds(v.borrow.price, debtShares, RoundUp);
    LG.RemovedValue(v.borrow, debtShares);
    SocializeIsTight(v.supply, debt);
  }

  // ---------------------------------------------------------------- a typical vault

  /** 100 atoms lent, 50 of them borrowed, interest of one sixteenth, a quarter of it withheld. */
  const VAULT: Vault := Vault(Pool(100 * ONE_U, ONE_U), Pool(50 * ONE_U, ONE_U), 0, 0)

  lemma TypicalTotals()
    ensures Total(VAULT.supply, RoundDown) == Ok(100) && Total(VAULT.borrow, RoundUp) == Ok(50)
    ensures SplitFee(14_081_484_025_732_464_640, 2_500) == Ok((3_520_371_006_433_116_160, 10_561_113_019_299_348_480))
  {
  }

  lemma TypicalUtilisation(lib: Library)
    ensures Utilisation(lib, 50, 100) == Ok(ONE_I / 2) && IMul(lib, ONE_I / 16, ONE_I / 2) == Ok(ONE_I / 32)
  {
    RatioIs(lib, IFromInt(50), IFromInt(100), ONE_I / 2);
    ProductIs(lib, ONE_I / 16, ONE_I / 2, ONE_I / 32);
  }

  lemma TypicalCharge(lib: Library)
    ensures Accrue(lib, VAULT.borrow, ONE_I / 16) == Outcome(Pool(50 * ONE_U, ONE_U + ONE_U / 16), Ok(()))
  {
    ProductIs(lib, ONE_I / 16, ONE_I, ONE_I / 16);
  }

  lemma TypicalSplit(lib: Library)
    ensures Split(lib, 100, ONE_I / 32, ONE_U / 4) == Ok((ONE_I / 32 * 25, 6_597_069_766_656))
  {
    ProductIs(lib, ONE_I / 32 * 100, ONE_I / 4, ONE_I / 32 * 25);
  }

  lemma TypicalCredit(lib: Library)
    ensures AccrueWithFee(lib, VAULT.supply, ONE_I / 32, ONE_U / 4)
         == Outcome(Pool(100 * ONE_U + 14_081_484_025_732_464_640, 18_879_089_637_937_119_232), Ok(14_081_484_025_732_464_640))
  {
    TypicalSplit(lib);
    ProductIs(lib, 6_597_069_766_656, ONE_I, 6_597_069_766_656);
    assert Grown(lib, ONE_U, 6_597_069_766_656) == Ok(18_879_089_637_937_119_232);
    RatioIs(lib, ONE_I / 32 * 25, ONE_I + 6_597_069_766_656, 214_866_394_435_615);
    assert FeeShares(lib, ONE_I / 32 * 25, 18_879_089_637_937_119_232) == Ok(14_081_484_025_732_464_640);
  }

  /** The theorems speak of something: on this vault the clock succeeds and mints a fee. */
  lemma TypicalClock(lib: Library)
    ensures SyncClock(lib, VAULT, ONE_I / 16, ONE_U / 4, 2_500)
         == Ok(Vault(Pool(100 * ONE_U + 14_081_484_025_732_464_640, 18_879_089_637_937_119_232),
                     Pool(50 * ONE_U, ONE_U + ONE_U / 16), 3_520_371_006_433_116_160, 10_561_113_019_299_348_480))
  {
    TypicalTotals();
    TypicalUtilisation(lib);
    TypicalCharge(lib);
    TypicalCredit(lib);
  }
}
