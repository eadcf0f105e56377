/**
 Solvency of a whole market: what lenders can claim, against what the market holds and what
 borrowers owe it, from both sides. The reserve is booked from the atoms that each operation
 moves, never from the ledgers; an operation that fails changes nothing.
 */
module MarketSolvency {
  import opened Arithmetic
  import opened FixedPoint
  import opened SharePool
  import opened PoolTheorems
  import opened SupplyVault
  import opened Conservation
  import LG = Ledger

  /**
   `lenders` are the shares of all supply positions together and `reserve` the atoms held.
   `roundings` and `drops` count atoms of rounding against the market and in its favour; `dust`
   and `loss` bound what the clock credits too much and too little, in units of 2^-176 and of
   2^-224 atoms.
   */
  datatype Market = Market(vault: Vault, lenders: int, reserve: int, roundings: nat, dust: int, drops: nat, loss: int)

  /** No shares on either side and nothing booked, whatever the prices. */
  predicate IsNew(m: Market) {
    && m.vault.supply.shares == 0 && m.vault.borrow.shares == 0 && m.vault.protocolFee == 0 && m.vault.curatorFee == 0
    && m.lenders == 0 && m.reserve == 0 && m.roundings == 0 && m.dust == 0 && m.drops == 0 && m.loss == 0
  }

  datatype Op =
    | Lend(atoms: U64)
    | WithdrawShares(shares: UFixed)
    | WithdrawAtoms(atoms: U64)
    | Borrow(atoms: U64)
    | RepayAtoms(atoms: U64)
    | RepayShares(shares: UFixed)
    | RepayCapped(atoms: U64, cap: UFixed)
    | Clock(rate: IFixed, fee: UFixed, protocolBps: U64)
    | WriteOff(debtShares: UFixed)
    | DonateSupply(atoms: U64)
    | RedeemProtocolFees
    | RedeemCuratorFees

  /** Atoms that come in are positive; `slack` and `drop` are atoms of rounding either way. */
  function Moved(m: Market, v: Vault, atoms: int, slack: nat, drop: nat): Market {
    m.(vault := v, reserve := m.reserve + atoms, roundings := m.roundings + slack, drops := m.drops + drop)
  }

  function PaidOut(m: Market, v: Vault, atoms: U64, slack: nat, drop: nat): Market {
    Moved(m, v, 0 - atoms, slack, drop)
  }

  /** The rate that the clock credits to lenders, if the two totals convert. */
  function LendingRate(lib: Library, v: Vault, rate: IFixed): Result<IFixed> {
    var supplied :- Total(v.supply, RoundDown);
    var borrowed :- Total(v.borrow, RoundUp);
    var utilisation :- Utilisation(lib, borrowed, supplied);
    IMul(lib, rate, utilisation)
  }

  /**
   What the clock can credit beyond what it charges: interest on two atoms and the truncation of
   the borrowers' price. At a negative rate it credits nothing and forgives at most the debt.
   */
  function ClockDust(lib: Library, v: Vault, rate: IFixed): int {
    var lending := LendingRate(lib, v, rate);
    if rate < 0 || lending.Err? then Value(v.borrow) * ONE_I
    else (rate + lending.value) * TWO128 + TWO16 * (v.borrow.shares * (2 * ONE_I + rate))
  }

  /** What it can credit less than it charges. */
  function ClockShortfall(lib: Library, v: Vault, rate: IFixed): int {
    var lending, supplied := LendingRate(lib, v, rate), Total(v.supply, RoundDown);
    if lending.Err? || supplied.Err? then 0
    else if rate < 0 then (LG.FeeDust(v.supply, lending.value) + LG.PlainDust(v.borrow, rate)) * ONE_I
    else ClockLoss(v, rate, lending.value, supplied.value)
  }

  /** A supply position cannot give up more shares than it has. */
  function Step(lib: Library, m: Market, op: Op): Result<Market> {
    var v := m.vault;
    match op
    case Lend(atoms) =>
      var out :- Committed(Deposit(v.supply, atoms));
      Ok(Moved(m, v.(supply := out.0), atoms, 0, 1).(lenders := m.lenders + out.1))
    case WithdrawShares(shares) =>
      if m.lenders < shares then Err(WithdrawalExceedsDeposited)
      else
        var out :- Committed(Redeem(v.supply, shares, RoundDown));
        Ok(PaidOut(m, v.(supply := out.0), out.1, 0, 1).(lenders := m.lenders - shares))
    case WithdrawAtoms(atoms) =>
      var out :- Committed(Withdraw(v.supply, atoms));
      if m.lenders < out.1 then Err(WithdrawalExceedsDeposited)
      else Ok(PaidOut(m, v.(supply := out.0), atoms, 1, 0).(lenders := m.lenders - out.1))
    case Borrow(atoms) =>
      var out :- Committed(Deposit(v.borrow, atoms));
      Ok(PaidOut(m, v.(borrow := out.0), atoms, 1, 0))
    case RepayAtoms(atoms) =>
      var out :- Committed(Withdraw(v.borrow, atoms));
      Ok(Moved(m, v.(borrow := out.0), atoms, 0, 1))
    case RepayShares(shares) =>
      var out :- Committed(Redeem(v.borrow, shares, RoundUp));
      Ok(Moved(m, v.(borrow := out.0), out.1, 1, 1))
    case RepayCapped(atoms, cap) =>
      var out :- Committed(WithdrawCapped(v.borrow, atoms, cap, RoundUp));
      Ok(Moved(m, v.(borrow := out.0), out.1.0, 1, 1))
    case Clock(rate, fee, protocolBps) =>
      var w :- SyncClock(lib, v, rate, fee, protocolBps);
      Ok(m.(vault := w, dust := m.dust + ClockDust(lib, v, rate), loss := m.loss + ClockShortfall(lib, v, rate)))
    case WriteOff(debtShares) =>
      var out :- SocializeLoss(v, debtShares);
      Ok(Moved(m, out.0, 0, 2, 1))
    case DonateSupply(atoms) =>
      var out :- Committed(Donate(v.supply, atoms));
      Ok(Moved(m, v.(supply := out.0), atoms, 0, 1))
    case RedeemProtocolFees =>
      var out :- Committed(Redeem(v.supply, v.protocolFee, RoundDown));
      Ok(PaidOut(m, v.(supply := out.0, protocolFee := 0), out.1, 0, 1))
    case RedeemCuratorFees =>
      var out :- Committed(Redeem(v.supply, v.curatorFee, RoundDown));
      Ok(PaidOut(m, v.(supply := out.0, curatorFee := 0), out.1, 0, 1))
  }

  function Run(lib: Library, m: Market, ops: seq<Op>): Market
    decreases |ops|
  {
    if ops == [] then m
    else
      var next := Step(lib, m, ops[0]);
      Run(lib, if next.Ok? then next.value else m, ops[1..])
  }

  // ---------------------------------------------------------------- the invariant

  /** Every supply share is a lender's or a pending fee. */
  ghost predicate Owned(m: Market) {
    m.vault.supply.shares == m.lenders + m.vault.protocolFee + m.vault.curatorFee
  }

  /** Lenders' claims are covered by the reserve and the borrowers' debts, up to counted rounding. */
  ghost predicate Covered(m: Market) {
    Value(m.vault.supply) * ONE_I <= (m.reserve + m.roundings) * ATOM + Value(m.vault.borrow) * ONE_I + m.dust
  }

  /** And the reserve and the debts belong to them: nothing is left over but counted rounding. */
  ghost predicate Claimed(m: Market) {
    ((m.reserve - m.drops) * TWO128 + Value(m.vault.borrow)) * ONE_I * ONE_I <= Value(m.vault.supply) * ONE_I * ONE_I + m.loss
  }

  ghost predicate Solvent(m: Market) {
    Owned(m) && Covered(m) && Claimed(m)
  }

  /** An operation that moves atoms keeps both if what it leaves open fits in its roundings. */
  lemma MoveKeeps(m: Market, v: Vault, atoms: int, slack: nat, drop: nat)
    requires Covered(m) && Claimed(m)
    requires var gap := (Value(v.supply) - Value(m.vault.supply)) - (Value(v.borrow) - Value(m.vault.borrow));
             (atoms - drop) * TWO128 <= gap <= (atoms + slack) * TWO128
    ensures var after := Moved(m, v, atoms, slack, drop); Covered(after) && Claimed(after)
  {
  }

  lemma DepositGrows(p: Pool, atoms: U64)
    requires Deposit(p, atoms).result.Ok?
    ensures (atoms - 1) * TWO128 <= Value(Deposit(p, atoms).pool) - Value(p) <= atoms * TWO128
  {
    var s := SharesFor(p.price, atoms).value;
    SharesForBounds(p.price, atoms);
    assert (p.shares + s) * p.price == Value(p) + s * p.price;
  }

  lemma RedeemShrinks(p: Pool, shares: UFixed, mode: RoundingMode)
    requires Redeem(p, shares, mode).result.Ok?
    ensures var drop, atoms := Value(p) - Value(Redeem(p, shares, mode).pool), Redeem(p, shares, mode).result.value;
            && (mode == RoundDown ==> atoms * TWO128 <= drop)
            && (atoms - 1) * TWO128 <= drop <= (atoms + 1) * TWO128
            && Redeem(p, shares, mode).pool.shares == p.shares - shares
  {
    LG.WorthBounds(p.price, shares, mode);
    LG.RemovedValue(p, shares);
  }

  lemma CappedShrinks(p: Pool, atoms: U64, cap: UFixed)
    requires WithdrawCapped(p, atoms, cap, RoundUp).result.Ok?
    ensures var out := WithdrawCapped(p, atoms, cap, RoundUp);
            (out.result.value.0 - 1) * TWO128 <= Value(p) - Value(out.pool) <= (out.result.value.0 + 1) * TWO128
  {
    var (charged, removed) := WithdrawCapped(p, atoms, cap, RoundUp).result.value;
    CappedNeverOvercharges(p, atoms, cap, RoundUp);
    LG.RemovedValue(p, removed);
  }

  // ---------------------------------------------------------------- the clock

  lemma ClockKeeps(lib: Library, m: Market, rate: IFixed, fee: UFixed, protocolBps: U64)
    requires Solvent(m) && fee <= ONE_U && Step(lib, m, Clock(rate, fee, protocolBps)).Ok?
    ensures Solvent(Step(lib, m, Clock(rate, fee, protocolBps)).value)
  {
    var v := m.vault;
    ClockUnfolds(lib, v, rate, fee, protocolBps);
    ClockSplitsEveryFeeShare(lib, v, rate, fee, protocolBps);
    ClockGap(lib, v, rate, fee, protocolBps);
  }

  /** What one update changes the two ledgers by, against each other. */
  lemma ClockGap(lib: Library, v: Vault, rate: IFixed, fee: UFixed, protocolBps: U64)
    requires fee <= ONE_U && SyncClock(lib, v, rate, fee, protocolBps).Ok?
    ensures var w := SyncClock(lib, v, rate, fee, protocolBps).value;
            var credited, charged := Value(w.supply) - Value(v.supply), Value(w.borrow) - Value(v.borrow);
            && credited * ONE_I <= charged * ONE_I + ClockDust(lib, v, rate)
            && charged * ONE_I * ONE_I <= credited * ONE_I * ONE_I + ClockShortfall(lib, v, rate)
  {
    ClockUnfolds(lib, v, rate, fee, protocolBps);
    if 0 <= rate {
      ClockCreditsAtMostWhatItCharges(lib, v, rate, fee, protocolBps);
      ClockCreditsAtLeastWhatItCharges(lib, v, rate, fee, protocolBps);
    } else {
      NegativeClock(lib, v, rate, fee, protocolBps);
    }
  }

  /** At a negative rate the clock fails, or the lenders' share of it is zero and nothing is credited; borrowers are charged at most dust. */
  lemma NegativeClock(lib: Library, v: Vault, rate: IFixed, fee: UFixed, protocolBps: U64)
    requires rate < 0 && fee <= ONE_U && SyncClock(lib, v, rate, fee, protocolBps).Ok?
    ensures LendingRate(lib, v, rate).Ok?
    ensures var w := SyncClock(lib, v, rate, fee, protocolBps).value;
            && Value(w.supply) <= Value(v.supply) && 0 <= Value(w.borrow)
            && 0 - LG.FeeDust(v.supply, LendingRate(lib, v, rate).value) <= (Value(w.supply) - Value(v.supply)) * ONE_I
            && (Value(w.borrow) - Value(v.borrow)) * ONE_I <= LG.PlainDust(v.borrow, rate)
  {
    var w := SyncClock(lib, v, rate, fee, protocolBps).value;
    ClockUnfolds(lib, v, rate, fee, protocolBps);
    LendingIsNotPositive(lib, rate, Total(v.borrow, RoundUp).value, Total(v.supply, RoundDown).value);
    NothingCredited(lib, v.supply, LendingRate(lib, v, rate).value, fee);
    MulNonNeg(w.borrow.shares, w.borrow.price);
    PlainAccrualBounds(lib, v.borrow, rate);
    MulNonNeg(v.borrow.shares, v.borrow.price);
    NegativeProduct(rate, Value(v.borrow));
  }

  lemma LendingIsNotPositive(lib: Library, rate: IFixed, borrowed: U64, supplied: U64)
    requires rate < 0 && Utilisation(lib, borrowed, supplied).Ok?
    requires IMul(lib, rate, Utilisation(lib, borrowed, supplied).value).Ok?
    ensures IMul(lib, rate, Utilisation(lib, borrowed, supplied).value).value <= 0
  {
    var used := Utilisation(lib, borrowed, supplied).value;
    UtilisationIs(lib, borrowed, supplied);
    NegativeProduct(rate, used);
    QuotientBounds(lib.mul, rate * used, ONE_I);
  }

  lemma NegativeProduct(rate: int, used: int)
    requires rate < 0 && 0 <= used
    ensures rate * used <= 0
  {
  }

  lemma NothingCredited(lib: Library, p: Pool, rate: IFixed, fee: UFixed)
    requires rate <= 0 && fee <= ONE_U && AccrueWithFee(lib, p, rate, fee).result.Ok?
    ensures var change := Value(AccrueWithFee(lib, p, rate, fee).pool) - Value(p);
            change <= 0 && 0 - LG.FeeDust(p, rate) <= change * ONE_I
  {
    if rate == 0 {
      FeeAccrualCreatesNoClaims(lib, p, 0, fee);
      CancelLe(Value(AccrueWithFee(lib, p, 0, fee).pool), Value(p), ONE_I);
      FeeAccrualBounds(lib, p, 0, fee);
    } else {
      MulNonNeg(p.shares, p.price);
      MulNonNeg(p.shares, 2 * ONE_I + Abs(rate));
      MulNonNeg(p.price, ONE_I + Abs(rate));
      assert AccrueWithFee(lib, p, rate, fee).pool == p;
    }
  }

  // ---------------------------------------------------------------- every run

  lemma LenderStepKeeps(lib: Library, m: Market, op: Op)
    requires Solvent(m) && Step(lib, m, op).Ok?
    requires op.Lend? || op.WithdrawShares? || op.WithdrawAtoms? || op.DonateSupply?
    ensures Solvent(Step(lib, m, op).value)
  {
    var p, next := m.vault.supply, Step(lib, m, op).value;
    match op {
      case Lend(atoms) =>
        DepositGrows(p, atoms);
        MoveKeeps(m, next.vault, atoms, 0, 1);
      case WithdrawShares(shares) =>
        RedeemShrinks(p, shares, RoundDown);
        MoveKeeps(m, next.vault, next.reserve - m.reserve, 0, 1);
      case WithdrawAtoms(atoms) =>
        WithdrawFavoursClaimantIff(p, atoms);
        MoveKeeps(m, next.vault, 0 - atoms, 1, 0);
      case DonateSupply(atoms) =>
        DonateIsTight(p, atoms);
        MoveKeeps(m, next.vault, atoms, 0, 1);
    }
  }

  lemma FeeStepKeeps(lib: Library, m: Market, op: Op)
    requires Solvent(m) && Step(lib, m, op).Ok? && (op.RedeemProtocolFees? || op.RedeemCuratorFees?)
    ensures Solvent(Step(lib, m, op).value)
  {
    var next := Step(lib, m, op).value;
    RedeemShrinks(m.vault.supply, if op.RedeemProtocolFees? then m.vault.protocolFee else m.vault.curatorFee, RoundDown);
    MoveKeeps(m, next.vault, next.reserve - m.reserve, 0, 1);
  }

  lemma BorrowerStepKeeps(lib: Library, m: Market, op: Op)
    requires Solvent(m) && Step(lib, m, op).Ok?
    requires op.Borrow? || op.RepayAtoms? || op.RepayShares? || op.RepayCapped?
    ensures Solvent(Step(lib, m, op).value)
  {
    var p, next := m.vault.borrow, Step(lib, m, op).value;
    match op {
      case Borrow(atoms) =>
        DepositGrows(p, atoms);
        MoveKeeps(m, next.vault, 0 - atoms, 1, 0);
      case RepayAtoms(atoms) =>
        WithdrawFavoursClaimantIff(p, atoms);
        MoveKeeps(m, next.vault, atoms, 0, 1);
      case RepayShares(shares) =>
        RedeemShrinks(p, shares, RoundUp);
        MoveKeeps(m, next.vault, next.reserve - m.reserve, 1, 1);
      case RepayCapped(atoms, cap) =>
        CappedShrinks(p, atoms, cap);
        MoveKeeps(m, next.vault, next.reserve - m.reserve, 1, 1);
    }
  }

  lemma WriteOffKeeps(lib: Library, m: Market, debtShares: UFixed)
    requires Solvent(m) && Step(lib, m, WriteOff(debtShares)).Ok?
    ensures Solvent(Step(lib, m, WriteOff(debtShares)).value)
  {
    LossMovesToLenders(m.vault, debtShares);
    MoveKeeps(m, Step(lib, m, WriteOff(debtShares)).value.vault, 0, 2, 1);
  }

  predicate FeeIsFraction(op: Op) {
    op.Clock? ==> op.fee <= ONE_U
  }

  lemma StepKeeps(lib: Library, m: Market, op: Op)
    requires Solvent(m) && FeeIsFraction(op) && Step(lib, m, op).Ok?
    ensures Solvent(Step(lib, m, op).value)
  {
    match op {
      case Clock(rate, fee, protocolBps) => ClockKeeps(lib, m, rate, fee, protocolBps);
      case Lend(_) => LenderStepKeeps(lib, m, op);
      case WithdrawShares(_) => LenderStepKeeps(lib, m, op);
      case WithdrawAtoms(_) => LenderStepKeeps(lib, m, op);
      case DonateSupply(_) => LenderStepKeeps(lib, m, op);
      case RedeemProtocolFees => FeeStepKeeps(lib, m, op);
      case RedeemCuratorFees => FeeStepKeeps(lib, m, op);
      case WriteOff(debtShares) => WriteOffKeeps(lib, m, debtShares);
      case _ => BorrowerStepKeeps(lib, m, op);
    }
  }

  /** Each operation goes through exactly if its ledger accepts it and its lender can afford it, and moves exactly those atoms. */
  lemma StepFollowsLedgers(lib: Library, m: Market, op: Op)
    ensures var r, v := Step(lib, m, op), m.vault;
            match op
            case Lend(atoms) =>
              var out := Deposit(v.supply, atoms);
              (r.Ok? <==> out.result.Ok?) && (r.Ok? ==> r.value.vault.supply == out.pool && r.value.reserve == m.reserve + atoms)
            case WithdrawShares(shares) =>
              var out := Redeem(v.supply, shares, RoundDown);
              && (r.Ok? <==> out.result.Ok? && shares <= m.lenders)
              && (r.Ok? ==> r.value.vault.supply == out.pool && r.value.reserve == m.reserve - out.result.value)
            case WithdrawAtoms(atoms) =>
              var out := Withdraw(v.supply, atoms);
              && (r.Ok? <==> out.result.Ok? && out.result.value <= m.lenders)
              && (r.Ok? ==> r.value.vault.supply == out.pool && r.value.reserve == m.reserve - atoms)
            case Borrow(atoms) =>
              var out := Deposit(v.borrow, atoms);
              (r.Ok? <==> out.result.Ok?) && (r.Ok? ==> r.value.vault.borrow == out.pool && r.value.reserve == m.reserve - atoms)
            case RepayAtoms(atoms) =>
              var out := Withdraw(v.borrow, atoms);
              (r.Ok? <==> out.result.Ok?) && (r.Ok? ==> r.value.vault.borrow == out.pool && r.value.reserve == m.reserve + atoms)
            case RepayShares(shares) =>
              var out := Redeem(v.borrow, shares, RoundUp);
              (r.Ok? <==> out.result.Ok?) && (r.Ok? ==> r.value.vault.borrow == out.pool && r.value.reserve == m.reserve + out.result.value)
            case RepayCapped(atoms, cap) =>
              var out := WithdrawCapped(v.borrow, atoms, cap, RoundUp);
              (r.Ok? <==> out.result.Ok?) && (r.Ok? ==> r.value.vault.borrow == out.pool && r.value.reserve == m.reserve + out.result.value.0)
            case Clock(rate, fee, bps) =>
              var w := SyncClock(lib, v, rate, fee, bps);
              (r.Ok? <==> w.Ok?) && (r.Ok? ==> r.value.vault == w.value && r.value.reserve == m.reserve)
            case WriteOff(shares) =>
              var w := SocializeLoss(v, shares);
              (r.Ok? <==> w.Ok?) && (r.Ok? ==> r.value.vault == w.value.0 && r.value.reserve == m.reserve)
            case DonateSupply(atoms) =>
              var out := Donate(v.supply, atoms);
              (r.Ok? <==> out.result.Ok?) && (r.Ok? ==> r.value.vault.supply == out.pool && r.value.reserve == m.reserve + atoms)
            case RedeemProtocolFees =>
              var out := Redeem(v.supply, v.protocolFee, RoundDown);
              (r.Ok? <==> out.result.Ok?) && (r.Ok? ==> r.value.vault.supply == out.pool && r.value.reserve == m.reserve - out.result.value)
            case RedeemCuratorFees =>
              var out := Redeem(v.supply, v.curatorFee, RoundDown);
              (r.Ok? <==> out.result.Ok?) && (r.Ok? ==> r.value.vault.supply == out.pool && r.value.reserve == m.reserve - out.result.value)
  {
  }

  lemma StepCounts(lib: Library, m: Market, op: Op)
    requires Step(lib, m, op).Ok?
    ensures var next := Step(lib, m, op).value; next.roundings <= m.roundings + 2 && next.drops <= m.drops + 1
  {
  }

  lemma {:induction false} RunKeeps(lib: Library, m: Market, ops: seq<Op>)
    requires Solvent(m) && forall i :: 0 <= i < |ops| ==> FeeIsFraction(ops[i])
    ensures Solvent(Run(lib, m, ops))
    ensures Run(lib, m, ops).roundings <= m.roundings + 2 * |ops| && Run(lib, m, ops).drops <= m.drops + |ops|
    decreases |ops|
  {
    if ops != [] {
      assert FeeIsFraction(ops[0]);
      assert forall i :: 0 <= i < |ops[1..]| ==> ops[1..][i] == ops[i + 1];
      var next := Step(lib, m, ops[0]);
      if next.Ok? {
        StepKeeps(lib, m, ops[0]);
        StepCounts(lib, m, ops[0]);
      }
      RunKeeps(lib, if next.Ok? then next.value else m, ops[1..]);
    }
  }

  /**
   Every run of a market from its start, at any rates and in any order: every supply share is a
   lender's or a pending fee, and what they can claim is the reserve plus what borrowers owe, up
   to two atoms per operation above, one below, and the clock's dust. No run creates claims that
   nothing backs, and none leaves behind what nobody can claim.
   */
  lemma {:induction false} EveryMarketIsSolvent(lib: Library, m: Market, ops: seq<Op>)
    requires IsNew(m) && forall i :: 0 <= i < |ops| ==> FeeIsFraction(ops[i])
    ensures var after := Run(lib, m, ops); Solvent(after) && after.roundings <= 2 * |ops| && after.drops <= |ops|
  {
    NewMarketIsSolvent(m);
    RunKeeps(lib, m, ops);
  }

  lemma NewMarketIsSolvent(m: Market)
    requires IsNew(m)
    ensures Solvent(m)
  {
  }
}
