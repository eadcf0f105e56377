/**
 All borrowers of a market together: the debt ledger, the positions and the collateral
 vault, moved by the market's operations. An operation that fails anywhere leaves
 everything as it was, as a reverted transaction does.
 */
module DebtBook {
  import opened Arithmetic
  import opened FixedPoint
  import opened SharePool
  import opened PoolTheorems
  import BP = BorrowPosition
  import opened Liquidation
  import LT = LiquidationTheorems
  import PR = PositionRuns

  type Position = BP.Position

  datatype Book = Book(pool: Pool, positions: seq<Position>, vault: U64)

  const EMPTY_BOOK: Book := Book(EMPTY, [], 0)

  datatype Op =
    | OpenPosition
    | DepositCollateral(i: nat, atoms: U64)
    | WithdrawCollateral(i: nat, atoms: U64)
    | BorrowAtoms(i: nat, atoms: U64)
    | RepayAtoms(i: nat, atoms: U64)
    | RepayAllDebt(i: nat)
    | LiquidatePosition(i: nat, seizure: SeizureWithBonus)
    | BeginCapitalSweep(i: nat)
    | SettleCapitalSweep(i: nat, seizure: SeizureWithBonus, maxReturn: U64)
    | SocializeDebt(i: nat)
    | ChargeInterest(rate: IFixed)

  function Put(b: Book, i: nat, p: Position): Book
    requires i < |b.positions|
  {
    b.(positions := b.positions[i := p])
  }

  /** Turns what a position operation did into a result that reverts on failure. */
  function Done<T>(did: BP.Did<T>): Result<Position> {
    if did.result.Ok? then Ok(did.position) else Err(did.result.error)
  }

  function Inactive(p: Position): Result<()> {
    if BP.SweepPending(p) then Err(CapitalSweepPending) else Ok(())
  }

  function TotalSeized(s: SeizureWithBonus): Result<U64> {
    Add64(s.collateral, s.bonus)
  }

  /** Pays a seizure's debt at the ledger, capped by what the position owes, and rescales the rest to what was paid. */
  function PayDebt(b: Book, i: nat, s: SeizureWithBonus): Result<(Pool, UFixed, SeizureWithBonus)>
    requires i < |b.positions|
  {
    var paid :- Committed(WithdrawCapped(b.pool, s.repay, b.positions[i].shares, RoundUp));
    Ok((paid.0, paid.1.1, CappedWithBonus(s, paid.1.0)))
  }

  function LiquidateStep(b: Book, i: nat, s: SeizureWithBonus): Result<Book>
    requires i < |b.positions|
  {
    var _ :- Inactive(b.positions[i]);
    var paid :- PayDebt(b, i, s);
    var total :- TotalSeized(paid.2);
    var p :- Done(BP.Liquidate(b.positions[i], paid.1, total));
    var vault :- Sub64(b.vault, total);
    Ok(Put(b, i, p).(pool := paid.0, vault := vault))
  }

  function SettleStep(b: Book, i: nat, s: SeizureWithBonus, maxReturn: U64): Result<Book>
    requires i < |b.positions|
  {
    var p := b.positions[i];
    if !BP.SweepPending(p) then Err(NoCapitalSweepPending)
    else
      var planned :- TotalSeized(s);
      var plannedReturn :- Sub64(p.swept, planned);
      if maxReturn < plannedReturn then Err(CapitalSweepDidNotMeetRequirements)
      else
        var paid :- PayDebt(b, i, s);
        var total :- TotalSeized(paid.2);
        var returned :- Sub64(p.swept, total);
        if maxReturn < returned then Err(CapitalSweepDidNotMeetRequirements)
        else
          var q :- Done(BP.SettleSweep(p, paid.1, returned));
          var vault :- Add64(b.vault, returned);
          Ok(Put(b, i, q).(pool := paid.0, vault := vault))
  }

  function PositionStep(b: Book, i: nat, op: Op): Result<Book>
    requires i < |b.positions|
  {
    var p := b.positions[i];
    match op
    case DepositCollateral(_, atoms) =>
      var _ :- Inactive(p);
      var q :- Done(BP.AddCollateral(p, atoms));
      var vault :- Add64(b.vault, atoms);
      Ok(Put(b, i, q).(vault := vault))
    case WithdrawCollateral(_, atoms) =>
      var _ :- Inactive(p);
      var q :- Done(BP.TakeCollateral(p, atoms));
      var vault :- Sub64(b.vault, atoms);
      Ok(Put(b, i, q).(vault := vault))
    case BorrowAtoms(_, atoms) =>
      var _ :- Inactive(p);
      var minted :- Committed(Deposit(b.pool, atoms));
      var q :- Done(BP.Borrow(p, atoms, minted.1));
      Ok(Put(b, i, q).(pool := minted.0))
    case RepayAtoms(_, atoms) =>
      var _ :- Inactive(p);
      var burnt :- Committed(Withdraw(b.pool, atoms));
      var q :- Done(BP.Repay(p, burnt.1));
      Ok(Put(b, i, q).(pool := burnt.0))
    case RepayAllDebt(_) =>
      var _ :- Inactive(p);
      var burnt :- Committed(Redeem(b.pool, p.shares, RoundUp));
      Ok(Put(b, i, BP.RepayAll(p)).(pool := burnt.0))
    case LiquidatePosition(_, s) => LiquidateStep(b, i, s)
    case BeginCapitalSweep(_) =>
      var q :- Done(BP.BeginSweep(p));
      var vault :- Sub64(b.vault, p.collateral);
      Ok(Put(b, i, q).(vault := vault))
    case SettleCapitalSweep(_, s, maxReturn) => SettleStep(b, i, s, maxReturn)
    case SocializeDebt(_) =>
      var _ :- Inactive(p);
      var burnt :- Committed(Redeem(b.pool, p.shares, RoundUp));
      var q :- Done(BP.TakeCollateral(BP.RepayAll(p), p.collateral));
      var vault :- Sub64(b.vault, p.collateral);
      Ok(Put(b, i, q).(pool := burnt.0, vault := vault))
    case _ => Ok(b)
  }

  function Step(lib: Library, b: Book, op: Op): Book {
    match op
    case OpenPosition => b.(positions := b.positions + [BP.NEW_POSITION])
    case ChargeInterest(rate) => b.(pool := Accrue(lib, b.pool, rate).pool)
    case _ =>
      if |b.positions| <= op.i then b
      else
        var r := PositionStep(b, op.i, op);
        if r.Ok? then r.value else b
  }

  function Run(lib: Library, b: Book, ops: seq<Op>): Book
    decreases |ops|
  {
    if ops == [] then b else Run(lib, Step(lib, b, ops[0]), ops[1..])
  }

  // ---------------------------------------------------------------- sums over positions

  datatype Field = Shares | Collateral

  function Amount(p: Position, f: Field): (n: int)
    ensures 0 <= n
  {
    match f
    case Shares => p.shares
    case Collateral => p.collateral
  }

  function Sum(ps: seq<Position>, f: Field): (n: int)
    ensures 0 <= n
  {
    if ps == [] then 0 else Amount(ps[|ps| - 1], f) + Sum(ps[..|ps| - 1], f)
  }

  lemma SumOpen(ps: seq<Position>, p: Position, f: Field)
    ensures Sum(ps + [p], f) == Sum(ps, f) + Amount(p, f)
  {
  }

  lemma {:induction false} SumPut(ps: seq<Position>, i: nat, p: Position, f: Field)
    requires i < |ps|
    ensures Sum(ps[i := p], f) == Sum(ps, f) - Amount(ps[i], f) + Amount(p, f)
    ensures Amount(ps[i], f) <= Sum(ps, f)
    decreases |ps|
  {
    var last := |ps| - 1;
    if i == last {
      assert ps[i := p][..last] == ps[..last];
    } else {
      SumPut(ps[..last], i, p, f);
      assert ps[i := p][..last] == ps[..last][i := p];
    }
  }

  // ---------------------------------------------------------------- the invariant

  predicate Sane(p: Position) {
    (p.principal == 0 <==> p.shares == 0) && (BP.SweepPending(p) ==> p.collateral == 0)
  }

  /** The ledger owes exactly what the positions owe, and the vault holds exactly what they hold. */
  ghost predicate Balanced(b: Book) {
    && b.pool.shares == Sum(b.positions, Shares)
    && b.vault == Sum(b.positions, Collateral)
    && forall i :: 0 <= i < |b.positions| ==> Sane(b.positions[i])
  }

  lemma PutIsBalanced(b: Book, i: nat, p: Position, pool: Pool, vault: U64)
    requires Balanced(b) && i < |b.positions| && Sane(p)
    requires pool.shares == b.pool.shares - b.positions[i].shares + p.shares
    requires vault == b.vault - b.positions[i].collateral + p.collateral
    ensures Balanced(Put(b, i, p).(pool := pool, vault := vault))
  {
    SumPut(b.positions, i, p, Shares);
    SumPut(b.positions, i, p, Collateral);
  }

  /** What paying a seizure's debt does to the ledger and leaves of the seizure. */
  lemma PayDebtIs(b: Book, i: nat, s: SeizureWithBonus)
    requires i < |b.positions| && PayDebt(b, i, s).Ok?
    ensures var (pool, shares, adjusted) := PayDebt(b, i, s).value;
            && shares <= b.positions[i].shares
            && pool == b.pool.(shares := b.pool.shares - shares)
            && adjusted.repay <= s.repay
            && adjusted.collateral <= s.collateral && adjusted.bonus <= s.bonus
            && (s.repay == adjusted.repay ==> adjusted == s)
            && LT.Rescaled(s, adjusted, adjusted.repay)
            && (adjusted.repay < s.repay ==> shares == b.positions[i].shares)
            && (adjusted.repay - 1) * TWO128 < shares * b.pool.price < adjusted.repay * TWO128 + ONE_U
  {
    CappedNeverOvercharges(b.pool, s.repay, b.positions[i].shares, RoundUp);
    LT.CappedWithBonusIs(s, PayDebt(b, i, s).value.2.repay);
  }

  lemma LiquidateIsBalanced(b: Book, i: nat, s: SeizureWithBonus)
    requires Balanced(b) && i < |b.positions| && LiquidateStep(b, i, s).Ok?
    ensures Balanced(LiquidateStep(b, i, s).value)
  {
    PayDebtIs(b, i, s);
    var (pool, shares, adjusted) := PayDebt(b, i, s).value;
    PR.RepayKeepsPrincipal(b.positions[i], shares);
    var after := LiquidateStep(b, i, s).value;
    PutIsBalanced(b, i, after.positions[i], after.pool, after.vault);
  }

  lemma SettleIsBalanced(b: Book, i: nat, s: SeizureWithBonus, maxReturn: U64)
    requires Balanced(b) && i < |b.positions| && SettleStep(b, i, s, maxReturn).Ok?
    ensures Balanced(SettleStep(b, i, s, maxReturn).value)
  {
    PayDebtIs(b, i, s);
    var (pool, shares, adjusted) := PayDebt(b, i, s).value;
    PR.RepayKeepsPrincipal(b.positions[i], shares);
    var after := SettleStep(b, i, s, maxReturn).value;
    PutIsBalanced(b, i, after.positions[i], after.pool, after.vault);
  }

  lemma BorrowIsBalanced(b: Book, i: nat, atoms: U64)
    requires Balanced(b) && i < |b.positions| && PositionStep(b, i, BorrowAtoms(i, atoms)).Ok?
    ensures Balanced(PositionStep(b, i, BorrowAtoms(i, atoms)).value)
  {
    DepositRoundTrip(b.pool, atoms);
    var after := PositionStep(b, i, BorrowAtoms(i, atoms)).value;
    PutIsBalanced(b, i, after.positions[i], after.pool, after.vault);
  }

  lemma RepayIsBalanced(b: Book, i: nat, atoms: U64)
    requires Balanced(b) && i < |b.positions| && PositionStep(b, i, RepayAtoms(i, atoms)).Ok?
    ensures Balanced(PositionStep(b, i, RepayAtoms(i, atoms)).value)
  {
    var shares := Withdraw(b.pool, atoms).result.value;
    PR.RepayKeepsPrincipal(b.positions[i], shares);
    var after := PositionStep(b, i, RepayAtoms(i, atoms)).value;
    PutIsBalanced(b, i, after.positions[i], after.pool, after.vault);
  }

  lemma PositionStepIsBalanced(b: Book, i: nat, op: Op)
    requires Balanced(b) && i < |b.positions| && PositionStep(b, i, op).Ok?
    ensures Balanced(PositionStep(b, i, op).value)
  {
    var after := PositionStep(b, i, op).value;
    match op {
      case LiquidatePosition(_, s) => LiquidateIsBalanced(b, i, s);
      case SettleCapitalSweep(_, s, maxReturn) => SettleIsBalanced(b, i, s, maxReturn);
      case BorrowAtoms(_, atoms) => BorrowIsBalanced(b, i, atoms);
      case RepayAtoms(_, atoms) => RepayIsBalanced(b, i, atoms);
      case OpenPosition =>
      case ChargeInterest(_) =>
      case _ => PutIsBalanced(b, i, after.positions[i], after.pool, after.vault);
    }
  }

  lemma OpenIsBalanced(b: Book)
    requires Balanced(b)
    ensures Balanced(b.(positions := b.positions + [BP.NEW_POSITION]))
  {
    SumOpen(b.positions, BP.NEW_POSITION, Shares);
    SumOpen(b.positions, BP.NEW_POSITION, Collateral);
  }

  lemma StepIsBalanced(lib: Library, b: Book, op: Op)
    requires Balanced(b)
    ensures Balanced(Step(lib, b, op))
  {
    if op.OpenPosition? {
      OpenIsBalanced(b);
    } else if !op.ChargeInterest? && op.i < |b.positions| && PositionStep(b, op.i, op).Ok? {
      PositionStepIsBalanced(b, op.i, op);
    }
  }

  /**
   Every run of the market's borrower operations, with any amounts, seizures and rates:
   the debt ledger's shares are the sum of the positions' shares, the vault's atoms are the
   sum of their collateral, principal and debt vanish together, and a swept position holds
   no collateral.
   */
  lemma {:induction false} EveryRunBalances(lib: Library, b: Book, ops: seq<Op>)
    requires Balanced(b)
    ensures Balanced(Run(lib, b, ops))
    decreases |ops|
  {
    if ops != [] {
      StepIsBalanced(lib, b, ops[0]);
      EveryRunBalances(lib, Step(lib, b, ops[0]), ops[1..]);
    }
  }

  lemma EveryMarketBalances(lib: Library, ops: seq<Op>)
    ensures Balanced(Run(lib, EMPTY_BOOK, ops))
  {
    EveryRunBalances(lib, EMPTY_BOOK, ops);
  }

  // ---------------------------------------------------------------- the price of debt

  predicate RateIsNotNegative(op: Op) {
    op.ChargeInterest? ==> 0 <= op.rate
  }

  lemma StepKeepsPrice(lib: Library, b: Book, op: Op)
    requires RateIsNotNegative(op) && b.pool.price % TWO16 == 0
    ensures var p := Step(lib, b, op).pool.price; b.pool.price <= p && p % TWO16 == 0
  {
    match op {
      case ChargeInterest(rate) => AccrualKeepsPrice(lib, b.pool, rate, 0);
      case LiquidatePosition(i, s) =>
        if i < |b.positions| && LiquidateStep(b, i, s).Ok? {
          PayDebtIs(b, i, s);
        }
      case SettleCapitalSweep(i, s, maxReturn) =>
        if i < |b.positions| && SettleStep(b, i, s, maxReturn).Ok? {
          PayDebtIs(b, i, s);
        }
      case _ =>
    }
  }

  /** At rates that are not negative a share of debt is never worth less than one atom. */
  lemma {:induction false} EveryRunKeepsPrice(lib: Library, b: Book, ops: seq<Op>)
    requires b.pool.price % TWO16 == 0 && forall k :: 0 <= k < |ops| ==> RateIsNotNegative(ops[k])
    ensures var p := Run(lib, b, ops).pool.price; b.pool.price <= p && p % TWO16 == 0
    decreases |ops|
  {
    if ops != [] {
      assert RateIsNotNegative(ops[0]);
      assert forall k :: 0 <= k < |ops[1..]| ==> ops[1..][k] == ops[k + 1];
      StepKeepsPrice(lib, b, ops[0]);
      EveryRunKeepsPrice(lib, Step(lib, b, ops[0]), ops[1..]);
    }
  }

  // ---------------------------------------------------------------- capped repayment meets the position

  /**
   Whatever a capped repayment with the position's own shares returns, the position accepts
   it, the charge is at most the offer, and the books still balance.
   */
  lemma CappedRepaymentIsAccepted(b: Book, i: nat, atoms: U64, mode: RoundingMode)
    requires Balanced(b) && i < |b.positions|
    requires WithdrawCapped(b.pool, atoms, b.positions[i].shares, mode).result.Ok?
    ensures var out := WithdrawCapped(b.pool, atoms, b.positions[i].shares, mode);
            var (charged, shares) := out.result.value;
            var repaid := BP.Repay(b.positions[i], shares);
            && charged <= atoms
            && repaid.result.Ok?
            && Balanced(Put(b, i, repaid.position).(pool := out.pool))
  {
    var p := b.positions[i];
    CappedNeverOvercharges(b.pool, atoms, p.shares, mode);
    var out := WithdrawCapped(b.pool, atoms, p.shares, mode);
    var shares := out.result.value.1;
    PR.RepayKeepsPrincipal(p, shares);
    PutIsBalanced(b, i, BP.Repay(p, shares).position, out.pool, b.vault);
  }

  /** A seizure within the position's collateral always settles if its repayment converts at all. */
  lemma LiquidationAlwaysSettles(b: Book, i: nat, s: SeizureWithBonus)
    requires Balanced(b) && i < |b.positions| && !BP.SweepPending(b.positions[i])
    requires s.collateral + s.bonus <= b.positions[i].collateral
    requires SharesFor(b.pool.price, s.repay).Ok?
    ensures LiquidateStep(b, i, s).Ok?
  {
    var p := b.positions[i];
    SumPut(b.positions, i, p, Shares);
    SumPut(b.positions, i, p, Collateral);
    CappedAlwaysSettles(b.pool, s.repay, p.shares, RoundUp);
    PayDebtIs(b, i, s);
  }

  /**
   What a solved liquidation of position i leaves in the books: the position loses exactly
   what was settled. What it loses is paid for by what was actually charged after the last
   rescale and, if the loan with bonus was solvent, is no larger a fraction of its collateral
   than the charge is of its debt.
   */
  ghost predicate SettlesFairly(lib: Library, b: Book, i: nat, loan: Loan, ltv: IFixed, fee: IFixed, maxRepay: U64)
    requires i < |b.positions| && Supported(loan) && SolveWithFee(lib, loan, ltv, fee, maxRepay).Ok?
  {
    var s := SolveWithFee(lib, loan, ltv, fee, maxRepay).value;
    var slack := LT.Slack(Uncapped(lib, loan, ltv, fee).value.repay);
    && LiquidateStep(b, i, s).Ok?
    && PayDebt(b, i, s).Ok?
    && var (pool, shares, settled) := PayDebt(b, i, s).value;
       var after := LiquidateStep(b, i, s).value;
    && after.positions[i].collateral == loan.collateral - settled.collateral - settled.bonus
    && after.positions[i].shares == b.positions[i].shares - shares
    && settled.repay <= maxRepay
    && LT.PaidFor(loan, settled.repay, settled.collateral, slack)
    && LT.PaidForWithBonus(loan, settled, fee, slack)
    && LT.Rescaled(s, settled, settled.repay)
    && LT.Gives(loan, settled.repay, settled.collateral, 3)
    && (LT.SolventWithBonus(loan, fee) && 0 < loan.collateral ==> LT.FairFraction(loan, settled, slack))
  }

  /** From the solver to the books: in a balanced book every solved liquidation that converts settles. */
  lemma SolvedLiquidationSettles(lib: Library, b: Book, i: nat, loan: Loan, ltv: IFixed, fee: IFixed, maxRepay: U64)
    requires Balanced(b) && i < |b.positions| && !BP.SweepPending(b.positions[i])
    requires LT.Priced(loan) && loan.collateral == b.positions[i].collateral && 0 <= fee
    requires SolveWithFee(lib, loan, ltv, fee, maxRepay).Ok?
    requires SharesFor(b.pool.price, SolveWithFee(lib, loan, ltv, fee, maxRepay).value.repay).Ok?
    ensures SettlesFairly(lib, b, i, loan, ltv, fee, maxRepay)
  {
    var s := SolveWithFee(lib, loan, ltv, fee, maxRepay).value;
    var slack := LT.Slack(Uncapped(lib, loan, ltv, fee).value.repay);
    LT.SeizureIsPaidFor(lib, loan, ltv, fee, maxRepay);
    LT.LiquidatorIsPaid(lib, loan, ltv, fee, maxRepay);
    LiquidationAlwaysSettles(b, i, s);
    LiquidateIs(b, i, s);
    PayDebtIs(b, i, s);
    var charged := WithdrawCapped(b.pool, s.repay, b.positions[i].shares, RoundUp).result.value.0;
    RescaleKeeps(loan, s, charged, fee, slack);
  }

  /** What the last rescale keeps of a solved seizure. */
  lemma RescaleKeeps(loan: Loan, s: SeizureWithBonus, charged: U64, fee: IFixed, slack: int)
    requires 0 < LT.CollateralPrice(loan) && 0 < LT.DebtPrice(loan) && 0 <= fee && 0 < slack
    requires LT.PaidFor(loan, s.repay, s.collateral, slack) && s.bonus * ONE_I <= s.collateral * fee
    requires LT.Gives(loan, s.repay, s.collateral, 2)
    ensures var settled := CappedWithBonus(s, charged);
            && LT.PaidFor(loan, settled.repay, settled.collateral, slack)
            && LT.PaidForWithBonus(loan, settled, fee, slack)
            && LT.Gives(loan, settled.repay, settled.collateral, 3)
            && (LT.SolventWithBonus(loan, fee) && 0 < loan.collateral ==> LT.FairFraction(loan, settled, slack))
  {
    LT.CappedIsPaidFor(loan, Seizure(s.repay, s.collateral), charged, slack);
    LT.CappedGives(loan, Seizure(s.repay, s.collateral), charged, 2);
    LT.BonusIsPaidFor(loan, s, fee, slack);
    LT.CappedBonusIsPaidFor(loan, s, charged, fee, slack);
    if LT.SolventWithBonus(loan, fee) && 0 < loan.collateral {
      LT.PaidForIsFair(loan, s, fee, slack);
      LT.CappedIsFair(loan, s, charged, slack);
    }
  }

  /** A liquidation settles exactly when its debt can be paid and its collateral is there; what it leaves. */
  lemma LiquidateIs(b: Book, i: nat, s: SeizureWithBonus)
    requires i < |b.positions|
    ensures LiquidateStep(b, i, s).Ok? <==>
              && !BP.SweepPending(b.positions[i]) && PayDebt(b, i, s).Ok?
              && var total := PayDebt(b, i, s).value.2.collateral + PayDebt(b, i, s).value.2.bonus;
              && total <= b.positions[i].collateral && total <= b.vault
    ensures LiquidateStep(b, i, s).Ok? ==>
              var (pool, shares, settled) := PayDebt(b, i, s).value;
              var p, after := b.positions[i], LiquidateStep(b, i, s).value;
              && settled.repay <= s.repay
              && |after.positions| == |b.positions|
              && after == Put(b, i, after.positions[i]).(pool := pool, vault := b.vault - settled.collateral - settled.bonus)
              && after.positions[i].shares == p.shares - shares
              && after.positions[i].collateral == p.collateral - settled.collateral - settled.bonus
              && after.positions[i].swept == p.swept
  {
    if PayDebt(b, i, s).Ok? {
      PayDebtIs(b, i, s);
      PR.RepaySucceedsIff(b.positions[i], PayDebt(b, i, s).value.1);
    }
  }

  /** What a settled sweep leaves: everything that was swept and not seized comes back, at most what the caller allows. */
  lemma SettleIs(b: Book, i: nat, s: SeizureWithBonus, maxReturn: U64)
    requires i < |b.positions| && SettleStep(b, i, s, maxReturn).Ok?
    ensures PayDebt(b, i, s).Ok?
    ensures var (pool, shares, settled) := PayDebt(b, i, s).value;
            var p, after := b.positions[i], SettleStep(b, i, s, maxReturn).value;
            && |after.positions| == |b.positions|
            && after == Put(b, i, after.positions[i]).(pool := pool, vault := b.vault + after.positions[i].collateral)
            && after.positions[i].shares == p.shares - shares
            && after.positions[i].collateral == p.swept - settled.collateral - settled.bonus <= maxReturn
            && after.positions[i].swept == 0
  {
    PayDebtIs(b, i, s);
    PR.RepaySucceedsIff(b.positions[i], PayDebt(b, i, s).value.1);
  }

  // ---------------------------------------------------------------- a sweep from beginning to end

  predicate SettlesPosition(op: Op, i: nat) {
    op.SettleCapitalSweep? && op.i == i
  }

  /** Until its sweep is settled nothing touches a position. */
  lemma SweptIsFrozen(lib: Library, b: Book, op: Op, i: nat)
    requires i < |b.positions| && BP.SweepPending(b.positions[i]) && !SettlesPosition(op, i)
    ensures var after := Step(lib, b, op); i < |after.positions| && after.positions[i] == b.positions[i]
  {
    match op {
      case OpenPosition =>
      case ChargeInterest(_) =>
      case LiquidatePosition(j, s) =>
        if j < |b.positions| {
          LiquidateIs(b, j, s);
        }
      case SettleCapitalSweep(j, s, maxReturn) =>
        if j < |b.positions| && SettleStep(b, j, s, maxReturn).Ok? {
          SettleIs(b, j, s, maxReturn);
        }
      case _ =>
    }
  }

  lemma {:induction false} SweptStaysFrozen(lib: Library, b: Book, ops: seq<Op>, i: nat)
    requires i < |b.positions| && BP.SweepPending(b.positions[i])
    requires forall k :: 0 <= k < |ops| ==> !SettlesPosition(ops[k], i)
    ensures var after := Run(lib, b, ops); i < |after.positions| && after.positions[i] == b.positions[i]
    decreases |ops|
  {
    if ops != [] {
      assert !SettlesPosition(ops[0], i);
      assert forall k :: 0 <= k < |ops[1..]| ==> ops[1..][k] == ops[k + 1];
      SweptIsFrozen(lib, b, ops[0], i);
      SweptStaysFrozen(lib, Step(lib, b, ops[0]), ops[1..], i);
    }
  }

  /** A sweep begins exactly if none is open and the vault holds the collateral, all of which leaves. */
  lemma BeginIs(b: Book, i: nat)
    requires i < |b.positions|
    ensures var p, r := b.positions[i], PositionStep(b, i, BeginCapitalSweep(i));
            && (r.Ok? <==> !BP.SweepPending(p) && p.collateral <= b.vault)
            && (r.Ok? ==> r.value == Put(b, i, p.(collateral := 0, swept := p.collateral)).(vault := b.vault - p.collateral))
  {
  }

  /**
   A whole sweep, with any operations of the market between its beginning and its settlement:
   what the position has afterwards and what was seized from it add up to what it had before,
   and so do the two movements of the vault.
   */
  lemma SweepReturnsTheRest(lib: Library, b: Book, i: nat, ops: seq<Op>, s: SeizureWithBonus, maxReturn: U64)
    requires i < |b.positions| && 0 < b.positions[i].collateral
    requires PositionStep(b, i, BeginCapitalSweep(i)).Ok?
    requires forall k :: 0 <= k < |ops| ==> !SettlesPosition(ops[k], i)
    requires var swept := Run(lib, PositionStep(b, i, BeginCapitalSweep(i)).value, ops);
             i < |swept.positions| && SettleStep(swept, i, s, maxReturn).Ok?
    ensures var begun := PositionStep(b, i, BeginCapitalSweep(i)).value;
            var swept := Run(lib, begun, ops);
            var after, seized := SettleStep(swept, i, s, maxReturn).value, PayDebt(swept, i, s).value.2;
            && begun.vault == b.vault - b.positions[i].collateral
            && |after.positions| == |swept.positions|
            && after.positions[i].collateral + seized.collateral + seized.bonus == b.positions[i].collateral
            && after.vault == swept.vault + after.positions[i].collateral
            && after.positions[i].collateral <= maxReturn
            && after.positions[i].swept == 0
            && after.positions[i].shares == b.positions[i].shares - PayDebt(swept, i, s).value.1
  {
    BeginIs(b, i);
    var begun := PositionStep(b, i, BeginCapitalSweep(i)).value;
    SweptStaysFrozen(lib, begun, ops, i);
    SettleIs(Run(lib, begun, ops), i, s, maxReturn);
  }

  // ---------------------------------------------------------------- in every run

  /** In every market run at rates that are not negative, every solved liquidation settles. */
  lemma EverySolvedLiquidationSettles(lib: Library, ops: seq<Op>, i: nat, loan: Loan, ltv: IFixed, fee: IFixed, maxRepay: U64)
    requires forall k :: 0 <= k < |ops| ==> RateIsNotNegative(ops[k])
    requires var b := Run(lib, EMPTY_BOOK, ops);
             && i < |b.positions| && !BP.SweepPending(b.positions[i])
             && loan.collateral == b.positions[i].collateral
    requires LT.Priced(loan) && 0 <= fee && SolveWithFee(lib, loan, ltv, fee, maxRepay).Ok?
    ensures SettlesFairly(lib, Run(lib, EMPTY_BOOK, ops), i, loan, ltv, fee, maxRepay)
  {
    var b := Run(lib, EMPTY_BOOK, ops);
    EveryMarketBalances(lib, ops);
    EveryRunKeepsPrice(lib, EMPTY_BOOK, ops);
    SolvedLiquidationSettles(lib, b, i, loan, ltv, fee, maxRepay);
  }
}
