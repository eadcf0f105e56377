/** What every run of one position keeps. */
module PositionRuns {
  import opened Arithmetic
  import opened FixedPoint
  import SharePool
  import PoolTheorems
  import opened BorrowPosition

  /** Repayment succeeds exactly up to what is owed, and takes exactly those shares off. */
  lemma RepaySucceedsIff(p: Position, shares: UFixed)
    ensures Repay(p, shares).result.Ok? <==> shares <= p.shares
    ensures Repay(p, shares).result.Ok? ==> Repay(p, shares).position.shares == p.shares - shares
    ensures Repay(p, shares).result.Err? ==> Repay(p, shares).position == p
  {
  }

  /** What each refusal says, and that it leaves the position alone; only liquidation repays before it can refuse. */
  lemma RefusalsAre(p: Position, atoms: U64, shares: UFixed)
    ensures var did := AddCollateral(p, atoms);
            (did.result.Err? <==> U64_MAX < p.collateral + atoms) && (did.result.Err? ==> did == Did(p, Err(AdditionOverflow)))
    ensures var did := TakeCollateral(p, atoms);
            (did.result.Err? <==> p.collateral < atoms) && (did.result.Err? ==> did == Did(p, Err(WithdrawalExceedsDeposited)))
    ensures Repay(p, shares).result.Err? ==> Repay(p, shares) == Did(p, Err(RepayExceedsBorrowed))
    ensures var did := BeginSweep(p);
            (did.result.Err? <==> SweepPending(p)) && (did.result.Err? ==> did == Did(p, Err(CapitalSweepPending)))
    ensures var did := SettleSweep(p, shares, atoms);
            && (did.result.Err? <==> !SweepPending(p) || p.shares < shares)
            && (did.result.Err? ==> did == Did(p, Err(if SweepPending(p) then RepayExceedsBorrowed else NoCapitalSweepPending)))
    ensures var did := Liquidate(p, shares, atoms);
            && (did.result.Err? <==> p.shares < shares || p.collateral < atoms)
            && (p.shares < shares ==> did == Did(p, Err(RepayExceedsBorrowed)))
            && (shares <= p.shares && p.collateral < atoms ==> did == Did(Repay(p, shares).position, Err(SubtractionOverflow)))
  {
  }

  lemma WrittenOffBounds(principal: int, shares: int, all: int)
    requires 0 <= principal < ONE_U && 0 <= shares < all
    ensures var w := (shares * ONE_U / all) * principal / ONE_U;
            w * all <= principal * shares < (w + 2) * all
  {
    var ratio := shares * ONE_U / all;
    var w := ratio * principal / ONE_U;
    DivBounds(shares * ONE_U, all);
    DivBounds(ratio * principal, ONE_U);
    NotTooMuch(ONE_U, principal, shares, all, ratio, w);
    NotTooLittle(ONE_U, principal, shares, all, ratio, w);
  }

  lemma NotTooMuch(one: int, principal: int, shares: int, all: int, ratio: int, w: int)
    requires 0 < one && 0 <= principal && 0 < all
    requires ratio * all <= shares * one && w * one <= ratio * principal
    ensures w * all <= principal * shares
  {
  }

  lemma NotTooLittle(one: int, principal: int, shares: int, all: int, ratio: int, w: int)
    requires 0 <= principal < one && 0 < all
    requires shares * one <= ratio * all + all && ratio * principal < w * one + one
    ensures principal * shares < (w + 2) * all
  {
  }

  /**
   A partial repayment leaves at least the exact proportional principal and less than that
   plus two atoms, so it never writes off more principal than shares.
   */
  lemma RepayIsProportional(p: Position, shares: UFixed)
    requires shares < p.shares
    ensures var q := Repay(p, shares).position;
            p.principal * (p.shares - shares) <= q.principal * p.shares < p.principal * (p.shares - shares) + 2 * p.shares
  {
    WrittenOffBounds(p.principal, shares, p.shares);
    var w := WrittenOff(p.principal, shares, p.shares);
    assert (p.principal - w) * p.shares == p.principal * p.shares - w * p.shares;
    assert p.principal * (p.shares - shares) == p.principal * p.shares - p.principal * shares;
    assert (w + 2) * p.shares == w * p.shares + 2 * p.shares;
  }

  // ---------------------------------------------------------------- runs

  datatype Op =
    | AddOp(atoms: U64)
    | TakeOp(atoms: U64)
    | BorrowOp(price: UFixed, atoms: U64)
    | RepayOp(shares: UFixed)
    | RepayAllOp
    | LiquidateOp(shares: UFixed, collateral: U64)
    | BeginOp
    | SettleOp(shares: UFixed, returned: U64)

  /**
   A position with the number of non-empty sweeps begun and settled, the collateral it should
   hold, and what the open sweep handed out.
   */
  datatype Account = Account(position: Position, begun: nat, settled: nat, expected: int, out: int)

  const NEW_ACCOUNT: Account := Account(NEW_POSITION, 0, 0, 0, 0)

  /**
   One operation; borrowing takes the shares the ledger mints at some price. Failures keep
   whatever the position already changed. `expected` books every collateral movement.
   */
  function Step(a: Account, op: Op): Account {
    match op
    case AddOp(atoms) =>
      var did := AddCollateral(a.position, atoms);
      a.(position := did.position, expected := if did.result.Ok? then a.expected + atoms else a.expected)
    case TakeOp(atoms) =>
      var did := TakeCollateral(a.position, atoms);
      a.(position := did.position, expected := if did.result.Ok? then a.expected - atoms else a.expected)
    case BorrowOp(price, atoms) =>
      var minted := SharePool.SharesFor(price, atoms);
      if minted.Err? then a else a.(position := Borrow(a.position, atoms, minted.value).position)
    case RepayOp(shares) => a.(position := Repay(a.position, shares).position)
    case RepayAllOp => a.(position := RepayAll(a.position))
    case LiquidateOp(shares, collateral) =>
      var did := Liquidate(a.position, shares, collateral);
      a.(position := did.position, expected := if did.result.Ok? then a.expected - collateral else a.expected)
    case BeginOp =>
      var did := BeginSweep(a.position);
      var taken := if did.result.Ok? then did.result.value else 0;
      a.(position := did.position, begun := a.begun + (if taken != 0 then 1 else 0), expected := a.expected - taken, out := a.out + taken)
    case SettleOp(shares, returned) =>
      var did := SettleSweep(a.position, shares, returned);
      if did.result.Err? then a.(position := did.position)
      else a.(position := did.position, settled := a.settled + 1, expected := a.expected + returned, out := 0)
  }

  function Run(a: Account, ops: seq<Op>): Account
    decreases |ops|
  {
    if ops == [] then a else Run(Step(a, ops[0]), ops[1..])
  }

  /**
   Principal and debt vanish together; at most one sweep is open, exactly then the lock is on,
   and the position remembers exactly what it handed out.
   */
  ghost predicate Consistent(a: Account) {
    && (a.position.principal == 0 <==> a.position.shares == 0)
    && a.begun - a.settled == (if SweepPending(a.position) then 1 else 0)
    && a.position.swept == a.out
  }

  lemma RepayKeepsPrincipal(p: Position, shares: UFixed)
    requires p.principal == 0 <==> p.shares == 0
    ensures var q := Repay(p, shares).position;
            (q.principal == 0 <==> q.shares == 0) && q.collateral == p.collateral && q.swept == p.swept
  {
    if shares < p.shares {
      RepayIsProportional(p, shares);
      MulLt(0, p.principal, p.shares - shares);
    }
  }

  lemma BorrowKeepsPrincipal(p: Position, price: UFixed, atoms: U64)
    requires (p.principal == 0 <==> p.shares == 0) && SharePool.SharesFor(price, atoms).Ok?
    ensures var q := Borrow(p, atoms, SharePool.SharesFor(price, atoms).value).position;
            (q.principal == 0 <==> q.shares == 0) && q.collateral == p.collateral && q.swept == p.swept
  {
  }

  lemma StepIsConsistent(a: Account, op: Op)
    requires Consistent(a)
    ensures Consistent(Step(a, op))
  {
    match op {
      case BorrowOp(price, atoms) =>
        if SharePool.SharesFor(price, atoms).Ok? {
          BorrowKeepsPrincipal(a.position, price, atoms);
        }
      case RepayOp(shares) => RepayKeepsPrincipal(a.position, shares);
      case LiquidateOp(shares, _) => RepayKeepsPrincipal(a.position, shares);
      case SettleOp(shares, _) => RepayKeepsPrincipal(a.position, shares);
      case _ =>
    }
  }

  /** Every run of any operations in any order, failures included. */
  lemma {:induction false} EveryRunIsConsistent(a: Account, ops: seq<Op>)
    requires Consistent(a)
    ensures Consistent(Run(a, ops))
    decreases |ops|
  {
    if ops != [] {
      StepIsConsistent(a, ops[0]);
      EveryRunIsConsistent(Step(a, ops[0]), ops[1..]);
    }
  }

  lemma EveryAccountIsConsistent(ops: seq<Op>)
    ensures Consistent(Run(NEW_ACCOUNT, ops))
  {
    EveryRunIsConsistent(NEW_ACCOUNT, ops);
  }

  // ---------------------------------------------------------------- collateral is conserved, except while a sweep is open

  /** Settling replaces the collateral, so it keeps the books exactly when nothing was deposited meanwhile. */
  lemma SettleConservesIff(a: Account, shares: UFixed, returned: U64)
    requires a.position.collateral == a.expected && SettleSweep(a.position, shares, returned).result.Ok?
    ensures var b := Step(a, SettleOp(shares, returned));
            b.position.collateral == b.expected <==> a.position.collateral == 0
  {
  }

  predicate DepositsNothingWhilePending(a: Account, ops: seq<Op>)
    decreases |ops|
  {
    ops == [] ||
    (&& (SweepPending(a.position) ==> !ops[0].AddOp? || ops[0].atoms == 0)
     && DepositsNothingWhilePending(Step(a, ops[0]), ops[1..]))
  }

  /**
   A run that deposits no collateral while a sweep is open conserves it: what the position
   holds is what was put in, minus what was taken, seized or swept, plus what came back.
   */
  lemma {:induction false} EveryGuardedRunConserves(a: Account, ops: seq<Op>)
    requires a.position.collateral == a.expected && (SweepPending(a.position) ==> a.position.collateral == 0)
    requires DepositsNothingWhilePending(a, ops)
    ensures Run(a, ops).position.collateral == Run(a, ops).expected
    decreases |ops|
  {
    if ops != [] {
      var b := Step(a, ops[0]);
      EveryGuardedRunConserves(b, ops[1..]);
    }
  }

  /** Without that restriction a deposit can disappear from the books. */
  lemma UnguardedDepositIsLost()
    ensures var ops := [AddOp(1000), BeginOp, AddOp(5), SettleOp(0, 600)];
            Run(NEW_ACCOUNT, ops).position.collateral == 600 && Run(NEW_ACCOUNT, ops).expected == 605
  {
  }
}
