/** One borrower: debt shares, the remaining principal, collateral, and the capital-sweep lock. */
module BorrowPosition {
  import opened Arithmetic
  import opened FixedPoint

  datatype Position = Position(collateral: U64, principal: U64, shares: UFixed, swept: U64)

  const NEW_POSITION: Position := Position(0, 0, 0, 0)

  /** The position after an operation and what the operation returned. A failure can still have moved the position. */
  datatype Did<+T> = Did(position: Position, result: Result<T>)

  predicate SweepPending(p: Position) {
    p.swept != 0
  }

  // ---------------------------------------------------------------- specification

  function AddCollateral(p: Position, atoms: U64): Did<()> {
    if p.collateral + atoms <= U64_MAX then Did(p.(collateral := p.collateral + atoms), Ok(()))
    else Did(p, Err(AdditionOverflow))
  }

  function TakeCollateral(p: Position, atoms: U64): Did<()> {
    if atoms <= p.collateral then Did(p.(collateral := p.collateral - atoms), Ok(()))
    else Did(p, Err(WithdrawalExceedsDeposited))
  }

  /** The principal is raised first; a share overflow leaves it raised. */
  function Borrow(p: Position, atoms: U64, shares: UFixed): Did<()> {
    if U64_MAX < p.principal + atoms then Did(p, Err(AdditionOverflow))
    else if TWO128 <= p.shares + shares then Did(p.(principal := p.principal + atoms), Err(AdditionOverflow))
    else Did(p.(principal := p.principal + atoms, shares := p.shares + shares), Ok(()))
  }

  /** The principal written off when `shares` out of `all` are repaid; two truncations. */
  function WrittenOff(principal: U64, shares: UFixed, all: UFixed): (w: U64)
    requires shares < all
    ensures w <= principal
  {
    WrittenOffFits(principal, shares, all);
    (shares * ONE_U / all) * principal / ONE_U
  }

  lemma WrittenOffFits(principal: int, shares: int, all: int)
    requires 0 <= principal && 0 <= shares < all
    ensures 0 <= shares * ONE_U / all < ONE_U
    ensures 0 <= (shares * ONE_U / all) * principal <= ONE_U * principal
    ensures 0 <= (shares * ONE_U / all) * principal / ONE_U <= principal
  {
  }

  /** Succeeds for every number of shares up to what is owed. */
  function Repay(p: Position, shares: UFixed): Did<()> {
    if p.shares < shares then Did(p, Err(RepayExceedsBorrowed))
    else if shares == p.shares then Did(p.(principal := 0, shares := 0), Ok(()))
    else Did(p.(principal := p.principal - WrittenOff(p.principal, shares, p.shares), shares := p.shares - shares), Ok(()))
  }

  function RepayAll(p: Position): Position {
    p.(principal := 0, shares := 0)
  }

  /** The debt is repaid first; too little collateral leaves it repaid. */
  function Liquidate(p: Position, shares: UFixed, collateral: U64): Did<()> {
    var repaid := Repay(p, shares);
    if repaid.result.Err? then repaid
    else if collateral <= p.collateral then Did(repaid.position.(collateral := p.collateral - collateral), Ok(()))
    else Did(repaid.position, Err(SubtractionOverflow))
  }

  function BeginSweep(p: Position): Did<U64> {
    if SweepPending(p) then Did(p, Err(CapitalSweepPending))
    else Did(p.(collateral := 0, swept := p.collateral), Ok(p.collateral))
  }

  function SettleSweep(p: Position, shares: UFixed, returned: U64): Did<()> {
    if !SweepPending(p) then Did(p, Err(NoCapitalSweepPending))
    else
      var repaid := Repay(p, shares);
      if repaid.result.Err? then repaid
      else Did(repaid.position.(collateral := returned, swept := 0), Ok(()))
  }

  // ---------------------------------------------------------------- the object

  class BorrowPosition {
    var collateralDepositedAtoms: U64
    var initialBorrowedAtoms: U64
    var borrowedShares: UFixed
    var sweptCollateralAtoms: U64

    function View(): Position
      reads this
    {
      Position(collateralDepositedAtoms, initialBorrowedAtoms, borrowedShares, sweptCollateralAtoms)
    }

    constructor ()
      ensures View() == NEW_POSITION
    {
      collateralDepositedAtoms, initialBorrowedAtoms := 0, 0;
      borrowedShares, sweptCollateralAtoms := UFromInt(0), 0;
    }

    method BeginCapitalSweep() returns (r: Result<U64>)
      modifies this
      ensures Did(View(), r) == BeginSweep(old(View()))
    {
      if sweptCollateralAtoms != 0 {
        return Err(CapitalSweepPending);
      }
      var swept := collateralDepositedAtoms;
      collateralDepositedAtoms := 0;
      sweptCollateralAtoms := swept;
      r := Ok(swept);
    }

    method SettleCapitalSweep(sharesRepaid: UFixed, collateralReturned: U64) returns (r: Result<()>)
      modifies this
      ensures Did(View(), r) == SettleSweep(old(View()), sharesRepaid, collateralReturned)
    {
      if sweptCollateralAtoms == 0 {
        return Err(NoCapitalSweepPending);
      }
      var _ :- RepayShares(sharesRepaid);
      collateralDepositedAtoms := collateralReturned;
      sweptCollateralAtoms := 0;
      r := Ok(());
    }

    method DepositCollateral(atoms: U64) returns (r: Result<()>)
      modifies this
      ensures Did(View(), r) == AddCollateral(old(View()), atoms)
    {
      collateralDepositedAtoms :- Add64(collateralDepositedAtoms, atoms);
      r := Ok(());
    }

    method WithdrawCollateral(atoms: U64) returns (r: Result<()>)
      modifies this
      ensures Did(View(), r) == TakeCollateral(old(View()), atoms)
    {
      var rest := Sub64(collateralDepositedAtoms, atoms);
      if rest.Err? {
        return Err(WithdrawalExceedsDeposited);
      }
      collateralDepositedAtoms := rest.value;
      r := Ok(());
    }

    method BorrowShares(atoms: U64, shares: UFixed) returns (r: Result<()>)
      modifies this
      ensures Did(View(), r) == Borrow(old(View()), atoms, shares)
    {
      initialBorrowedAtoms :- Add64(initialBorrowedAtoms, atoms);
      borrowedShares :- UAdd(borrowedShares, shares);
      r := Ok(());
    }

    /** No step of the partial branch can fail: the ratio is below one, so it fits, and so does what it scales. */
    method RepayShares(shares: UFixed) returns (r: Result<()>)
      modifies this
      ensures Did(View(), r) == Repay(old(View()), shares)
    {
      if borrowedShares < shares {
        return Err(RepayExceedsBorrowed);
      }
      if shares == borrowedShares {
        RepayEverything();
        return Ok(());
      }
      WrittenOffFits(initialBorrowedAtoms, shares, borrowedShares);
      var ratio := UDiv(shares, borrowedShares).value;
      var scaled := UMulInt(ratio, initialBorrowedAtoms).value;
      var adjusted := URoundDown(scaled).value;
      initialBorrowedAtoms := Sub64(initialBorrowedAtoms, adjusted).value;
      borrowedShares := USub(borrowedShares, shares).value;
      r := Ok(());
    }

    method RepayEverything()
      modifies this
      ensures View() == RepayAll(old(View()))
    {
      initialBorrowedAtoms := 0;
      borrowedShares := UFromInt(0);
    }

    method LiquidateShares(sharesLiquidated: UFixed, collateralLiquidated: U64) returns (r: Result<()>)
      modifies this
      ensures Did(View(), r) == Liquidate(old(View()), sharesLiquidated, collateralLiquidated)
    {
      var _ :- RepayShares(sharesLiquidated);
      collateralDepositedAtoms :- Sub64(collateralDepositedAtoms, collateralLiquidated);
      r := Ok(());
    }
  }
}
