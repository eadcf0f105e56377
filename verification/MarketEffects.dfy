/** What each operation of a borrower does to the book, and exactly when it goes through. */
module MarketEffects {
  import opened Arithmetic
  import opened FixedPoint
  import opened SharePool
  import opened PoolTheorems
  import opened Health
  import BP = BorrowPosition
  import PR = PositionRuns
  import opened DebtBook

  /** Only position i, the pool's shares and the vault may differ. */
  ghost predicate Touches(b: Book, i: nat, after: Book)
    requires i < |b.positions|
  {
    && |after.positions| == |b.positions|
    && after == Put(b, i, after.positions[i]).(pool := after.pool, vault := after.vault)
    && after.pool.price == b.pool.price
    && after.pool.shares - b.pool.shares == after.positions[i].shares - b.positions[i].shares
    && after.vault - b.vault == after.positions[i].collateral - b.positions[i].collateral
    && after.positions[i].swept == b.positions[i].swept
  }

  /** What position i owes, in atoms rounded up. */
  function DebtOf(b: Book, i: nat): Result<U64>
    requires i < |b.positions|
  {
    Worth(b.pool.price, b.positions[i].shares, RoundUp)
  }

  // ---------------------------------------------------------------- collateral

  lemma DepositCollateralDoes(b: Book, i: nat, atoms: U64)
    requires i < |b.positions|
    ensures var p, r := b.positions[i], PositionStep(b, i, DepositCollateral(i, atoms));
            && (r.Ok? <==> !BP.SweepPending(p) && p.collateral + atoms <= U64_MAX && b.vault + atoms <= U64_MAX)
            && (r.Ok? ==> Touches(b, i, r.value) && r.value.positions[i] == p.(collateral := p.collateral + atoms))
  {
  }

  lemma WithdrawCollateralDoes(b: Book, i: nat, atoms: U64)
    requires i < |b.positions|
    ensures var p, r := b.positions[i], PositionStep(b, i, WithdrawCollateral(i, atoms));
            && (r.Ok? <==> !BP.SweepPending(p) && atoms <= p.collateral && atoms <= b.vault)
            && (r.Ok? ==> Touches(b, i, r.value) && r.value.positions[i] == p.(collateral := p.collateral - atoms))
  {
  }

  // ---------------------------------------------------------------- debt

  lemma BorrowDoes(b: Book, i: nat, atoms: U64)
    requires i < |b.positions|
    ensures var p, r, minted := b.positions[i], PositionStep(b, i, BorrowAtoms(i, atoms)), Deposit(b.pool, atoms).result;
            && (r.Ok? <==> && !BP.SweepPending(p) && minted.Ok?
                           && p.principal + atoms <= U64_MAX && p.shares + minted.value < TWO128)
            && (r.Ok? ==> && Touches(b, i, r.value)
                          && r.value.positions[i].collateral == p.collateral
                          && r.value.positions[i].principal == p.principal + atoms
                          && r.value.positions[i].shares == p.shares + minted.value)
  {
  }

  /** Borrowing n atoms raises the debt by n, or by n - 1 if the last atom was already owed in part. */
  lemma BorrowRaisesDebt(b: Book, i: nat, atoms: U64)
    requires i < |b.positions| && PositionStep(b, i, BorrowAtoms(i, atoms)).Ok?
    requires DebtOf(b, i).Ok?
    ensures var after := DebtOf(PositionStep(b, i, BorrowAtoms(i, atoms)).value, i);
            after.Ok? && after.value < U64_MAX ==>
              && DebtOf(b, i).value + atoms - 1 <= after.value <= DebtOf(b, i).value + atoms
              && (atoms == 0 ==> after.value == DebtOf(b, i).value)
  {
    BorrowDoes(b, i, atoms);
    var p, minted, after := b.positions[i], SharesFor(b.pool.price, atoms).value, DebtOf(PositionStep(b, i, BorrowAtoms(i, atoms)).value, i);
    RoundedUp(b.pool.price, p.shares, DebtOf(b, i).value);
    SharesForBounds(b.pool.price, atoms);
    if 0 < atoms {
      DepositShortfall(b.pool.price, atoms);
    }
    if after.Ok? && after.value < U64_MAX {
      RoundedUp(b.pool.price, p.shares + minted, after.value);
      DebtGrows(p.shares, minted, b.pool.price, DebtOf(b, i).value, after.value, atoms);
    }
  }

  lemma DebtGrows(owed: int, minted: int, price: int, debt: int, after: int, atoms: int)
    requires (debt - 1) * TWO128 + ONE_U <= owed * price && (debt < U64_MAX ==> owed * price < debt * TWO128 + ONE_U)
    requires (after - 1) * TWO128 + ONE_U <= (owed + minted) * price < after * TWO128 + ONE_U && after < U64_MAX
    requires 0 <= minted * price <= atoms * TWO128 && (0 < atoms ==> (atoms - 1) * TWO128 + ONE_U <= minted * price) && debt <= U64_MAX
    requires atoms == 0 ==> minted == 0
    ensures debt + atoms - 1 <= after <= debt + atoms && (atoms == 0 ==> after == debt)
  {
    assert (owed + minted) * price == owed * price + minted * price;
  }

  /** Repaying n atoms lowers the debt by n, or by n - 1. */
  lemma RepayDoes(b: Book, i: nat, atoms: U64)
    requires i < |b.positions|
    ensures var p, r, burnt := b.positions[i], PositionStep(b, i, RepayAtoms(i, atoms)), Withdraw(b.pool, atoms).result;
            && (r.Ok? <==> !BP.SweepPending(p) && burnt.Ok? && burnt.value <= p.shares)
            && (r.Ok? ==> && Touches(b, i, r.value)
                          && r.value.positions[i].collateral == p.collateral
                          && r.value.positions[i].shares == p.shares - burnt.value)
    ensures var r := PositionStep(b, i, RepayAtoms(i, atoms));
            r.Ok? && DebtOf(b, i).Ok? && DebtOf(b, i).value < U64_MAX ==>
              && DebtOf(r.value, i).Ok?
              && DebtOf(b, i).value - atoms <= DebtOf(r.value, i).value <= DebtOf(b, i).value - atoms + 1
  {
    var r := PositionStep(b, i, RepayAtoms(i, atoms));
    if Withdraw(b.pool, atoms).result.Ok? {
      PR.RepaySucceedsIff(b.positions[i], Withdraw(b.pool, atoms).result.value);
    }
    if r.Ok? && DebtOf(b, i).Ok? && DebtOf(b, i).value < U64_MAX {
      PartOfDebt(b.pool.price, b.positions[i].shares, DebtOf(b, i).value, atoms);
    }
  }

  /** Repaying everything clears the debt and leaves the collateral. */
  lemma RepayAllDoes(b: Book, i: nat)
    requires i < |b.positions|
    ensures var p, r := b.positions[i], PositionStep(b, i, RepayAllDebt(i));
            && (r.Ok? <==> !BP.SweepPending(p) && DebtOf(b, i).Ok? && p.shares <= b.pool.shares)
            && (r.Ok? ==> Touches(b, i, r.value) && r.value.positions[i] == p.(principal := 0, shares := 0) && DebtOf(r.value, i) == Ok(0))
  {
    RoundedUp(b.pool.price, 0, 0);
  }

  /** A write-off clears the debt and takes all of the collateral, which leaves the vault. */
  lemma SocializeDoes(b: Book, i: nat)
    requires i < |b.positions|
    ensures var p, r := b.positions[i], PositionStep(b, i, SocializeDebt(i));
            && (r.Ok? <==> !BP.SweepPending(p) && DebtOf(b, i).Ok? && p.shares <= b.pool.shares && p.collateral <= b.vault)
            && (r.Ok? ==> Touches(b, i, r.value) && r.value.positions[i] == BP.NEW_POSITION && DebtOf(r.value, i) == Ok(0))
  {
    RoundedUp(b.pool.price, 0, 0);
  }
}
