/** The ledger object: two fields, updated in place by checked fixed-point steps. */
module SharesTracker {
  import opened Arithmetic
  import opened FixedPoint
  import opened SharePool

  class SharesTracker {
    var totalShares: UFixed
    var atomsPerShare: UFixed

    function View(): Pool
      reads this
    {
      Pool(totalShares, atomsPerShare)
    }

    constructor ()
      ensures View() == EMPTY
    {
      totalShares := UFromInt(0);
      atomsPerShare := UFromInt(1);
    }

    method Initialize()
      modifies this
      ensures View() == EMPTY
    {
      totalShares := UFromInt(0);
      atomsPerShare := UFromInt(1);
    }

    method AtomsToShares(atoms: U64) returns (r: Result<UFixed>)
      ensures r == SharesFor(atomsPerShare, atoms)
    {
      assert UFromInt(atoms) * ONE_U == atoms * TWO128;
      if atomsPerShare != 0 {
        SharesForFits(atomsPerShare, atoms);
      }
      r := UDiv(UFromInt(atoms), atomsPerShare);
    }

    method SharesToAtoms(shares: UFixed, mode: RoundingMode) returns (r: Result<U64>)
      ensures r == Worth(atomsPerShare, shares, mode)
    {
      RoundedProduct(shares, atomsPerShare, mode);
      var product :- UMul(shares, atomsPerShare);
      r := URound(product, mode);
    }

    method TotalAtoms(mode: RoundingMode) returns (r: Result<U64>)
      ensures r == Total(View(), mode)
    {
      RoundedProduct(totalShares, atomsPerShare, mode);
      var product :- UMul(totalShares, atomsPerShare);
      r := URound(product, mode);
    }

    method DepositAtoms(atoms: U64) returns (r: Result<UFixed>)
      modifies this
      ensures Outcome(View(), r) == Deposit(old(View()), atoms)
    {
      var shares :- AtomsToShares(atoms);
      totalShares :- UAdd(totalShares, shares);
      r := Ok(shares);
    }

    method WithdrawAtoms(atoms: U64) returns (r: Result<UFixed>)
      modifies this
      ensures Outcome(View(), r) == Withdraw(old(View()), atoms)
    {
      var shares :- AtomsToShares(atoms);
      var rest := USub(totalShares, shares);
      if rest.Err? {
        return Err(SharesOverflow);
      }
      totalShares := rest.value;
      r := Ok(shares);
    }

    method WithdrawAtomsCapped(atoms: U64, maxShares: UFixed, mode: RoundingMode) returns (r: Result<(U64, UFixed)>)
      modifies this
      ensures Outcome(View(), r) == WithdrawCapped(old(View()), atoms, maxShares, mode)
    {
      var shares :- AtomsToShares(atoms);
      if maxShares < shares {
        var charged :- SharesToAtoms(maxShares, mode);
        var rest := USub(totalShares, maxShares);
        if rest.Err? {
          return Err(SharesOverflow);
        }
        totalShares := rest.value;
        return Ok((charged, maxShares));
      }
      var rest := USub(totalShares, shares);
      if rest.Err? {
        return Err(SharesOverflow);
      }
      totalShares := rest.value;
      r := Ok((atoms, shares));
    }

    method WithdrawShares(shares: UFixed, mode: RoundingMode) returns (r: Result<U64>)
      modifies this
      ensures Outcome(View(), r) == Redeem(old(View()), shares, mode)
    {
      var atoms :- SharesToAtoms(shares, mode);
      var rest := USub(totalShares, shares);
      if rest.Err? {
        return Err(SharesOverflow);
      }
      totalShares := rest.value;
      r := Ok(atoms);
    }

    method ApplyInterestRate(lib: Library, rate: IFixed) returns (r: Result<()>)
      modifies this
      ensures Outcome(View(), r) == Accrue(lib, old(View()), rate)
    {
      if totalShares == 0 {
        return Ok(());
      }
      var interest :- IMul(lib, rate, UToI(atomsPerShare));
      var grown :- IAdd(interest, UToI(atomsPerShare));
      atomsPerShare :- IToU(grown);
      r := Ok(());
    }

    method ApplyInterestRateWithFee(lib: Library, rate: IFixed, fee: UFixed) returns (r: Result<UFixed>)
      modifies this
      ensures Outcome(View(), r) == AccrueWithFee(lib, old(View()), rate, fee)
    {
      var total :- TotalAtoms(RoundDown);
      if total == 0 {
        return Ok(UFromInt(0));
      }
      if rate < 0 {
        var _ :- ApplyInterestRate(lib, rate);
        return Err(NegativeInterestRate);
      }
      var interest :- IMulInt(rate, total);
      var feeAtoms :- IMul(lib, interest, UToI(fee));
      var net :- ISub(interest, feeAtoms);
      var netRate :- IDivInt(net, total);
      var netPerShare :- IMul(lib, netRate, UToI(atomsPerShare));
      var grown :- IAdd(netPerShare, UToI(atomsPerShare));
      atomsPerShare :- IToU(grown);
      var signedShares :- IDiv(lib, feeAtoms, UToI(atomsPerShare));
      var feeShares :- IToU(signedShares);
      totalShares :- UAdd(feeShares, totalShares);
      r := Ok(feeShares);
    }

    method DonateAtoms(atoms: U64) returns (r: Result<()>)
      modifies this
      ensures Outcome(View(), r) == Donate(old(View()), atoms)
    {
      if totalShares == 0 {
        return Err(CantModifySharePriceIfZeroShares);
      }
      assert UFromInt(atoms) * ONE_U == atoms * TWO128;
      SharesForFits(totalShares, atoms);
      var additional :- UDiv(UFromInt(atoms), totalShares);
      atomsPerShare :- UAdd(atomsPerShare, additional);
      r := Ok(());
    }

    method SocializeLossAtoms(atoms: U64) returns (r: Result<()>)
      modifies this
      ensures Outcome(View(), r) == Socialize(old(View()), atoms)
    {
      if totalShares == 0 {
        return Err(CantModifySharePriceIfZeroShares);
      }
      assert UFromInt(atoms) * ONE_U == atoms * TWO128;
      SharesForFits(totalShares, atoms);
      var lost :- UDiv(UFromInt(atoms), totalShares);
      atomsPerShare :- USub(atomsPerShare, lost);
      r := Ok(());
    }
  }

  lemma CeilingIsRoundUp(bits: UFixed)
    ensures URoundUp(bits) == Ok(Ceiling(bits))
  {
  }

  /** Two truncations in a row, or a truncation and a ceiling, are what `Worth` says in one. */
  lemma RoundedProduct(a: UFixed, b: UFixed, mode: RoundingMode)
    ensures UMul(a, b).Ok? ==> URound(UMul(a, b).value, mode) == Worth(b, a, mode)
    ensures UMul(a, b).Err? ==> Worth(b, a, mode) == Err(UMul(a, b).error)
  {
    var exact := a * b;
    MulNonNeg(a, b);
    assert exact / ONE_U < TWO128 <==> exact < TWO192;
    if exact < TWO192 {
      CeilingIsRoundUp(exact / ONE_U);
      assert (exact / ONE_U) / ONE_U == exact / TWO128 by {
        DivDiv(exact, ONE_U, ONE_U);
      }
    }
  }
}
