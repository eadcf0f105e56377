/**
 What the share ledger computes, as arithmetic on exact integers.

 A pool is a number of shares and a price, both U64F64 bits. Their product is the
 pool's exact value in units of 2^-128 atoms, so `shares * price` compares with
 `atoms * TWO128` without any rounding. The functions say in closed form what each
 ledger operation does; the lemmas say what the truncations cost and whom they favour.
 */
module SharePool {
  import opened Arithmetic
  import opened FixedPoint

  datatype Pool = Pool(shares: UFixed, price: UFixed)

  const EMPTY: Pool := Pool(0, ONE_U)

  /** Exact value in units of 2^-128 atoms. */
  function Value(p: Pool): int {
    p.shares * p.price
  }

  /** The pool after an operation and what the operation returned. A failure can still have moved the pool. */
  datatype Outcome<+T> = Outcome(pool: Pool, result: Result<T>)

  /** The outcome inside a transaction, which reverts on failure. */
  function Committed<T>(out: Outcome<T>): Result<(Pool, T)> {
    if out.result.Ok? then Ok((out.pool, out.result.value)) else Err(out.result.error)
  }

  // ---------------------------------------------------------------- conversions

  /** Shares bought by `atoms`, rounded down; fails exactly when they do not fit in 64 integer bits. */
  function SharesFor(price: UFixed, atoms: U64): Result<UFixed> {
    if price == 0 || (0 < atoms && price <= atoms) then Err(DivisionOverflow)
    else
      SharesForFits(price, atoms);
      Ok(atoms * TWO128 / price)
  }

  lemma SharesForFits(price: UFixed, atoms: U64)
    requires 0 < price
    ensures 0 <= atoms * TWO128 / price
    ensures atoms * TWO128 / price < TWO128 <==> atoms == 0 || atoms < price
  {
    DivBounds(atoms * TWO128, price);
    if atoms < price {
      DivAtMost(atoms * TWO128, price, TWO128 - 1);
    } else {
      DivAtLeast(atoms * TWO128, price, TWO128);
    }
  }

  /** Atoms that `shares` stand for. Rounding up looks at the 64 fractional bits the product keeps. */
  function Worth(price: UFixed, shares: UFixed, mode: RoundingMode): Result<U64> {
    MulNonNeg(shares, price);
    if TWO192 <= shares * price then Err(MultiplicationOverflow)
    else match mode
      case RoundDown => Ok(shares * price / TWO128)
      case RoundUp => Ok(Ceiling(shares * price / ONE_U))
  }

  function Ceiling(bits: UFixed): U64 {
    if U64_MAX * ONE_U < bits then U64_MAX else (bits + ONE_U - 1) / ONE_U
  }

  function Total(p: Pool, mode: RoundingMode): Result<U64> {
    Worth(p.price, p.shares, mode)
  }

  // ---------------------------------------------------------------- operations at a fixed price

  function Deposit(p: Pool, atoms: U64): Outcome<UFixed> {
    match SharesFor(p.price, atoms)
    case Err(e) => Outcome(p, Err(e))
    case Ok(s) =>
      if p.shares + s < TWO128 then Outcome(p.(shares := p.shares + s), Ok(s))
      else Outcome(p, Err(AdditionOverflow))
  }

  function Remove(p: Pool, shares: UFixed): Result<Pool> {
    if shares <= p.shares then Ok(p.(shares := p.shares - shares)) else Err(SharesOverflow)
  }

  function Withdraw(p: Pool, atoms: U64): Outcome<UFixed> {
    match SharesFor(p.price, atoms)
    case Err(e) => Outcome(p, Err(e))
    case Ok(s) =>
      match Remove(p, s)
      case Err(e) => Outcome(p, Err(e))
      case Ok(rest) => Outcome(rest, Ok(s))
  }

  function Redeem(p: Pool, shares: UFixed, mode: RoundingMode): Outcome<U64> {
    match Worth(p.price, shares, mode)
    case Err(e) => Outcome(p, Err(e))
    case Ok(atoms) =>
      match Remove(p, shares)
      case Err(e) => Outcome(p, Err(e))
      case Ok(rest) => Outcome(rest, Ok(atoms))
  }

  /** Pays off up to `atoms`, but never more than `cap` shares; returns atoms charged and shares removed. */
  function WithdrawCapped(p: Pool, atoms: U64, cap: UFixed, mode: RoundingMode): Outcome<(U64, UFixed)> {
    match SharesFor(p.price, atoms)
    case Err(e) => Outcome(p, Err(e))
    case Ok(s) =>
      if s <= cap then
        match Remove(p, s)
        case Err(e) => Outcome(p, Err(e))
        case Ok(rest) => Outcome(rest, Ok((atoms, s)))
      else
        var redeemed := Redeem(p, cap, mode);
        match redeemed.result
        case Err(e) => Outcome(redeemed.pool, Err(e))
        case Ok(charged) => Outcome(redeemed.pool, Ok((charged, cap)))
  }

  // ---------------------------------------------------------------- operations on the price

  function Donate(p: Pool, atoms: U64): Outcome<()> {
    if p.shares == 0 then Outcome(p, Err(CantModifySharePriceIfZeroShares))
    else match SharesFor(p.shares, atoms)
      case Err(e) => Outcome(p, Err(e))
      case Ok(d) =>
        if p.price + d < TWO128 then Outcome(p.(price := p.price + d), Ok(()))
        else Outcome(p, Err(AdditionOverflow))
  }

  function Socialize(p: Pool, atoms: U64): Outcome<()> {
    if p.shares == 0 then Outcome(p, Err(CantModifySharePriceIfZeroShares))
    else match SharesFor(p.shares, atoms)
      case Err(e) => Outcome(p, Err(e))
      case Ok(d) =>
        if d <= p.price then Outcome(p.(price := p.price - d), Ok(()))
        else Outcome(p, Err(SubtractionOverflow))
  }

  /** The price after interest at `rate`; both factors are cut to 48 fractional bits first. */
  function Grown(lib: Library, price: UFixed, rate: IFixed): Result<UFixed> {
    var interest :- IMul(lib, rate, UToI(price));
    var grown :- IAdd(interest, UToI(price));
    IToU(grown)
  }

  function Accrue(lib: Library, p: Pool, rate: IFixed): Outcome<()> {
    if p.shares == 0 then Outcome(p, Ok(()))
    else match Grown(lib, p.price, rate)
      case Err(e) => Outcome(p, Err(e))
      case Ok(price) => Outcome(p.(price := price), Ok(()))
  }

  /** How interest on a pool of `total` atoms splits: the fee in atoms and the rate left for the holders. */
  function Split(lib: Library, total: U64, rate: IFixed, fee: UFixed): Result<(IFixed, IFixed)>
  {
    var interest :- IMulInt(rate, total);
    var feeAtoms :- IMul(lib, interest, UToI(fee));
    var net :- ISub(interest, feeAtoms);
    var netRate :- IDivInt(net, total);
    Ok((feeAtoms, netRate))
  }

  function FeeShares(lib: Library, feeAtoms: IFixed, price: UFixed): Result<UFixed> {
    var signed :- IDiv(lib, feeAtoms, UToI(price));
    IToU(signed)
  }

  /** Note the order: once the new price is set, a failure to mint the fee shares leaves it set. */
  function AccrueWithFee(lib: Library, p: Pool, rate: IFixed, fee: UFixed): Outcome<UFixed> {
    match Total(p, RoundDown)
    case Err(e) => Outcome(p, Err(e))
    case Ok(total) =>
      if total == 0 then Outcome(p, Ok(0))
      else if rate < 0 then
        var accrued := Accrue(lib, p, rate);
        Outcome(accrued.pool, if accrued.result.Err? then Err(accrued.result.error) else Err(NegativeInterestRate))
      else match Split(lib, total, rate, fee)
        case Err(e) => Outcome(p, Err(e))
        case Ok((feeAtoms, netRate)) =>
          match Grown(lib, p.price, netRate)
          case Err(e) => Outcome(p, Err(e))
          case Ok(price) => MintFee(lib, p.(price := price), feeAtoms)
  }

  function MintFee(lib: Library, p: Pool, feeAtoms: IFixed): Outcome<UFixed> {
    match FeeShares(lib, feeAtoms, p.price)
    case Err(e) => Outcome(p, Err(e))
    case Ok(minted) =>
      if minted + p.shares < TWO128 then Outcome(p.(shares := minted + p.shares), Ok(minted))
      else Outcome(p, Err(AdditionOverflow))
  }
}
