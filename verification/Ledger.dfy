/**
 Whole runs of the share ledger.

 A ledger is a pool together with who owns its shares: one entry per position and
 the unredeemed fee shares. Beside it stand books that never look at the pool's new value:
 the atoms that came in and went out, the gross interest that was due, and how far each
 operation's rounding can leave the pool from them.
 */
module Ledger {
  import opened Arithmetic
  import opened FixedPoint
  import opened SharePool
  import opened PoolTheorems

  /**
   `interest`, `lost` and `extra` are in units of 2^-176 atoms, the product of a value and a
   rate. `lost` and `extra` bound what accruals truncate; `gains` and `leaks` count the
   operations on whole atoms that can leave the pool up to one atom behind or ahead.
   */
  datatype Books = Books(paidIn: nat, paidOut: nat, interest: int, lost: int, extra: int, gains: nat, leaks: nat)

  datatype Ledger = Ledger(pool: Pool, holders: seq<UFixed>, feeShares: UFixed, books: Books)

  const GENESIS: Ledger := Ledger(EMPTY, [], 0, Books(0, 0, 0, 0, 0, 0, 0))

  datatype Op =
    | Open
    | DepositBy(holder: nat, atoms: U64)
    | WithdrawBy(holder: nat, atoms: U64)
    | RedeemBy(holder: nat, shares: UFixed, mode: RoundingMode)
    | RepayBy(holder: nat, atoms: U64, mode: RoundingMode)
    | RedeemFees(mode: RoundingMode)
    | Interest(rate: IFixed)
    | InterestWithFee(rate: IFixed, fee: UFixed)
    | Gift(atoms: U64)
    | Loss(atoms: U64)

  // ---------------------------------------------------------------- the books

  function Received(b: Books, atoms: U64): Books {
    b.(paidIn := b.paidIn + atoms, gains := b.gains + 1)
  }

  /** Only a payment that is not rounded down can leave the pool ahead of its books. */
  function HandedOut(b: Books, atoms: U64, leaks: bool): Books {
    b.(paidOut := b.paidOut + atoms, gains := b.gains + 1, leaks := b.leaks + (if leaks then 1 else 0))
  }

  function WrittenDown(b: Books, atoms: U64): Books {
    b.(paidOut := b.paidOut + atoms, leaks := b.leaks + 1)
  }

  /** Interest is due on the exact value the pool had before. */
  function Due(b: Books, p: Pool, rate: IFixed, dust: int): Books {
    b.(interest := b.interest + Value(p) * rate, lost := b.lost + dust, extra := b.extra + (if rate < 0 then dust else 0))
  }

  /** What accrual without a fee truncates: a few units of 2^-48 per share. */
  function PlainDust(p: Pool, rate: IFixed): int {
    TWO16 * (p.shares * (2 * ONE_I + Abs(rate)))
  }

  /** With a fee: one part in 2^48 of the pool, interest on one atom, and 2^-48 of the new price as well. */
  function FeeDust(p: Pool, rate: IFixed): int {
    Value(p) + Abs(rate) * TWO128 + PlainDust(p, rate) + TWO16 * (p.price * (ONE_I + Abs(rate)))
  }

  /** A fee that could not be minted is lost with the rest. */
  function UnmintedDust(p: Pool, rate: IFixed): int {
    PlainDust(p, rate) + Value(p) * Abs(rate)
  }

  // ---------------------------------------------------------------- the operations

  /**
   One operation. A position that owns fewer shares than an operation removes makes the
   whole operation revert; a failure inside the ledger keeps whatever the ledger had
   already changed.
   */
  function Step(lib: Library, l: Ledger, op: Op): Ledger {
    match op
    case Open => l.(holders := l.holders + [0])
    case DepositBy(h, atoms) =>
      if |l.holders| <= h then l
      else
        var out := Deposit(l.pool, atoms);
        if out.result.Err? || TWO128 <= l.holders[h] + out.result.value then l
        else l.(pool := out.pool, holders := l.holders[h := l.holders[h] + out.result.value],
                books := Received(l.books, atoms))
    case WithdrawBy(h, atoms) =>
      if |l.holders| <= h then l
      else
        var out := Withdraw(l.pool, atoms);
        if out.result.Err? || l.holders[h] < out.result.value then l
        else Paid(l, out.pool, h, out.result.value, atoms, true)
    case RedeemBy(h, shares, mode) =>
      if |l.holders| <= h || l.holders[h] < shares then l
      else
        var out := Redeem(l.pool, shares, mode);
        if out.result.Err? then l else Paid(l, out.pool, h, shares, out.result.value, mode == RoundUp)
    case RepayBy(h, atoms, mode) =>
      if |l.holders| <= h then l
      else
        var out := WithdrawCapped(l.pool, atoms, l.holders[h], mode);
        if out.result.Err? || l.holders[h] < out.result.value.1 then l
        else Paid(l, out.pool, h, out.result.value.1, out.result.value.0, true)
    case RedeemFees(mode) =>
      var out := Redeem(l.pool, l.feeShares, mode);
      if out.result.Err? then l
      else l.(pool := out.pool, feeShares := 0, books := HandedOut(l.books, out.result.value, mode == RoundUp))
    case Interest(rate) =>
      var out := Accrue(lib, l.pool, rate);
      if out.result.Err? then l
      else l.(pool := out.pool, books := Due(l.books, l.pool, rate, PlainDust(l.pool, rate)))
    case InterestWithFee(rate, fee) =>
      var out := AccrueWithFee(lib, l.pool, rate, fee);
      if out.result.Err? then
        if out.pool == l.pool then l
        else l.(pool := out.pool, books := Due(l.books, l.pool, rate, UnmintedDust(l.pool, rate)))
      else if TWO128 <= l.feeShares + out.result.value then l
      else l.(pool := out.pool, feeShares := l.feeShares + out.result.value,
              books := Due(l.books, l.pool, rate, FeeDust(l.pool, rate)))
    case Gift(atoms) =>
      var out := Donate(l.pool, atoms);
      if out.result.Err? then l else l.(pool := out.pool, books := Received(l.books, atoms))
    case Loss(atoms) =>
      var out := Socialize(l.pool, atoms);
      if out.result.Err? then l else l.(pool := out.pool, books := WrittenDown(l.books, atoms))
  }

  function Paid(l: Ledger, pool: Pool, h: nat, shares: UFixed, atoms: U64, leaks: bool): Ledger
    requires h < |l.holders| && shares <= l.holders[h]
  {
    l.(pool := pool, holders := l.holders[h := l.holders[h] - shares], books := HandedOut(l.books, atoms, leaks))
  }

  function Run(lib: Library, l: Ledger, ops: seq<Op>): Ledger
    decreases |ops|
  {
    if ops == [] then l else Run(lib, Step(lib, l, ops[0]), ops[1..])
  }

  lemma {:induction false} RunAppend(lib: Library, l: Ledger, first: seq<Op>, second: seq<Op>)
    ensures Run(lib, l, first + second) == Run(lib, Run(lib, l, first), second)
    decreases |first|
  {
    if first == [] {
      assert first + second == second;
    } else {
      assert (first + second)[1..] == first[1..] + second;
      RunAppend(lib, Step(lib, l, first[0]), first[1..], second);
    }
  }

  /** An operation that the pool accepts and the position can afford happens, to the pool and to the position alike. */
  lemma StepFollowsPool(lib: Library, l: Ledger, op: Op)
    ensures var after := Step(lib, l, op);
            match op
            case Open => after == l.(holders := l.holders + [0])
            case DepositBy(h, atoms) =>
              var out := Deposit(l.pool, atoms);
              h < |l.holders| && out.result.Ok? && l.holders[h] + out.result.value < TWO128 ==>
                after.pool == out.pool && |after.holders| == |l.holders| && after.holders[h] == l.holders[h] + out.result.value
            case WithdrawBy(h, atoms) =>
              var out := Withdraw(l.pool, atoms);
              h < |l.holders| && out.result.Ok? && out.result.value <= l.holders[h] ==>
                after.pool == out.pool && |after.holders| == |l.holders| && after.holders[h] == l.holders[h] - out.result.value
            case RedeemBy(h, shares, mode) =>
              var out := Redeem(l.pool, shares, mode);
              h < |l.holders| && out.result.Ok? && shares <= l.holders[h] ==>
                after.pool == out.pool && |after.holders| == |l.holders| && after.holders[h] == l.holders[h] - shares
            case RepayBy(h, atoms, mode) =>
              h < |l.holders| && WithdrawCapped(l.pool, atoms, l.holders[h], mode).result.Ok? ==>
                var out := WithdrawCapped(l.pool, atoms, l.holders[h], mode);
                after.pool == out.pool && |after.holders| == |l.holders| && after.holders[h] == l.holders[h] - out.result.value.1
            case RedeemFees(mode) =>
              Redeem(l.pool, l.feeShares, mode).result.Ok? ==> after.pool == Redeem(l.pool, l.feeShares, mode).pool && after.feeShares == 0
            case Interest(rate) => after.pool == Accrue(lib, l.pool, rate).pool
            case InterestWithFee(rate, fee) =>
              var out := AccrueWithFee(lib, l.pool, rate, fee);
              out.result.Err? || l.feeShares + out.result.value < TWO128 ==>
                after.pool == out.pool && after.feeShares == l.feeShares + (if out.result.Ok? then out.result.value else 0)
            case Gift(atoms) => after.pool == Donate(l.pool, atoms).pool
            case Loss(atoms) => after.pool == Socialize(l.pool, atoms).pool
  {
  }

  // ---------------------------------------------------------------- sums over positions

  function Sum(claims: seq<UFixed>): (sum: int)
    ensures 0 <= sum
  {
    if claims == [] then 0 else claims[0] + Sum(claims[1..])
  }

  lemma {:induction false} SumAppend(a: seq<UFixed>, b: seq<UFixed>)
    ensures Sum(a + b) == Sum(a) + Sum(b)
  {
    if a == [] {
      assert a + b == b;
    } else {
      assert (a + b)[1..] == a[1..] + b;
      SumAppend(a[1..], b);
    }
  }

  lemma SumSplit(claims: seq<UFixed>, i: nat)
    requires i < |claims|
    ensures Sum(claims) == Sum(claims[..i]) + claims[i] + Sum(claims[i + 1..])
    ensures claims[i] <= Sum(claims)
  {
    assert claims == claims[..i] + claims[i..];
    SumAppend(claims[..i], claims[i..]);
    assert claims[i..][1..] == claims[i + 1..];
  }

  lemma SumUpdate(claims: seq<UFixed>, i: nat, x: UFixed)
    requires i < |claims|
    ensures Sum(claims[i := x]) == Sum(claims) - claims[i] + x
  {
    SumSplit(claims, i);
    SumSplit(claims[i := x], i);
    assert claims[i := x][..i] == claims[..i];
    assert claims[i := x][i + 1..] == claims[i + 1..];
  }

  lemma Without<T>(s: seq<T>, i: nat)
    requires i < |s|
    ensures multiset(s[..i] + s[i + 1..]) == multiset(s) - multiset{s[i]}
  {
    assert s == s[..i] + [s[i]] + s[i + 1..];
  }

  lemma SumWithout(claims: seq<UFixed>, i: nat)
    requires i < |claims|
    ensures var rest := claims[..i] + claims[i + 1..];
            && |rest| == |claims| - 1
            && Sum(rest) == Sum(claims) - claims[i]
            && multiset(rest) == multiset(claims) - multiset{claims[i]}
  {
    Without(claims, i);
    SumAppend(claims[..i], claims[i + 1..]);
    SumSplit(claims, i);
  }

  /** A sum does not depend on the order of its terms. */
  lemma {:induction false} SumPermutation(a: seq<UFixed>, b: seq<UFixed>)
    requires multiset(a) == multiset(b)
    ensures Sum(a) == Sum(b) && |a| == |b|
    decreases |a|
  {
    assert |multiset(a)| == |multiset(b)|;
    if a != [] {
      assert a[0] in multiset(b);
      var i :| 0 <= i < |b| && b[i] == a[0];
      SumWithout(a, 0);
      SumWithout(b, i);
      SumPermutation(a[..0] + a[1..], b[..i] + b[i + 1..]);
    }
  }

  // ---------------------------------------------------------------- the invariant of every run

  /** Every share belongs to a position or is a pending fee share. */
  ghost predicate Owned(l: Ledger) {
    l.pool.shares == Sum(l.holders) + l.feeShares
  }

  lemma WorthBounds(price: UFixed, shares: UFixed, mode: RoundingMode)
    requires Worth(price, shares, mode).Ok?
    ensures var atoms := Worth(price, shares, mode).value;
            && (mode == RoundDown ==> atoms * TWO128 <= shares * price < atoms * TWO128 + TWO128)
            && (mode == RoundUp ==> atoms * TWO128 - TWO128 < shares * price < atoms * TWO128 + TWO128)
            && (mode == RoundUp && atoms < U64_MAX ==> shares * price < atoms * TWO128 + ONE_U)
  {
  }

  lemma RemovedValue(p: Pool, shares: UFixed)
    requires Remove(p, shares).Ok?
    ensures Value(Remove(p, shares).value) == Value(p) - shares * p.price
  {
  }

  lemma DepositIsOwned(lib: Library, l: Ledger, h: nat, atoms: U64)
    requires Owned(l)
    ensures Owned(Step(lib, l, DepositBy(h, atoms)))
  {
    var out := Deposit(l.pool, atoms);
    if h < |l.holders| && out.result.Ok? && l.holders[h] + out.result.value < TWO128 {
      SumUpdate(l.holders, h, l.holders[h] + out.result.value);
    }
  }

  lemma PaidIsOwned(l: Ledger, h: nat, shares: UFixed, atoms: U64, leaks: bool)
    requires Owned(l) && h < |l.holders| && shares <= l.holders[h] && Remove(l.pool, shares).Ok?
    ensures Owned(Paid(l, Remove(l.pool, shares).value, h, shares, atoms, leaks))
  {
    SumUpdate(l.holders, h, l.holders[h] - shares);
  }

  lemma PayoutIsOwned(lib: Library, l: Ledger, op: Op)
    requires Owned(l) && (op.WithdrawBy? || op.RedeemBy? || op.RepayBy?)
    ensures Owned(Step(lib, l, op))
  {
    var after := Step(lib, l, op);
    if after != l {
      var shares := l.holders[op.holder] - after.holders[op.holder];
      PaidIsOwned(l, op.holder, shares, after.books.paidOut - l.books.paidOut, after.books.leaks != l.books.leaks);
    }
  }

  lemma OnlyFeesAreMinted(lib: Library, p: Pool, rate: IFixed, fee: UFixed)
    ensures var out := AccrueWithFee(lib, p, rate, fee);
            out.pool.shares == p.shares + (if out.result.Ok? then out.result.value else 0)
  {
  }

  /** One step, whatever the rate, the fee or the rounding library. */
  lemma StepIsOwned(lib: Library, l: Ledger, op: Op)
    requires Owned(l)
    ensures Owned(Step(lib, l, op))
  {
    match op {
      case Open => SumAppend(l.holders, [0]);
      case DepositBy(h, atoms) => DepositIsOwned(lib, l, h, atoms);
      case WithdrawBy(_, _) => PayoutIsOwned(lib, l, op);
      case RedeemBy(_, _, _) => PayoutIsOwned(lib, l, op);
      case RepayBy(_, _, _) => PayoutIsOwned(lib, l, op);
      case InterestWithFee(rate, fee) => OnlyFeesAreMinted(lib, l.pool, rate, fee);
      case _ =>
    }
  }

  lemma {:induction false} RunIsOwned(lib: Library, l: Ledger, ops: seq<Op>)
    requires Owned(l)
    ensures Owned(Run(lib, l, ops))
    decreases |ops|
  {
    if ops != [] {
      StepIsOwned(lib, l, ops[0]);
      RunIsOwned(lib, Step(lib, l, ops[0]), ops[1..]);
    }
  }

  /** The ledgers that some run of operations from the empty pool leads to. */
  ghost predicate Reachable(lib: Library, l: Ledger) {
    exists ops :: l == Run(lib, GENESIS, ops)
  }

  lemma ReachableIsOwned(lib: Library, l: Ledger)
    requires Reachable(lib, l)
    ensures Owned(l)
  {
    var ops :| l == Run(lib, GENESIS, ops);
    RunIsOwned(lib, GENESIS, ops);
  }

  // ---------------------------------------------------------------- solvency

  /** What a claim pays, or nothing if it does not convert. */
  function PaysOut(price: UFixed, shares: UFixed, mode: RoundingMode): int {
    match Worth(price, shares, mode)
    case Ok(atoms) => atoms
    case Err(_) => 0
  }

  function SumPaysOut(price: UFixed, claims: seq<UFixed>, mode: RoundingMode): int {
    if claims == [] then 0 else PaysOut(price, claims[0], mode) + SumPaysOut(price, claims[1..], mode)
  }

  function Claims(l: Ledger): seq<UFixed> {
    l.holders + [l.feeShares]
  }

  lemma {:induction false} ClaimsRoundedDown(price: UFixed, claims: seq<UFixed>)
    requires Sum(claims) * price < TWO192
    ensures SumPaysOut(price, claims, RoundDown) * TWO128 <= Sum(claims) * price
    ensures Sum(claims) * price - |claims| * (TWO128 - 1) <= SumPaysOut(price, claims, RoundDown) * TWO128
  {
    if claims != [] {
      var head, tail := claims[0], claims[1..];
      assert Sum(claims) * price == head * price + Sum(tail) * price;
      MulNonNeg(head, price);
      MulNonNeg(Sum(tail), price);
      ClaimsRoundedDown(price, tail);
      DivBounds(head * price, TWO128);
    }
  }

  /** Rounding each claim up makes up for its truncation unless the total already saturates. */
  lemma {:induction false} ClaimsRoundedUp(price: UFixed, claims: seq<UFixed>)
    requires Sum(claims) * price < TWO192
    ensures 0 <= SumPaysOut(price, claims, RoundUp)
    ensures U64_MAX <= SumPaysOut(price, claims, RoundUp)
         || Sum(claims) * price - |claims| * (ONE_U - 1) <= SumPaysOut(price, claims, RoundUp) * TWO128
  {
    if claims != [] {
      var head, tail := claims[0], claims[1..];
      assert Sum(claims) * price == head * price + Sum(tail) * price;
      MulNonNeg(head, price);
      MulNonNeg(Sum(tail), price);
      ClaimsRoundedUp(price, tail);
      OneClaimRoundedUp(head * price);
    }
  }

  lemma OneClaimRoundedUp(exact: int)
    requires 0 <= exact < TWO192
    ensures exact / ONE_U <= U64_MAX * ONE_U ==>
              exact - (ONE_U - 1) <= Ceiling(exact / ONE_U) * TWO128
  {
  }

  lemma {:induction false} EveryClaimConverts(price: UFixed, claims: seq<UFixed>, mode: RoundingMode)
    requires Sum(claims) * price < TWO192
    ensures forall i :: 0 <= i < |claims| ==> Worth(price, claims[i], mode).Ok?
  {
    forall i | 0 <= i < |claims| ensures Worth(price, claims[i], mode).Ok? {
      SumSplit(claims, i);
      MulLe(claims[i], Sum(claims), price);
    }
  }

  lemma ClaimsAreThePool(l: Ledger)
    requires Owned(l)
    ensures Sum(Claims(l)) == l.pool.shares && Sum(Claims(l)) * l.pool.price == Value(l.pool)
  {
    SumAppend(l.holders, [l.feeShares]);
  }

  lemma PayoutsAgainstTotal(price: UFixed, claims: seq<UFixed>, exact: int)
    requires exact == Sum(claims) * price && exact < TWO192
    ensures SumPaysOut(price, claims, RoundDown) <= exact / TWO128
    ensures exact / TWO128 - |claims| < SumPaysOut(price, claims, RoundDown) || claims == []
    ensures |claims| <= ONE_U ==> exact / TWO128 <= SumPaysOut(price, claims, RoundUp)
  {
    ClaimsRoundedDown(price, claims);
    ClaimsRoundedUp(price, claims);
    MulNonNeg(Sum(claims), price);
    DivBounds(exact, TWO128);
    var down, up := SumPaysOut(price, claims, RoundDown), SumPaysOut(price, claims, RoundUp);
    DivAtLeast(exact, TWO128, down);
  }

  /**
   The positions and the pending fee own exactly the pool; if the pool total converts
   at all then every claim converts, the rounded-down claims never add up to more than
   the rounded-down total, and up to 2^64 rounded-up debts never add up to less.
   */
  ghost predicate Solvent(l: Ledger) {
    var claims, price := Claims(l), l.pool.price;
    && Sum(claims) == l.pool.shares
    && (Total(l.pool, RoundDown).Ok? ==>
          var total := Total(l.pool, RoundDown).value;
          && (forall i :: 0 <= i < |claims| ==> Worth(price, claims[i], RoundDown).Ok? && Worth(price, claims[i], RoundUp).Ok?)
          && SumPaysOut(price, claims, RoundDown) <= total
          && (|claims| <= ONE_U ==> total <= SumPaysOut(price, claims, RoundUp)))
  }

  lemma OwnedIsSolvent(l: Ledger)
    requires Owned(l)
    ensures Solvent(l)
  {
    ClaimsAreThePool(l);
    if Total(l.pool, RoundDown).Ok? {
      EveryClaimConverts(l.pool.price, Claims(l), RoundDown);
      EveryClaimConverts(l.pool.price, Claims(l), RoundUp);
      PayoutsAgainstTotal(l.pool.price, Claims(l), Value(l.pool));
    }
  }

  /** Solvency of every run of deposits, payouts, repayments, interest, gifts and losses. */
  lemma EveryRunIsSolvent(lib: Library, l: Ledger)
    requires Reachable(lib, l)
    ensures Solvent(l)
  {
    ReachableIsOwned(lib, l);
    OwnedIsSolvent(l);
  }

  // ---------------------------------------------------------------- exit

  /** Every claim redeems all its shares, rounded down, one after the other. */
  function ExitAll(p: Pool, claims: seq<UFixed>): Outcome<int>
    decreases |claims|
  {
    if claims == [] then Outcome(p, Ok(0))
    else
      var out := Redeem(p, claims[0], RoundDown);
      match out.result
      case Err(e) => Outcome(out.pool, Err(e))
      case Ok(atoms) =>
        var rest := ExitAll(out.pool, claims[1..]);
        match rest.result
        case Err(e) => Outcome(rest.pool, Err(e))
        case Ok(others) => Outcome(rest.pool, Ok(atoms + others))
  }

  lemma {:induction false} ExitPays(p: Pool, claims: seq<UFixed>)
    requires Sum(claims) == p.shares && Value(p) < TWO192
    ensures ExitAll(p, claims) == Outcome(Pool(0, p.price), Ok(SumPaysOut(p.price, claims, RoundDown)))
    decreases |claims|
  {
    if claims == [] {
    } else {
      var head, tail := claims[0], claims[1..];
      assert p.shares * p.price == head * p.price + Sum(tail) * p.price;
      MulNonNeg(head, p.price);
      MulNonNeg(Sum(tail), p.price);
      ExitPays(Pool(p.shares - head, p.price), tail);
    }
  }

  lemma OwnedExit(l: Ledger, order: seq<UFixed>)
    requires Owned(l) && multiset(order) == multiset(Claims(l)) && Total(l.pool, RoundDown).Ok?
    ensures var total := Total(l.pool, RoundDown).value;
            var out := ExitAll(l.pool, order);
            && out.result.Ok?
            && out.pool == Pool(0, l.pool.price)
            && total - (|order| - 1) <= out.result.value <= total
  {
    ClaimsAreThePool(l);
    SumPermutation(order, Claims(l));
    ExitPays(l.pool, order);
    PayoutsAgainstTotal(l.pool.price, order, Value(l.pool));
  }

  /**
   After any run, all positions and the fee account can leave in any order: every
   redemption succeeds, no shares remain, and the total paid out is at most the
   starting total and at least that minus one atom per claim but one.
   */
  lemma ExitInAnyOrder(lib: Library, l: Ledger, order: seq<UFixed>)
    requires Reachable(lib, l) && multiset(order) == multiset(Claims(l)) && Total(l.pool, RoundDown).Ok?
    ensures var total := Total(l.pool, RoundDown).value;
            var out := ExitAll(l.pool, order);
            && out.result.Ok?
            && out.pool == Pool(0, l.pool.price)
            && total - (|order| - 1) <= out.result.value <= total
  {
    ReachableIsOwned(lib, l);
    OwnedExit(l, order);
  }

  // ---------------------------------------------------------------- the price

  /** The operations of a pool that only ever earns: no gifts, no losses, no negative rate, fee at most 1. */
  predicate Earning(op: Op) {
    match op
    case Interest(rate) => 0 <= rate
    case InterestWithFee(rate, fee) => 0 <= rate && fee <= ONE_U
    case Gift(_) => false
    case Loss(_) => false
    case _ => true
  }

  lemma {:induction false} EarningRunRaisesPrice(lib: Library, l: Ledger, ops: seq<Op>)
    requires l.pool.price % TWO16 == 0
    requires forall i :: 0 <= i < |ops| ==> Earning(ops[i])
    ensures var after := Run(lib, l, ops); l.pool.price <= after.pool.price && after.pool.price % TWO16 == 0
    decreases |ops|
  {
    if ops != [] {
      var op, mid := ops[0], Step(lib, l, ops[0]);
      assert Earning(op);
      match op {
        case Interest(rate) => AccrualKeepsPrice(lib, l.pool, rate, 0);
        case InterestWithFee(rate, fee) => AccrualKeepsPrice(lib, l.pool, rate, fee);
        case _ =>
      }
      assert forall i :: 0 <= i < |ops[1..]| ==> ops[1..][i] == ops[i + 1];
      EarningRunRaisesPrice(lib, mid, ops[1..]);
    }
  }

  /** From the empty pool the price starts at 1, stays a multiple of 2^16 and never falls between any two moments. */
  lemma PriceNeverFalls(lib: Library, ops: seq<Op>, i: nat, j: nat)
    requires forall k :: 0 <= k < |ops| ==> Earning(ops[k])
    requires i <= j <= |ops|
    ensures var early, late := Run(lib, GENESIS, ops[..i]), Run(lib, GENESIS, ops[..j]);
            ONE_U <= early.pool.price <= late.pool.price && late.pool.price % TWO16 == 0
  {
    assert ops[..j] == ops[..i] + ops[i..j];
    RunAppend(lib, GENESIS, ops[..i], ops[i..j]);
    EarningRunRaisesPrice(lib, GENESIS, ops[..i]);
    EarningRunRaisesPrice(lib, Run(lib, GENESIS, ops[..i]), ops[i..j]);
  }
}
