/**
 The two fixed-point formats of the protocol, as raw integer bits:
   - `UFixed`, unsigned with 64 integer and 64 fractional bits,
   - `IFixed`, signed with 80 integer and 48 fractional bits.
 Every operation is checked: failure is a value, never a precondition.
 */
module FixedPoint {
  import opened Arithmetic

  const TWO16: int := 0x1_0000
  const TWO112: int := 0x1_0000_0000_0000_0000_0000_0000_0000
  const TWO127: int := 0x8000_0000_0000_0000_0000_0000_0000_0000
  const TWO128: int := 0x1_0000_0000_0000_0000_0000_0000_0000_0000
  const TWO192: int := 0x1_0000_0000_0000_0000_0000_0000_0000_0000_0000_0000_0000_0000

  /** The bits of 1.0 in each format, and the largest `u64`. */
  const ONE_U: int := 0x1_0000_0000_0000_0000
  const ONE_I: int := 0x1_0000_0000_0000
  const U64_MAX: int := 0xFFFF_FFFF_FFFF_FFFF

  type U64 = n: int | 0 <= n <= U64_MAX
  type I32 = n: int | -0x8000_0000 <= n < 0x8000_0000
  type UFixed = bits: int | 0 <= bits < TWO128
  type IFixed = bits: int | -TWO127 <= bits < TWO127

  datatype LendingError =
    | AdditionOverflow
    | SubtractionOverflow
    | MultiplicationOverflow
    | DivisionOverflow
    | DivisionByZero
    | CastOverflow
    | MathOverflow
    | InvalidExpArg
    | SharesOverflow
    | NegativeInterestRate
    | CantModifySharePriceIfZeroShares
    | WithdrawalExceedsDeposited
    | RepayExceedsBorrowed
    | CapitalSweepPending
    | NoCapitalSweepPending
    | CapitalSweepDidNotMeetRequirements
    | PositionIsHealthy
    | InvalidLiquidationLtvShouldDecrease
    | OracleRateIsNull
    | NegativeOracleRate
    | OracleConfidenceExceedsRate

  datatype Result<+T> = Ok(value: T) | Err(error: LendingError) {
    predicate IsFailure() {
      Err?
    }

    function PropagateFailure<U>(): Result<U>
      requires Err?
    {
      Err(error)
    }

    function Extract(): T
      requires Ok?
    {
      value
    }
  }

  datatype RoundingMode = RoundDown | RoundUp

  /**
   How the underlying fixed-point library rounds a product or quotient that is
   negative and inexact. Non-negative results always truncate. The library is not
   part of this model, so both behaviours are: every theorem holds for each.
   */
  datatype NegativeRounding = Down | TowardZero
  datatype Library = Library(mul: NegativeRounding, div: NegativeRounding)

  function Quotient(mode: NegativeRounding, num: int, den: int): int
    requires 0 < den
  {
    if mode.Down? || 0 <= num then num / den else -((-num) / den)
  }

  /** Whatever the mode, the result is within one unit of the exact quotient and has its sign. */
  lemma QuotientBounds(mode: NegativeRounding, num: int, den: int)
    requires 0 < den
    ensures 0 <= num ==> Quotient(mode, num, den) == num / den && 0 <= num / den
    ensures num <= 0 ==> Quotient(mode, num, den) <= 0
    ensures num - den < Quotient(mode, num, den) * den < num + den
  {
  }

  lemma ExactQuotient(mode: NegativeRounding, q: int, den: int)
    requires 0 < den
    ensures Quotient(mode, q * den, den) == q
  {
    DivOfMultiple(q, den);
    DivOfMultiple(-q, den);
    assert (-q) * den == -(q * den);
  }

  // ---------------------------------------------------------------- u64

  function Add64(a: U64, b: U64): Result<U64> {
    if a + b <= U64_MAX then Ok(a + b) else Err(AdditionOverflow)
  }

  function Sub64(a: U64, b: U64): Result<U64> {
    if b <= a then Ok(a - b) else Err(SubtractionOverflow)
  }

  // ---------------------------------------------------------------- U64F64

  function UFromInt(n: U64): UFixed {
    n * ONE_U
  }

  function UAdd(a: UFixed, b: UFixed): Result<UFixed> {
    if a + b < TWO128 then Ok(a + b) else Err(AdditionOverflow)
  }

  function USub(a: UFixed, b: UFixed): Result<UFixed> {
    if b <= a then Ok(a - b) else Err(SubtractionOverflow)
  }

  function UMul(a: UFixed, b: UFixed): Result<UFixed> {
    MulNonNeg(a, b);
    var product := (a * b) / ONE_U;
    if product < TWO128 then Ok(product) else Err(MultiplicationOverflow)
  }

  function UDiv(a: UFixed, b: UFixed): Result<UFixed> {
    if b == 0 then Err(DivisionOverflow)
    else
      DivBounds(a * ONE_U, b);
      var quotient := (a * ONE_U) / b;
      if quotient < TWO128 then Ok(quotient) else Err(DivisionOverflow)
  }

  /** Multiplication by a plain integer acts on the bits and never truncates. */
  function UMulInt(a: UFixed, n: U64): Result<UFixed> {
    MulNonNeg(a, n);
    if a * n < TWO128 then Ok(a * n) else Err(MultiplicationOverflow)
  }

  function URoundDown(a: UFixed): Result<U64> {
    Ok(a / ONE_U)
  }

  function URoundUp(a: UFixed): Result<U64> {
    if a % ONE_U == 0 then Ok(a / ONE_U)
    else if a / ONE_U == U64_MAX then Ok(U64_MAX)
    else Ok(a / ONE_U + 1)
  }

  function URound(a: UFixed, mode: RoundingMode): Result<U64> {
    match mode
    case RoundDown => URoundDown(a)
    case RoundUp => URoundUp(a)
  }

  // ---------------------------------------------------------------- I80F48

  function ICheck(bits: int, error: LendingError): Result<IFixed> {
    if -TWO127 <= bits < TWO127 then Ok(bits) else Err(error)
  }

  function IFromInt(n: U64): IFixed {
    n * ONE_I
  }

  function IAdd(a: IFixed, b: IFixed): Result<IFixed> {
    ICheck(a + b, AdditionOverflow)
  }

  function ISub(a: IFixed, b: IFixed): Result<IFixed> {
    ICheck(a - b, SubtractionOverflow)
  }

  function IMul(lib: Library, a: IFixed, b: IFixed): Result<IFixed> {
    ICheck(Quotient(lib.mul, a * b, ONE_I), MultiplicationOverflow)
  }

  function IDiv(lib: Library, a: IFixed, b: IFixed): Result<IFixed> {
    if b == 0 then Err(DivisionOverflow)
    else if 0 < b then ICheck(Quotient(lib.div, a * ONE_I, b), DivisionOverflow)
    else ICheck(Quotient(lib.div, a * -ONE_I, 0 - b), DivisionOverflow)
  }

  function IMulInt(a: IFixed, n: U64): Result<IFixed> {
    ICheck(a * n, MultiplicationOverflow)
  }

  /** Division of the bits by a plain integer is machine division: it truncates toward zero. */
  function IDivInt(a: IFixed, n: U64): Result<IFixed> {
    if n == 0 then Err(DivisionByZero) else ICheck(Quotient(TowardZero, a, n), DivisionByZero)
  }

  /** A negative value, however small, does not convert to `u64`. */
  function IRoundDown(a: IFixed): Result<U64> {
    if 0 <= a / ONE_I <= U64_MAX then Ok(a / ONE_I) else Err(CastOverflow)
  }

  function IRoundUp(a: IFixed): Result<U64> {
    var down :- IRoundDown(a);
    if a % ONE_I == 0 then Ok(down)
    else if down == U64_MAX then Ok(U64_MAX)
    else Ok(down + 1)
  }

  /** The integer part, rounded down, if it fits in 32 bits. */
  function IToI32(a: IFixed): Result<I32> {
    if -0x8000_0000 <= a / ONE_I < 0x8000_0000 then Ok(a / ONE_I) else Err(CastOverflow)
  }

  /** A non-negative product or quotient, recognised by its bounds. */
  lemma ProductIs(lib: Library, a: IFixed, b: IFixed, q: IFixed)
    requires 0 <= q && q * ONE_I <= a * b < q * ONE_I + ONE_I
    ensures IMul(lib, a, b) == Ok(q)
  {
    QuotientBounds(lib.mul, a * b, ONE_I);
    DivIs(a * b, ONE_I, q);
  }

  lemma RatioIs(lib: Library, a: IFixed, b: IFixed, q: IFixed)
    requires 0 <= q && 0 < b && q * b <= a * ONE_I < q * b + b
    ensures IDiv(lib, a, b) == Ok(q)
  {
    MulNonNeg(q, b);
    QuotientBounds(lib.div, a * ONE_I, b);
    DivIs(a * ONE_I, b, q);
  }

  // ---------------------------------------------------------------- conversions

  /** Drops the low 16 fractional bits. */
  function UToI(a: UFixed): IFixed {
    a / TWO16
  }

  function IToU(a: IFixed): Result<UFixed> {
    if 0 <= a < TWO112 then Ok(a * TWO16) else Err(CastOverflow)
  }

  // ---------------------------------------------------------------- shifts

  function Pow2(k: nat): (p: int)
    ensures 0 < p
  {
    if k == 0 then 1 else 2 * Pow2(k - 1)
  }

  lemma {:induction false} Pow2Add(j: nat, k: nat)
    ensures Pow2(j + k) == Pow2(j) * Pow2(k)
  {
    if j == 0 {
    } else {
      Pow2Add(j - 1, k);
      calc {
        Pow2(j + k);
        2 * Pow2(j - 1 + k);
        2 * (Pow2(j - 1) * Pow2(k));
        (2 * Pow2(j - 1)) * Pow2(k);
      }
    }
  }

  lemma Pow2Of16()
    ensures Pow2(16) == TWO16
  {
    assert Pow2(8) == 0x100;
    Pow2Add(8, 8);
  }

  lemma Pow2Of64()
    ensures Pow2(64) == ONE_U
  {
    Pow2Of16();
    Pow2Add(16, 16);
    Pow2Add(32, 32);
  }

  lemma Pow2Of128()
    ensures Pow2(128) == TWO128
  {
    Pow2Of64();
    Pow2Add(64, 64);
  }

  /** Two's complement reinterpretation of an out-of-range signed 128-bit value. */
  function WrapSigned(x: int): IFixed {
    (x + TWO127) % TWO128 - TWO127
  }

  function WrapUnsigned(x: int): UFixed {
    x % TWO128
  }

  datatype Option<+T> = None | Some(value: T)

  /** Shifting left keeps the low 128 bits; the shift is then undone and compared. */
  function IShift(a: IFixed, shift: int): Option<IFixed> {
    if shift < 0 then
      if -shift >= 128 then None
      else
        DivBounds(a, Pow2(-shift));
        ShrInRange(a, -shift);
        Some(a / Pow2(-shift))
    else if shift >= 128 then None
    else
      var shifted := WrapSigned(a * Pow2(shift));
      if shifted / Pow2(shift) != a then None else Some(shifted)
  }

  function UShift(a: UFixed, shift: int): Option<UFixed> {
    if shift < 0 then
      if -shift >= 128 then None
      else
        ShrInRange(a, -shift);
        Some(a / Pow2(-shift))
    else if shift >= 128 then None
    else
      var shifted := WrapUnsigned(a * Pow2(shift));
      if shifted / Pow2(shift) != a then None else Some(shifted)
  }

  lemma ShrInRange(a: int, k: nat)
    ensures 0 <= a ==> 0 <= a / Pow2(k) <= a
    ensures a < 0 ==> a <= a / Pow2(k) < 0
  {
    var p := Pow2(k);
    DivBounds(a, p);
    if 0 <= a {
      MulLe(1, p, a);
      MulLe(1, p, a / p);
    } else {
      MulLe(1, p, -a);
      assert a * p <= a;
      DivAtLeast(a, p, a);
      DivAtMost(a, p, -1);
    }
  }

  /**
   A value moved by a non-zero multiple of 2^128 never shifts back to what it was:
   the shift amount is below 128, so the multiple survives the division.
   */
  lemma WrapIsDetected(a: int, k: nat, wraps: int)
    requires k < 128
    ensures (a * Pow2(k) - wraps * TWO128) / Pow2(k) == a <==> wraps == 0
  {
    Pow2Add(k, 128 - k);
    Pow2Of128();
    MultipleSurvives(a, Pow2(k), Pow2(128 - k), wraps);
    assert wraps * TWO128 == wraps * (Pow2(k) * Pow2(128 - k));
  }

  lemma MultipleSurvives(a: int, p: int, rest: int, wraps: int)
    requires 0 < p && 0 < rest
    ensures (a * p - wraps * (p * rest)) / p == a <==> wraps == 0
  {
    assert a * p - wraps * (p * rest) == (a - wraps * rest) * p;
    DivOfMultiple(a - wraps * rest, p);
    if 0 < wraps {
      MulLe(1, wraps, rest);
    } else if wraps < 0 {
      MulLe(wraps, -1, rest);
    }
  }

  /** The signed shift succeeds exactly when the product fits, and then it is the product. */
  lemma IShiftExact(a: IFixed, k: nat)
    requires k < 128
    ensures IShift(a, k).Some? <==> -TWO127 <= a * Pow2(k) < TWO127
    ensures IShift(a, k).Some? ==> IShift(a, k).value == a * Pow2(k)
  {
    var x := a * Pow2(k);
    var wraps := (x + TWO127) / TWO128;
    assert WrapSigned(x) == x - wraps * TWO128;
    WrapIsDetected(a, k, wraps);
  }

  /** The same for the unsigned format. */
  lemma UShiftExact(a: UFixed, k: nat)
    requires k < 128
    ensures UShift(a, k).Some? <==> a * Pow2(k) < TWO128
    ensures UShift(a, k).Some? ==> UShift(a, k).value == a * Pow2(k)
  {
    var x := a * Pow2(k);
    MulNonNeg(a, Pow2(k));
    var wraps := x / TWO128;
    assert WrapUnsigned(x) == x - wraps * TWO128;
    WrapIsDetected(a, k, wraps);
  }

  /** A right shift divides, rounding down; shifts of the whole width or more fail either way. */
  lemma ShiftRightIs(a: IFixed, k: nat)
    requires 0 < k
    ensures IShift(a, 0 - k).Some? <==> k < 128
    ensures k < 128 ==> IShift(a, 0 - k).value * Pow2(k) <= a < (IShift(a, 0 - k).value + 1) * Pow2(k)
    ensures 128 <= k ==> IShift(a, k).None?
  {
    DivBounds(a, Pow2(k));
  }

  // ---------------------------------------------------------------- rounding

  /**
   Rounding up is the ceiling except at the very top of the range, where the
   saturating increment leaves it one short.
   */
  lemma URoundUpIsCeiling(a: UFixed)
    ensures URoundUp(a).Ok?
    ensures var up := URoundUp(a).value;
            if a <= U64_MAX * ONE_U then (up - 1) * ONE_U < a <= up * ONE_U else up == U64_MAX
  {
  }

  lemma IRoundUpIsCeiling(a: IFixed)
    ensures IRoundUp(a).Ok? <==> 0 <= a < (U64_MAX + 1) * ONE_I
    ensures IRoundUp(a).Ok? ==>
              var up := IRoundUp(a).value;
              if a <= U64_MAX * ONE_I then (up - 1) * ONE_I < a <= up * ONE_I else up == U64_MAX
  {
  }

  /** Crossing from signed to unsigned and back is the identity wherever it succeeds. */
  lemma SignedUnsignedRoundTrip(a: IFixed)
    ensures IToU(a).Ok? <==> 0 <= a < TWO112
    ensures IToU(a).Ok? ==> UToI(IToU(a).value) == a
  {
  }

  /** The other way around loses the low 16 bits and nothing else. */
  lemma UnsignedSignedRoundTrip(a: UFixed)
    ensures IToU(UToI(a)).Ok?
    ensures IToU(UToI(a)).value == a - a % TWO16
  {
  }
}
