/** Prices with a confidence interval, and conversion between atoms and value. */
module OraclePrice {
  import opened Arithmetic
  import opened FixedPoint

  datatype OracleRate = OracleRate(rate: IFixed, confidence: IFixed)

  /** A rate is accepted when it is positive and its confidence interval stays above zero. */
  function TryNew(rate: IFixed, confidence: IFixed): Result<OracleRate> {
    if rate <= 0 then Err(OracleRateIsNull)
    else if confidence < 0 then Err(NegativeOracleRate)
    else if rate <= confidence then Err(OracleConfidenceExceedsRate)
    else Ok(OracleRate(rate, confidence))
  }

  predicate Valid(o: OracleRate) {
    TryNew(o.rate, o.confidence) == Ok(o)
  }

  function LowerBound(o: OracleRate): Result<IFixed> {
    ISub(o.rate, o.confidence)
  }

  function UpperBound(o: OracleRate): Result<IFixed> {
    IAdd(o.rate, o.confidence)
  }

  /** Exactly the rates with a confidence interval above zero are accepted, as they are. */
  lemma AcceptedIff(rate: IFixed, confidence: IFixed)
    ensures TryNew(rate, confidence).Ok? <==> 0 <= confidence < rate
    ensures TryNew(rate, confidence).Ok? ==> TryNew(rate, confidence).value == OracleRate(rate, confidence)
    ensures TryNew(rate, confidence) == Err(OracleRateIsNull) <==> rate <= 0
    ensures TryNew(rate, confidence) == Err(NegativeOracleRate) <==> 0 < rate && confidence < 0
  {
  }

  /** A validated rate has a positive lower bound, and the bounds are ordered when the upper one fits. */
  lemma ValidBounds(o: OracleRate)
    requires Valid(o)
    ensures LowerBound(o).Ok? && 0 < LowerBound(o).value <= o.rate
    ensures UpperBound(o).Ok? ==> LowerBound(o).value <= UpperBound(o).value
  {
  }

  // ---------------------------------------------------------------- powers of ten

  const MAX_DECIMALS: nat := 18

  function Pow10(d: nat): (p: int)
    ensures 0 < p
  {
    if d == 0 then 1 else 10 * Pow10(d - 1)
  }

  lemma {:induction false} Pow10Mono(d: nat, e: nat)
    requires d <= e
    ensures Pow10(d) <= Pow10(e)
    decreases e - d
  {
    if d < e {
      Pow10Mono(d, e - 1);
    }
  }

  lemma Pow10Fits(d: nat)
    requires d <= MAX_DECIMALS
    ensures 0 < Pow10(d) <= 1_000_000_000_000_000_000
  {
    Pow10Mono(d, 18);
    assert Pow10(7) == 10_000_000;
    assert Pow10(13) == 10_000_000_000_000;
    assert Pow10(18) == 1_000_000_000_000_000_000;
  }

  /** The table entry for `decimals`. The table ends at 18; a larger index is not a checked error. */
  function PowerOfTen(decimals: nat): IFixed
    requires decimals <= MAX_DECIMALS
  {
    Pow10Fits(decimals);
    Pow10(decimals) * ONE_I
  }

  // ---------------------------------------------------------------- conversions

  function AtomsToValue(lib: Library, price: IFixed, amount: U64, decimals: nat): Result<IFixed>
    requires decimals <= MAX_DECIMALS
  {
    var scaled :- IMulInt(price, amount);
    IDiv(lib, scaled, PowerOfTen(decimals))
  }

  function ValueToAtoms(lib: Library, price: IFixed, value: IFixed, decimals: nat): Result<IFixed>
    requires decimals <= MAX_DECIMALS
  {
    var scaled :- IMul(lib, value, PowerOfTen(decimals));
    IDiv(lib, scaled, price)
  }

  function CollateralValue(lib: Library, o: OracleRate, amount: U64, decimals: nat): Result<IFixed>
    requires decimals <= MAX_DECIMALS
  {
    var price :- LowerBound(o);
    AtomsToValue(lib, price, amount, decimals)
  }

  function BorrowValue(lib: Library, o: OracleRate, amount: U64, decimals: nat): Result<IFixed>
    requires decimals <= MAX_DECIMALS
  {
    var price :- UpperBound(o);
    AtomsToValue(lib, price, amount, decimals)
  }

  /** The value is scaled before the bound is computed, so its overflow is the one reported. */
  function CollateralAtoms(lib: Library, o: OracleRate, value: IFixed, decimals: nat): Result<IFixed>
    requires decimals <= MAX_DECIMALS
  {
    var scaled :- IMul(lib, value, PowerOfTen(decimals));
    var price :- LowerBound(o);
    IDiv(lib, scaled, price)
  }

  function BorrowAtoms(lib: Library, o: OracleRate, value: IFixed, decimals: nat): Result<IFixed>
    requires decimals <= MAX_DECIMALS
  {
    var scaled :- IMul(lib, value, PowerOfTen(decimals));
    var price :- UpperBound(o);
    IDiv(lib, scaled, price)
  }

  // ---------------------------------------------------------------- closed forms

  /** Multiplying and dividing by a power of ten costs exactly one truncation. */
  lemma AtomsToValueIs(lib: Library, price: IFixed, amount: U64, decimals: nat)
    requires 0 < price && decimals <= MAX_DECIMALS
    ensures AtomsToValue(lib, price, amount, decimals).Ok? <==> price * amount < TWO127
    ensures AtomsToValue(lib, price, amount, decimals).Ok? ==>
              AtomsToValue(lib, price, amount, decimals).value == price * amount / Pow10(decimals)
  {
    var exact := price * amount;
    MulNonNeg(price, amount);
    DivCancel(exact, Pow10(decimals), ONE_I);
    DivBounds(exact, Pow10(decimals));
    MulLe(1, Pow10(decimals), exact / Pow10(decimals));
    QuotientBounds(lib.div, exact * ONE_I, Pow10(decimals) * ONE_I);
  }

  lemma ScaledIs(lib: Library, value: IFixed, decimals: nat)
    requires decimals <= MAX_DECIMALS
    ensures IMul(lib, value, PowerOfTen(decimals)) == ICheck(value * Pow10(decimals), MultiplicationOverflow)
  {
    TimesWhole(lib, value, Pow10(decimals), PowerOfTen(decimals));
  }

  /** A product with a whole number is exact. */
  lemma TimesWhole(lib: Library, value: IFixed, n: int, bits: IFixed)
    requires bits == n * ONE_I
    ensures IMul(lib, value, bits) == ICheck(value * n, MultiplicationOverflow)
  {
    assert value * bits == (value * n) * ONE_I;
    ExactQuotient(lib.mul, value * n, ONE_I);
  }

  lemma ValueToAtomsIs(lib: Library, price: IFixed, value: IFixed, decimals: nat)
    requires 0 < price && decimals <= MAX_DECIMALS && ValueToAtoms(lib, price, value, decimals).Ok?
    ensures var atoms := ValueToAtoms(lib, price, value, decimals).value;
            && (value < 0 ==> atoms <= 0)
            && (0 <= value ==>
                  && 0 <= atoms
                  && atoms == value * Pow10(decimals) * ONE_I / price
                  && atoms * price <= value * Pow10(decimals) * ONE_I < atoms * price + price)
  {
    ScaledIs(lib, value, decimals);
    var exact := value * Pow10(decimals);
    if 0 <= value {
      MulNonNeg(value, Pow10(decimals));
    } else {
      MulLe(value, 0, Pow10(decimals));
    }
    QuotientBounds(lib.div, exact * ONE_I, price);
    DivBounds(exact * ONE_I, price);
  }

  // ---------------------------------------------------------------- theorems

  /**
   Atoms to value and back: it always converts, it never returns more than the original,
   and rounded up it returns exactly the original if and only if the remainder lost in
   the first conversion is worth no more than all but 2^-48 of an atom.
   */
  lemma AtomsRoundTrip(lib: Library, price: IFixed, amount: U64, decimals: nat)
    requires 0 < price && decimals <= MAX_DECIMALS && AtomsToValue(lib, price, amount, decimals).Ok?
    ensures var value := AtomsToValue(lib, price, amount, decimals).value;
            var back := ValueToAtoms(lib, price, value, decimals);
            && back.Ok?
            && 0 <= back.value <= amount * ONE_I
            && IRoundUp(back.value).Ok? && IRoundUp(back.value).value <= amount
            && (0 < amount ==>
                  (IRoundUp(back.value).value == amount <==>
                     (price * amount % Pow10(decimals)) * ONE_I <= price * (ONE_I - 1)))
  {
    var exact, ten := price * amount, Pow10(decimals);
    AtomsToValueIs(lib, price, amount, decimals);
    MulNonNeg(price, amount);
    Remainder(exact, ten);
    RoundTripBits(lib, price, amount, exact / ten, decimals, exact % ten);
    IRoundUpIsCeiling(ValueToAtoms(lib, price, exact / ten, decimals).value);
  }

  lemma Remainder(a: int, b: int)
    requires 0 <= a && 0 < b
    ensures 0 <= a / b && 0 <= a % b < b && (a / b) * b == a - a % b
  {
  }

  /** The bits that come back, against `amount` and against the ceiling below it. */
  lemma BackBits(f: int, price: int, amount: int, scaled: int, lost: int)
    requires 0 < f && 0 < price && 0 <= scaled && 0 <= lost && scaled == price * amount - lost
    ensures 0 <= scaled * f / price <= amount * f
    ensures (amount - 1) * f < scaled * f / price <==> lost * f <= price * (f - 1)
  {
    var floor := (amount - 1) * f;
    MulNonNeg(scaled, f);
    MulNonNeg(lost, f);
    assert scaled * f == (amount * f) * price - lost * f;
    DivBounds(scaled * f, price);
    DivAtMost(scaled * f, price, amount * f);
    assert floor * price + price == (amount * f) * price - price * (f - 1);
    if lost * f <= price * (f - 1) {
      assert (floor + 1) * price == floor * price + price;
      DivAtLeast(scaled * f, price, floor + 1);
    } else {
      DivAtMost(scaled * f, price, floor);
    }
  }

  lemma RoundTripBits(lib: Library, price: IFixed, amount: U64, value: IFixed, decimals: nat, lost: int)
    requires 0 < price && decimals <= MAX_DECIMALS && 0 <= value && 0 <= lost
    requires value * Pow10(decimals) == price * amount - lost && price * amount < TWO127
    ensures var back := ValueToAtoms(lib, price, value, decimals);
            && back.Ok?
            && 0 <= back.value <= amount * ONE_I
            && ((amount - 1) * ONE_I < back.value <==> lost * ONE_I <= price * (ONE_I - 1))
  {
    var scaled := value * Pow10(decimals);
    ScaledIs(lib, value, decimals);
    MulNonNeg(value, Pow10(decimals));
    QuotientBounds(lib.div, scaled * ONE_I, price);
    BackBits(ONE_I, price, amount, scaled, lost);
  }

  /** In particular whenever one atom is worth at least one unit of value and a little more. */
  lemma RoundTripAtOrdinaryPrices(lib: Library, price: IFixed, amount: U64, decimals: nat)
    requires 0 < price && decimals <= MAX_DECIMALS && AtomsToValue(lib, price, amount, decimals).Ok?
    requires (Pow10(decimals) - 1) * ONE_I <= price * (ONE_I - 1)
    ensures var value := AtomsToValue(lib, price, amount, decimals).value;
            ValueToAtoms(lib, price, value, decimals).Ok?
            && IRoundUp(ValueToAtoms(lib, price, value, decimals).value) == Ok(amount)
  {
    AtomsRoundTrip(lib, price, amount, decimals);
    var lost := price * amount % Pow10(decimals);
    assert lost * ONE_I <= (Pow10(decimals) - 1) * ONE_I;
  }

  /** For the same amount, debt is never valued below collateral. */
  lemma BorrowValueDominates(lib: Library, o: OracleRate, amount: U64, decimals: nat)
    requires Valid(o) && decimals <= MAX_DECIMALS && BorrowValue(lib, o, amount, decimals).Ok?
    ensures CollateralValue(lib, o, amount, decimals).Ok?
    ensures CollateralValue(lib, o, amount, decimals).value <= BorrowValue(lib, o, amount, decimals).value
  {
    ValidBounds(o);
    var low, high := LowerBound(o).value, UpperBound(o).value;
    AtomsToValueIs(lib, low, amount, decimals);
    AtomsToValueIs(lib, high, amount, decimals);
    MulLe(low, high, amount);
    DivMono(low * amount, high * amount, Pow10(decimals));
  }
}
