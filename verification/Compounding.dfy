/**
 Continuous compounding: a fixed-point exponential by range reduction, a six-step Taylor
 loop and an exact shift, and the interest rate it yields over a number of seconds.
 */
module Compounding {
  import opened Arithmetic
  import opened FixedPoint

  const MIN_EXP_ARG: IFixed := -(3321 * ONE_I / 100)
  const MAX_EXP_ARG: IFixed := 5475 * ONE_I / 100
  const LN_2: IFixed := 693147180559945309 * ONE_I / 1000000000000000000
  const LN_2_DIV_2: IFixed := 693147180559945309 * ONE_I / 2000000000000000000

  /** The series is cut after this term. */
  const LAST_TERM: nat := 6

  lemma Constants()
    ensures LN_2 == 195103586505167
    ensures LN_2_DIV_2 == 97551793252583
    ensures MAX_EXP_ARG == 15410754974908416
  {
  }

  // ---------------------------------------------------------------- the Taylor loop

  /** The n-th term of the series, each computed from the one before: one product, one division. */
  function Next(lib: Library, x: IFixed, term: IFixed, n: U64): Result<IFixed> {
    var product :- IMul(lib, x, term);
    IDivInt(product, n)
  }

  function Term(lib: Library, x: IFixed, n: nat): Result<IFixed>
    requires 1 <= n <= LAST_TERM
  {
    if n == 1 then Ok(x)
    else
      var before :- Term(lib, x, n - 1);
      Next(lib, x, before, n)
  }

  /** The series up to the n-th term. */
  function Series(lib: Library, x: IFixed, n: nat): Result<IFixed>
    requires 1 <= n <= LAST_TERM
  {
    if n == 1 then IAdd(x, ONE_I)
    else
      var before :- Series(lib, x, n - 1);
      var term :- Term(lib, x, n);
      IAdd(before, term)
  }

  method Exp7Terms(lib: Library, fixed: IFixed) returns (r: Result<IFixed>)
    ensures r == Series(lib, fixed, LAST_TERM)
  {
    var term := fixed;
    var exp := IAdd(fixed, ONE_I);
    if exp.Err? {
      FailureSticks(lib, fixed, 1, LAST_TERM);
      return exp;
    }
    var n := 2;
    while n < 7
      invariant 2 <= n <= 7
      invariant Term(lib, fixed, n - 1) == Ok(term)
      invariant exp.Ok? && Series(lib, fixed, n - 1) == exp
    {
      var next := Next(lib, fixed, term, n);
      if next.Err? {
        FailureSticks(lib, fixed, n, LAST_TERM);
        return next;
      }
      term := next.value;
      exp := IAdd(exp.value, term);
      if exp.Err? {
        FailureSticks(lib, fixed, n, LAST_TERM);
        return exp;
      }
      n := n + 1;
    }
    r := exp;
  }

  /** Once a partial sum has failed, every later one fails in the same way. */
  lemma {:induction false} FailureSticks(lib: Library, x: IFixed, n: nat, m: nat)
    requires 1 <= n <= m <= LAST_TERM && Series(lib, x, n).Err?
    ensures Series(lib, x, m) == Series(lib, x, n)
    decreases m
  {
    if n < m {
      FailureSticks(lib, x, n, m - 1);
    }
  }

  // ---------------------------------------------------------------- the exponential

  /** The power of two: x rounded to a multiple of ln 2. */
  function PowerOfTwo(lib: Library, x: IFixed): Result<I32> {
    var shifted :- IAdd(x, if x < 0 then 0 - LN_2_DIV_2 else LN_2_DIV_2);
    var quotient :- IDiv(lib, shifted, LN_2);
    IToI32(quotient)
  }

  function CheckedExp(lib: Library, x: IFixed): Result<IFixed> {
    if x <= MIN_EXP_ARG then Ok(0)
    else if MAX_EXP_ARG < x then Err(InvalidExpArg)
    else
      var q :- PowerOfTwo(lib, x);
      var multiple :- IMul(lib, q * ONE_I, LN_2);
      var r :- ISub(x, multiple);
      var exp :- Series(lib, r, LAST_TERM);
      match IShift(exp, q)
      case Some(e) => Ok(e)
      case None => Err(MathOverflow)
  }

  /** Interest earned in `elapsed` seconds at a rate per second, compounded continuously. */
  function CompoundInterest(lib: Library, ratePerSecond: IFixed, elapsed: U64): Result<IFixed> {
    var x :- IMulInt(ratePerSecond, elapsed);
    var e :- CheckedExp(lib, x);
    ISub(e, ONE_I)
  }

  // ---------------------------------------------------------------- one step of the loop

  ghost predicate Reduced(x: int) {
    -LN_2_DIV_2 <= x <= LN_2_DIV_2
  }

  /** A non-negative product is divided exactly once; a negative one can be off by one unit more. */
  lemma NextIs(lib: Library, x: IFixed, term: IFixed, n: U64)
    requires Reduced(x) && -ONE_I <= term <= ONE_I && 2 <= n <= LAST_TERM
    ensures Next(lib, x, term, n).Ok?
    ensures var t := Next(lib, x, term, n).value;
            && (0 <= x * term ==>
                  && 0 <= t && t == x * term / (n * ONE_I)
                  && (t * n) * ONE_I <= x * term < (t * n + n) * ONE_I)
            && (x * term <= 0 ==>
                  && t <= 0
                  && -(x * term) - (n + 1) * ONE_I < ((-t) * n) * ONE_I <= -(x * term) + ONE_I)
            && (x * term == 0 ==> t == 0)
            && -ONE_I <= t <= ONE_I
  {
    Constants();
    MulBounds(x, term, LN_2_DIV_2, ONE_I);
    NextOfProduct(lib.mul, x * term, n);
  }

  lemma NextOfProduct(mode: NegativeRounding, product: int, n: int)
    requires -ONE_I * ONE_I <= product <= ONE_I * ONE_I && 2 <= n <= LAST_TERM
    ensures var m := Quotient(mode, product, ONE_I);
            var t := Quotient(TowardZero, m, n);
            && -ONE_I <= m <= ONE_I && -ONE_I <= t <= ONE_I
            && (0 <= product ==>
                  && 0 <= t && t == product / (n * ONE_I)
                  && (t * n) * ONE_I <= product < (t * n + n) * ONE_I)
            && (product <= 0 ==>
                  && t <= 0
                  && -product - (n + 1) * ONE_I < ((-t) * n) * ONE_I <= -product + ONE_I)
            && (product == 0 ==> t == 0)
  {
    QuotientBounds(mode, product, ONE_I);
    var m := Quotient(mode, product, ONE_I);
    assert -ONE_I <= m <= ONE_I;
    if 0 <= product {
      DivDiv(product, ONE_I, n);
      DivBounds(m, n);
    } else {
      DivBounds(-m, n);
    }
  }

  lemma MulBounds(a: int, b: int, p: int, q: int)
    requires -p <= a <= p && -q <= b <= q
    ensures -(p * q) <= a * b <= p * q
  {
  }
}
