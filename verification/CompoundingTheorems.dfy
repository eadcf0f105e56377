/** The exponential never fails where it should not, never undershoots 1 + x, and follows its series. */
module CompoundingTheorems {
  import opened Arithmetic
  import opened FixedPoint
  import opened Compounding

  // ---------------------------------------------------------------- range reduction

  /** x = q * ln 2 + r, where q is x / ln 2 rounded to the nearest integer. */
  ghost predicate Reduces(x: int, q: int, r: int) {
    x == q * LN_2 + r && q * LN_2 <= x + LN_2_DIV_2 < q * LN_2 + LN_2
  }

  lemma NearestMultiple(x: int) returns (q: int, r: int)
    requires 0 <= x
    ensures Reduces(x, q, r)
  {
    Constants();
    q := (x + LN_2_DIV_2) / LN_2;
    r := x - q * LN_2;
    DivBounds(x + LN_2_DIV_2, LN_2);
  }

  /** The remainder is at most half of ln 2 away from zero; q reaches 79 only with a negative remainder. */
  lemma ReductionRange(x: int, q: int, r: int)
    requires 0 <= x <= MAX_EXP_ARG && Reduces(x, q, r)
    ensures 0 <= q <= 79 && Reduced(r)
    ensures q == 79 ==> r < 0
    ensures r < 0 ==> 1 <= q
  {
    Constants();
  }

  /** The code's chain of fixed-point steps computes that reduction. */
  lemma ReductionIsComputed(lib: Library, x: IFixed, q: int, r: int)
    requires 0 <= x <= MAX_EXP_ARG && Reduces(x, q, r) && 0 <= q <= 79
    ensures PowerOfTwo(lib, x) == Ok(q)
    ensures IMul(lib, q * ONE_I, LN_2) == Ok(q * LN_2)
  {
    Constants();
    var shifted := x + LN_2_DIV_2;
    QuotientBounds(lib.div, shifted * ONE_I, LN_2);
    DivDiv(shifted * ONE_I, LN_2, ONE_I);
    DivCancel(shifted, LN_2, ONE_I);
    DivIs(shifted, LN_2, q);
    assert IDiv(lib, shifted, LN_2) == Ok(shifted * ONE_I / LN_2);
    ExactQuotient(lib.mul, q * LN_2, ONE_I);
    assert (q * ONE_I) * LN_2 == (q * LN_2) * ONE_I;
  }

  // ---------------------------------------------------------------- the six terms

  ghost predicate Terms(lib: Library, x: IFixed, sum: int, t2: int, t3: int, t4: int, t5: int, t6: int) {
    && Term(lib, x, 2) == Ok(t2) && Term(lib, x, 3) == Ok(t3) && Term(lib, x, 4) == Ok(t4)
    && Term(lib, x, 5) == Ok(t5) && Term(lib, x, 6) == Ok(t6)
    && Series(lib, x, LAST_TERM) == Ok(sum)
    && sum == ONE_I + x + t2 + t3 + t4 + t5 + t6
  }

  /** Within the reduced range no step of the loop fails. */
  lemma {:induction false} TermIsSmall(lib: Library, x: IFixed, n: nat)
    requires Reduced(x) && 1 <= n <= LAST_TERM
    ensures Term(lib, x, n).Ok? && -ONE_I <= Term(lib, x, n).value <= ONE_I
  {
    Constants();
    if 1 < n {
      TermIsSmall(lib, x, n - 1);
      NextIs(lib, x, Term(lib, x, n - 1).value, n);
    }
  }

  lemma {:induction false} SeriesIsSmall(lib: Library, x: IFixed, n: nat)
    requires Reduced(x) && 1 <= n <= LAST_TERM
    ensures Series(lib, x, n).Ok? && (0 - n) * ONE_I <= Series(lib, x, n).value <= (n + 1) * ONE_I
  {
    Constants();
    if 1 < n {
      SeriesIsSmall(lib, x, n - 1);
      TermIsSmall(lib, x, n);
    }
  }

  lemma SixTerms(lib: Library, x: IFixed) returns (sum: int, t2: int, t3: int, t4: int, t5: int, t6: int)
    requires Reduced(x)
    ensures Terms(lib, x, sum, t2, t3, t4, t5, t6)
  {
    SeriesIsSmall(lib, x, 2);
    SeriesIsSmall(lib, x, 3);
    SeriesIsSmall(lib, x, 4);
    SeriesIsSmall(lib, x, 5);
    SeriesIsSmall(lib, x, 6);
    TermIsSmall(lib, x, 2);
    TermIsSmall(lib, x, 3);
    TermIsSmall(lib, x, 4);
    TermIsSmall(lib, x, 5);
    TermIsSmall(lib, x, 6);
    t2, t3, t4 := Term(lib, x, 2).value, Term(lib, x, 3).value, Term(lib, x, 4).value;
    t5, t6 := Term(lib, x, 5).value, Term(lib, x, 6).value;
    sum := Series(lib, x, LAST_TERM).value;
  }

  /** Term n from term n-1, when their product is not negative. */
  lemma StepUp(lib: Library, x: IFixed, n: nat)
    requires Reduced(x) && 2 <= n <= LAST_TERM
    ensures Term(lib, x, n - 1).Ok? && Term(lib, x, n).Ok?
    ensures var a, b := Term(lib, x, n - 1).value, Term(lib, x, n).value;
            && (0 <= x * a ==> 0 <= b && b == x * a / (n * ONE_I) && (b * n) * ONE_I <= x * a < (b * n + n) * ONE_I)
            && (x * a <= 0 ==> b <= 0 && -(x * a) - (n + 1) * ONE_I < ((-b) * n) * ONE_I <= -(x * a) + ONE_I)
            && (x * a == 0 ==> b == 0)
  {
    TermIsSmall(lib, x, n - 1);
    TermIsSmall(lib, x, n);
    NextIs(lib, x, Term(lib, x, n - 1).value, n);
  }

  lemma SecondTerm(lib: Library, x: IFixed) returns (square: int)
    requires Reduced(x)
    ensures square == x * x && Term(lib, x, 2).Ok?
    ensures var t2 := Term(lib, x, 2).value; 0 <= t2 && 2 * t2 * ONE_I <= square < (2 * t2 + 2) * ONE_I
  {
    square := x * x;
    if 0 <= x {
      MulNonNeg(x, x);
    } else {
      MulNonNeg(-x, -x);
      assert -x * -x == square;
    }
    StepUp(lib, x, 2);
    assert Term(lib, x, 1) == Ok(x);
  }

  /** For a non-negative argument every term is non-negative and the tail is at most the square. */
  lemma PositiveTerms(lib: Library, x: IFixed) returns (sum: int, t2: int, t3: int, t4: int, t5: int, t6: int)
    requires Reduced(x) && 0 <= x
    ensures Series(lib, x, LAST_TERM) == Ok(sum) && sum == ONE_I + x + t2 + t3 + t4 + t5 + t6
    ensures 0 <= t6 <= t5 <= t4 <= t3 && 8 * t3 <= t2 && 2 * t2 * ONE_I <= x * x
  {
    sum, t2, t3, t4, t5, t6 := SixTerms(lib, x);
    var square := SecondTerm(lib, x);
    Shrinks(lib, x, t2, 3);
    Shrinks(lib, x, t3, 4);
    Shrinks(lib, x, t4, 5);
    Shrinks(lib, x, t5, 6);
  }

  lemma Shrinks(lib: Library, x: IFixed, t: int, n: nat)
    requires Reduced(x) && 0 <= x && 3 <= n <= LAST_TERM && Term(lib, x, n - 1) == Ok(t) && 0 <= t
    ensures Term(lib, x, n).Ok? && 0 <= Term(lib, x, n).value && 8 * Term(lib, x, n).value <= t
  {
    Constants();
    StepUp(lib, x, n);
    MulNonNeg(x, t);
    MulLe(x, LN_2_DIV_2, t);
    var b := Term(lib, x, n).value;
    MulLe(3, n, b);
  }

  /** For a negative argument the terms alternate, and each pair shrinks. */
  lemma NegativeTerms(lib: Library, x: IFixed)
    returns (sum: int, square: int, t2: int, t3: int, t4: int, t5: int, t6: int)
    requires Reduced(x) && x < 0
    ensures Series(lib, x, LAST_TERM) == Ok(sum) && sum == ONE_I + x + t2 + t3 + t4 + t5 + t6
    ensures 0 <= t2 && 0 <= -t3 && 2 * -t3 <= t2
    ensures 0 <= t6 <= -t5 <= t4 <= t2
    ensures square == x * x && 2 * t2 * ONE_I <= square < (2 * t2 + 2) * ONE_I
  {
    sum, t2, t3, t4, t5, t6 := SixTerms(lib, x);
    square := SecondTerm(lib, x);
    Alternates(lib, x, t2, 3);
    Alternates(lib, x, t3, 4);
    Alternates(lib, x, t4, 5);
    Alternates(lib, x, t5, 6);
  }

  lemma Alternates(lib: Library, x: IFixed, t: int, n: nat)
    requires Reduced(x) && x < 0 && 3 <= n <= LAST_TERM && Term(lib, x, n - 1) == Ok(t)
    ensures Term(lib, x, n).Ok?
    ensures var b := Term(lib, x, n).value; (0 <= t ==> 0 <= 2 * -b <= t) && (t <= 0 ==> 0 <= 2 * b <= -t)
  {
    StepUp(lib, x, n);
    ProductIsSmall(x, t);
    AlternateBound(x * t, t, Term(lib, x, n).value, n);
  }

  lemma ProductIsSmall(x: int, t: int)
    requires Reduced(x) && x < 0
    ensures 0 <= t ==> -97551793252583 * t <= x * t <= 0
    ensures t <= 0 ==> 0 <= x * t <= 97551793252583 * -t
  {
    Constants();
    if 0 <= t {
      MulLe(-97551793252583, x, t);
      MulLe(x, 0, t);
    } else {
      MulLe(-97551793252583, x, -t);
      MulLe(x, 0, -t);
      assert x * -t == -(x * t);
    }
  }

  lemma AlternateBound(product: int, t: int, b: int, n: int)
    requires 3 <= n
    requires 0 <= t ==> -97551793252583 * t <= product <= 0
    requires t <= 0 ==> 0 <= product <= 97551793252583 * -t
    requires 0 <= product ==> 0 <= b && (b * n) * ONE_I <= product
    requires product <= 0 ==> b <= 0 && ((-b) * n) * ONE_I <= -product + ONE_I
    requires product == 0 ==> b == 0
    ensures (0 <= t ==> 0 <= 2 * -b <= t) && (t <= 0 ==> 0 <= 2 * b <= -t)
  {
    MulLe(3, n, Abs(b));
  }

  // ---------------------------------------------------------------- bounds on the sum

  /** Below zero the series stays below 1, above 1 + x, and by enough to beat the next power of two. */
  lemma NegativeSum(lib: Library, x: IFixed)
    requires Reduced(x) && x < 0
    ensures Series(lib, x, LAST_TERM).Ok?
    ensures var e := Series(lib, x, LAST_TERM).value; ONE_I + x <= e < ONE_I && ONE_I + LN_2 + x <= 2 * e
  {
    var sum, square, t2, t3, t4, t5, t6 := NegativeTerms(lib, x);
    SquareBounds(x, square);
    NegativeTotal(-x, square, t2, t3, t4, t5, t6);
    Constants();
  }

  lemma SquareBounds(x: int, square: int)
    requires Reduced(x) && x < 0 && square == x * x
    ensures 0 < -x <= 97551793252583
    ensures square <= 97551793252583 * -x
    ensures 86371390205489 < -x ==> 86371390205489 * 86371390205489 <= square
  {
    Constants();
    var a := -x;
    assert square == a * a;
    MulLe(a, 97551793252583, a);
    if 86371390205489 < a {
      MulMono(86371390205489, a, 86371390205489, a);
    }
  }

  /** With a = -x: half of the square is small against a, yet makes up for a beyond 1 - ln 2. */
  lemma NegativeTotal(a: int, square: int, t2: int, t3: int, t4: int, t5: int, t6: int)
    requires 0 < a <= 97551793252583
    requires square <= 97551793252583 * a
    requires 86371390205489 < a ==> 86371390205489 * 86371390205489 <= square
    requires 2 * t2 * ONE_I <= square < (2 * t2 + 2) * ONE_I
    requires 0 <= t2 && 0 <= -t3 && 2 * -t3 <= t2 && 0 <= t6 <= -t5 <= t4 <= t2
    ensures var rest := t2 + t3 + t4 + t5 + t6; 0 <= rest < a && a - 2 * rest <= 86371390205489
  {
  }

  lemma PositiveSum(lib: Library, x: IFixed)
    requires Reduced(x) && 0 <= x
    ensures Series(lib, x, LAST_TERM).Ok?
    ensures var e := Series(lib, x, LAST_TERM).value; ONE_I + x <= e < 2 * ONE_I && (e - ONE_I - x) * ONE_I <= x * x
  {
    Constants();
    var sum, t2, t3, t4, t5, t6 := PositiveTerms(lib, x);
    MulLe(x, LN_2_DIV_2, x);
  }

  lemma ReducedSum(lib: Library, r: IFixed)
    requires Reduced(r)
    ensures Series(lib, r, LAST_TERM).Ok?
    ensures var e := Series(lib, r, LAST_TERM).value;
            && ONE_I + r <= e < 2 * ONE_I && 0 <= e
            && (r < 0 ==> e < ONE_I && ONE_I + LN_2 + r <= 2 * e)
  {
    Constants();
    if r < 0 {
      NegativeSum(lib, r);
    } else {
      PositiveSum(lib, r);
    }
  }

  // ---------------------------------------------------------------- the shift

  lemma {:induction false} Pow2Mono(j: nat, k: nat)
    requires j <= k
    ensures Pow2(j) <= Pow2(k)
    decreases k - j
  {
    if j < k {
      Pow2Mono(j, k - 1);
    }
  }

  lemma Pow2Of79()
    ensures Pow2(79) * ONE_I == TWO127 && Pow2(78) * (2 * ONE_I) == TWO127
  {
    Pow2Of16();
    Pow2Add(16, 16);
    Pow2Add(32, 16);
    Pow2Of128();
    Pow2Add(79, 49);
    assert Pow2(49) == 2 * Pow2(48);
    assert Pow2(79) == 2 * Pow2(78);
  }

  lemma ShiftedIsSmall(e: int, q: nat)
    requires 0 <= e < 2 * ONE_I && q <= 79 && (q == 79 ==> e < ONE_I)
    ensures 0 <= e * Pow2(q) < TWO127
  {
    Pow2Of79();
    MulNonNeg(e, Pow2(q));
    if q == 79 {
      MulLt(e, ONE_I, Pow2(q));
    } else {
      Pow2Mono(q, 78);
      MulMono(e, 2 * ONE_I - 1, Pow2(q), Pow2(78));
    }
  }

  /** The shift back to full scale never overflows. */
  lemma ShiftFits(e: IFixed, q: nat)
    requires 0 <= e < 2 * ONE_I && q <= 79 && (q == 79 ==> e < ONE_I)
    ensures IShift(e, q) == Some(e * Pow2(q))
  {
    ShiftedIsSmall(e, q);
    IShiftExact(e, q);
  }

  /** Doubling outpaces adding ln 2 once the sum has reached ln 2. */
  lemma {:induction false} DoublingOutpaces(one: int, ln: int, e: int, r: int, from: nat, q: nat)
    requires from <= q && 0 <= ln
    requires one + from * ln + r <= e * Pow2(from)
    requires ln <= one + from * ln + r
    ensures one + q * ln + r <= e * Pow2(q)
    decreases q
  {
    if from < q {
      DoublingOutpaces(one, ln, e, r, from, q - 1);
      MulLe(from, q - 1, ln);
      OneDoubling(e, Pow2(q - 1), q - 1, ln);
    }
  }

  lemma OneDoubling(e: int, p: int, q: int, ln: int)
    ensures e * (2 * p) == 2 * (e * p) && (q + 1) * ln == q * ln + ln
  {
  }

  // ---------------------------------------------------------------- theorems

  /** The result is 2^q times the series of the remainder, exactly, and at least 1 + x. */
  lemma ExpIs(lib: Library, x: IFixed, q: int, r: int)
    requires 0 <= x <= MAX_EXP_ARG && Reduces(x, q, r)
    ensures Reduced(r) && 0 <= q && Series(lib, r, LAST_TERM).Ok?
    ensures var e := Series(lib, r, LAST_TERM).value * Pow2(q); CheckedExp(lib, x) == Ok(e) && ONE_I + x <= e
  {
    ReductionRange(x, q, r);
    ReductionIsComputed(lib, x, q, r);
    ReducedSum(lib, r);
    var e := Series(lib, r, LAST_TERM).value;
    ShiftFits(e, q);
    SumOutpaces(e, q, r);
  }

  lemma SumOutpaces(e: int, q: nat, r: int)
    requires Reduced(r) && (r < 0 ==> 1 <= q)
    requires ONE_I + r <= e && (r < 0 ==> ONE_I + LN_2 + r <= 2 * e)
    ensures ONE_I + (q * LN_2 + r) <= e * Pow2(q)
  {
    Constants();
    if r < 0 {
      assert Pow2(1) == 2;
      DoublingOutpaces(ONE_I, LN_2, e, r, 1, q);
    } else {
      DoublingOutpaces(ONE_I, LN_2, e, r, 0, q);
    }
  }

  /**
   The exponential is total on its whole non-negative range and rejects everything above
   it. It is never below 1 + x, so a non-negative argument never loses to simple interest,
   let alone turns negative.
   */
  lemma ExpIsTotal(lib: Library, x: IFixed)
    requires 0 <= x
    ensures CheckedExp(lib, x).Ok? <==> x <= MAX_EXP_ARG
    ensures MAX_EXP_ARG < x ==> CheckedExp(lib, x) == Err(InvalidExpArg)
    ensures x <= MAX_EXP_ARG ==> ONE_I + x <= CheckedExp(lib, x).value
  {
    if x <= MAX_EXP_ARG {
      var q, r := NearestMultiple(x);
      ExpIs(lib, x, q, r);
    } else {
      Constants();
    }
  }

  /** Below half of ln 2 there is nothing to reduce: the result is the series itself. */
  lemma ExpIsSeries(lib: Library, x: IFixed)
    requires 0 <= x && x + LN_2_DIV_2 < LN_2
    ensures Reduced(x) && Series(lib, x, LAST_TERM).Ok? && CheckedExp(lib, x) == Series(lib, x, LAST_TERM)
  {
    Constants();
    ExpIs(lib, x, 0, x);
  }

  /** There the result exceeds 1 + x by at most x squared. */
  lemma ExpNearZero(lib: Library, x: IFixed)
    requires 0 <= x && x + LN_2_DIV_2 < LN_2
    ensures CheckedExp(lib, x).Ok?
    ensures var interest := CheckedExp(lib, x).value - ONE_I; x <= interest && (interest - x) * ONE_I <= x * x
  {
    ExpIsSeries(lib, x);
    PositiveSum(lib, x);
  }

  lemma {:induction false} TermMonotone(lib: Library, x: IFixed, y: IFixed, n: nat)
    requires Reduced(x) && Reduced(y) && 0 <= x <= y && 1 <= n <= LAST_TERM
    ensures Term(lib, x, n).Ok? && Term(lib, y, n).Ok?
    ensures 0 <= Term(lib, x, n).value <= Term(lib, y, n).value
  {
    if 1 < n {
      TermMonotone(lib, x, y, n - 1);
      var a, b := Term(lib, x, n - 1).value, Term(lib, y, n - 1).value;
      StepUp(lib, x, n);
      StepUp(lib, y, n);
      MulMono(x, y, a, b);
      DivMono(x * a, y * b, n * ONE_I);
    }
  }

  lemma {:induction false} SeriesMonotone(lib: Library, x: IFixed, y: IFixed, n: nat)
    requires Reduced(x) && Reduced(y) && 0 <= x <= y && 1 <= n <= LAST_TERM
    ensures Series(lib, x, n).Ok? && Series(lib, y, n).Ok? && Series(lib, x, n).value <= Series(lib, y, n).value
  {
    SeriesIsSmall(lib, x, n);
    SeriesIsSmall(lib, y, n);
    if 1 < n {
      SeriesMonotone(lib, x, y, n - 1);
      TermMonotone(lib, x, y, n);
    }
  }

  /**
   Compounding over time at a non-negative rate: it succeeds exactly up to the largest
   argument and always yields at least simple interest.
   */
  lemma CompoundingBeatsSimpleInterest(lib: Library, rate: IFixed, elapsed: U64)
    requires 0 <= rate
    ensures CompoundInterest(lib, rate, elapsed).Ok? <==> rate * elapsed <= MAX_EXP_ARG
    ensures CompoundInterest(lib, rate, elapsed).Ok? ==>
              0 <= rate * elapsed <= CompoundInterest(lib, rate, elapsed).value
  {
    Constants();
    MulNonNeg(rate, elapsed);
    if rate * elapsed < TWO127 {
      ExpIsTotal(lib, rate * elapsed);
    }
  }

  /** Before the first doubling it is at most simple interest plus its square, and grows with time. */
  lemma CompoundingNearZero(lib: Library, rate: IFixed, earlier: U64, later: U64)
    requires 0 <= rate && earlier <= later && rate * later + LN_2_DIV_2 < LN_2
    ensures CompoundInterest(lib, rate, earlier).Ok? && CompoundInterest(lib, rate, later).Ok?
    ensures var x, interest := rate * later, CompoundInterest(lib, rate, later).value;
            x <= interest && (interest - x) * ONE_I <= x * x
    ensures CompoundInterest(lib, rate, earlier).value <= CompoundInterest(lib, rate, later).value
  {
    Constants();
    var x, y := rate * earlier, rate * later;
    MulNonNeg(rate, earlier);
    MulLe(earlier, later, rate);
    ExpIsSeries(lib, x);
    ExpIsSeries(lib, y);
    ExpNearZero(lib, y);
    SeriesMonotone(lib, x, y, LAST_TERM);
    PositiveSum(lib, x);
  }

  // ---------------------------------------------------------------- against the exact series

  ghost function Power(x: int, n: nat): int
  {
    if n == 0 then 1 else x * Power(x, n - 1)
  }

  /** n! * 2^(48(n-1)): the denominator that makes the n-th term a whole number of units of 2^-48. */
  ghost function Scale(n: nat): (d: int)
    requires 1 <= n
    ensures 0 < d
  {
    if n == 1 then 1
    else
      MulLt(0, n * ONE_I, Scale(n - 1));
      (n * ONE_I) * Scale(n - 1)
  }

  /** The sum of x^k / k! up to n, exactly, as a numerator over `Scale(n)`. */
  ghost function ExactSeries(x: int, n: nat): int
    requires 1 <= n
  {
    if n == 1 then ONE_I + x else ExactSeries(x, n - 1) * (n * ONE_I) + Power(x, n)
  }

  /** Every term of the loop is within two units of the exact one: errors do not accumulate. */
  lemma {:induction false} TermIsClose(lib: Library, x: IFixed, n: nat)
    requires Reduced(x) && 1 <= n <= LAST_TERM
    ensures Term(lib, x, n).Ok?
    ensures -2 * Scale(n) <= Term(lib, x, n).value * Scale(n) - Power(x, n) <= 2 * Scale(n)
  {
    if n == 1 {
      assert Power(x, 1) == x * Power(x, 0);
    } else {
      TermIsClose(lib, x, n - 1);
      StepUp(lib, x, n);
      var a, b := Term(lib, x, n - 1).value, Term(lib, x, n).value;
      Constants();
      OneStep(x, a, b, n);
      CloseArithmetic(ONE_I, x, a, b, n, Scale(n - 1), Power(x, n - 1));
    }
  }

  lemma OneStep(x: int, a: int, b: int, n: int)
    requires 2 <= n
    requires 0 <= x * a ==> (b * n) * ONE_I <= x * a < (b * n + n) * ONE_I
    requires x * a <= 0 ==> -(x * a) - (n + 1) * ONE_I < ((-b) * n) * ONE_I <= -(x * a) + ONE_I
    ensures -(n + 1) * ONE_I <= b * (n * ONE_I) - x * a <= (n + 1) * ONE_I
  {
  }

  /** The error of a step is its own rounding plus a fraction of the error before it. */
  lemma CloseArithmetic(f: int, x: int, a: int, b: int, n: int, d: int, p: int)
    requires 0 < f && 0 < d && 2 <= n
    requires -4 * f <= 10 * x <= 4 * f
    requires -(n + 1) * f <= b * (n * f) - x * a <= (n + 1) * f
    requires -2 * d <= a * d - p <= 2 * d
    ensures -2 * ((n * f) * d) <= b * ((n * f) * d) - x * p <= 2 * ((n * f) * d)
  {
    var rounding, before := b * (n * f) - x * a, a * d - p;
    ScaledError(rounding, (n + 1) * f, d);
    MulBounds(10 * x, before, 4 * f, 2 * d);
    Regroup(f, x, a, b, n, d, p);
    MulLt(0, f, d);
    MulLe(2, n, f * d);
    assert (10 * x) * before == 10 * (x * before);
    CloseSum(rounding * d, x * before, f * d, n * (f * d));
  }

  lemma ScaledError(e: int, width: int, d: int)
    requires -width <= e <= width && 0 < d
    ensures -(width * d) <= e * d <= width * d
  {
  }

  lemma Regroup(f: int, x: int, a: int, b: int, n: int, d: int, p: int)
    ensures b * ((n * f) * d) - x * p == (b * (n * f) - x * a) * d + x * (a * d - p)
    ensures ((n + 1) * f) * d == n * (f * d) + f * d
    ensures (4 * f) * (2 * d) == 8 * (f * d)
    ensures (n * f) * d == n * (f * d)
  {
  }

  lemma CloseSum(rounding: int, carried: int, unit: int, bound: int)
    requires -(bound + unit) <= rounding <= bound + unit
    requires -8 * unit <= 10 * carried <= 8 * unit
    requires 2 * unit <= bound
    ensures -2 * bound <= rounding + carried <= 2 * bound
  {
  }

  /** The loop's sum of n terms is within two units of 2^-48 per step of the exact series. */
  lemma {:induction false} SeriesIsClose(lib: Library, x: IFixed, n: nat)
    requires Reduced(x) && 1 <= n <= LAST_TERM
    ensures Series(lib, x, n).Ok?
    ensures -2 * (n - 1) * Scale(n) <= Series(lib, x, n).value * Scale(n) - ExactSeries(x, n) <= 2 * (n - 1) * Scale(n)
  {
    SeriesIsSmall(lib, x, n);
    if 1 < n {
      SeriesIsSmall(lib, x, n - 1);
      SeriesIsClose(lib, x, n - 1);
      TermIsClose(lib, x, n);
      AddTerm(n * ONE_I, n, Series(lib, x, n - 1).value, Term(lib, x, n).value, Scale(n - 1), ExactSeries(x, n - 1), Power(x, n));
    }
  }

  lemma AddTerm(k: int, n: int, sum: int, term: int, d: int, exact: int, power: int)
    requires 0 < k && 0 < d
    requires -2 * (n - 2) * d <= sum * d - exact <= 2 * (n - 2) * d
    requires -2 * (k * d) <= term * (k * d) - power <= 2 * (k * d)
    ensures -2 * (n - 1) * (k * d) <= (sum + term) * (k * d) - (exact * k + power) <= 2 * (n - 1) * (k * d)
  {
  }
}
