/**
 When compounding grows with time. On a negative remainder every even term of the series
 shrinks as the argument grows, and the truncations can let two or three of them shrink by
 a whole unit while the argument itself grows by one. Four units are always enough.
 */
module Monotonicity {
  import opened Arithmetic
  import opened FixedPoint
  import opened Compounding
  import opened CompoundingTheorems

  // ---------------------------------------------------------------- one step of the loop, at two arguments

  lemma QuotientMono(mode: NegativeRounding, a: int, b: int, den: int)
    requires 0 < den && a <= b
    ensures Quotient(mode, a, den) <= Quotient(mode, b, den)
  {
    DivMono(a, b, den);
    DivMono(-b, -a, den);
    QuotientBounds(mode, a, den);
    QuotientBounds(mode, b, den);
  }

  /**
   Consecutive terms at two negative arguments: from `a` and `b`, both of one sign, to `s`
   and `t`. The signs flip, the sizes follow the products up to truncation, and the order of
   the products is the order of the terms.
   */
  ghost predicate Steps(n: int, x: int, y: int, a: int, b: int, s: int, t: int) {
    && Follows(n, x, a, s) && Follows(n, y, b, t)
    && (x * a <= y * b ==> s <= t) && (y * b <= x * a ==> t <= s)
  }

  ghost predicate Follows(n: int, x: int, a: int, s: int) {
    && (0 <= x * a ==> 0 <= s && (s * n) * ONE_I <= x * a < (s * n + n) * ONE_I)
    && (x * a <= 0 ==> s <= 0 && -(x * a) - (n + 1) * ONE_I < ((-s) * n) * ONE_I <= -(x * a) + ONE_I)
  }

  lemma TermFollows(lib: Library, x: IFixed, n: nat)
    requires Reduced(x) && 2 <= n <= LAST_TERM
    ensures Term(lib, x, n - 1).Ok? && Term(lib, x, n).Ok?
    ensures Follows(n, x, Term(lib, x, n - 1).value, Term(lib, x, n).value)
  {
    StepUp(lib, x, n);
  }

  lemma TermsInOrder(lib: Library, x: IFixed, y: IFixed, n: nat)
    requires 2 <= n <= LAST_TERM
    requires Term(lib, x, n).Ok? && Term(lib, y, n).Ok?
    ensures Term(lib, x, n - 1).Ok? && Term(lib, y, n - 1).Ok?
    ensures x * Term(lib, x, n - 1).value <= y * Term(lib, y, n - 1).value ==> Term(lib, x, n).value <= Term(lib, y, n).value
  {
    var a, b := x * Term(lib, x, n - 1).value, y * Term(lib, y, n - 1).value;
    if a <= b {
      QuotientMono(lib.mul, a, b, ONE_I);
      QuotientMono(TowardZero, Quotient(lib.mul, a, ONE_I), Quotient(lib.mul, b, ONE_I), n);
    }
  }

  lemma TermsStep(lib: Library, x: IFixed, y: IFixed, n: nat)
    requires Reduced(x) && Reduced(y) && 2 <= n <= LAST_TERM
    ensures Term(lib, x, n - 1).Ok? && Term(lib, x, n).Ok? && Term(lib, y, n - 1).Ok? && Term(lib, y, n).Ok?
    ensures Steps(n, x, y, Term(lib, x, n - 1).value, Term(lib, y, n - 1).value, Term(lib, x, n).value, Term(lib, y, n).value)
  {
    TermFollows(lib, x, n);
    TermFollows(lib, y, n);
    TermsInOrder(lib, x, y, n);
    TermsInOrder(lib, y, x, n);
  }

  // ---------------------------------------------------------------- how much a term can shrink

  /** Two products of a growing pair, against the growth of each factor. */
  lemma ProductGap(h: int, a: int, b: int, s: int, t: int)
    requires 0 <= b <= a <= h && 0 <= t <= s
    ensures 0 <= b * t <= a * s
    ensures a * s - b * t <= h * (s - t) + (a - b) * t
  {
    assert a * s - b * t == a * (s - t) + (a - b) * t;
    MulLe(a, h, s - t);
    MulNonNeg(a, s - t);
    MulNonNeg(a - b, t);
    MulNonNeg(b, t);
  }

  lemma Negated(x: int, a: int)
    ensures (-x) * (-a) == x * a && (-x) * a == -(x * a)
  {
  }

  /** From two products to two terms; `share` bounds the term that multiplies the growth of the argument. */
  lemma DropBound(n: int, h: int, share: int, d: int, p: int, q: int, a: int, b: int, drop: int, width: int)
    requires 0 < share && 0 <= d && share * b <= ONE_I
    requires p - q <= h * (a - b) + d * b && n * drop * ONE_I < p - q + width * ONE_I
    ensures share * (n * drop * ONE_I) < share * (h * (a - b)) + d * ONE_I + share * (width * ONE_I)
  {
    MulLe(share * b, ONE_I, d);
    assert (share * b) * d == share * (d * b);
    MulLt(n * drop * ONE_I, h * (a - b) + d * b + width * ONE_I, share);
    assert share * (h * (a - b) + d * b + width * ONE_I)
        == share * (h * (a - b)) + share * (d * b) + share * (width * ONE_I);
  }

  /** After a negative term: both grow positive, and the gap is bounded. */
  lemma EvenDrop(n: int, h: int, share: int, x: int, y: int, a: int, b: int, s: int, t: int)
    requires 2 <= n && -h <= x < y < 0 && a <= b <= 0 && Steps(n, x, y, a, b, s, t)
    requires 0 < share && share * -b <= ONE_I
    ensures 0 <= t <= s
    ensures share * (n * (s - t) * ONE_I) < share * (h * (b - a)) + (y - x) * ONE_I + share * (n * ONE_I)
  {
    ProductGap(h, -x, -y, -a, -b);
    Negated(x, a);
    Negated(y, b);
    assert n * (s - t) * ONE_I == (s * n) * ONE_I - (t * n + n) * ONE_I + n * ONE_I;
    DropBound(n, h, share, y - x, x * a, y * b, -a, -b, s - t, n);
  }

  /** After a positive term: both grow negative. */
  lemma OddDrop(n: int, h: int, share: int, x: int, y: int, a: int, b: int, s: int, t: int)
    requires 2 <= n && -h <= x < y < 0 && 0 <= b <= a && Steps(n, x, y, a, b, s, t)
    requires 0 < share && share * b <= ONE_I
    ensures s <= t <= 0
    ensures share * (n * (t - s) * ONE_I) < share * (h * (a - b)) + (y - x) * ONE_I + share * ((n + 2) * ONE_I)
  {
    ProductGap(h, -x, -y, a, b);
    Negated(x, a);
    Negated(y, b);
    assert n * (t - s) * ONE_I == ((-s) * n) * ONE_I - ((-t) * n) * ONE_I;
    DropBound(n, h, share, y - x, -(x * a), -(y * b), a, b, t - s, n + 2);
  }

  /** What the series can lose while the argument grows by `gap`, in units of 2^-48. */
  function Dip(gap: nat): nat {
    if gap == 0 || 4 <= gap then 0 else if gap == 1 then 2 else 1
  }

  /**
   The five drops in sequence, each at most a fraction of the one before, a fraction of the
   gap, and its own truncation. Only the second, fourth and sixth count against the sum.
   */
  lemma Shrinkage(d: nat, d2: nat, d3: nat, d4: nat, d5: nat, d6: nat)
    requires 1 <= d && 2 * (2 * d2 * ONE_I) < 2 * (97551793252583 * d) + d * ONE_I + 4 * ONE_I
    requires 16 * (3 * d3 * ONE_I) < 16 * (97551793252583 * d2) + d * ONE_I + 80 * ONE_I
    requires 32 * (4 * d4 * ONE_I) < 32 * (97551793252583 * d3) + d * ONE_I + 128 * ONE_I
    requires 64 * (5 * d5 * ONE_I) < 64 * (97551793252583 * d4) + d * ONE_I + 448 * ONE_I
    requires 128 * (6 * d6 * ONE_I) < 128 * (97551793252583 * d5) + d * ONE_I + 768 * ONE_I
    ensures d2 + d4 + d6 <= d + Dip(d)
  {
  }

  /** Each term is at most half of the one before, and the first of them at most a sixteenth. */
  lemma SmallTerms(lib: Library, y: IFixed)
    requires Reduced(y) && y < 0
    ensures Term(lib, y, 2).Ok? && 0 <= 16 * Term(lib, y, 2).value <= ONE_I
    ensures Term(lib, y, 3).Ok? && -ONE_I <= 32 * Term(lib, y, 3).value <= 0
    ensures Term(lib, y, 4).Ok? && 0 <= 64 * Term(lib, y, 4).value <= ONE_I
    ensures Term(lib, y, 5).Ok? && -ONE_I <= 128 * Term(lib, y, 5).value <= 0
  {
    var square := SecondTerm(lib, y);
    SquareBounds(y, square);
    Alternates(lib, y, Term(lib, y, 2).value, 3);
    Alternates(lib, y, Term(lib, y, 3).value, 4);
    Alternates(lib, y, Term(lib, y, 4).value, 5);
  }

  lemma AllSteps(lib: Library, x: IFixed, y: IFixed, sum: int, x2: int, x3: int, x4: int, x5: int, x6: int,
                 total: int, y2: int, y3: int, y4: int, y5: int, y6: int)
    requires Reduced(x) && Reduced(y)
    requires Terms(lib, x, sum, x2, x3, x4, x5, x6) && Terms(lib, y, total, y2, y3, y4, y5, y6)
    ensures Steps(2, x, y, x, y, x2, y2) && Steps(3, x, y, x2, y2, x3, y3) && Steps(4, x, y, x3, y3, x4, y4)
    ensures Steps(5, x, y, x4, y4, x5, y5) && Steps(6, x, y, x5, y5, x6, y6)
  {
    TermsStep(lib, x, y, 2);
    TermsStep(lib, x, y, 3);
    TermsStep(lib, x, y, 4);
    TermsStep(lib, x, y, 5);
    TermsStep(lib, x, y, 6);
  }

  lemma SumOfDrops(x: int, y: int, x2: int, x3: int, x4: int, x5: int, x6: int,
                   y2: int, y3: int, y4: int, y5: int, y6: int)
    requires -97551793252583 <= x < y < 0
    requires Steps(2, x, y, x, y, x2, y2) && Steps(3, x, y, x2, y2, x3, y3) && Steps(4, x, y, x3, y3, x4, y4)
    requires Steps(5, x, y, x4, y4, x5, y5) && Steps(6, x, y, x5, y5, x6, y6)
    requires 16 * y2 <= ONE_I && -ONE_I <= 32 * y3 && 64 * y4 <= ONE_I && -ONE_I <= 128 * y5
    ensures x + x2 + x3 + x4 + x5 + x6 <= y + y2 + y3 + y4 + y5 + y6 + Dip(y - x)
  {
    var h, d := 97551793252583, y - x;
    EvenDrop(2, h, 2, x, y, x, y, x2, y2);
    OddDrop(3, h, 16, x, y, x2, y2, x3, y3);
    EvenDrop(4, h, 32, x, y, x3, y3, x4, y4);
    OddDrop(5, h, 64, x, y, x4, y4, x5, y5);
    EvenDrop(6, h, 128, x, y, x5, y5, x6, y6);
    Shrinkage(d, x2 - y2, y3 - x3, x4 - y4, y5 - x5, x6 - y6);
  }

  /** At negative remainders the series loses at most two units, and nothing once the argument grows by four. */
  lemma SeriesNearlyMonotone(lib: Library, x: IFixed, y: IFixed)
    requires Reduced(x) && Reduced(y) && x < y < 0
    ensures Series(lib, x, LAST_TERM).Ok? && Series(lib, y, LAST_TERM).Ok?
    ensures Series(lib, x, LAST_TERM).value <= Series(lib, y, LAST_TERM).value + Dip(y - x)
  {
    Constants();
    var sum, x2, x3, x4, x5, x6 := SixTerms(lib, x);
    var total, y2, y3, y4, y5, y6 := SixTerms(lib, y);
    AllSteps(lib, x, y, sum, x2, x3, x4, x5, x6, total, y2, y3, y4, y5, y6);
    SmallTerms(lib, y);
    SumOfDrops(x, y, x2, x3, x4, x5, x6, y2, y3, y4, y5, y6);
  }

  // ---------------------------------------------------------------- from one multiple of ln 2 to the next

  /** The five terms of one concrete series. */
  lemma SumOf(lib: Library, x: IFixed, t2: int, t3: int, t4: int, t5: int, t6: int)
    requires Reduced(x)
    requires -ONE_I < t2 < ONE_I && -ONE_I < t3 < ONE_I && -ONE_I < t4 < ONE_I && -ONE_I < t5 < ONE_I
    requires Next(lib, x, x, 2) == Ok(t2) && Next(lib, x, t2, 3) == Ok(t3) && Next(lib, x, t3, 4) == Ok(t4)
    requires Next(lib, x, t4, 5) == Ok(t5) && Next(lib, x, t5, 6) == Ok(t6)
    ensures Series(lib, x, LAST_TERM) == Ok(ONE_I + x + t2 + t3 + t4 + t5 + t6)
  {
    assert Term(lib, x, 1) == Ok(x);
    assert Term(lib, x, 2) == Ok(t2);
    assert Term(lib, x, 3) == Ok(t3);
    assert Term(lib, x, 4) == Ok(t4);
    assert Term(lib, x, 5) == Ok(t5);
    assert Term(lib, x, 6) == Ok(t6);
    var sum, u2, u3, u4, u5, u6 := SixTerms(lib, x);
  }

  lemma SeriesAtTheEdges(lib: Library)
    ensures Series(lib, LN_2_DIV_2, LAST_TERM) == Ok(398065694480726)
    ensures Series(lib, -LN_2_DIV_2, LAST_TERM).Ok? && 199032896908563 <= Series(lib, -LN_2_DIV_2, LAST_TERM).value
  {
    Constants();
    SumOf(lib, 97551793252583, 16904437612898, 1952877211721, 169203916660, 11728321777, 677454431);
    if lib.mul == Down {
      SumOf(lib, -97551793252583, 16904437612898, -1952877211722, 169203916660, -11728321777, 677454431);
    } else {
      SumOf(lib, -97551793252583, 16904437612898, -1952877211721, 169203916660, -11728321777, 677454431);
    }
  }

  /** One doubling makes up for any fall of the remainder. */
  lemma DoublingMakesUp(lib: Library, s: IFixed, r: IFixed)
    requires Reduced(s) && Reduced(r)
    ensures Series(lib, s, LAST_TERM).Ok? && Series(lib, r, LAST_TERM).Ok?
    ensures Series(lib, s, LAST_TERM).value <= 2 * Series(lib, r, LAST_TERM).value
  {
    Constants();
    ReducedSum(lib, s);
    ReducedSum(lib, r);
    if 0 <= s && r < 0 {
      SeriesAtTheEdges(lib);
      SeriesMonotone(lib, s, LN_2_DIV_2, LAST_TERM);
      if -LN_2_DIV_2 < r {
        SeriesNearlyMonotone(lib, -LN_2_DIV_2, r);
      }
    }
  }

  /** Within one multiple only a negative remainder can lose anything. */
  lemma SameMultiple(lib: Library, s: IFixed, r: IFixed)
    requires Reduced(s) && Reduced(r) && s <= r
    ensures Series(lib, s, LAST_TERM).Ok? && Series(lib, r, LAST_TERM).Ok?
    ensures Series(lib, s, LAST_TERM).value <= Series(lib, r, LAST_TERM).value + (if r < 0 then Dip(r - s) else 0)
  {
    ReducedSum(lib, s);
    ReducedSum(lib, r);
    if s < r < 0 {
      SeriesNearlyMonotone(lib, s, r);
    } else if 0 <= s {
      SeriesMonotone(lib, s, r, LAST_TERM);
    }
  }

  lemma NoMoreMultiples(x: int, p: int, s: int, y: int, q: int, r: int)
    requires x <= y && Reduces(x, p, s) && Reduces(y, q, r)
    ensures p <= q && (p == q ==> s <= r)
  {
    Constants();
  }

  lemma ScaledUp(d: int, e: int, loss: int, p: nat, q: nat)
    requires p == q ==> d <= e + loss
    requires p < q ==> d <= 2 * e && 0 <= e
    requires p <= q && 0 <= loss
    ensures d * Pow2(p) <= e * Pow2(q) + loss * Pow2(q)
    ensures p < q || loss == 0 ==> d * Pow2(p) <= e * Pow2(q)
  {
    if p == q {
      MulLe(d, e + loss, Pow2(q));
      assert (e + loss) * Pow2(q) == e * Pow2(q) + loss * Pow2(q);
    } else {
      Pow2Mono(p + 1, q);
      Doubled(d, e, Pow2(p), Pow2(q));
      MulNonNeg(loss, Pow2(q));
    }
  }

  lemma Doubled(d: int, e: int, low: int, high: int)
    requires d <= 2 * e && 0 <= e && 0 < low && 2 * low <= high
    ensures d * low <= e * high
  {
    MulLe(d, 2 * e, low);
    MulLe(2 * low, high, e);
  }

  // ---------------------------------------------------------------- the exponential

  /**
   The exponential at an earlier argument exceeds the one at a later argument by at most two
   units of its last place, only if both lie on the same multiple of ln 2 with a negative
   remainder, and never if they are four units apart.
   */
  lemma ExpNearlyMonotone(lib: Library, x: IFixed, y: IFixed, q: nat, r: int)
    requires 0 <= x <= y <= MAX_EXP_ARG && Reduces(y, q, r)
    ensures CheckedExp(lib, x).Ok? && CheckedExp(lib, y).Ok?
    ensures CheckedExp(lib, x).value <= CheckedExp(lib, y).value + Dip(y - x) * Pow2(q)
    ensures 0 <= r || x + LN_2_DIV_2 < q * LN_2 || 4 <= y - x ==> CheckedExp(lib, x).value <= CheckedExp(lib, y).value
  {
    var p, s := NearestMultiple(x);
    ExpIs(lib, x, p, s);
    ExpIs(lib, y, q, r);
    ReducedSum(lib, r);
    NoMoreMultiples(x, p, s, y, q, r);
    var d, e := Series(lib, s, LAST_TERM).value, Series(lib, r, LAST_TERM).value;
    if p < q {
      DoublingMakesUp(lib, s, r);
      ScaledUp(d, e, Dip(y - x), p, q);
    } else {
      SameMultiple(lib, s, r);
      ScaledUp(d, e, Dip(y - x), p, q);
      if 0 <= r {
        ScaledUp(d, e, 0, p, q);
      }
    }
  }

  /** Four units of 2^-48 further on the exponential is never smaller. */
  lemma ExpGrowsOverFourUnits(lib: Library, x: IFixed, y: IFixed)
    requires 0 <= x && x + 4 <= y <= MAX_EXP_ARG
    ensures CheckedExp(lib, x).Ok? && CheckedExp(lib, y).Ok? && CheckedExp(lib, x).value <= CheckedExp(lib, y).value
  {
    var q, r := NearestMultiple(y);
    ReductionRange(y, q, r);
    ExpNearlyMonotone(lib, x, y, q, r);
  }

  // ---------------------------------------------------------------- interest over time

  /** Interest never falls from one moment to a later one, wherever it can be computed. */
  ghost predicate GrowsWithTime(lib: Library, rate: IFixed) {
    forall earlier: U64, later: U64 :: earlier <= later && CompoundInterest(lib, rate, later).Ok? ==>
      && CompoundInterest(lib, rate, earlier).Ok?
      && CompoundInterest(lib, rate, earlier).value <= CompoundInterest(lib, rate, later).value
  }

  /** Waiting longer costs at most two units of the last place, and nothing into the first half of a doubling. */
  lemma WaitingCostsAtMost(lib: Library, rate: IFixed, earlier: U64, later: U64, q: nat, r: int)
    requires 0 <= rate && earlier <= later && CompoundInterest(lib, rate, later).Ok?
    requires Reduces(rate * later, q, r)
    ensures CompoundInterest(lib, rate, earlier).Ok?
    ensures CompoundInterest(lib, rate, earlier).value <= CompoundInterest(lib, rate, later).value + 2 * Pow2(q)
    ensures 0 <= r || 4 <= rate * (later - earlier) ==>
              CompoundInterest(lib, rate, earlier).value <= CompoundInterest(lib, rate, later).value
  {
    var x, y := rate * earlier, rate * later;
    MulNonNeg(rate, earlier);
    MulLe(earlier, later, rate);
    CompoundingBeatsSimpleInterest(lib, rate, earlier);
    CompoundingBeatsSimpleInterest(lib, rate, later);
    assert y - x == rate * (later - earlier);
    ExpNearlyMonotone(lib, x, y, q, r);
    MulLe(Dip(y - x), 2, Pow2(q));
  }

  lemma GrowsAtFour(lib: Library, rate: IFixed, earlier: U64, later: U64)
    requires rate == 0 || 4 <= rate
    requires earlier <= later && CompoundInterest(lib, rate, later).Ok?
    ensures CompoundInterest(lib, rate, earlier).Ok?
    ensures CompoundInterest(lib, rate, earlier).value <= CompoundInterest(lib, rate, later).value
  {
    if rate == 0 {
      assert rate * earlier == rate * later == 0;
    } else if earlier < later {
      MulLe(4, rate, later - earlier);
      MulNonNeg(rate, later);
      CompoundingBeatsSimpleInterest(lib, rate, later);
      var q, r := NearestMultiple(rate * later);
      ReductionRange(rate * later, q, r);
      WaitingCostsAtMost(lib, rate, earlier, later, q, r);
    }
  }

  /** One second more yields `loss` units less. */
  ghost predicate FallsBy(lib: Library, rate: IFixed, t: U64, loss: nat) {
    && t < U64_MAX
    && CompoundInterest(lib, rate, t).Ok? && CompoundInterest(lib, rate, t + 1).Ok?
    && CompoundInterest(lib, rate, t + 1).value == CompoundInterest(lib, rate, t).value - loss
  }

  lemma InterestAfterOneDoubling(lib: Library, rate: IFixed, elapsed: U64, e: IFixed)
    requires 0 <= rate && LN_2 <= rate * elapsed + LN_2_DIV_2 < 2 * LN_2
    requires Series(lib, rate * elapsed - LN_2, LAST_TERM) == Ok(e)
    ensures CompoundInterest(lib, rate, elapsed) == Ok(2 * e - ONE_I)
  {
    Constants();
    ExpAfterOneDoubling(lib, rate * elapsed, rate * elapsed - LN_2, e);
    ExpIsTotal(lib, rate * elapsed);
  }

  lemma ExpAfterOneDoubling(lib: Library, x: IFixed, r: IFixed, e: IFixed)
    requires 0 <= x <= MAX_EXP_ARG && Reduces(x, 1, r) && Series(lib, r, LAST_TERM) == Ok(e)
    ensures CheckedExp(lib, x) == Ok(e * 2)
  {
    ExpIs(lib, x, 1, r);
    assert Pow2(1) == 2;
  }

  lemma FallsAfterOneDoubling(lib: Library, rate: IFixed, t: U64, e: IFixed, loss: nat)
    requires 0 <= rate && t < U64_MAX
    requires LN_2 <= rate * t + LN_2_DIV_2 && rate * (t + 1) + LN_2_DIV_2 < 2 * LN_2
    requires Series(lib, rate * t - LN_2, LAST_TERM) == Ok(e)
    requires Series(lib, rate * (t + 1) - LN_2, LAST_TERM) == Ok(e - loss)
    ensures FallsBy(lib, rate, t, 2 * loss)
  {
    assert rate * (t + 1) == rate * t + rate;
    InterestAfterOneDoubling(lib, rate, t, e);
    InterestAfterOneDoubling(lib, rate, t + 1, e - loss);
  }

  lemma FallsAtRateOne(lib: Library)
    ensures FallsBy(lib, 1, 126078778721744, 2)
  {
    Constants();
    SumOf(lib, -69024807783423, 8463317317255, -691806731644, 42412141954, -2080106715, 85015826);
    SumOf(lib, -69024807783422, 8463317317254, -691806731644, 42412141953, -2080106715, 85015826);
    FallsAfterOneDoubling(lib, 1, 126078778721744, 220262096563909, 1);
  }

  lemma FallsAtRateTwo(lib: Library)
    ensures FallsBy(lib, 2, 49788529061777, 2)
  {
    Constants();
    SumOf(lib, -95526528381613, 16209820374234, -1833754322954, 155584153895, -10560380369, 597327506);
    SumOf(lib, -95526528381611, 16209820374233, -1833754322954, 155584153894, -10560380369, 597327505);
    FallsAfterOneDoubling(lib, 2, 49788529061777, 200470135481355, 1);
  }

  lemma FallsAtRateThree(lib: Library)
    ensures FallsBy(lib, 3, 32841242538316, 2)
  {
    Constants();
    SumOf(lib, -96579858890219, 16569268878283, -1895085747798, 162560732970, -11155586784, 637951912);
    SumOf(lib, -96579858890216, 16569268878281, -1895085747798, 162560732969, -11155586784, 637951911);
    FallsAfterOneDoubling(lib, 3, 32841242538316, 199721344049020, 1);
  }

  /** The bound on a fall is attained, whichever way the library rounds: four units after one doubling. */
  lemma FallsByTwoUnits(lib: Library)
    ensures FallsBy(lib, 1, if lib.mul == Down then 136059954173829 else 109161325450403, 2 * Pow2(1))
  {
    Constants();
    assert Pow2(1) == 2;
    if lib.mul == Down {
      SumOf(lib, -59043632331338, 6192647317388, -433000469690, 22707098896, -952631466, 33304809);
      SumOf(lib, -59043632331337, 6192647317387, -433000469690, 22707098895, -952631466, 33304808);
      FallsAfterOneDoubling(lib, 1, 136059954173829, 228212778999255, 2);
    } else {
      SumOf(lib, -85942261054764, 13120299931311, -1335332723581, 101928699725, -6224342229, 316744583);
      SumOf(lib, -85942261054763, 13120299931310, -1335332723581, 101928699724, -6224342229, 316744582);
      FallsAfterOneDoubling(lib, 1, 109161325450403, 207413703965701, 2);
    }
  }

  /** At a rate of one, two or three units of 2^-48 per second, one second more can yield two units less. */
  lemma CompoundingCanDip(lib: Library, rate: IFixed) returns (t: U64)
    requires 1 <= rate <= 3
    ensures FallsBy(lib, rate, t, 2)
  {
    if rate == 1 {
      t := 126078778721744;
      FallsAtRateOne(lib);
    } else if rate == 2 {
      t := 49788529061777;
      FallsAtRateTwo(lib);
    } else {
      t := 32841242538316;
      FallsAtRateThree(lib);
    }
  }

  /**
   Exactly which non-negative rates make interest grow with time, whichever way the library
   rounds: all but the three smallest positive ones.
   */
  lemma GrowsWithTimeIff(lib: Library, rate: IFixed)
    requires 0 <= rate
    ensures GrowsWithTime(lib, rate) <==> rate == 0 || 4 <= rate
  {
    if rate == 0 || 4 <= rate {
      forall earlier: U64, later: U64 | earlier <= later && CompoundInterest(lib, rate, later).Ok?
        ensures CompoundInterest(lib, rate, earlier).Ok?
        ensures CompoundInterest(lib, rate, earlier).value <= CompoundInterest(lib, rate, later).value
      {
        GrowsAtFour(lib, rate, earlier, later);
      }
    } else {
      var t := CompoundingCanDip(lib, rate);
    }
  }
}
