/**
 Facts about integer multiplication and division that the fixed-point proofs use.
 Every proof below the surface of this project is about products and truncating
 quotients of 128-bit quantities; the solver is never asked to discover such a
 fact, it is always told which one applies.
 */
module Arithmetic {

  function Min(a: int, b: int): int {
    if a <= b then a else b
  }

  function Abs(x: int): int {
    if x < 0 then -x else x
  }

  lemma MulLe(a: int, b: int, c: int)
    requires a <= b && 0 <= c
    ensures a * c <= b * c && c * a <= c * b
  {
  }

  lemma MulLt(a: int, b: int, c: int)
    requires a < b && 0 < c
    ensures a * c < b * c && c * a < c * b
  {
  }

  lemma MulNonNeg(a: int, b: int)
    requires 0 <= a && 0 <= b
    ensures 0 <= a * b && 0 <= b * a
  {
  }

  /** A product grows with both of its factors. */
  lemma MulMono(a: int, b: int, c: int, d: int)
    requires 0 <= a <= b && 0 <= c <= d
    ensures 0 <= a * c <= b * d
  {
  }

  lemma CancelLe(a: int, b: int, c: int)
    requires a * c <= b * c && 0 < c
    ensures a <= b
  {
  }

  lemma CancelLt(a: int, b: int, c: int)
    requires a * c < b * c && 0 < c
    ensures a < b
  {
  }

  /** The quotient is the one integer whose multiple of `b` is at most `a` and more than `a - b`. */
  lemma DivBounds(a: int, b: int)
    requires 0 < b
    ensures (a / b) * b <= a < (a / b) * b + b
    ensures 0 <= a ==> 0 <= a / b
  {
  }

  lemma DivAtLeast(a: int, b: int, q: int)
    requires 0 < b && q * b <= a
    ensures q <= a / b
  {
    DivBounds(a, b);
    if a / b < q {
      MulLe(a / b + 1, q, b);
    }
  }

  lemma DivAtMost(a: int, b: int, q: int)
    requires 0 < b && a < q * b + b
    ensures a / b <= q
  {
    DivBounds(a, b);
    if q < a / b {
      MulLe(q + 1, a / b, b);
    }
  }

  lemma DivIs(a: int, b: int, q: int)
    requires 0 < b && q * b <= a < q * b + b
    ensures a / b == q
  {
    DivAtLeast(a, b, q);
    DivAtMost(a, b, q);
  }

  lemma DivMono(a: int, c: int, b: int)
    requires 0 < b && a <= c
    ensures a / b <= c / b
  {
    DivBounds(a, b);
    DivAtLeast(c, b, a / b);
  }

  /** Truncating twice is truncating once by the product. */
  lemma DivDiv(a: int, b: int, c: int)
    requires 0 < b && 0 < c
    ensures 0 < b * c && (a / b) / c == a / (b * c)
  {
    MulLt(0, b, c);
    var q := a / (b * c);
    DivBounds(a, b * c);
    assert (q * c) * b == q * (b * c);
    DivAtLeast(a, b, q * c);
    assert (q * c + c - 1) * b + b == q * (b * c) + b * c;
    DivAtMost(a, b, q * c + c - 1);
    DivIs(a / b, c, q);
  }

  lemma DivOfMultiple(q: int, b: int)
    requires 0 < b
    ensures (q * b) / b == q
  {
    DivIs(q * b, b, q);
  }

  /** A common factor of dividend and divisor cancels. */
  lemma DivCancel(a: int, b: int, c: int)
    requires 0 < b && 0 < c
    ensures 0 < b * c && (a * c) / (b * c) == a / b
  {
    MulLt(0, b, c);
    DivBounds(a, b);
    var q := a / b;
    MulLe(q * b, a, c);
    MulLt(a, q * b + b, c);
    assert (q * b) * c == q * (b * c);
    assert (q * b + b) * c == q * (b * c) + b * c;
    DivIs(a * c, b * c, q);
  }
}
