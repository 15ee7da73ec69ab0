/** The two `math` package helpers the dynamic-programming solvers use, on
    reals, and the two facts about products of reals the proofs share. */
module RealMath {

  /** `math.Abs`. */
  function Abs(x: real): (r: real)
    ensures r >= 0.0 && (r == x || r == -x)
  {
    if x < 0.0 then -x else x
  }

  /** `math.Max`. */
  function MaxReal(a: real, b: real): (r: real)
    ensures r >= a && r >= b && (r == a || r == b)
  {
    if a < b then b else a
  }

  lemma MulNonNeg(a: real, b: real)
    requires a >= 0.0 && b >= 0.0
    ensures a * b >= 0.0
  {
  }

  /** Multiplying by a non-negative factor keeps the order. */
  lemma MulLeftMono(c: real, x: real, y: real)
    requires c >= 0.0 && x <= y
    ensures c * x <= c * y
  {
    assert c * y - c * x == c * (y - x);
    MulNonNeg(c, y - x);
  }
}
