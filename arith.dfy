/** Proof steps, not facts of the codec: the integer facts the bit-level proofs rest on,
    each stated over plain variables so that the solver meets the products and quotients
    it needs and nothing else. */
module Arith {
  lemma MulDistrib(a: int, b: int, c: int)
    ensures a * (b + c) == a * b + a * c
  {
  }

  lemma MulAssoc(a: int, b: int, c: int)
    ensures (a * b) * c == a * (b * c)
  {
  }

  lemma MulLe(a: int, b: int, c: int)
    requires a >= 0 && b <= c
    ensures a * b <= a * c
  {
  }

  /** Quotient and remainder are determined by any decomposition x == d * q + r with 0 <= r < d. */
  lemma DivModUnique(x: int, d: int, q: int, r: int)
    requires d > 0 && 0 <= r < d && x == d * q + r
    ensures x / d == q && x % d == r
  {
    var q0, r0 := x / d, x % d;
    assert x == d * q0 + r0 && 0 <= r0 < d;
    if q > q0 {
      MulLe(d, q0 + 1, q);
      MulDistrib(d, q0, 1);
      assert false;
    } else if q < q0 {
      MulLe(d, q + 1, q0);
      MulDistrib(d, q, 1);
      assert false;
    }
  }

  /** Dividing twice is dividing by the product; the remainder modulo a product splits the same way. */
  lemma DivMulSplit(x: int, a: int, b: int)
    requires x >= 0 && a > 0 && b > 0
    ensures x / a / b == x / (a * b)
    ensures x % (a * b) == x % a + a * ((x / a) % b)
  {
    var q1, r1 := x / a, x % a;
    var q2, r2 := q1 / b, q1 % b;
    Recompose(x, a, b, q1, r1, q2, r2);
    DivModUnique(x, a * b, q2, a * r2 + r1);
  }

  /** x == a * q1 + r1 and q1 == b * q2 + r2 make a * r2 + r1 the remainder of x modulo a * b. */
  lemma Recompose(x: int, a: int, b: int, q1: int, r1: int, q2: int, r2: int)
    requires a > 0 && b > 0 && x == a * q1 + r1 && 0 <= r1 < a && q1 == b * q2 + r2 && 0 <= r2 < b
    ensures x == (a * b) * q2 + (a * r2 + r1) && 0 <= a * r2 + r1 < a * b
  {
    MulDistrib(a, b * q2, r2);
    MulAssoc(a, b, q2);
    MulLe(a, 0, r2);
    MulLe(a, r2, b - 1);
    MulDistrib(a, b, -1);
  }

  /** lo + hi * p stays below B * p when lo < p and hi < B. */
  lemma MulAddBound(lo: int, hi: int, p: int, B: int)
    requires 0 <= lo < p && 0 <= hi < B
    ensures lo + hi * p < B * p
  {
    MulLe(p, hi, B - 1);
    MulDistrib(p, B, -1);
  }

  lemma DivNonNeg(x: int, d: int)
    requires x >= 0 && d > 0
    ensures x / d >= 0 && 0 <= x % d < d
  {
  }
}
