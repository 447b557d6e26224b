/** Small facts of integer arithmetic that the verifier does not find on its own
    (products of two variables, uniqueness of quotient and remainder). */
module Arith {

  /** Multiplying by a non-negative factor keeps an order. */
  lemma MulLe(a: int, b: int, d: int)
    requires 0 <= d && a <= b
    ensures a * d <= b * d
  {
    assert b * d - a * d == (b - a) * d;
  }

  /** A non-zero factor can be cancelled. */
  lemma MulCancel(a: int, b: int, d: int)
    requires d > 0 && a * d == b * d
    ensures a == b
  {
    if a < b {
      MulLe(a + 1, b, d);
    } else if b < a {
      MulLe(b + 1, a, d);
    }
  }

  /** Quotient and remainder are the unique pair with x == q * d + r and 0 <= r < d. */
  lemma DivUnique(x: int, d: int, q: int, r: int)
    requires d > 0 && 0 <= r < d && x == q * d + r
    ensures x / d == q && x % d == r
  {
    var q', r' := x / d, x % d;
    assert x == q' * d + r';
    if q' < q {
      MulLe(q' + 1, q, d);
    } else if q < q' {
      MulLe(q + 1, q', d);
    }
  }

  /** A number below b * d has a quotient by d below b. */
  lemma DivBelow(x: int, d: int, b: int)
    requires d > 0 && 0 <= x < b * d
    ensures 0 <= x / d < b
  {
    var q := x / d;
    if q >= b {
      MulLe(b, q, d);
    }
  }

  /** Slot c of row i in a row-major numbering with d_r slots per row and r0 rows per
      block: its remainder by d_r is c and its quotient by r0 * d_r is the block of row i. */
  lemma SlotOfRow(i: int, r0: int, dr: int, c: int)
    requires r0 > 0 && dr > 0 && i >= 0 && 0 <= c < dr
    ensures (i * dr + c) % dr == c
    ensures (i * dr + c) / (r0 * dr) == i / r0
  {
    var b, s := i / r0, i % r0;
    assert i == b * r0 + s;
    assert i * dr == (b * r0) * dr + s * dr;
    assert (b * r0) * dr == b * (r0 * dr);
    MulLe(s + 1, r0, dr);
    assert (s + 1) * dr == s * dr + dr;
    DivUnique(i * dr + c, r0 * dr, b, s * dr + c);
    DivUnique(i * dr + c, dr, i, c);
  }
}
