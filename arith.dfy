/** Facts about products of a row index and a row length. */
module Arith {

  /** Multiplying by a non-negative factor keeps the order. */
  lemma {:induction false} MulLe(a: int, b: int, c: int)
    requires 0 <= a <= b && 0 <= c
    ensures 0 <= a * c <= b * c
    decreases b - a
  {
    if a < b {
      MulLe(a + 1, b, c);
      assert (a + 1) * c == a * c + c;
    }
  }
}
