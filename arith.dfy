/** Integer facts shared by the layout and the pixel indexing. */
module Arith {

  /** Multiplying by a natural number keeps the order of the factors. */
  lemma {:induction false} MulMono(a: nat, b: nat, c: nat)
    requires a <= b
    ensures a * c <= b * c
    decreases b - a
  {
    if a < b {
      MulMono(a, b - 1, c);
      assert b * c == (b - 1) * c + c;
    }
  }
}
