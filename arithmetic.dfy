/** Facts about products of naturals shared by the image-position and board-position proofs. */
module Arithmetic {

  /** Multiplying by the same factor keeps the order. */
  lemma {:induction false} MulMono(a: nat, b: nat, c: nat)
    requires a <= b
    ensures a * c <= b * c
  {
    if c > 0 {
      MulMono(a, b, c - 1);
    }
  }

  lemma MulSucc(a: nat, b: nat)
    ensures (a + 1) * b == a * b + b
  {
  }
}
