/** Multiplication facts that several components need. */
module Arithmetic {

  lemma MulOrder(a: int, b: int, c: nat)
    requires a <= b
    ensures a * c <= b * c
  {
    assert (b - a) * c >= 0;
    assert b * c == (b - a) * c + a * c;
  }

  lemma NextMultiple(a: int, c: nat)
    ensures (a + 1) * c == a * c + c
  {
  }
}
