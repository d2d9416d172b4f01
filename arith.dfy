/** Facts about multiplication that the solver does not find by itself. */
module Arith {

  /** Multiplying by a non-negative number keeps the order. */
  lemma MulMono(a: int, b: int, w: int)
    requires 0 <= a <= b && 0 <= w
    ensures a * w <= b * w
  {
    var k := b - a;
    assert b * w == a * w + k * w;
    assert k * w >= 0;
  }
}
