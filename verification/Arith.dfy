/** Machine words, and division facts the solver does not find by itself. */
module Arith {

  const WORD: nat := 0x1_0000_0000_0000_0000   // u64 arithmetic wraps here

  type Byte = x: nat | x < 256

  lemma DivIs(x: nat, d: nat, q: nat, r: nat)
    requires r < d && x == q * d + r
    ensures x / d == q && x % d == r
  {
    var e := x / d - q;
    assert e * d == r - x % d by {
      assert x == x / d * d + x % d;
      assert e * d == x / d * d - q * d;
    }
  }

  lemma MulNonneg(x: nat, y: nat)
    ensures x * y >= 0
  {
  }
}
