/** Powers of two and division by a unit, for the models that pack fields into numbers. */
module Arithmetic {

  function Pow2(n: nat): (p: nat)
    ensures p >= 1
  {
    if n == 0 then 1 else 2 * Pow2(n - 1)
  }

  /** Dividing off the low part of a packed value. */
  lemma Quotient(hi: int, w: int, lo: int)
    requires 0 <= lo < w
    ensures (hi * w + lo) / w == hi
  {
    var q := (hi * w + lo) / w;
    assert (hi * w + lo) == q * w + (hi * w + lo) % w;
    assert -w < (hi - q) * w < w;
    assert hi - q >= 1 ==> (hi - q) * w >= w;
    assert hi - q <= -1 ==> (hi - q) * w <= -w;
  }
}
