/** Integer division facts shared by the components that count in steps. */
module Arithmetic {

  /** `ceil(n / d)`. */
  function CeilDiv(n: int, d: int): (r: int)
    requires d > 0
    ensures (r - 1) * d < n <= r * d
  {
    (n + d - 1) / d
  }

  lemma {:induction false} MulStep(a: int, b: int, w: int)
    requires a < b && w > 0
    ensures a * w + w <= b * w
    decreases b - a
  {
    assert (b - 1) * w + w == b * w;
    if a < b - 1 {
      MulStep(a, b - 1, w);
    }
  }

  lemma QuotientIs(x: int, w: int, k: int)
    requires w > 0
    ensures x / w == k <==> k * w <= x < k * w + w
  {
    var q := x / w;
    assert q * w <= x < q * w + w;
    if q < k {
      MulStep(q, k, w);
    } else if q > k {
      MulStep(k, q, w);
    }
  }
}
