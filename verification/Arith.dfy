/** Integer helpers, and facts about products and quotients that the solver does not find by itself. */
module Arith {

  function Min(a: int, b: int): int {
    if a < b then a else b
  }

  function Max(a: int, b: int): int {
    if a > b then a else b
  }

  /** `Math.ceil(a / b)`. */
  function CeilDiv(a: int, b: int): int
    requires b > 0
  {
    (a + b - 1) / b
  }

  lemma {:induction false} MulMonotone(k: int, a: int, b: int)
    requires k >= 0 && a <= b
    ensures k * a <= k * b
  {
    var d := b - a;
    assert k * b == k * a + k * d;
  }

  lemma MulGap(k: int, a: int, b: int)
    requires k >= 0 && a < b
    ensures k * a + k <= k * b
  {
    MulMonotone(k, a + 1, b);
    assert k * (a + 1) == k * a + k;
  }

  lemma DivUnique(a: int, w: int, q: int)
    requires w > 0 && w * q <= a < w * q + w
    ensures a / w == q
  {
    var d := a / w;
    assert w * d <= a < w * d + w;
    if d < q {
      MulGap(w, d, q);
    } else if q < d {
      MulGap(w, q, d);
    }
  }

  lemma DivBounds(a: int, w: int)
    requires w > 0
    ensures w * (a / w) <= a < w * (a / w) + w
  {
  }

  lemma DivStep(a: int, w: int)
    requires w > 0
    ensures (a + w) / w == a / w + 1
  {
    DivBounds(a, w);
    assert w * (a / w + 1) == w * (a / w) + w;
    DivUnique(a + w, w, a / w + 1);
  }

  lemma DivMonotone(a: int, b: int, w: int)
    requires w > 0 && a <= b
    ensures a / w <= b / w
  {
    var p, q := a / w, b / w;
    DivBounds(a, w);
    DivBounds(b, w);
    if q < p {
      MulGap(w, q, p);
    }
  }

  lemma MulLess(k: int, a: int)
    ensures k * (a - 1) == k * a - k && k * (a + 1) == k * a + k
  {
  }

  lemma DivExact(k: int, a: int)
    requires k > 0
    ensures (k * a) / k == a
  {
    DivUnique(k * a, k, a);
  }

  /** The least number of b that reach a. */
  lemma CeilMeans(a: int, b: int)
    requires b > 0
    ensures b * CeilDiv(a, b) - b < a <= b * CeilDiv(a, b)
  {
    DivBounds(a + b - 1, b);
  }
}
