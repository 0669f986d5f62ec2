/** Facts about products and quotients of reals. */
module RealArithmetic {

  ghost predicate AddsProduct(y: real, y0: real, c: real, v: real) { y == y0 + c * v }

  ghost predicate ProductIs(x: real, t: real, y: real) { x * t == y }

  ghost predicate QuotientIs(q: real, x: real, t: real) { t > 0.0 && q == x / t }

  lemma ProductsInRange(w: real, s: real)
    requires w >= 0.0 && 0.0 <= s <= 100.0
    ensures 0.0 <= w * s <= 100.0 * w
  {
  }

  lemma RangeStep(weight: real, sum: real, w: real, s: real)
    requires 0.0 <= sum <= 100.0 * weight && w >= 0.0 && 0.0 <= s <= 100.0
    ensures 0.0 <= sum + w * s <= 100.0 * (weight + w)
  {
    ProductsInRange(w, s);
  }

  lemma ProductStrict(a: real, b: real, w: real)
    requires w > 0.0 && a < b
    ensures a * w < b * w
  {
  }

  lemma DivideBetween(x: real, low: real, high: real, w: real)
    requires w > 0.0 && low * w <= x <= high * w
    ensures low <= x / w <= high
  {
    var q := x / w;
    assert q * w == x;
    if q < low { ProductStrict(q, low, w); }
    if q > high { ProductStrict(high, q, w); }
  }

  lemma ProductMonotone(w: real, s: real, s': real)
    requires w >= 0.0 && s <= s'
    ensures w * s <= w * s'
  {
  }

  lemma DivideMonotone(x: real, y: real, w: real)
    requires w > 0.0 && x <= y
    ensures x / w <= y / w
  {
  }

  lemma Distribute(w: real, x: real, y: real, c: real)
    ensures w * (x + c * y) == w * x + c * (w * y)
  {
  }

  lemma MoveQuotient(w: real, x: real, t: real)
    requires t > 0.0
    ensures w * (x / t) == (w * x) / t
  {
  }

  lemma InterchangeStep(x: real, x0: real, c: real, s: real, v: real, t: real, y0: real, y: real)
    requires QuotientIs(s, v, t) && AddsProduct(x, x0, c, s) && ProductIs(x0, t, y0) && AddsProduct(y, y0, c, v)
    ensures ProductIs(x, t, y)
  {
    assert s * t == v;
    assert (x0 + c * s) * t == x0 * t + c * (s * t);
  }

  lemma SwapQuotients(a: real, b: real, t: real, u: real, q: real)
    requires t > 0.0 && u > 0.0 && ProductIs(a, t, b) && QuotientIs(q, b, u)
    ensures QuotientIs(a / u, q, t)
  {
    assert ((a / u) * t) == (a * t) / u by { MoveQuotient(t, a, u); }
  }

  /** Going from `x` to `y` moves toward `s` and not past it. */
  ghost predicate Toward(x: real, y: real, s: real) {
    if x < s then x < y < s else if x > s then s < y < x else y == s
  }

  /** A mean to which more weight of one score is added. */
  lemma MeanPulled(x: real, y: real, sum: real, sum': real, weight: real, more: real, s: real)
    requires more > 0.0 && QuotientIs(x, sum, weight) && QuotientIs(y, sum', weight + more)
    requires AddsProduct(sum', sum, more, s)
    ensures Toward(x, y, s)
  {
    var all := weight + more;
    assert sum == x * weight && sum' == y * all;
    Spread(x, s, weight, more);
    Spread(y, s, weight, more);
    Spread(y, x, weight, more);
    SignOfProduct(y - s, all);
    SignOfProduct(x - s, weight);
    SignOfProduct(y - x, all);
    SignOfProduct(s - x, more);
    assert (y - s) * all == (x - s) * weight;
    assert (y - x) * all == (s - x) * more;
  }

  lemma Spread(x: real, s: real, weight: real, more: real)
    ensures (x - s) * (weight + more) == x * (weight + more) - s * weight - s * more
    ensures (x - s) * weight == x * weight - s * weight && (s - x) * more == s * more - x * more
  {
  }

  lemma SignOfProduct(a: real, b: real)
    requires b > 0.0
    ensures a * b > 0.0 <==> a > 0.0
    ensures a * b < 0.0 <==> a < 0.0
  {
  }
}
