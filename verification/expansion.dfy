/**
  First-order expansions of integer polynomials: `f(h) = v + h*d + h*h*q`. The derivative
  rules of both differentiators are checked against this shape of expansion.
 */
module Expansion {

  /** The value at offset `h` of the expansion with value `v`, slope `d` and remainder `q`. */
  function Expand(v: int, d: int, q: int, h: int): int
  {
    v + h * d + h * h * q
  }

  /** Remainder of the product of two expansions. */
  function ProductRemainder(a: int, p: int, s: int, b: int, q: int, t: int, h: int): int
  {
    p * q + a * t + b * s + h * (p * t + s * q) + h * h * (s * t)
  }

  /** Sums of expansions are expansions: slopes and remainders add. */
  lemma SumExpansion(a: int, p: int, s: int, b: int, q: int, t: int, h: int)
    ensures Expand(a, p, s, h) + Expand(b, q, t, h) == Expand(a + b, p + q, s + t, h)
  {
    Distribute(h * h, s, t);
    Distribute(h, p, q);
  }

  lemma Distribute(x: int, y: int, z: int)
    ensures x * (y + z) == x * y + x * z
  {
  }

  /** Products of expansions are expansions, with the product rule as slope. */
  lemma ProductExpansion(a: int, p: int, s: int, b: int, q: int, t: int, h: int)
    ensures Expand(a, p, s, h) * Expand(b, q, t, h)
         == Expand(a * b, a * q + b * p, ProductRemainder(a, p, s, b, q, t, h), h)
  {
    var hh := h * h;
    var x := h * p + hh * s;
    var y := h * q + hh * t;
    FoilExpand(a, x, b, y);
    ScaleSum(a, h, q, hh, t);
    ScaleSum(b, h, p, hh, s);
    CrossTerms(h, hh, p, s, q, t);
    var r := ProductRemainder(a, p, s, b, q, t, h);
    RemainderScaled(hh, h, a, p, s, b, q, t, r);
    Distribute(h, a * q, b * p);
  }

  lemma FoilExpand(a: int, x: int, b: int, y: int)
    ensures (a + x) * (b + y) == a * b + a * y + b * x + x * y
  {
  }

  lemma ScaleSum(a: int, h: int, q: int, hh: int, t: int)
    ensures a * (h * q + hh * t) == h * (a * q) + hh * (a * t)
  {
    Distribute(a, h * q, hh * t);
    MulSwap(a, h, q);
    MulSwap(a, hh, t);
  }

  lemma MulSwap(a: int, h: int, q: int)
    ensures a * (h * q) == h * (a * q)
  {
  }

  lemma CrossTerms(h: int, hh: int, p: int, s: int, q: int, t: int)
    requires hh == h * h
    ensures (h * p + hh * s) * (h * q + hh * t) == hh * (p * q) + hh * (h * (p * t + s * q)) + hh * (hh * (s * t))
  {
    FoilExpand(h * p, hh * s, h * q, hh * t);
    PairProduct(h, p, h, q);
    PairProduct(h, p, hh, t);
    PairProduct(hh, s, h, q);
    PairProduct(hh, s, hh, t);
    Regroup(h, hh, p, t);
    Regroup(h, hh, s, q);
    Distribute(h, p * t, s * q);
    Distribute(hh, h * (p * t), h * (s * q));
  }

  lemma PairProduct(u: int, x: int, v: int, y: int)
    ensures (u * x) * (v * y) == (u * v) * (x * y)
  {
  }

  lemma Regroup(h: int, hh: int, p: int, t: int)
    requires hh == h * h
    ensures (h * hh) * (p * t) == hh * (h * (p * t))
  {
  }

  lemma RemainderScaled(hh: int, h: int, a: int, p: int, s: int, b: int, q: int, t: int, r: int)
    requires hh == h * h
    requires r == ProductRemainder(a, p, s, b, q, t, h)
    ensures hh * r == hh * (p * q) + hh * (a * t) + hh * (b * s) + hh * (h * (p * t + s * q)) + hh * (hh * (s * t))
  {
    var u1, u2, u3, u4, u5 := p * q, a * t, b * s, h * (p * t + s * q), hh * (s * t);
    assert r == u1 + u2 + u3 + u4 + u5;
    Distribute(hh, u1 + u2 + u3 + u4, u5);
    Distribute(hh, u1 + u2 + u3, u4);
    Distribute(hh, u1 + u2, u3);
    Distribute(hh, u1, u2);
  }
}
