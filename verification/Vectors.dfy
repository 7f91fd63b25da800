/** Real vectors: the dot product and the Cauchy-Schwarz inequality. */
module Vectors {

  type Vector = seq<real>

  function Dot(a: Vector, b: Vector): real
    requires |a| == |b|
  {
    if |a| == 0 then 0.0 else Dot(a[..|a| - 1], b[..|b| - 1]) + a[|a| - 1] * b[|b| - 1]
  }

  function SquaredNorm(v: Vector): real {
    Dot(v, v)
  }

  lemma ProductPositive(p: real, q: real)
    requires p > 0.0 && q > 0.0
    ensures p * q > 0.0
  { }

  lemma SquareOrder(x: real, y: real)
    requires 0.0 <= x
    ensures x < y ==> x * x < y * y
    ensures x == y ==> x * x == y * y
  {
    if x < y {
      assert y * y - x * x == (y - x) * (y + x);
      ProductPositive(y - x, y + x);
    }
  }

  lemma {:induction false} SquaredNormNonNegative(v: Vector)
    ensures SquaredNorm(v) >= 0.0
  {
    if |v| > 0 {
      SquaredNormNonNegative(v[..|v| - 1]);
      var x := v[|v| - 1];
      assert x * x >= 0.0;
    }
  }

  /** One coordinate more: the step of the Cauchy-Schwarz inequality. */
  lemma CauchySchwarzStep(d: real, a: real, b: real, x: real, y: real)
    requires a >= 0.0 && b >= 0.0 && d * d <= a * b
    ensures (d + x * y) * (d + x * y) <= (a + x * x) * (b + y * y)
  {
    var u, v, w := a * (y * y), b * (x * x), d * (x * y);
    assert u >= 0.0 by { assert y * y >= 0.0; }
    assert v >= 0.0 by { assert x * x >= 0.0; }
    assert w * w <= u * v by {
      var q := (x * y) * (x * y);
      assert q >= 0.0;
      assert w * w == (d * d) * q;
      assert u * v == (a * b) * q;
      MulOrder(d * d, a * b, q);
    }
    TwiceMeanBound(u, v, w);
    assert (a + x * x) * (b + y * y) == a * b + u + v + (x * x) * (y * y);
    assert (d + x * y) * (d + x * y) == d * d + 2.0 * w + (x * x) * (y * y);
  }

  lemma MulOrder(p: real, q: real, r: real)
    requires p <= q && r >= 0.0
    ensures p * r <= q * r
  { }

  lemma TwiceMeanBound(u: real, v: real, w: real)
    requires u >= 0.0 && v >= 0.0 && w * w <= u * v
    ensures 2.0 * w <= u + v
  {
    var t := u + v;
    assert t * t == (u - v) * (u - v) + 4.0 * (u * v);
    assert (u - v) * (u - v) >= 0.0;
    assert (2.0 * w) * (2.0 * w) == 4.0 * (w * w);
    if w > 0.0 {
      SquareOrder(t, 2.0 * w);
    }
  }

  lemma {:induction false} CauchySchwarz(a: Vector, b: Vector)
    requires |a| == |b|
    ensures Dot(a, b) * Dot(a, b) <= SquaredNorm(a) * SquaredNorm(b)
  {
    if |a| > 0 {
      var a', b' := a[..|a| - 1], b[..|b| - 1];
      CauchySchwarz(a', b');
      SquaredNormNonNegative(a');
      SquaredNormNonNegative(b');
      CauchySchwarzStep(Dot(a', b'), SquaredNorm(a'), SquaredNorm(b'), a[|a| - 1], b[|b| - 1]);
    }
  }
}
