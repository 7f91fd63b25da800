/** int8 quantization against the server's quality check. */
module Quantization {
  import opened Vectors

  // Over the reals.  The check compares a cosine with `1 - threshold`; squares stand in for the square roots.

  /** numpy's rounding: to the nearest integer, halves to the even one. */
  function Round(y: real): (r: int)
    ensures -0.5 <= y - r as real <= 0.5
    ensures y - r as real == 0.5 || r as real - y == 0.5 ==> r % 2 == 0
  {
    var f := y.Floor;
    var d := y - f as real;
    if d < 0.5 then f
    else if d > 0.5 then f + 1
    else if f % 2 == 0 then f else f + 1
  }

  function Clip(n: int): int {
    if n < -128 then -128 else if n > 127 then 127 else n
  }

  /** `np.clip(np.round(embedding * 127), -128, 127)` */
  function Quantize(x: Vector): seq<int> {
    seq(|x|, i requires 0 <= i < |x| => Clip(Round(x[i] * 127.0)))
  }

  function AsReals(q: seq<int>): Vector {
    seq(|q|, i requires 0 <= i < |q| => q[i] as real)
  }

  /** Whether the quality check logs a warning: a zero norm, or a cosine below `1 - threshold`. */
  predicate Warns(original: Vector, quantized: Vector, threshold: real)
    requires |original| == |quantized|
  {
    var dot, n, m := Dot(original, quantized), Dot(original, original), Dot(quantized, quantized);
    || n == 0.0 || m == 0.0
    || CosineBelow(dot, n, m, 1.0 - threshold)
  }

  /** `dot / (sqrt(n) * sqrt(m)) < t`, for positive `n` and `m`. */
  predicate CosineBelow(dot: real, n: real, m: real, t: real) {
    if t > 0.0 then dot < 0.0 || dot * dot < t * t * (n * m)
    else dot < 0.0 && dot * dot > t * t * (n * m)
  }

  /** Every code is a signed byte, and no signed byte is nearer to 127 times the coordinate; halfway between
      two bytes it is the even one. */
  lemma CodesAreTheNearestBytes(x: Vector, i: nat, k: int)
    requires i < |x| && -128 <= k <= 127
    ensures |Quantize(x)| == |x| && -128 <= Quantize(x)[i] <= 127
    ensures Distance(127.0 * x[i], Quantize(x)[i]) <= Distance(127.0 * x[i], k)
    ensures Distance(127.0 * x[i], Quantize(x)[i]) == Distance(127.0 * x[i], k) && k != Quantize(x)[i] ==>
              Quantize(x)[i] % 2 == 0
  {
    ClippedRoundIsNearest(127.0 * x[i], k);
  }

  function Distance(y: real, k: int): (d: real)
    ensures d == y - k as real || d == k as real - y
    ensures d >= 0.0
  {
    if y < k as real then k as real - y else y - k as real
  }

  lemma ClippedRoundIsNearest(y: real, k: int)
    requires -128 <= k <= 127
    ensures var q := Clip(Round(y));
            && -128 <= q <= 127 && Distance(y, q) <= Distance(y, k)
            && (Distance(y, q) == Distance(y, k) && k != q ==> q % 2 == 0)
  {
    NearestIfInRange(y, Round(y), k);
  }

  lemma NearestIfInRange(y: real, r: int, k: int)
    requires -128 <= k <= 127 && -0.5 <= y - r as real <= 0.5
    ensures r < -128 ==> Distance(y, -128) < Distance(y, k) || k == -128
    ensures r > 127 ==> Distance(y, 127) < Distance(y, k) || k == 127
    ensures -128 <= r <= 127 ==> Distance(y, r) <= Distance(y, k)
    ensures Distance(y, r) == Distance(y, k) && k != r ==> y - r as real == 0.5 || r as real - y == 0.5
  {
    if k < r {
      assert k as real <= r as real - 1.0;
    } else if k > r {
      assert k as real >= r as real + 1.0;
    }
  }

  predicate IsLength(v: Vector, p: real) {
    p >= 0.0 && p * p == SquaredNorm(v)
  }

  /** With `p` and `q` the lengths of the two vectors and `c` their cosine: the check warns if a length is zero
      or the cosine lies below `t`, one minus the threshold. */
  lemma WarnsIs(original: Vector, quantized: Vector, t: real, p: real, q: real, c: real)
    requires |original| == |quantized| && IsLength(original, p) && IsLength(quantized, q)
    requires c * (p * q) == Dot(original, quantized)
    ensures Warns(original, quantized, 1.0 - t) <==> p == 0.0 || q == 0.0 || c < t
  {
    BelowNorms(Dot(original, quantized), SquaredNorm(original), SquaredNorm(quantized), t, p, q, c);
  }

  lemma BelowNorms(dot: real, n: real, m: real, t: real, p: real, q: real, c: real)
    requires p >= 0.0 && q >= 0.0 && p * p == n && q * q == m && c * (p * q) == dot
    ensures n == 0.0 <==> p == 0.0
    ensures m == 0.0 <==> q == 0.0
    ensures p > 0.0 && q > 0.0 ==> (CosineBelow(dot, n, m, t) <==> c < t)
  {
    SquareOrder(0.0, p);
    SquareOrder(0.0, q);
    if p > 0.0 && q > 0.0 {
      ProductPositive(p, q);
      SquareOfProduct(p, q, n, m);
      SquareOfProduct(t, p * q, t * t, n * m);
      BelowMeans(dot, n, m, t, p * q);
      OrderOfMultiples(c, t, p * q);
    }
  }

  lemma OrderOfMultiples(c: real, t: real, w: real)
    requires w > 0.0
    ensures c < t <==> c * w < t * w
  {
    if c < t {
      ProductPositive(t - c, w);
    } else {
      MulOrder(t, c, w);
    }
  }

  lemma SquareOfProduct(p: real, q: real, n: real, m: real)
    requires p * p == n && q * q == m
    ensures (p * q) * (p * q) == n * m
  {
    assert (p * q) * (p * q) == (p * p) * (q * q);
  }

  lemma BelowMeans(dot: real, n: real, m: real, t: real, w: real)
    requires w > 0.0 && (t * w) * (t * w) == t * t * (n * m)
    ensures CosineBelow(dot, n, m, t) <==> dot < t * w
  {
    var tw := t * w;
    if t > 0.0 {
      ProductPositive(t, w);
      BelowPositive(dot, tw);
    } else {
      MulOrder(t, 0.0, w);
      BelowNegative(dot, tw);
    }
  }

  lemma BelowPositive(x: real, y: real)
    requires y > 0.0
    ensures x < y <==> x < 0.0 || x * x < y * y
  {
    if 0.0 <= x < y {
      SquareOrder(x, y);
    } else if x >= y {
      SquareOrder(y, x);
    }
  }

  lemma BelowNegative(x: real, y: real)
    requires y <= 0.0
    ensures x < y <==> x < 0.0 && x * x > y * y
  {
    if x < y {
      SquareOrder(-y, -x);
      Negated(x, y);
    } else if x < 0.0 {
      SquareOrder(-x, -y);
      Negated(x, y);
    }
  }

  lemma Negated(x: real, y: real)
    ensures (-x) * (-x) == x * x && (-y) * (-y) == y * y
  { }

  // ---------------------------------------------------------------------------------------------

  /** Squared distance between `x` and `q` scaled back. */
  function SquaredError(x: Vector, q: Vector): real
    requires |x| == |q|
  {
    if |x| == 0 then 0.0
    else
      var d := x[|x| - 1] - q[|q| - 1] / 127.0;
      SquaredError(x[..|x| - 1], q[..|q| - 1]) + d * d
  }

  lemma {:induction false} ErrorExpands(x: Vector, q: Vector)
    requires |x| == |q|
    ensures SquaredError(x, q) == Dot(x, x) - 2.0 * Dot(x, q) / 127.0 + Dot(q, q) / 16129.0
  {
    if |x| > 0 {
      ErrorExpands(x[..|x| - 1], q[..|q| - 1]);
      var a, b := x[|x| - 1], q[|q| - 1];
      assert (a - b / 127.0) * (a - b / 127.0) == a * a - 2.0 * (a * b) / 127.0 + (b * b) / 16129.0;
    }
  }

  /** In range, each coordinate is off by at most half a step. */
  lemma {:induction false} ErrorBound(x: Vector, q: Vector)
    requires |x| == |q|
    requires forall i :: 0 <= i < |x| ==> -0.5 <= x[i] * 127.0 - q[i] <= 0.5
    ensures 0.0 <= SquaredError(x, q) <= |x| as real / 64516.0
  {
    if |x| > 0 {
      ErrorBound(x[..|x| - 1], q[..|q| - 1]);
      var n := |x| - 1;
      var d := x[n] - q[n] / 127.0;
      HalfStep(x[n], q[n]);
      assert |x[..n]| == n;
      OneMoreTerm(SquaredError(x[..n], q[..n]), d * d, n);
    }
  }

  lemma HalfStep(a: real, b: real)
    requires -0.5 <= a * 127.0 - b <= 0.5
    ensures var d := a - b / 127.0; 0.0 <= d * d <= 1.0 / 64516.0
  {
    var d := a - b / 127.0;
    assert -1.0 / 254.0 <= d <= 1.0 / 254.0;
    SquareBound(d, 1.0 / 254.0);
  }

  lemma OneMoreTerm(e: real, t: real, n: nat)
    requires 0.0 <= e <= n as real / 64516.0 && 0.0 <= t <= 1.0 / 64516.0
    ensures 0.0 <= e + t <= (n + 1) as real / 64516.0
  { }

  lemma SquareBound(d: real, e: real)
    requires -e <= d <= e
    ensures 0.0 <= d * d <= e * e
  {
    assert (e - d) * (e + d) >= 0.0;
  }

  lemma {:induction false} CoordinateBound(x: Vector)
    ensures forall i :: 0 <= i < |x| ==> x[i] * x[i] <= Dot(x, x)
  {
    if |x| > 0 {
      CoordinateBound(x[..|x| - 1]);
      SquaredNormNonNegative(x[..|x| - 1]);
      assert x[|x| - 1] * x[|x| - 1] >= 0.0;
      forall i | 0 <= i < |x| - 1 ensures x[i] * x[i] <= Dot(x, x) {
        assert x[..|x| - 1][i] == x[i];
      }
    }
  }

  predicate Unit(x: Vector) { Dot(x, x) == 1.0 }

  lemma UnitCoordinate(a: real)
    requires a * a <= 1.0
    ensures -1.0 <= a <= 1.0
  {
    SquareOrder(1.0, a);
    SquareOrder(1.0, -a);
  }

  /** For a unit vector the clipping never acts: no coordinate saturates. */
  lemma UnitVectorsNeverClip(x: Vector)
    requires Unit(x)
    ensures forall i :: 0 <= i < |x| ==> -127 <= Round(x[i] * 127.0) <= 127 && Quantize(x)[i] == Round(x[i] * 127.0)
  {
    CoordinateBound(x);
    forall i | 0 <= i < |x| ensures -127 <= Round(x[i] * 127.0) <= 127 {
      UnitCoordinate(x[i]);
      RoundInRange(x[i] * 127.0);
    }
  }

  lemma RoundInRange(y: real)
    requires -127.0 <= y <= 127.0
    ensures -127 <= Round(y) <= 127
  { }

  /** The heart of the argument, with `m` the squared norm of the quantized vector scaled back. */
  lemma CosineFromError(e: real, m: real)
    requires 0.0 <= e < 1.0 && m >= 0.0
    ensures (1.0 + m - e) * (1.0 + m - e) >= 4.0 * ((1.0 - e) * m)
  {
    var s := 1.0 - e - m;
    assert (1.0 + m - e) * (1.0 + m - e) == s * s + 4.0 * ((1.0 - e) * m);
    assert s * s >= 0.0;
  }

  /** The quality guarantee.  For a unit vector of dimension `n` the squared cosine between the vector
      and its quantization is at least `1 - n / 64516`, and the cosine is positive. */
  lemma QuantizationKeepsTheDirection(x: Vector)
    requires Unit(x) && |x| < 64516
    ensures var q := AsReals(Quantize(x));
            && Dot(x, q) > 0.0 && Dot(q, q) > 0.0
            && Dot(x, q) * Dot(x, q) >= (1.0 - |x| as real / 64516.0) * Dot(q, q)
  {
    QuantizedIsNear(x);
    NearKeepsTheDirection(x, AsReals(Quantize(x)));
  }

  predicate Near(x: Vector, q: Vector) {
    |x| == |q| && forall i :: 0 <= i < |x| ==> -0.5 <= x[i] * 127.0 - q[i] <= 0.5
  }

  lemma QuantizedIsNear(x: Vector)
    requires Unit(x)
    ensures Near(x, AsReals(Quantize(x)))
  {
    UnitVectorsNeverClip(x);
  }

  lemma FractionBelowOne(n: nat)
    requires n < 64516
    ensures 0.0 <= n as real / 64516.0 < 1.0
  { }

  lemma NearKeepsTheDirection(x: Vector, q: Vector)
    requires Unit(x) && |x| < 64516 && Near(x, q)
    ensures Dot(x, q) > 0.0 && Dot(q, q) > 0.0
    ensures Dot(x, q) * Dot(x, q) >= (1.0 - |x| as real / 64516.0) * Dot(q, q)
  {
    assert 0.0 <= SquaredError(x, q) <= |x| as real / 64516.0 by { ErrorBound(x, q); }
    FractionBelowOne(|x|);
    ErrorExpands(x, q);
    SquaredNormNonNegative(q);
    CauchySchwarz(x, q);
    Guarantee(Dot(x, x), Dot(x, q), Dot(q, q), SquaredError(x, q), |x| as real / 64516.0);
  }

  lemma Guarantee(one: real, dot: real, norm: real, e: real, bound: real)
    requires one == 1.0 && norm >= 0.0 && 0.0 <= e <= bound < 1.0 && dot * dot <= one * norm
    requires e == one - 2.0 * dot / 127.0 + norm / 16129.0
    ensures dot > 0.0 && norm > 0.0
    ensures dot * dot >= (1.0 - bound) * norm
  {
    var m := norm / 16129.0;
    assert 2.0 * dot / 127.0 == 1.0 + m - e;
    CosineFromError(e, m);
    assert (2.0 * dot / 127.0) * (2.0 * dot / 127.0) == 4.0 * (dot * dot) / 16129.0;
    assert dot * dot >= (1.0 - e) * norm;
    assert (1.0 - e) * norm >= (1.0 - bound) * norm by { MulOrder(1.0 - bound, 1.0 - e, norm); }
    AboveProduct(dot, dot, norm);
  }

  lemma AboveProduct(p: real, q: real, r: real)
    requires p > 0.0 && q > 0.0 && p * q <= r
    ensures r > 0.0
  {
    ProductPositive(p, q);
  }

  /** The server's check with its default threshold of one hundredth never warns for unit vectors of
      dimension up to 1283; the models in use have 512 and 768. */
  lemma DefaultThresholdNeverWarns(x: Vector)
    requires Unit(x) && |x| <= 1283
    ensures !Warns(x, AsReals(Quantize(x)), 0.01)
  {
    var q := AsReals(Quantize(x));
    QuantizationKeepsTheDirection(x);
    var m := Dot(q, q);
    assert 1.0 - |x| as real / 64516.0 >= 0.9801;
    MulOrder(0.9801, 1.0 - |x| as real / 64516.0, m);
    assert (1.0 - 0.01) * (1.0 - 0.01) == 0.9801;
  }

  // ---------------------------------------------------------------------------------------------
  // Where the guarantee ends
  // ---------------------------------------------------------------------------------------------

  function Flat(n: nat): Vector { seq(n, _ => 1.0 / 254.0) }

  function Zeros(n: nat): Vector { seq(n, _ => 0.0) }

  lemma {:induction false} FlatNorm(n: nat)
    ensures Dot(Flat(n), Flat(n)) == n as real / 64516.0
    ensures Dot(Zeros(n), Zeros(n)) == 0.0
  {
    if n > 0 {
      FlatNorm(n - 1);
      assert Flat(n)[..n - 1] == Flat(n - 1) && Zeros(n)[..n - 1] == Zeros(n - 1);
      assert (n as real - 1.0) / 64516.0 + 1.0 / 64516.0 == n as real / 64516.0;
    }
  }

  /** The flat unit vector of dimension 64516 rounds to zero, so all direction is lost and the check warns. */
  lemma FlatVectorVanishes()
    ensures Unit(Flat(64516)) && Quantize(Flat(64516)) == seq(64516, _ => 0)
    ensures Warns(Flat(64516), AsReals(Quantize(Flat(64516))), 0.01)
  {
    FlatNorm(64516);
    assert (1.0 / 254.0) * 127.0 == 0.5 && Round(0.5) == 0;
    var x := Flat(64516);
    forall i | 0 <= i < |x| ensures Quantize(x)[i] == 0 {
      assert x[i] == 1.0 / 254.0;
    }
    assert AsReals(Quantize(x)) == Zeros(64516);
  }

  lemma {:induction false} DotConcat(a: Vector, b: Vector, c: Vector, d: Vector)
    requires |a| == |c| && |b| == |d|
    ensures Dot(a + b, c + d) == Dot(a, c) + Dot(b, d)
  {
    if |b| == 0 {
      assert a + b == a && c + d == c;
    } else {
      var n := |b| - 1;
      assert (a + b)[..|a| + n] == a + b[..n] && (c + d)[..|c| + n] == c + d[..n];
      DotConcat(a, b[..n], c, d[..n]);
    }
  }

  lemma {:induction false} DotWithZeros(a: Vector)
    ensures Dot(a, Zeros(|a|)) == 0.0 == Dot(Zeros(|a|), Zeros(|a|))
  {
    if |a| > 0 {
      var n := |a| - 1;
      DotWithZeros(a[..n]);
      assert Zeros(|a|)[..n] == Zeros(n);
    }
  }

  /** Every coordinate of this vector lies exactly between two steps, and the errors of the large ones
      cancel: 127 times its head is 88.5, 87.5, 12.5, 11.5, 4.5, 3.5, and 127 times its tail is all 0.5. */
  function Head(): Vector {
    [88.5 / 127.0, 87.5 / 127.0, 12.5 / 127.0, 11.5 / 127.0, 4.5 / 127.0, 3.5 / 127.0]
  }

  function HeadRounded(): seq<int> { [88, 88, 12, 12, 4, 4] }

  function Halfway(n: nat): Vector
    requires n >= 1284
  {
    Head() + Flat(1278) + Zeros(n - 1284)
  }

  lemma HeadProducts()
    ensures Dot(Head(), Head()) == 15809.5 / 16129.0
    ensures Dot(Head(), AsReals(HeadRounded())) == 15808.0 / 127.0
    ensures Dot(AsReals(HeadRounded()), AsReals(HeadRounded())) == 15808.0
  {
    var h, r := Head(), AsReals(HeadRounded());
    assert r == [88.0, 88.0, 12.0, 12.0, 4.0, 4.0];
    DotOfSix(h, h, 7832.25 / 16129.0, 7656.25 / 16129.0, 156.25 / 16129.0, 132.25 / 16129.0, 20.25 / 16129.0,
             12.25 / 16129.0);
    DotOfSix(h, r, 7788.0 / 127.0, 7700.0 / 127.0, 150.0 / 127.0, 138.0 / 127.0, 18.0 / 127.0, 14.0 / 127.0);
    DotOfSix(r, r, 7744.0, 7744.0, 144.0, 144.0, 16.0, 16.0);
  }

  lemma DotOfSix(a: Vector, b: Vector, t0: real, t1: real, t2: real, t3: real, t4: real, t5: real)
    requires |a| == |b| == 6
    requires a[0] * b[0] == t0 && a[1] * b[1] == t1 && a[2] * b[2] == t2
    requires a[3] * b[3] == t3 && a[4] * b[4] == t4 && a[5] * b[5] == t5
    ensures Dot(a, b) == t0 + t1 + t2 + t3 + t4 + t5
  {
    DotOfThree(a[..3], b[..3], t0, t1, t2);
    DotOfThree(a[3..], b[3..], t3, t4, t5);
    DotConcat(a[..3], a[3..], b[..3], b[3..]);
    assert a[..3] + a[3..] == a && b[..3] + b[3..] == b;
  }

  lemma DotOfThree(a: Vector, b: Vector, t0: real, t1: real, t2: real)
    requires |a| == |b| == 3 && a[0] * b[0] == t0 && a[1] * b[1] == t1 && a[2] * b[2] == t2
    ensures Dot(a, b) == t0 + t1 + t2
  {
    DotNext(a, b, 0, t0);
    DotNext(a, b, 1, t1);
    DotNext(a, b, 2, t2);
    assert a[..3] == a && b[..3] == b;
  }

  lemma DotNext(a: Vector, b: Vector, i: nat, t: real)
    requires |a| == |b| && i < |a| && a[i] * b[i] == t
    ensures Dot(a[..i + 1], b[..i + 1]) == Dot(a[..i], b[..i]) + t
  {
    assert a[..i + 1][..i] == a[..i] && b[..i + 1][..i] == b[..i];
  }

  lemma HeadIsRounded()
    ensures Quantize(Head()) == HeadRounded()
  {
    assert Round(88.5) == 88 && Round(87.5) == 88;
    assert Round(12.5) == 12 && Round(11.5) == 12;
    assert Round(4.5) == 4 && Round(3.5) == 4;
  }

  lemma QuantizedHalfway(n: nat)
    requires n >= 1284
    ensures AsReals(Quantize(Halfway(n))) == AsReals(HeadRounded()) + Zeros(1278) + Zeros(n - 1284)
  {
    var x := Halfway(n);
    HeadIsRounded();
    assert Round(0.5) == 0 && Round(0.0) == 0;
    forall i | 0 <= i < n ensures Quantize(x)[i] == if i < 6 then HeadRounded()[i] else 0 {
      if i < 6 {
        assert x[i] == Head()[i];
        assert Quantize(x)[i] == Quantize(Head())[i];
      } else if i < 1284 {
        assert x[i] == Flat(1278)[i - 6] == 1.0 / 254.0;
      } else {
        assert x[i] == Zeros(n - 1284)[i - 1284] == 0.0;
      }
    }
  }

  /** From dimension 1284 on there is a unit vector that makes the check warn. */
  lemma HalfwayWarns(n: nat)
    requires n >= 1284
    ensures |Halfway(n)| == n && Unit(Halfway(n)) && Warns(Halfway(n), AsReals(Quantize(Halfway(n))), 0.01)
  {
    var h, f, z, r := Head(), Flat(1278), Zeros(n - 1284), AsReals(HeadRounded());
    QuantizedHalfway(n);
    HeadProducts();
    FlatNorm(1278);
    DotWithZeros(f);
    DotWithZeros(z);
    DotConcat(h, f, h, f);
    DotConcat(h + f, z, h + f, z);
    DotConcat(h, f, r, Zeros(1278));
    DotConcat(h + f, z, r + Zeros(1278), z);
    DotConcat(r, Zeros(1278), r, Zeros(1278));
    DotConcat(r + Zeros(1278), z, r + Zeros(1278), z);
    assert (15808.0 / 127.0) * (15808.0 / 127.0) < 0.9801 * (1.0 * 15808.0);
    assert (1.0 - 0.01) * (1.0 - 0.01) == 0.9801;
  }

  ghost predicate NeverWarns(n: nat, threshold: real) {
    forall x :: |x| == n && Unit(x) ==> !Warns(x, AsReals(Quantize(x)), threshold)
  }

  /** The dimensions for which the default threshold is safe, exactly. */
  lemma DefaultThresholdIsSafeExactlyUpTo(n: nat)
    ensures NeverWarns(n, 0.01) <==> n <= 1283
  {
    if n <= 1283 {
      forall x | |x| == n && Unit(x) ensures !Warns(x, AsReals(Quantize(x)), 0.01) {
        DefaultThresholdNeverWarns(x);
      }
    } else {
      HalfwayWarns(n);
    }
  }
}
