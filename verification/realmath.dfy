/**
  * `Math.log` and `Math.sqrt` are not modelled bit for bit: they are parameters of the
  * operations that use them, and `Lawful` states the only facts the proofs rely on.
  */
module RealMath {

  /** The host's natural logarithm and square root. */
  datatype MathOps = MathOps(ln: real -> real, sqrt: real -> real)

  /** ln(1) = 0 and ln is strictly increasing on the positives; sqrt is the non-negative square root. */
  ghost predicate Lawful(m: MathOps)
  {
    && m.ln(1.0) == 0.0
    && (forall x, y :: 0.0 < x < y ==> m.ln(x) < m.ln(y))
    && (forall x :: 0.0 <= x ==> 0.0 <= m.sqrt(x) && m.sqrt(x) * m.sqrt(x) == x)
  }

  lemma LnPositive(m: MathOps, x: real)
    requires Lawful(m) && x > 1.0
    ensures m.ln(x) > 0.0
  {
    assert m.ln(1.0) < m.ln(x);
  }

  lemma LnOneIsZero(m: MathOps)
    requires Lawful(m)
    ensures m.ln(1.0) == 0.0
  {
  }

  /** A product of two positive numbers is positive. */
  lemma MulPositive(a: real, b: real)
    requires a > 0.0 && b > 0.0
    ensures a * b > 0.0
  {
  }

  /** A product of two non-negative numbers is non-negative. */
  lemma MulNonNegative(a: real, b: real)
    requires a >= 0.0 && b >= 0.0
    ensures a * b >= 0.0
  {
    if a > 0.0 && b > 0.0 {
      MulPositive(a, b);
    }
  }

  /** A square is never negative. */
  lemma SquareNonNegative(a: real)
    ensures a * a >= 0.0
  {
    if a < 0.0 {
      assert a * a == (-a) * (-a);
      MulPositive(-a, -a);
    } else {
      MulNonNegative(a, a);
    }
  }

  /** From `u*u <= v*v` and `v >= 0` follows `u <= v`. */
  lemma SquareLe(u: real, v: real)
    requires v >= 0.0 && u * u <= v * v
    ensures u <= v
  {
    if u > v {
      assert u > 0.0;
      assert (u - v) * (u + v) == u * u - v * v;
      MulPositive(u - v, u + v);
    }
  }

  lemma ProductMono(x: real, xx: real, y: real, yy: real)
    requires 0.0 <= x <= xx && 0.0 <= y <= yy
    ensures x * y <= xx * yy
  {
    MulNonNegative(xx - x, y);
    MulNonNegative(xx, yy - y);
    assert xx * y - x * y == (xx - x) * y;
    assert xx * yy - xx * y == xx * (yy - y);
  }

  /** `(xy + d)² = x²y² + 2xyd + d²`. */
  lemma ExpandLeft(x: real, y: real, d: real)
    ensures (x * y + d) * (x * y + d) == (x * x) * (y * y) + 2.0 * (x * y * d) + d * d
  {
  }

  /** `(x² + p)(y² + q) = x²y² + p·y² + q·x² + pq`. */
  lemma ExpandRight(x: real, y: real, p: real, q: real)
    ensures (x * x + p) * (y * y + q) == (x * x) * (y * y) + p * (y * y) + q * (x * x) + p * q
  {
  }

  /** `(2xyd)² = 4·x²y²·d²`. */
  lemma SquareOfCross(x: real, y: real, d: real)
    ensures (2.0 * (x * y * d)) * (2.0 * (x * y * d)) == 4.0 * ((x * x) * (y * y)) * (d * d)
  {
  }

  /** `4·x²y²·pq = 4·(p·y²)·(q·x²)`. */
  lemma RegroupProduct(x: real, y: real, p: real, q: real)
    ensures 4.0 * ((x * x) * (y * y)) * (p * q) == 4.0 * (p * (y * y)) * (q * (x * x))
  {
  }

  /** `4ab <= (a + b)²`. */
  lemma FourProductLe(a: real, b: real)
    ensures 4.0 * a * b <= (a + b) * (a + b)
  {
    SquareNonNegative(a - b);
    assert (a + b) * (a + b) - 4.0 * a * b == (a - b) * (a - b);
  }

  /** The cross term of the Cauchy-Schwarz step: `2xyd <= p·y² + q·x²` when `d² <= pq`. */
  lemma CrossTerm(d: real, p: real, q: real, x: real, y: real)
    requires p >= 0.0 && q >= 0.0 && d * d <= p * q
    ensures 2.0 * (x * y * d) <= p * (y * y) + q * (x * x)
  {
    var u := x * y * d;
    var a := p * (y * y);
    var b := q * (x * x);
    SquareNonNegative(x);
    SquareNonNegative(y);
    MulNonNegative(p, y * y);
    MulNonNegative(q, x * x);
    if u > 0.0 {
      var xy2 := (x * x) * (y * y);
      MulNonNegative(x * x, y * y);
      SquareOfCross(x, y, d);
      SquareNonNegative(d);
      ProductMono(d * d, p * q, xy2, xy2);
      assert (d * d) * xy2 <= (p * q) * xy2;
      assert 4.0 * xy2 * (d * d) <= 4.0 * xy2 * (p * q);
      RegroupProduct(x, y, p, q);
      FourProductLe(a, b);
      SquareLe(2.0 * u, a + b);
    }
  }

  /**
    * The induction step of the Cauchy-Schwarz inequality: adding one coordinate pair `(x, y)`
    * to sums `d = Σab`, `p = Σa²`, `q = Σb²` with `d² <= p·q` keeps the inequality.
    */
  lemma CauchyStep(d: real, p: real, q: real, x: real, y: real)
    requires p >= 0.0 && q >= 0.0 && d * d <= p * q
    ensures (x * y + d) * (x * y + d) <= (x * x + p) * (y * y + q)
  {
    ExpandLeft(x, y, d);
    ExpandRight(x, y, p, q);
    CrossTerm(d, p, q, x, y);
  }

  /** The Cauchy-Schwarz inequality for the sums `d = Σab`, `p = Σa²`, `q = Σb²`. */
  predicate SquareBound(d: real, p: real, q: real)
  {
    d * d <= p * q
  }

  /** The Cauchy-Schwarz induction step, stated over named sums. */
  lemma CauchyStepSums(dd: real, pp: real, qq: real, d: real, p: real, q: real, x: real, y: real)
    requires p >= 0.0 && q >= 0.0 && SquareBound(d, p, q)
    requires dd == x * y + d && pp == x * x + p && qq == y * y + q
    ensures SquareBound(dd, pp, qq)
  {
    CauchyStep(d, p, q, x, y);
  }

  /** Enlarging both non-negative factors of a bound keeps it a bound. */
  lemma BoundByLarger(d: real, p: real, q: real, pp: real, qq: real)
    requires 0.0 <= p <= pp && 0.0 <= q <= qq && d * d <= p * q
    ensures d * d <= pp * qq
  {
    ProductMono(p, pp, q, qq);
  }

  lemma DivBound(d: real, mag: real)
    requires mag > 0.0 && -mag <= d <= mag
    ensures -1.0 <= d / mag <= 1.0
    ensures d >= 0.0 ==> d / mag >= 0.0
    ensures d > 0.0 ==> d / mag > 0.0
    ensures d == mag ==> d / mag == 1.0
  {
  }

  lemma SquareRootProduct(sa: real, sb: real, na: real, nb: real)
    requires sa >= 0.0 && sb >= 0.0 && sa * sa == na && sb * sb == nb
    ensures (sa * sb) * (sa * sb) == na * nb
    ensures sa * sb >= 0.0
  {
  }

  lemma SelfRatio(n: real, s: real)
    requires n > 0.0 && s * s == n
    ensures n / (s * s) == 1.0
  {
  }

  /** A product of two positive numbers plus something non-negative is positive. */
  lemma ProductPlus(a: real, b: real, y: real, z: real)
    requires a > 0.0 && b > 0.0 && y >= 0.0 && z == a * b + y
    ensures z > 0.0
  {
  }

  /** A square of a non-zero number plus something non-negative is positive. */
  lemma SquarePlusNonNegative(g: real, y: real, z: real)
    requires g != 0.0 && y >= 0.0 && z == g * g + y
    ensures z > 0.0
  {
    if g > 0.0 {
      ProductPlus(g, g, y, z);
    } else {
      assert (-g) * (-g) == g * g;
      ProductPlus(-g, -g, y, z);
    }
  }

  /** `n / df` for `0 < df <= n` is at least 1, and exactly 1 when `df == n`. */
  lemma RatioAtLeastOne(n: real, df: real)
    requires 0.0 < df <= n
    ensures n / df >= 1.0
    ensures df < n ==> n / df > 1.0
    ensures df == n ==> n / df == 1.0
  {
  }

  /** Dividing by a larger denominator gives a smaller ratio. */
  lemma RatioDecreasing(n: real, a: real, b: real)
    requires 0.0 < n && 0.0 < a < b
    ensures n / a > n / b
  {
    var qa, qb := n / a, n / b;
    assert qa * a == n && qb * b == n;
    assert qb > 0.0;
    ScaleStrict(qb, b, a);
    if qa <= qb {
      MulNonNegative(qb - qa, a);
    }
  }

  /** A positive factor keeps a strict order. */
  lemma ScaleStrict(k: real, x: real, y: real)
    requires k > 0.0 && x > y
    ensures k * x > k * y
  {
    MulPositive(k, x - y);
    assert k * x - k * y == k * (x - y);
  }

  lemma ScalePositive(k: real, x: real)
    requires k >= 1.0 && x > 0.0
    ensures k * x > 0.0
  {
  }
}
