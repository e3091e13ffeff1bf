/**
 Polynomial identities of the Montgomery addition, over the integers. The
 long ones are put together from products of two sums and rearranged factors.
 */
module RingIdentities {
  import Bits

  lemma ThreeRoots(x1: int, x2: int, x3: int, x: int)
    ensures (x - x1) * (x - x2) * (x - x3) ==
            x * x * x - (x1 + x2 + x3) * (x * x) + (x1 * x2 + x1 * x3 + x2 * x3) * x - x1 * x2 * x3
  {
  }

  lemma LineSquare(l: int, x: int, b: int)
    ensures (l * x + b) * (l * x + b) == (l * l) * (x * x) + 2 * (l * b) * x + b * b
  {
  }

  /** The cubic of the line y = l x + b, less the one with the three roots, is linear up to the sum of the roots. */
  lemma CubicIdentity(a: int, l: int, b: int, x1: int, x2: int, x3: int, x: int)
    requires (x - x1) * (x - x2) * (x - x3) == 0
    ensures (1 - 2 * (l * b) - (x1 * x2 + x1 * x3 + x2 * x3)) * x + (x1 * x2 * x3 - b * b) ==
            (x * x * x + a * (x * x) + x - (l * x + b) * (l * x + b)) + (l * l - (a + x1 + x2 + x3)) * (x * x)
  {
    ThreeRoots(x1, x2, x3, x);
    LineSquare(l, x, b);
  }

  lemma IsRootOfThree(x1: int, x2: int, x3: int, x: int)
    requires x == x1 || x == x2
    ensures (x - x1) * (x - x2) * (x - x3) == 0
  {
  }

  lemma FourFactors(u: int, v: int, x: int, y: int, s: int, z: int)
    ensures (v * x) * (u * y - s * z) == (u * v) * (x * y) - (s * (x * z)) * v
  {
  }

  lemma NumeratorTerms(u1: int, u2: int, x1: int, x2: int, y1: int, y2: int, s: int)
    ensures (u1 * u2) * (x2 * y1 - x1 * y2) - (s * (x1 * x2)) * (u2 - u1) ==
            ((u1 * u2) * (x2 * y1) - (s * (x2 * x1)) * u2) - ((u2 * u1) * (x1 * y2) - (s * (x1 * x2)) * u1)
  {
  }

  lemma Spread(k: int, x: int, y: int)
    ensures k * (x - y) == k * x - k * y
  {
  }

  lemma LeftSquare(k: int, g: int, b: int)
    ensures (k * (g * b)) * (k * (g * b)) == ((k * k) * (g * g)) * (b * b)
  {
  }

  lemma RightSquare(s: int, m: int, w: int)
    ensures ((s * m) * w) * ((s * m) * w) == m * ((s * s) * (m * (w * w)))
  {
  }

  lemma Shifted(k: int, m: int, w: int)
    ensures (k * (m * m)) * w == (k * m) * (m * w)
  {
  }

  lemma Regrouped(k: int, g: int, m: int, x: int)
    ensures m * (k * (g * x)) == (k * g) * (m * x)
  {
  }

  lemma ClearedLeft(f: int, k: int, g: int, x: int)
    ensures (f * f) * (k * ((g * g) * x)) == k * (((f * g) * (f * g)) * x)
  {
  }

  lemma Across(x: int, y: int, z: int)
    ensures x * (y * z) == y * (x * z)
  {
  }

  lemma ClearedRight(f: int, t: int, m: int, w: int)
    ensures (f * f) * (t * (m * w)) == t * ((f * (f * m)) * w)
  {
  }

  lemma DifferenceIdentity(a: int, b: int, x1: int, x2: int)
    ensures ((1 - a) * (1 - b)) * (x2 - x1) - 2 * (b - a) ==
            (1 - a) * ((1 - b) * x2 - (1 + b)) - (1 - b) * ((1 - a) * x1 - (1 + a))
  {
  }

  lemma FourProduct(x: int, y: int, z: int, w: int)
    ensures (x * y) * (z * w) == (x * z) * (y * w)
  {
  }

  /** The two factors 1 + d v^2 together. */
  function Spreads(d: int, a: int, b: int): int { (1 + d * (a * a)) * (1 + d * (b * b)) }

  lemma ProductOfFactors(a: int, b: int)
    ensures ((1 - a) * (1 - b)) * ((1 + a) * (1 + b)) == (a * a - 1) * (b * b - 1)
  {
  }

  lemma FactorOut(t: int, k: int, n: int, w: int)
    ensures t * ((k * n) * w) == k * (t * (n * w))
  {
  }

  lemma FourTimes(z: int, e: int, x: int, t: int, m: int)
    ensures z * (((2 * e) * (2 * e)) * x) == 4 * (z * ((e * e) * x)) && z * (t * m) == (z * t) * m
    ensures -4 * m == 4 * -m
  {
  }

  lemma Bilinear(x: int, y: int, u: int, v: int)
    ensures (x + y) * (u + v) == x * u + x * v + y * u + y * v
  {
  }

  lemma SumTimes(k: int, w: int, a: int, b: int, c: int, e: int)
    requires w == a + b + c + e
    ensures k * w == k * a + k * b + k * c + k * e
  {
  }

  /** Three products in x = a^2 and y = b^2, by t = x + y and z = x y. */
  lemma Expansions(d: int, x: int, y: int)
    ensures var t, z := x + y, x * y;
      && (x - 1) * (1 + d * y) + (y - 1) * (1 + d * x) == t - d * t + 2 * (d * z) - 2
      && (x - 1) * (y - 1) == z - t + 1
      && (1 + d * x) * (1 + d * y) == 1 + d * t + (d * d) * z
  {
    Bilinear(x, -1, 1, d * y);
    Bilinear(x, -1, y, -1);
    Bilinear(1, d * x, 1, d * y);
  }

  /** The constant part of the identity, with m = a b. */
  lemma ConstantPart(d: int, m: int, t: int)
    ensures var z := m * m;
      (1 + m) * ((1 + d) * (t - 2 * m)) + (1 - m) * (t - d * t + 2 * (d * z) - 2) == -2 * ((1 + d * m) * (z - t + 1))
  {
    var z, v := m * m, (1 + d) * (t - 2 * m);
    var w := t - d * t + 2 * (d * z) - 2;
    SumTimes(m, v, t, -2 * m, d * t, d * (-2 * m));
    Bilinear(1, m, v, 0);
    SumTimes(m, w, t, -(d * t), 2 * (d * z), -2);
    SumTimes(d * m, z - t + 1, z, -t, 1, 0);
    Bilinear(1, d * m, z - t + 1, 0);
  }

  lemma LinearTerms(d: int, m: int, t: int)
    ensures (1 - d * m) * ((1 + d) * (t - 2 * m)) ==
            t - 2 * m + d * t - 2 * (d * m) - (d * m) * t + 2 * ((d * m) * m) - (d * m) * (d * t)
            + 2 * ((d * m) * (d * m))
  {
  }

  lemma OtherLinearTerms(d: int, m: int, t: int, z: int)
    ensures (1 + d * m) * (t - d * t + 2 * (d * z) - 2) ==
            t - d * t + 2 * (d * z) - 2 + (d * m) * t - (d * m) * (d * t) + 2 * ((d * m) * (d * z)) - 2 * (d * m)
  {
  }

  lemma LastLinearTerms(d: int, m: int, t: int, z: int)
    ensures (1 - m) * (1 + d * t + (d * d) * z) == 1 + d * t + (d * d) * z - m - (d * m) * t - (d * m) * (d * z)
  {
  }

  /** The linear part. */
  lemma LinearPart(d: int, m: int, t: int)
    ensures var z := m * m;
      (1 - d * m) * ((1 + d) * (t - 2 * m)) - (1 + d * m) * (t - d * t + 2 * (d * z) - 2) ==
      2 * ((1 - m) * (1 + d * t + (d * d) * z))
  {
    hide *;
    LinearTerms(d, m, t);
    OtherLinearTerms(d, m, t, m * m);
    LastLinearTerms(d, m, t, m * m);
    FourProduct(d, m, d, m);
    Bits.MulAssoc(d, m, m);
  }

  lemma Quadratic(c1: int, c2: int, c3: int, c4: int, k: int, x: int, y: int, n: int, r: int)
    requires c1 * x + c3 * y == -2 * (c4 * r) && c2 * x - c4 * y == 2 * (c3 * n)
    ensures (c1 + k * c2) * x + (c3 - k * c4) * (y - 2 * (k * n)) == 2 * (c4 * ((k * k) * n - r))
  {
    Bilinear(c1, k * c2, x, 0);
    Bilinear(c3, -(k * c4), y, -2 * (k * n));
    Spread(c4, (k * k) * n, r);
    Bits.MulAssoc(k, c2, x);
    Bits.MulAssoc(k, c4, y);
    SumTimes(k, c2 * x - c4 * y, c2 * x, -(c4 * y), 0, 0);
    Across(k, c3, n);
    QuadraticTerm(k, c4, n);
  }

  lemma QuadraticTerm(k: int, c: int, n: int)
    ensures (k * c) * (k * n) == c * ((k * k) * n)
  {
  }

  lemma DifferenceSquare(a: int, b: int)
    ensures (b - a) * (b - a) == a * a + b * b - 2 * (a * b)
  {
  }

  /** (1 - a^2)(1 + d b^2) and (1 - b^2)(1 + d a^2), negated and added. */
  function Mixed(d: int, a: int, b: int): int { (a * a - 1) * (1 + d * (b * b)) + (b * b - 1) * (1 + d * (a * a)) }

  /** With w = 1 - d k a b and n = a b + k. */
  lemma FirstIdentity(d: int, k: int, a: int, b: int)
    ensures var m := a * b;
      ((1 - d * (k * m)) + (m + k)) * ((1 + d) * ((b - a) * (b - a)))
      + ((1 - d * (k * m)) - (m + k)) * (Mixed(d, a, b) - 2 * (k * Spreads(d, a, b))) ==
      2 * ((1 + d * m) * ((k * k) * Spreads(d, a, b) - (a * a - 1) * (b * b - 1)))
  {
    hide *;
    var m, t := a * b, a * a + b * b;
    MixedIs(d, a, b);
    Expansions(d, a * a, b * b);
    FourProduct(a, a, b, b);
    ConstantPart(d, m, t);
    LinearPart(d, m, t);
    FactorsIn(d, k, m);
    Quadratic(1 + m, 1 - d * m, 1 - m, 1 + d * m, k, (1 + d) * ((b - a) * (b - a)), Mixed(d, a, b), Spreads(d, a, b),
              (a * a - 1) * (b * b - 1));
  }

  lemma MixedIs(d: int, a: int, b: int)
    ensures Mixed(d, a, b) == (a * a - 1) * (1 + d * (b * b)) + (b * b - 1) * (1 + d * (a * a))
    ensures Spreads(d, a, b) == (1 + d * (a * a)) * (1 + d * (b * b))
  {
  }

  lemma FactorsIn(d: int, k: int, m: int)
    ensures (1 - d * (k * m)) + (m + k) == (1 + m) + k * (1 - d * m)
    ensures (1 - d * (k * m)) - (m + k) == (1 - m) - k * (1 + d * m)
  {
  }

  lemma SpreadTerms(e: int, f: int, u: int, v: int, k: int, x: int, y: int)
    ensures (e * f) * u == f * (u * e) && (e * f) * v == e * (v * f) && (e * f) * (-2 * k) == -2 * (k * (e * f))
    ensures x * f == f * x && y * e == e * y
  {
  }

  /** (1 + b)(1 + d a m) with m = a b, the part of the slope's terms linear in k. */
  function Slanted(d: int, a: int, b: int): int { (1 + b) * (1 + d * (a * (a * b))) }

  lemma SlantedTimes(d: int, a: int, b: int)
    ensures var m := a * b;
      a * Slanted(d, a, b) == a + m + d * ((a * a) * m) + d * (a * (m * m))
  {
  }

  lemma SlantedConstant(d: int, a: int, b: int)
    ensures var m := a * b;
      m * ((1 + d * (a * a)) - (1 + d * (b * b))) - (a * Slanted(d, a, b) - b * Slanted(d, b, a)) ==
      (b - a) * (1 + d * (m * m))
  {
    hide *;
    var m := a * b;
    SlantedTimes(d, a, b);
    SlantedTimes(d, b, a);
    SumTimes(m, (1 + d * (a * a)) - (1 + d * (b * b)), d * (a * a), -(d * (b * b)), 0, 0);
  }

  lemma Commutes(a: int, b: int)
    ensures a * b == b * a
  {
  }

  /** a (1 + d a^2)(1 + d b m) with m = a b. */
  lemma SlantedSpread(d: int, a: int, b: int)
    ensures var m, x := a * b, a * a;
      a * ((1 + d * x) * (1 + d * (b * m))) == a + d * (m * m) + d * (a * x) + (d * d) * (x * (m * m))
  {
    var m, x := a * b, a * a;
    FourProduct(d, x, d, b * m);
    Across(a, d * d, x * (b * m));
  }

  /** b times this, and what is left of it. */
  lemma CoreTerm(d: int, a: int, b: int)
    ensures var m, x := a * b, a * a; var z := m * m;
      (a * (b - 1)) * ((1 + d * x) * (1 + d * (b * m))) ==
      m + d * (b * z) + d * (m * x) + (d * d) * ((a * m) * z) - a - d * z - d * (a * x) - (d * d) * (x * z)
  {
    hide *;
    var m, x := a * b, a * a;
    var z, v := m * m, (1 + d * x) * (1 + d * (b * m));
    SlantedSpread(d, a, b);
    SumTimes(b, a * v, a, d * z, d * (a * x), (d * d) * (x * z));
    Across(b, d, z);
    Across(b, d, a * x);
    Commutes(a, b);
    Bits.MulAssoc(b, a, x);
    Across(b, d * d, x * z);
    Bits.MulAssoc(b, x, z);
    SquareTimes(a, b);
    LessOne(a, b, v);
  }

  lemma LessOne(a: int, b: int, v: int)
    ensures (a * (b - 1)) * v == b * (a * v) - a * v
  {
  }

  lemma SquareTimes(a: int, b: int)
    ensures b * (a * a) == a * (a * b)
  {
  }

  /** (b - a) times the product of the spreads. */
  lemma SpreadDifference(d: int, a: int, b: int)
    ensures var m := a * b;
      (b - a) * Spreads(d, a, b) ==
      b - a + d * (a * m) + d * (b * (b * b)) - d * (a * (a * a)) - d * (b * m) + (d * d) * (b * (m * m))
      - (d * d) * (a * (m * m))
  {
    hide *;
    var m, x, y := a * b, a * a, b * b;
    var n := Spreads(d, a, b);
    MixedIs(d, a, b);
    Expansions(d, x, y);
    FourProduct(a, a, b, b);
    SumTimes(d, x + y, x, y, 0, 0);
    SumTimes(b, n, 1, d * x, d * y, (d * d) * (m * m));
    SumTimes(a, n, 1, d * x, d * y, (d * d) * (m * m));
    Bilinear(b, -a, n, 0);
    Across(b, d, x);
    Across(b, d, y);
    Across(a, d, x);
    Across(a, d, y);
    Across(b, d * d, m * m);
    Across(a, d * d, m * m);
    SquareTimes(a, b);
    SquareTimes(b, a);
    Commutes(a, b);
  }

  /** The right side of the linear part. */
  lemma CoreRight(d: int, a: int, b: int)
    ensures var m, x, y := a * b, a * a, b * b; var z := m * m;
      ((b - a) * (d * m)) * ((1 - d * m) * ((a - 1) * (b - 1))) ==
      d * (b * z) - d * (a * z) + d * (m * x) - d * (m * y) + d * (b * m) - d * (a * m)
      - (d * d) * ((b * m) * z) + (d * d) * ((a * m) * z) - (d * d) * (x * z) + (d * d) * (y * z)
      - (d * d) * (b * z) + (d * d) * (a * z)
  {
    CoreFactor(a, b);
    RegroupCore(b - a, d * (a * b), 1 - d * (a * b), (a - 1) * (b - 1));
    CoreExpanded(d, a * b, a, b);
  }

  lemma CoreExpanded(d: int, m: int, a: int, b: int)
    ensures var x, y, z := a * a, b * b, m * m;
      ((d * m) * (1 - d * m)) * (b * m - a * m + a * a - b * b + b - a) ==
      d * (b * z) - d * (a * z) + d * (m * x) - d * (m * y) + d * (b * m) - d * (a * m)
      - (d * d) * ((b * m) * z) + (d * d) * ((a * m) * z) - (d * d) * (x * z) + (d * d) * (y * z)
      - (d * d) * (b * z) + (d * d) * (a * z)
  {
    CoreScaled(d, m, b * m - a * m + a * a - b * b + b - a);
    CoreFirstScaled(d, m, a, b);
    CoreSecond(d * d, m * m, a, b, m);
  }

  lemma CoreFirstScaled(d: int, m: int, a: int, b: int)
    ensures var x, y, z := a * a, b * b, m * m;
      d * (m * (b * m - a * m + a * a - b * b + b - a)) ==
      d * (b * z) - d * (a * z) + d * (m * x) - d * (m * y) + d * (b * m) - d * (a * m)
  {
    CoreFirst(m, a, b);
  }

  lemma CoreFactor(a: int, b: int)
    ensures (b - a) * ((a - 1) * (b - 1)) == b * (a * b) - a * (a * b) + a * a - b * b + b - a
  {
  }

  lemma RegroupCore(x: int, y: int, z: int, w: int)
    ensures (x * y) * (z * w) == (y * z) * (x * w)
  {
  }

  /** d m (1 - d m) g == d (m g) - d^2 (m^2 g). */
  lemma CoreScaled(d: int, m: int, g: int)
    ensures ((d * m) * (1 - d * m)) * g == d * (m * g) - (d * d) * ((m * m) * g)
  {
  }

  lemma CoreFirst(m: int, a: int, b: int)
    ensures m * (b * m - a * m + a * a - b * b + b - a) ==
            b * (m * m) - a * (m * m) + (m * (a * a) - m * (b * b)) + (b * m - a * m)
  {
    SumTimes(m, b * m - a * m + a * a - b * b + b - a, b * m - a * m, a * a, -(b * b), b - a);
  }

  lemma CoreSecond(e: int, z: int, a: int, b: int, m: int)
    ensures e * (z * (b * m - a * m + a * a - b * b + b - a)) ==
            e * ((b * m) * z) - e * ((a * m) * z) + e * ((a * a) * z) - e * ((b * b) * z) + e * (b * z) - e * (a * z)
  {
  }

  lemma CoreLinear(d: int, a: int, b: int)
    ensures var m, x, y := a * b, a * a, b * b;
      (a * (b - 1)) * ((1 + d * x) * (1 + d * (b * m))) - (b * (a - 1)) * ((1 + d * y) * (1 + d * (a * m)))
      - (b - a) * Spreads(d, a, b) == ((b - a) * (d * m)) * ((1 - d * m) * ((a - 1) * (b - 1)))
  {
    hide *;
    CoreTerm(d, a, b);
    CoreTerm(d, b, a);
    SpreadDifference(d, a, b);
    CoreRight(d, a, b);
  }

  /** CoreLinear times (1 + a)(1 + b). */
  lemma SlantedLinear(d: int, a: int, b: int)
    ensures var m, p, q, e, f := a * b, a * a - 1, b * b - 1, 1 + d * (a * a), 1 + d * (b * b);
      (a * (q * e)) * Slanted(d, b, a) - (b * (p * f)) * Slanted(d, a, b) + Spreads(d, a, b) * (a * a - b * b) ==
      ((b - a) * (1 + m)) * Spreads(d, a, b) + ((b - a) * ((d * m) * (1 - d * m))) * (p * q)
  {
    hide *;
    var m, h, n, e, f := a * b, (1 + a) * (1 + b), Spreads(d, a, b), 1 + d * (a * a), 1 + d * (b * b);
    var t, u, w := d * m, (a - 1) * (b - 1), b - a;
    CoreLinear(d, a, b);
    SlantedFactor(a, b, e, 1 + d * (b * m));
    SlantedFactor(b, a, f, 1 + d * (a * m));
    SlantedIs(d, a, b);
    SlantedIs(d, b, a);
    HeightTerms(a, b, n);
    HeightRight(a, b, w, t, 1 - t, u);
    ScaledSum(h, (w * t) * ((1 - t) * u), (a * (b - 1)) * (e * (1 + d * (b * m))),
              (b * (a - 1)) * (f * (1 + d * (a * m))), w * n);
  }

  lemma ScaledSum(h: int, x: int, y: int, z: int, w: int)
    requires y - z - w == x
    ensures h * y - h * z == h * x + h * w
  {
  }

  lemma SlantedIs(d: int, a: int, b: int)
    ensures Slanted(d, a, b) == (1 + b) * (1 + d * (a * (a * b)))
  {
  }

  lemma SlantedFactor(a: int, b: int, e: int, v: int)
    ensures (a * ((b * b - 1) * e)) * ((1 + a) * v) == ((1 + a) * (1 + b)) * ((a * (b - 1)) * (e * v))
  {
  }

  lemma HeightTerms(a: int, b: int, n: int)
    ensures ((1 + a) * (1 + b)) * ((b - a) * n) == ((b - a) * (1 + a * b)) * n - n * (a * a - b * b)
  {
  }

  lemma HeightRight(a: int, b: int, w: int, t: int, v: int, u: int)
    requires u == (a - 1) * (b - 1)
    ensures ((1 + a) * (1 + b)) * ((w * t) * (v * u)) == (w * (t * v)) * ((a * a - 1) * (b * b - 1))
  {
    assert a * a - 1 == (1 + a) * (a - 1) && b * b - 1 == (1 + b) * (b - 1);
    Bits.MulAssoc(w, t, v);
  }

  /** (1 + t)(1 - t + m + k) with t = d k m, by powers of k. */
  lemma PowersOfK(d: int, k: int, m: int)
    ensures (1 + d * (k * m)) * ((1 - d * (k * m)) + (m + k)) ==
            (1 + m) + k * (1 + d * (m * m)) + (k * k) * ((d * m) * (1 - d * m))
  {
    hide *;
    var t := d * m;
    FactorsIn(d, k, m);
    Across(d, k, m);
    Bilinear(1, k * t, 1 + m, k * (1 - t));
    FourProduct(k, t, k, 1 - t);
    Spread(k, 1, t);
    Bits.MulAssoc(k, t, 1 + m);
    SumTimes(k, 1 + d * (m * m), 1 - t, t * (1 + m), 0, 0) by {
      SumTimes(t, 1 + m, 1, m, 0, 0);
      Bits.MulAssoc(d, m, m);
    }
  }

  /** The two sides with k^2 n replaced by r differ by a multiple of what that replaces. */
  lemma SideDifference(k: int, n: int, r: int, v: int, s: int, t: int, u: int)
    ensures (r * (s + t) + k * (v * n + u * r) - ((k * k) * n) * s) - (k * n) * (v + k * t + (k * k) * u) ==
            -(s + t + k * u) * ((k * k) * n - r)
  {
  }

  /** The product of the sum's numerator and the slope, with x and y for the squares. */
  lemma NumeratorTimesSlope(a: int, b: int, u: int, w: int, x: int, y: int)
    ensures (u * b + w * a) * (u * x - w * y) == b * ((u * u) * x) + (u * w) * (a * x - b * y) - a * ((w * w) * y)
  {
  }

  lemma SlopeIdentity(d: int, k: int, a: int, b: int, v: int)
    ensures var w, m := 1 - d * (k * (a * b)), a * b;
      w * ((1 + b) * (a - v)) - (-(a * (b * b - 1)) - k * Slanted(d, a, b)) == -(1 + b) * (w * v - (m + k))
  {
    hide *;
    var w, m := 1 - d * (k * (a * b)), a * b;
    Spread(w, a, v);
    SumTimes(1 + b, w * (a - v), w * a, -(w * v), 0, 0);
    SlopeConstant(d, k, a, b);
  }

  lemma SlopeConstant(d: int, k: int, a: int, b: int)
    ensures var m := a * b;
      (1 + b) * ((1 - d * (k * m)) * a) - (1 + b) * (m + k) == -(a * (b * b - 1)) - k * Slanted(d, a, b)
  {
  }

  /** The numerator times the slope on the curve, by powers of k. */
  lemma SideOne(d: int, k: int, a: int, b: int, x: int, y: int)
    requires x == -(a * (b * b - 1)) - k * Slanted(d, a, b) && y == -(b * (a * a - 1)) - k * Slanted(d, b, a)
    ensures var m, p, q, n := a * b, a * a - 1, b * b - 1, Spreads(d, a, b);
      var s, t := a * Slanted(d, a, b) - b * Slanted(d, b, a), (b - a) * (1 + d * (m * m));
      var v, u := (b - a) * (1 + m), (b - a) * ((d * m) * (1 - d * m));
      (b * x) * (p * (1 + d * (b * b))) + n * (k * (a * x - b * y)) - (a * y) * (q * (1 + d * (a * a))) ==
      (p * q) * (s + t) + k * (v * n + u * (p * q)) - ((k * k) * n) * s
  {
    hide *;
    var m, p, q, n, e, f := a * b, a * a - 1, b * b - 1, Spreads(d, a, b), 1 + d * (a * a), 1 + d * (b * b);
    var g, h := Slanted(d, a, b), Slanted(d, b, a);
    SlantedConstant(d, a, b);
    SlantedLinear(d, a, b);
    EndTerm(b, a, q, p, f, k, g);
    EndTerm(a, b, p, q, e, k, h);
    MiddleTerm(a, b, k, n, g, h, x, y);
    EndDifference(m, p * q, e, f, a * g - b * h, (b - a) * (1 + d * (m * m)));
    ThreeScaled(k, (a * (q * e)) * h, (b * (p * f)) * g, n * (a * a - b * b));
  }

  lemma ThreeScaled(k: int, x: int, y: int, z: int)
    ensures k * (x - y + z) == k * x - k * y + k * z
  {
  }

  lemma EndDifference(m: int, r: int, e: int, f: int, x: int, y: int)
    requires m * (e - f) - x == y
    ensures r * (x + y) == (m * r) * e - (m * r) * f
  {
  }

  /** (b x)(p f) for x == -a q - k g. */
  lemma EndTerm(b: int, a: int, q: int, p: int, f: int, k: int, g: int)
    ensures (b * (-(a * q) - k * g)) * (p * f) == -(((a * b) * (p * q)) * f) - k * ((b * (p * f)) * g)
  {
  }

  lemma MiddleTerm(a: int, b: int, k: int, n: int, g: int, h: int, x: int, y: int)
    requires x == -(a * (b * b - 1)) - k * g && y == -(b * (a * a - 1)) - k * h
    ensures n * (k * (a * x - b * y)) == k * (n * (a * a - b * b)) - ((k * k) * n) * (a * g - b * h)
  {
    MiddleInner(a, b, k, g, h);
    MiddleOuter(n, k, a * x - b * y, a * a - b * b, a * g - b * h);
  }

  lemma MiddleOuter(n: int, k: int, x: int, y: int, z: int)
    requires x == y - k * z
    ensures n * (k * x) == k * (n * y) - ((k * k) * n) * z
  {
    Across(n, k, x);
    SumTimes(n, x, y, -(k * z), 0, 0);
    Spread(k, n * y, n * (k * z));
    Across(n, k, z);
    Bits.MulAssoc(k, k, n * z);
    Bits.MulAssoc(k * k, n, z);
  }

  lemma MiddleInner(a: int, b: int, k: int, g: int, h: int)
    ensures a * (-(a * (b * b - 1)) - k * g) - b * (-(b * (a * a - 1)) - k * h) == a * a - b * b - k * (a * g - b * h)
  {
    MiddleHalf(a, b, k, g);
    MiddleHalf(b, a, k, h);
  }

  lemma MiddleHalf(a: int, b: int, k: int, g: int)
    ensures a * (-(a * (b * b - 1)) - k * g) == a * a - (a * a) * (b * b) - k * (a * g)
  {
  }

  lemma SquareLast(b: int, u: int, x: int)
    ensures b * (u * x) == (b * x) * u
  {
  }

  lemma PowersScaled(w: int, x: int, k: int, y: int, z: int)
    ensures w * (x + k * y + (k * k) * z) == w * x + k * (w * y) + (k * k) * (w * z)
  {
  }

  lemma OutOfSum(k: int, n: int, e: int, z: int, w: int, v: int)
    ensures (k * n) * (e * (z * (w + w * v))) == n * ((z * w) * (((1 + v) * e) * k))
  {
  }

  lemma MirroredIdentity(x1: int, y1: int, x2: int, y2: int, l: int, x: int, y: int)
    ensures (x2 - x1) * y - (y2 * (x1 - x) - y1 * (x2 - x)) ==
            (x1 - x) * ((x2 - x1) * l - (y2 - y1)) - (x2 - x1) * ((x1 - x) * l - (y + y1))
  {
  }

  lemma PairedFactors(u: int, f: int, v: int, y: int)
    ensures (u * f) * (v * y) == (u * v) * (y * f)
  {
  }

  lemma PairedScale(u: int, f: int, s: int, x: int)
    ensures (u * f) * (s * x) == s * (u * (x * f))
  {
  }

  lemma Rotate(x: int, y: int, z: int)
    ensures x * (y * z) == y * (z * x)
  {
  }

  lemma TwiceOut(u: int, t: int, v: int, w: int)
    ensures u * (2 * t) - v * (2 * w) == 2 * (u * t - v * w)
  {
  }

  lemma TwiceTerms(sc: int, u: int, d: int)
    ensures u * (sc * (2 * d)) == (2 * sc) * (u * d)
  {
  }

  lemma ClearedTerm(z: int, k: int, g: int, u: int, y: int)
    ensures u * (z * (k * (g * y))) == (z * (k * g)) * (u * y)
  {
  }

  lemma OtherClearedTerm(z: int, k: int, g: int, sc: int, x: int)
    ensures (sc * k) * (z * (x * g)) == (z * (k * g)) * (sc * x)
  {
  }

  lemma ImageTerms(x: int, v: int, s: int, u: int, j: int)
    ensures x * (v * s) == (x * s) * v && (x * s) * (u * j) == (s * u) * (x * j)
  {
  }

  lemma UnitFactors(y: int)
    ensures y * y - 1 == -(1 + y) * (1 - y) && y * y - 1 == -(1 - y) * (1 + y)
  {
  }
}
