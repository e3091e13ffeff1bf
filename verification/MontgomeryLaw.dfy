/**
 Addition in Montgomery coordinates (crypto-circuit-age/src/gadgets/sapling_ecc.rs):
 the line through two points with distinct first coordinates meets the curve
 in the negative of the image of their sum on the Edwards curve.
 */
module MontgomeryLaw {
  import Bits
  import opened Wrappers
  import opened PrimeField
  import opened RingIdentities
  import opened Groups
  import opened Montgomery
  import opened EdwardsLaw

  // -------------------------------------------------------- combinations

  lemma Combine(p: int, x: int, h: int, y: int, k: int)
    requires p > 0 && Divides(p, h) && Divides(p, k)
    ensures Divides(p, x * h + y * k) && Divides(p, x * h - y * k)
  {
    hide Divides;
    Scaled(p, x, h);
    Scaled(p, y, k);
    DividesSum(p, x * h, y * k);
  }

  lemma Cancelled(p: int, k: int, x: int, y: int)
    requires IsPrime(p) && !Divides(p, k) && Congruent(p, k * x, k * y)
    ensures Congruent(p, x, y)
  {
    hide IsPrime;
    assert k * x - k * y == k * (x - y);
    Euclid(p, k, x - y);
  }

  lemma Scale(p: int, k: int, x: int, y: int)
    requires p > 0 && Congruent(p, x, y)
    ensures Congruent(p, k * x, k * y)
  {
    hide Congruent;
    CongruentMul(p, k, k, x, y);
  }

  // ------------------------------------------------ the line and the cubic

  lemma OnBoth(p: int, f: int, z: int, y: int)
    requires p > 0 && Congruent(p, y * y, f) && Congruent(p, y, z)
    ensures Congruent(p, f, z * z)
  {
    hide Congruent;
    CongruentMul(p, y, z, y, z);
    CongruentSymmetric(p, y * y, f);
    CongruentTransitive(p, f, y * y, z * z);
  }

  /** At a root that lies on curve and line, the linear rest vanishes. */
  lemma OnLine(p: int, a: int, l: int, b: int, x1: int, x2: int, x3: int, x: int, y: int)
    requires p > 0 && (x == x1 || x == x2) && Congruent(p, y * y, x * x * x + a * (x * x) + x)
    requires Congruent(p, l * l, a + x1 + x2 + x3) && Congruent(p, y, l * x + b)
    ensures Divides(p, (1 - 2 * (l * b) - (x1 * x2 + x1 * x3 + x2 * x3)) * x + (x1 * x2 * x3 - b * b))
  {
    hide Divides;
    IsRootOfThree(x1, x2, x3, x);
    CubicIdentity(a, l, b, x1, x2, x3, x);
    OnBoth(p, x * x * x + a * (x * x) + x, l * x + b, y);
    Combine(p, x * x, l * l - (a + x1 + x2 + x3), 1, (x * x * x + a * (x * x) + x) - (l * x + b) * (l * x + b));
  }

  /** The product of the three roots. */
  lemma ThirdRoot(c: Curve, x1: int, y1: int, x2: int, y2: int, l: int, x3: int)
    requires IsPrime(c.p) && OnMontgomery(c, x1, y1) && OnMontgomery(c, x2, y2) && !Divides(c.p, x2 - x1)
    requires Congruent(c.p, (x2 - x1) * l, y2 - y1) && Congruent(c.p, l * l, c.a + x1 + x2 + x3)
    ensures Congruent(c.p, x1 * x2 * x3, (y1 - l * x1) * (y1 - l * x1))
  {
    hide IsPrime, Divides;
    PrimeAboveOne(c.p);
    var p, b := c.p, y1 - l * x1;
    var t, e := 1 - 2 * (l * b) - (x1 * x2 + x1 * x3 + x2 * x3), x1 * x2 * x3 - b * b;
    CongruentSelf(p, y1);
    OnLine(p, c.a, l, b, x1, x2, x3, x1, y1);
    assert Congruent(p, y2, l * x2 + b) by { SecondOnLine(p, x1, y1, x2, y2, l); }
    OnLine(p, c.a, l, b, x1, x2, x3, x2, y2);
    DividesSum(p, t * x2 + e, t * x1 + e);
    assert (t * x2 + e) - (t * x1 + e) == (x2 - x1) * t;
    Euclid(p, x2 - x1, t);
    Combine(p, 1, t * x1 + e, x1, t);
  }

  lemma SecondOnLine(p: int, x1: int, y1: int, x2: int, y2: int, l: int)
    requires p > 0 && Congruent(p, (x2 - x1) * l, y2 - y1)
    ensures Congruent(p, y2, l * x2 + (y1 - l * x1))
  {
    CongruentSymmetric(p, (x2 - x1) * l, y2 - y1);
  }

  // ------------------------------------- the third root on the Edwards curve

  /** (x, y) are the Montgomery coordinates of q, the denominators multiplied out. */
  ghost predicate Corresponds(c: Curve, q: Coords, m: Coords)
    requires c.p > 0
  {
    Congruent(c.p, (1 - q.1) * m.0, 1 + q.1) && Congruent(c.p, q.0 * m.1, c.scale * m.0)
  }

  lemma Slope(p: int, x1: int, y1: int, x2: int, y2: int, l: int)
    requires p > 0 && Congruent(p, (x2 - x1) * l, y2 - y1)
    ensures Congruent(p, (x2 - x1) * (y1 - l * x1), x2 * y1 - x1 * y2)
  {
    hide Divides;
    Scaled(p, -x1, (x2 - x1) * l - (y2 - y1));
    assert (x2 - x1) * (y1 - l * x1) - (x2 * y1 - x1 * y2) == -x1 * ((x2 - x1) * l - (y2 - y1));
  }

  lemma Numerators(p: int, s: int, u1: int, x1: int, y1: int, u2: int, x2: int, y2: int)
    requires p > 0 && Congruent(p, u1 * y1, s * x1) && Congruent(p, u2 * y2, s * x2)
    ensures Congruent(p, (u1 * u2) * (x2 * y1 - x1 * y2), (s * (x1 * x2)) * (u2 - u1))
  {
    hide Divides;
    Combine(p, u2 * x2, u1 * y1 - s * x1, u1 * x1, u2 * y2 - s * x2);
    FourFactors(u1, u2, x2, y1, s, x1);
    FourFactors(u2, u1, x1, y2, s, x2);
    NumeratorTerms(u1, u2, x1, x2, y1, y2, s);
  }

  /** With g b == n, k n == s m w and m x == b^2. */
  lemma SquaredLine(p: int, g: int, b: int, n: int, k: int, s: int, m: int, w: int, x: int)
    requires p > 0 && Congruent(p, g * b, n) && Congruent(p, k * n, (s * m) * w) && Congruent(p, m * x, b * b)
    ensures Congruent(p, m * ((k * k) * ((g * g) * x)), m * ((s * s) * (m * (w * w))))
  {
    hide *;
    Scale(p, k, g * b, n);
    CongruentTransitive(p, k * (g * b), k * n, (s * m) * w);
    CongruentMul(p, k * (g * b), (s * m) * w, k * (g * b), (s * m) * w);
    Scale(p, (k * k) * (g * g), m * x, b * b);
    LeftSquare(k, g, b);
    RightSquare(s, m, w);
    Regrouped(k * k, g * g, m, x);
    CongruentTransitive(p, m * ((k * k) * ((g * g) * x)), (k * (g * b)) * (k * (g * b)), ((s * m) * w) * ((s * m) * w));
  }

  /** The denominators multiplied out: f g == h and f m == n. */
  lemma Cleared(p: int, f: int, g: int, h: int, m: int, n: int, k: int, t: int, w: int, x: int)
    requires p > 0 && Congruent(p, k * ((g * g) * x), t * (m * w)) && Congruent(p, f * g, h) && Congruent(p, f * m, n)
    ensures Congruent(p, k * ((h * h) * x), t * ((f * n) * w))
  {
    hide *;
    Scale(p, f * f, k * ((g * g) * x), t * (m * w));
    CongruentMul(p, f * g, h, f * g, h);
    CongruentMul(p, (f * g) * (f * g), h * h, x, x);
    Scale(p, k, ((f * g) * (f * g)) * x, (h * h) * x);
    Scale(p, f, f * m, n);
    CongruentMul(p, f * (f * m), f * n, w, w);
    Scale(p, t, (f * (f * m)) * w, (f * n) * w);
    ClearedLeft(f, k, g, x);
    ClearedRight(f, t, m, w);
    CongruentSymmetric(p, k * (((f * g) * (f * g)) * x), k * ((h * h) * x));
    CongruentTransitive(p, k * ((h * h) * x), (f * f) * (k * ((g * g) * x)), (f * f) * (t * (m * w)));
    CongruentTransitive(p, k * ((h * h) * x), t * ((f * (f * m)) * w), t * ((f * n) * w));
  }

  /** The curve equation solved for u^2. */
  lemma SquareOfU(c: Curve, u: int, v: int)
    requires c.p > 0 && OnEdwards(c, u, v)
    ensures Congruent(c.p, (u * u) * (1 + c.d * (v * v)), v * v - 1)
  {
    hide Divides;
    var h := (v * v - u * u) - (1 + c.d * ((u * u) * (v * v)));
    Scaled(c.p, -1, h);
    assert (u * u) * (1 + c.d * (v * v)) - (v * v - 1) == -1 * h;
  }

  lemma FirstDifference(p: int, a: int, b: int, x1: int, x2: int)
    requires p > 0 && Congruent(p, (1 - a) * x1, 1 + a) && Congruent(p, (1 - b) * x2, 1 + b)
    ensures Congruent(p, ((1 - a) * (1 - b)) * (x2 - x1), 2 * (b - a))
  {
    hide Divides;
    Combine(p, 1 - a, (1 - b) * x2 - (1 + b), 1 - b, (1 - a) * x1 - (1 + a));
    DifferenceIdentity(a, b, x1, x2);
  }

  lemma FirstProduct(p: int, a: int, b: int, x1: int, x2: int)
    requires p > 0 && Congruent(p, (1 - a) * x1, 1 + a) && Congruent(p, (1 - b) * x2, 1 + b)
    ensures Congruent(p, ((1 - a) * (1 - b)) * (x1 * x2), (1 + a) * (1 + b))
  {
    hide Congruent;
    CongruentMul(p, (1 - a) * x1, 1 + a, (1 - b) * x2, 1 + b);
    FourProduct(1 - a, x1, 1 - b, x2);
  }

  /** (1 - a^2)(1 - b^2) on the curve. */
  lemma ProductOfSquaresU(c: Curve, q: Coords, r: Coords)
    requires c.p > 0 && OnEdwards(c, q.0, q.1) && OnEdwards(c, r.0, r.1)
    ensures Congruent(c.p, ((q.0 * r.0) * (q.0 * r.0)) * Spreads(c.d, q.1, r.1), (q.1 * q.1 - 1) * (r.1 * r.1 - 1))
  {
    hide Congruent;
    var e, f := 1 + c.d * (q.1 * q.1), 1 + c.d * (r.1 * r.1);
    SquareOfU(c, q.0, q.1);
    SquareOfU(c, r.0, r.1);
    CongruentMul(c.p, (q.0 * q.0) * e, q.1 * q.1 - 1, (r.0 * r.0) * f, r.1 * r.1 - 1);
    FourProduct(q.0 * q.0, e, r.0 * r.0, f);
    FourProduct(q.0, q.0, r.0, r.0);
  }

  /** With s^2 == -(a + 2) and d (a + 2) == 2 - a. */
  lemma ScaleRelation(c: Curve)
    requires Matching(c)
    ensures Congruent(c.p, (1 + c.d) * (c.scale * c.scale), -4)
  {
    hide Divides;
    Combine(c.p, 1 + c.d, c.scale * c.scale - -(c.a + 2), 1, c.d * (c.a + 2) - (2 - c.a));
    assert (1 + c.d) * (c.scale * c.scale) - -4 ==
           (1 + c.d) * (c.scale * c.scale - -(c.a + 2)) - 1 * (c.d * (c.a + 2) - (2 - c.a));
  }

  lemma NotFour(p: int)
    requires IsPrime(p) && p > 2
    ensures !Divides(p, 4)
  {
    hide IsPrime, Divides;
    if Divides(p, 4) {
      Euclid(p, 2, 2);
      SmallZero(p, 2);
    }
  }

  lemma NotProduct(p: int, x: int, y: int)
    requires IsPrime(p) && !Divides(p, x) && !Divides(p, y)
    ensures !Divides(p, x * y)
  {
    if Divides(p, x * y) { Euclid(p, x, y); }
  }

  /** From k^2 (2 e)^2 x == s^2 (k^2 n) w to (1 + d) e^2 x == -n w. */
  lemma LastScale(c: Curve, k: int, e: int, x: int, n: int, w: int)
    requires IsPrime(c.p) && Matching(c) && !Divides(c.p, k)
    requires Congruent(c.p, k * (((2 * e) * (2 * e)) * x), (c.scale * c.scale) * ((k * n) * w))
    ensures Congruent(c.p, (1 + c.d) * ((e * e) * x), -(n * w))
  {
    hide *;
    PrimeAboveOne(c.p);
    var p, t, z := c.p, c.scale * c.scale, 1 + c.d;
    FactorOut(t, k, n, w);
    Cancelled(p, k, ((2 * e) * (2 * e)) * x, t * (n * w));
    Scale(p, z, ((2 * e) * (2 * e)) * x, t * (n * w));
    ScaleRelation(c);
    CongruentMul(p, z * t, -4, n * w, n * w);
    FourTimes(z, e, x, t, n * w);
    CongruentTransitive(p, 4 * (z * ((e * e) * x)), (z * t) * (n * w), -4 * (n * w));
    MatchingOdd(c);
    NotFour(p);
    Cancelled(p, 4, z * ((e * e) * x), -(n * w));
  }

  lemma MatchingOdd(c: Curve)
    requires Matching(c)
    ensures c.p > 2 && !Divides(c.p, 1 + c.d)
  {
  }

  /** What the line through the images of q and r gives for the third first coordinate. */
  lemma ThirdFirst(c: Curve, q: Coords, r: Coords, m: Coords, n: Coords, l: int, x: int)
    requires IsPrime(c.p) && Matching(c) && OnEdwards(c, q.0, q.1) && OnEdwards(c, r.0, r.1)
    requires Corresponds(c, q, m) && Corresponds(c, r, n) && OnMontgomery(c, m.0, m.1) && OnMontgomery(c, n.0, n.1)
    requires !Divides(c.p, n.0 - m.0) && !Divides(c.p, q.0 * r.0) && !Divides(c.p, m.0 * n.0)
    requires Congruent(c.p, (n.0 - m.0) * l, n.1 - m.1) && Congruent(c.p, l * l, c.a + m.0 + n.0 + x)
    ensures Congruent(c.p, (1 + c.d) * (((r.1 - q.1) * (r.1 - q.1)) * x),
                      -(Spreads(c.d, q.1, r.1) * ((r.0 - q.0) * (r.0 - q.0))))
  {
    hide *;
    PrimeAboveOne(c.p);
    CorrespondParts(c, q, m);
    CorrespondParts(c, r, n);
    var p, s, k, g, w := c.p, c.scale, q.0 * r.0, n.0 - m.0, r.0 - q.0;
    var b, xx, f := m.1 - l * m.0, m.0 * n.0, (1 - q.1) * (1 - r.1);
    var num, tops, sp := n.0 * m.1 - m.0 * n.1, (1 + q.1) * (1 + r.1), Spreads(c.d, q.1, r.1);
    ThirdRoot(c, m.0, m.1, n.0, n.1, l, x);
    Slope(p, m.0, m.1, n.0, n.1, l);
    Numerators(p, s, q.0, m.0, m.1, r.0, n.0, n.1);
    SquaredLine(p, g, b, num, k, s, xx, w, x);
    Cancelled(p, xx, (k * k) * ((g * g) * x), (s * s) * (xx * (w * w)));
    FirstDifference(p, q.1, r.1, m.0, n.0);
    FirstProduct(p, q.1, r.1, m.0, n.0);
    Cleared(p, f, g, 2 * (r.1 - q.1), xx, tops, k * k, s * s, w * w, x);
    ProductOfFactors(q.1, r.1);
    ProductOfSquaresU(c, q, r);
    Replaced(p, (k * k) * sp, f * tops, s * s, w * w, (k * k) * (((2 * (r.1 - q.1)) * (2 * (r.1 - q.1))) * x));
    NotProduct(p, k, k);
    LastScale(c, k * k, r.1 - q.1, x, sp, w * w);
  }

  lemma CorrespondParts(c: Curve, q: Coords, m: Coords)
    requires c.p > 0 && Corresponds(c, q, m)
    ensures Congruent(c.p, (1 - q.1) * m.0, 1 + q.1) && Congruent(c.p, q.0 * m.1, c.scale * m.0)
  {
  }

  lemma Replaced(p: int, y: int, z: int, t: int, w: int, x: int)
    requires p > 0 && Congruent(p, y, z) && Congruent(p, x, t * (z * w))
    ensures Congruent(p, x, t * (y * w))
  {
    hide Congruent;
    CongruentSymmetric(p, y, z);
    CongruentMul(p, z, y, w, w);
    Scale(p, t, z * w, y * w);
    CongruentTransitive(p, x, t * (z * w), t * (y * w));
  }

  // --------------------------------------- the first coordinate of the sum

  /** The product of the spreads with (u2 - u1)^2, on the curve. */
  lemma DifferenceOnCurve(c: Curve, q: Coords, r: Coords)
    requires c.p > 0 && OnEdwards(c, q.0, q.1) && OnEdwards(c, r.0, r.1)
    ensures Congruent(c.p, Spreads(c.d, q.1, r.1) * ((r.0 - q.0) * (r.0 - q.0)),
                      Mixed(c.d, q.1, r.1) - 2 * ((q.0 * r.0) * Spreads(c.d, q.1, r.1)))
  {
    hide *;
    var p, n, k, u, v := c.p, Spreads(c.d, q.1, r.1), q.0 * r.0, q.0 * q.0, r.0 * r.0;
    var e, f := 1 + c.d * (q.1 * q.1), 1 + c.d * (r.1 * r.1);
    SquareOfU(c, q.0, q.1);
    SquareOfU(c, r.0, r.1);
    Scale(p, f, u * e, q.1 * q.1 - 1);
    Scale(p, e, v * f, r.1 * r.1 - 1);
    CongruentAdd(p, f * (u * e), f * (q.1 * q.1 - 1), e * (v * f), e * (r.1 * r.1 - 1));
    CongruentAdd(p, f * (u * e) + e * (v * f), f * (q.1 * q.1 - 1) + e * (r.1 * r.1 - 1), 2 * (k * n), 2 * (k * n));
    DifferenceSquare(q.0, r.0);
    SumTimes(n, (r.0 - q.0) * (r.0 - q.0), u, v, -2 * k, 0);
    MixedIs(c.d, q.1, r.1);
    SpreadTerms(e, f, u, v, k, q.1 * q.1 - 1, r.1 * r.1 - 1);
  }

  lemma Divided(p: int, k: int, x: int, h: int)
    requires IsPrime(p) && h == k * x && Divides(p, h) && !Divides(p, k)
    ensures Divides(p, x)
  {
    Euclid(p, k, x);
  }

  /** x is the first coordinate of the image of (_, v), given w v == n and the third root. */
  lemma ThirdIsImage(p: int, w: int, n: int, v: int, g: int, x: int, y: int)
    requires IsPrime(p) && Congruent(p, w * v, n) && Congruent(p, g * x, -y) && Divides(p, (w + n) * g + (w - n) * y)
    requires !Divides(p, g) && !Divides(p, w)
    ensures Congruent(p, (1 - v) * x, 1 + v)
  {
    hide *;
    PrimeAboveOne(p);
    ThirdCleared(p, w, n, g, x, y);
    AsDivides(p, w * v, n);
    var h, t := (w - n) * x - (w + n), w * v - n;
    Combine(p, 1, h, x + 1, t);
    Divided(p, w, (1 - v) * x - (1 + v), 1 * h - (x + 1) * t);
    AsDivides(p, (1 - v) * x, 1 + v);
  }

  lemma ThirdCleared(p: int, w: int, n: int, g: int, x: int, y: int)
    requires IsPrime(p) && Congruent(p, g * x, -y) && Divides(p, (w + n) * g + (w - n) * y) && !Divides(p, g)
    ensures Divides(p, (w - n) * x - (w + n))
  {
    hide *;
    PrimeAboveOne(p);
    AsDivides(p, g * x, -y);
    var h, t := g * x - -y, (w + n) * g + (w - n) * y;
    Combine(p, w - n, h, 1, t);
    Divided(p, g, (w - n) * x - (w + n), (w - n) * h - 1 * t);
  }

  lemma AsDivides(p: int, x: int, y: int)
    requires p > 0
    ensures Congruent(p, x, y) <==> Divides(p, x - y)
  {
  }

  /** The law of the curve, in k = q_x r_x and m = q_y r_y. */
  lemma LawIs(c: Curve, q: Coords, r: Coords, s: Coords)
    requires c.p > 0 && SumAt(c, q, r, s)
    ensures var t := c.d * ((q.0 * r.0) * (q.1 * r.1));
      t == Cross(c.d, q, r) && Congruent(c.p, (1 + t) * s.0, q.0 * r.1 + r.0 * q.1)
      && Congruent(c.p, (1 - t) * s.1, q.1 * r.1 + q.0 * r.0)
  {
    hide Congruent;
  }

  /** The first coordinate of the line's third point, mirrored, is that of the sum. */
  lemma SumFirst(c: Curve, q: Coords, r: Coords, s: Coords, x: int)
    requires IsPrime(c.p) && Complete(c) && OnCurve(c, q) && OnCurve(c, r) && SumAt(c, q, r, s)
    requires !Divides(c.p, 1 + c.d) && !Divides(c.p, r.1 - q.1)
    requires Congruent(c.p, (1 + c.d) * (((r.1 - q.1) * (r.1 - q.1)) * x),
                       -(Spreads(c.d, q.1, r.1) * ((r.0 - q.0) * (r.0 - q.0))))
    ensures Congruent(c.p, (1 - s.1) * x, 1 + s.1)
  {
    hide *;
    PrimeAboveOne(c.p);
    OnCurveIs(c, q);
    OnCurveIs(c, r);
    var p, k, m, e, n := c.p, q.0 * r.0, q.1 * r.1, r.1 - q.1, Spreads(c.d, q.1, r.1);
    var g, y, w := (1 + c.d) * (e * e), Mixed(c.d, q.1, r.1) - 2 * (k * n), 1 - c.d * (k * m);
    LawIs(c, q, r, s);
    Denominators(c, q, r);
    DifferenceOnCurve(c, q, r);
    Scale(p, -1, n * ((r.0 - q.0) * (r.0 - q.0)), y);
    CongruentTransitive(p, (1 + c.d) * ((e * e) * x), -1 * (n * ((r.0 - q.0) * (r.0 - q.0))), -1 * y);
    Bits.MulAssoc(1 + c.d, e * e, x);
    ProductOfSquaresU(c, q, r);
    AsDivides(p, (k * k) * n, (q.1 * q.1 - 1) * (r.1 * r.1 - 1));
    Scaled(p, 2 * (1 + c.d * m), (k * k) * n - (q.1 * q.1 - 1) * (r.1 * r.1 - 1));
    FirstIdentity(c.d, k, q.1, r.1);
    Bits.MulAssoc(2, 1 + c.d * m, (k * k) * n - (q.1 * q.1 - 1) * (r.1 * r.1 - 1));
    NotProduct(p, e, e);
    NotProduct(p, 1 + c.d, e * e);
    ThirdIsImage(p, w, m + k, s.1, g, x, y);
  }

  lemma OnCurveIs(c: Curve, q: Coords)
    requires c.p > 0 && OnCurve(c, q)
    ensures OnEdwards(c, q.0, q.1) && Scalar(c, q.0) && Scalar(c, q.1)
  {
  }

  // -------------------------------------- the second coordinate of the sum

  /** One term of the slope, with w v == m + k. */
  lemma SlopeTerm(p: int, d: int, k: int, a: int, b: int, v: int)
    requires p > 0 && Congruent(p, (1 - d * (k * (a * b))) * v, a * b + k)
    ensures Congruent(p, (1 - d * (k * (a * b))) * ((1 + b) * (a - v)), -(a * (b * b - 1)) - k * Slanted(d, a, b))
  {
    hide *;
    var w, m := 1 - d * (k * (a * b)), a * b;
    AsDivides(p, w * v, m + k);
    Scaled(p, -(1 + b), w * v - (m + k));
    SlopeIdentity(d, k, a, b, v);
    AsDivides(p, w * ((1 + b) * (a - v)), -(a * (b * b - 1)) - k * Slanted(d, a, b));
  }

  /** (1 + d b^2) times u^2 (1 + d a^2), on the curve. */
  lemma SpreadOnce(c: Curve, q: Coords, f: int, y: int)
    requires c.p > 0 && OnEdwards(c, q.0, q.1)
    ensures Congruent(c.p, ((1 + c.d * (q.1 * q.1)) * f) * (y * (q.0 * q.0)), (y * ((q.1 * q.1 - 1) * f)))
  {
    hide *;
    var e, u := 1 + c.d * (q.1 * q.1), q.0 * q.0;
    SquareOfU(c, q.0, q.1);
    Scale(c.p, f, u * e, q.1 * q.1 - 1);
    Scale(c.p, y, f * (u * e), f * (q.1 * q.1 - 1));
    SpreadTerms(e, f, u, u, 0, q.1 * q.1 - 1, 0);
    Across(e * f, y, u);
  }

  /** The same modulo p, the squares of the first coordinates eliminated. */
  lemma SideOnCurve(c: Curve, q: Coords, r: Coords, x: int, y: int)
    requires c.p > 0 && OnEdwards(c, q.0, q.1) && OnEdwards(c, r.0, r.1)
    ensures var a, b, k, n := q.1, r.1, q.0 * r.0, Spreads(c.d, q.1, r.1);
      Congruent(c.p, n * ((q.0 * b + r.0 * a) * (q.0 * x - r.0 * y)),
        (b * x) * ((a * a - 1) * (1 + c.d * (b * b))) + n * (k * (a * x - b * y))
        - (a * y) * ((b * b - 1) * (1 + c.d * (a * a))))
  {
    hide *;
    var p, a, b, k, n := c.p, q.1, r.1, q.0 * r.0, Spreads(c.d, q.1, r.1);
    var e, f, u, w := 1 + c.d * (a * a), 1 + c.d * (b * b), q.0 * q.0, r.0 * r.0;
    MixedIs(c.d, a, b);
    NumeratorTimesSlope(a, b, q.0, r.0, x, y);
    SpreadOnce(c, q, f, b * x);
    SpreadOnce(c, r, e, a * y);
    Commutes(e, f);
    CongruentAdd(p, n * ((b * x) * u), (b * x) * ((a * a - 1) * f), n * (k * (a * x - b * y)),
                 n * (k * (a * x - b * y)));
    CongruentAdd(p, n * ((b * x) * u) + n * (k * (a * x - b * y)),
                 (b * x) * ((a * a - 1) * f) + n * (k * (a * x - b * y)), n * ((a * y) * w),
                 (a * y) * ((b * b - 1) * e));
    ThreeScaled(n, b * (u * x) + k * (a * x - b * y), a * (w * y), 0);
    SumTimes(n, b * (u * x) + k * (a * x - b * y), b * (u * x), k * (a * x - b * y), 0, 0);
    SquareLast(b, u, x);
    SquareLast(a, w, y);
  }

  /** Both sides of the slope's relation, cleared of denominators, agree. */
  lemma SidesAgree(c: Curve, q: Coords, r: Coords)
    requires c.p > 0 && OnEdwards(c, q.0, q.1) && OnEdwards(c, r.0, r.1)
    ensures var a, b, k, n := q.1, r.1, q.0 * r.0, Spreads(c.d, q.1, r.1);
      var t := c.d * (k * (a * b));
      var x, y := -(a * (b * b - 1)) - k * Slanted(c.d, a, b), -(b * (a * a - 1)) - k * Slanted(c.d, b, a);
      Congruent(c.p, n * ((q.0 * b + r.0 * a) * (q.0 * x - r.0 * y)),
                (k * n) * ((b - a) * ((1 + t) * ((1 - t) + (a * b + k)))))
  {
    hide *;
    var p, d, a, b, k, n := c.p, c.d, q.1, r.1, q.0 * r.0, Spreads(c.d, q.1, r.1);
    var m, g, h := a * b, Slanted(d, a, b), Slanted(d, b, a);
    var x, y := -(a * (b * b - 1)) - k * g, -(b * (a * a - 1)) - k * h;
    var s, t, v, u := a * g - b * h, (b - a) * (1 + d * (m * m)), (b - a) * (1 + m), (b - a) * ((d * m) * (1 - d * m));
    var o := (a * a - 1) * (b * b - 1);
    SideOnCurve(c, q, r, x, y);
    SideOne(d, k, a, b, x, y);
    PowersOfK(d, k, m);
    PowersScaled(b - a, 1 + m, k, 1 + d * (m * m), (d * m) * (1 - d * m));
    SideDifference(k, n, o, v, s, t, u);
    ProductOfSquaresU(c, q, r);
    AsDivides(p, (k * k) * n, o);
    Scaled(p, -(s + t + k * u), (k * k) * n - o);
    var one, two := o * (s + t) + k * (v * n + u * o) - ((k * k) * n) * s, (k * n) * (v + k * t + (k * k) * u);
    AsDivides(p, one, two);
    CongruentTransitive(p, n * ((q.0 * b + r.0 * a) * (q.0 * x - r.0 * y)), one, two);
  }

  function SlopeOf(q: Coords, r: Coords, v: int): int {
    q.0 * ((1 + r.1) * (q.1 - v)) - r.0 * ((1 + q.1) * (r.1 - v))
  }

  lemma SlopeIs(q: Coords, r: Coords, v: int)
    ensures SlopeOf(q, r, v) == q.0 * ((1 + r.1) * (q.1 - v)) - r.0 * ((1 + q.1) * (r.1 - v))
  {
  }

  /** What the second coordinate of the sum must satisfy, its first included. */
  lemma SecondRelation(c: Curve, q: Coords, r: Coords, s: Coords)
    requires IsPrime(c.p) && Complete(c) && OnCurve(c, q) && OnCurve(c, r) && SumAt(c, q, r, s)
    requires !Divides(c.p, Spreads(c.d, q.1, r.1))
    ensures Congruent(c.p, s.0 * SlopeOf(q, r, s.1), ((1 + s.1) * (r.1 - q.1)) * (q.0 * r.0))
  {
    hide *;
    SlopeIs(q, r, s.1);
    PrimeAboveOne(c.p);
    OnCurveIs(c, q);
    OnCurveIs(c, r);
    var p, a, b, k, m, n := c.p, q.1, r.1, q.0 * r.0, q.1 * r.1, Spreads(c.d, q.1, r.1);
    var t := c.d * (k * m);
    var w, z, f, h := 1 - t, 1 + t, (1 + b) * (a - s.1), (1 + a) * (b - s.1);
    var x, y := -(a * (b * b - 1)) - k * Slanted(c.d, a, b), -(b * (a * a - 1)) - k * Slanted(c.d, b, a);
    LawIs(c, q, r, s);
    Denominators(c, q, r);
    SlopeTerm(p, c.d, k, a, b, s.1);
    SlopeTerm(p, c.d, k, b, a, s.1);
    SlopeBoth(p, w, q.0, f, x, r.0, h, y);
    CongruentMul(p, z * s.0, q.0 * b + r.0 * a, w * (q.0 * f - r.0 * h), q.0 * x - r.0 * y);
    Scale(p, n, (z * s.0) * (w * (q.0 * f - r.0 * h)), (q.0 * b + r.0 * a) * (q.0 * x - r.0 * y));
    SidesAgree(c, q, r);
    RightOfSum(p, k * n, b - a, z, w, m + k, s.1);
    RelationCleared(p, n, z, w, s.0, q.0 * f - r.0 * h, (q.0 * b + r.0 * a) * (q.0 * x - r.0 * y), k, b - a, m + k,
                    s.1);
  }

  lemma SlopeBoth(p: int, w: int, u: int, f: int, x: int, v: int, h: int, y: int)
    requires p > 0 && Congruent(p, w * f, x) && Congruent(p, w * h, y)
    ensures Congruent(p, w * (u * f - v * h), u * x - v * y)
  {
    hide *;
    Scale(p, u, w * f, x);
    Scale(p, v, w * h, y);
    CongruentAdd(p, u * (w * f), u * x, v * (w * h), v * y);
    Spread(w, u * f, v * h);
    Across(w, u, f);
    Across(w, v, h);
  }

  lemma RightOfSum(p: int, k: int, e: int, z: int, w: int, n: int, v: int)
    requires p > 0 && Congruent(p, w * v, n)
    ensures Congruent(p, k * (e * (z * (w + n))), k * (e * (z * (w + w * v))))
  {
    hide *;
    CongruentSymmetric(p, w * v, n);
    CongruentAdd(p, w, w, n, w * v);
    Scale(p, z, w + n, w + w * v);
    Scale(p, e, z * (w + n), z * (w + w * v));
    Scale(p, k, e * (z * (w + n)), e * (z * (w + w * v)));
  }

  lemma RelationCleared(p: int, n: int, z: int, w: int, s: int, g: int, h: int, k: int, e: int, o: int, v: int)
    requires IsPrime(p) && !Divides(p, n) && !Divides(p, z) && !Divides(p, w)
    requires Congruent(p, n * ((z * s) * (w * g)), n * h) && Congruent(p, n * h, (k * n) * (e * (z * (w + o))))
    requires Congruent(p, (k * n) * (e * (z * (w + o))), (k * n) * (e * (z * (w + w * v))))
    ensures Congruent(p, s * g, ((1 + v) * e) * k)
  {
    hide *;
    PrimeAboveOne(p);
    CongruentTransitive(p, n * ((z * s) * (w * g)), n * h, (k * n) * (e * (z * (w + o))));
    CongruentTransitive(p, n * ((z * s) * (w * g)), (k * n) * (e * (z * (w + o))), (k * n) * (e * (z * (w + w * v))));
    FourProduct(z, s, w, g);
    OutOfSum(k, n, e, z, w, v);
    Cancelled(p, n, (z * w) * (s * g), (z * w) * (((1 + v) * e) * k));
    NotProduct(p, z, w);
    Cancelled(p, z * w, s * g, ((1 + v) * e) * k);
  }

  /** The mirrored third point of the line, without the slope. */
  lemma MirroredThird(p: int, x1: int, y1: int, x2: int, y2: int, l: int, x: int, y: int)
    requires p > 0 && Congruent(p, (x2 - x1) * l, y2 - y1) && Congruent(p, (x1 - x) * l, y + y1)
    ensures Congruent(p, (x2 - x1) * y, y2 * (x1 - x) - y1 * (x2 - x))
  {
    hide *;
    AsDivides(p, (x2 - x1) * l, y2 - y1);
    AsDivides(p, (x1 - x) * l, y + y1);
    Combine(p, x1 - x, (x2 - x1) * l - (y2 - y1), x2 - x1, (x1 - x) * l - (y + y1));
    MirroredIdentity(x1, y1, x2, y2, l, x, y);
    AsDivides(p, (x2 - x1) * y, y2 * (x1 - x) - y1 * (x2 - x));
  }

  /** (u1 y1) and (u2 y2) replaced by s x1 and s x2. */
  lemma SecondsReplaced(p: int, s: int, u: int, x1: int, y1: int, v: int, x2: int, y2: int, f: int, h: int)
    requires p > 0 && Congruent(p, u * y1, s * x1) && Congruent(p, v * y2, s * x2)
    ensures Congruent(p, (u * v) * (y2 * f - y1 * h), s * (u * (x2 * f) - v * (x1 * h)))
  {
    hide *;
    Scale(p, u * f, v * y2, s * x2);
    Scale(p, v * h, u * y1, s * x1);
    CongruentAdd(p, (u * f) * (v * y2), (u * f) * (s * x2), (v * h) * (u * y1), (v * h) * (s * x1));
    PairedFactors(u, f, v, y2);
    PairedFactors(v, h, u, y1);
    Commutes(u, v);
    PairedScale(u, f, s, x2);
    PairedScale(v, h, s, x1);
  }

  /** (1 - a)(1 - b)(1 - v) times a coordinate and a difference of coordinates. */
  lemma DifferenceCleared(p: int, a: int, b: int, v: int, x1: int, x2: int, x: int)
    requires p > 0 && Congruent(p, (1 - a) * x1, 1 + a) && Congruent(p, (1 - b) * x2, 1 + b)
    requires Congruent(p, (1 - v) * x, 1 + v)
    ensures Congruent(p, ((1 - a) * ((1 - b) * (1 - v))) * (x2 * (x1 - x)), 2 * ((1 + b) * (a - v)))
  {
    hide *;
    FirstDifference(p, v, a, x, x1);
    CongruentMul(p, (1 - b) * x2, 1 + b, ((1 - v) * (1 - a)) * (x1 - x), 2 * (a - v));
    FourProduct(1 - b, x2, (1 - v) * (1 - a), x1 - x);
    Rotate(1 - a, 1 - b, 1 - v);
    Across(1 + b, 2, a - v);
  }

  /** The slope in Montgomery coordinates. */
  function RiseOf(q: Coords, r: Coords, m: Coords, n: Coords, x: int): int {
    q.0 * (n.0 * (m.0 - x)) - r.0 * (m.0 * (n.0 - x))
  }

  lemma RiseIs(q: Coords, r: Coords, m: Coords, n: Coords, x: int)
    ensures RiseOf(q, r, m, n, x) == q.0 * (n.0 * (m.0 - x)) - r.0 * (m.0 * (n.0 - x))
  {
  }

  lemma LineBySlopes(c: Curve, q: Coords, r: Coords, m: Coords, n: Coords, l: int, x: int, y: int)
    requires c.p > 0 && Corresponds(c, q, m) && Corresponds(c, r, n)
    requires Congruent(c.p, (n.0 - m.0) * l, n.1 - m.1) && Congruent(c.p, (m.0 - x) * l, y + m.1)
    ensures Congruent(c.p, (q.0 * r.0) * ((n.0 - m.0) * y), c.scale * RiseOf(q, r, m, n, x))
  {
    hide *;
    CorrespondParts(c, q, m);
    CorrespondParts(c, r, n);
    RiseIs(q, r, m, n, x);
    var p, k, g := c.p, q.0 * r.0, n.0 - m.0;
    MirroredThird(p, m.0, m.1, n.0, n.1, l, x, y);
    Scale(p, k, g * y, n.1 * (m.0 - x) - m.1 * (n.0 - x));
    SecondsReplaced(p, c.scale, q.0, m.0, m.1, r.0, n.0, n.1, m.0 - x, n.0 - x);
    CongruentTransitive(p, k * (g * y), k * (n.1 * (m.0 - x) - m.1 * (n.0 - x)), c.scale * RiseOf(q, r, m, n, x));
  }

  lemma RisesCleared(p: int, a: int, b: int, v: int, x1: int, x2: int, x: int, u: int, w: int)
    requires p > 0 && Congruent(p, (1 - a) * x1, 1 + a) && Congruent(p, (1 - b) * x2, 1 + b)
    requires Congruent(p, (1 - v) * x, 1 + v)
    ensures Congruent(p, ((1 - a) * ((1 - b) * (1 - v))) * (u * (x2 * (x1 - x)) - w * (x1 * (x2 - x))),
                      2 * (u * ((1 + b) * (a - v)) - w * ((1 + a) * (b - v))))
  {
    hide *;
    DifferenceCleared(p, a, b, v, x1, x2, x);
    DifferenceCleared(p, b, a, v, x2, x1, x);
    Across(1 - b, 1 - a, 1 - v);
    SlopeBoth(p, (1 - a) * ((1 - b) * (1 - v)), u, x2 * (x1 - x), 2 * ((1 + b) * (a - v)), w, x1 * (x2 - x),
              2 * ((1 + a) * (b - v)));
    TwiceOut(u, (1 + b) * (a - v), w, (1 + a) * (b - v));
  }

  lemma SlopesCleared(c: Curve, q: Coords, r: Coords, v: int, m: Coords, n: Coords, x: int)
    requires c.p > 0 && Corresponds(c, q, m) && Corresponds(c, r, n) && Congruent(c.p, (1 - v) * x, 1 + v)
    ensures Congruent(c.p, ((1 - q.1) * ((1 - r.1) * (1 - v))) * RiseOf(q, r, m, n, x), 2 * SlopeOf(q, r, v))
  {
    hide *;
    RiseIs(q, r, m, n, x);
    SlopeIs(q, r, v);
    assert Congruent(c.p, ((1 - q.1) * ((1 - r.1) * (1 - v))) * (q.0 * (n.0 * (m.0 - x)) - r.0 * (m.0 * (n.0 - x))),
                     2 * (q.0 * ((1 + r.1) * (q.1 - v)) - r.0 * ((1 + q.1) * (r.1 - v)))) by
    {
      CorrespondParts(c, q, m);
      CorrespondParts(c, r, n);
      RisesCleared(c.p, q.1, r.1, v, m.0, n.0, x, q.0, r.0);
    }
  }

  /** The second coordinate over the common denominator, by the slopes of both points. */
  lemma SecondBySlopes(c: Curve, q: Coords, r: Coords, v: int, m: Coords, n: Coords, l: int, x: int, y: int, u: int)
    requires c.p > 0 && Corresponds(c, q, m) && Corresponds(c, r, n) && Congruent(c.p, (1 - v) * x, 1 + v)
    requires Congruent(c.p, (n.0 - m.0) * l, n.1 - m.1) && Congruent(c.p, (m.0 - x) * l, y + m.1)
    ensures Congruent(c.p, u * (((1 - q.1) * ((1 - r.1) * (1 - v))) * ((q.0 * r.0) * ((n.0 - m.0) * y))),
                      u * (c.scale * (2 * SlopeOf(q, r, v))))
  {
    hide *;
    LineBySlopes(c, q, r, m, n, l, x, y);
    SlopesCleared(c, q, r, v, m, n, x);
    LeftCleared(c.p, (1 - q.1) * ((1 - r.1) * (1 - v)), (q.0 * r.0) * ((n.0 - m.0) * y), c.scale,
                RiseOf(q, r, m, n, x), 2 * SlopeOf(q, r, v), u);
  }

  /** The second coordinate of the mirrored third point is that of the sum's image. */
  lemma SumSecond(c: Curve, q: Coords, r: Coords, s: Coords, m: Coords, n: Coords, l: int, x: int, y: int)
    requires IsPrime(c.p) && Corresponds(c, q, m) && Corresponds(c, r, n) && Congruent(c.p, (1 - s.1) * x, 1 + s.1)
    requires Congruent(c.p, (n.0 - m.0) * l, n.1 - m.1) && Congruent(c.p, (m.0 - x) * l, y + m.1)
    requires Congruent(c.p, s.0 * SlopeOf(q, r, s.1), ((1 + s.1) * (r.1 - q.1)) * (q.0 * r.0))
    requires !Divides(c.p, 1 - q.1) && !Divides(c.p, 1 - r.1) && !Divides(c.p, 1 - s.1)
    requires !Divides(c.p, n.0 - m.0) && !Divides(c.p, q.0 * r.0)
    ensures Congruent(c.p, s.0 * y, c.scale * x)
  {
    hide *;
    PrimeAboveOne(c.p);
    CorrespondParts(c, q, m);
    CorrespondParts(c, r, n);
    var p, a, b, v, k, g, sc := c.p, q.1, r.1, s.1, q.0 * r.0, n.0 - m.0, c.scale;
    var z, slope := (1 - a) * ((1 - b) * (1 - v)), SlopeOf(q, r, v);
    SecondBySlopes(c, q, r, v, m, n, l, x, y, s.0);
    RightCleared(p, a, b, v, m.0, n.0, x, sc, k);
    TwiceScaled(p, sc, s.0, slope, (1 + v) * (b - a), k);
    BothCleared(p, z, k, g, s.0, y, sc, x, 2 * slope, 2 * ((1 + v) * (b - a)));
    NotProduct(p, 1 - b, 1 - v);
    NotProduct(p, 1 - a, (1 - b) * (1 - v));
    NotProduct(p, k, g);
    NotProduct(p, z, k * g);
    Cancelled(p, z * (k * g), s.0 * y, sc * x);
  }

  lemma LeftCleared(p: int, z: int, l: int, sc: int, d: int, e: int, u: int)
    requires p > 0 && Congruent(p, l, sc * d) && Congruent(p, z * d, e)
    ensures Congruent(p, u * (z * l), u * (sc * e))
  {
    hide *;
    Scale(p, z, l, sc * d);
    Scale(p, sc, z * d, e);
    CongruentTransitive(p, z * l, sc * (z * d), sc * e);
    Scale(p, u, z * l, sc * e);
  }

  lemma RightCleared(p: int, a: int, b: int, v: int, x1: int, x2: int, x: int, sc: int, k: int)
    requires p > 0 && Congruent(p, (1 - a) * x1, 1 + a) && Congruent(p, (1 - b) * x2, 1 + b)
    requires Congruent(p, (1 - v) * x, 1 + v)
    ensures Congruent(p, (sc * k) * (((1 - a) * ((1 - b) * (1 - v))) * (x * (x2 - x1))),
                      (sc * k) * (2 * ((1 + v) * (b - a))))
  {
    hide *;
    DifferenceCleared(p, b, v, a, x2, x, x1);
    Rotate(1 - a, 1 - b, 1 - v);
    Scale(p, sc * k, ((1 - a) * ((1 - b) * (1 - v))) * (x * (x2 - x1)), 2 * ((1 + v) * (b - a)));
  }

  lemma TwiceScaled(p: int, sc: int, u: int, d: int, e: int, k: int)
    requires p > 0 && Congruent(p, u * d, e * k)
    ensures Congruent(p, u * (sc * (2 * d)), (sc * k) * (2 * e))
  {
    hide *;
    Scale(p, 2 * sc, u * d, e * k);
    TwiceTerms(sc, u, d);
    TwiceTerms(sc, k, e);
    Commutes(e, k);
    Bits.MulAssoc(sc, k, 2 * e);
    Across(k, sc, 2 * e);
  }

  lemma BothCleared(p: int, z: int, k: int, g: int, u: int, y: int, sc: int, x: int, d: int, e: int)
    requires p > 0 && Congruent(p, u * (z * (k * (g * y))), u * (sc * d)) && Congruent(p, u * (sc * d), (sc * k) * e)
    requires Congruent(p, (sc * k) * (z * (x * g)), (sc * k) * e)
    ensures Congruent(p, (z * (k * g)) * (u * y), (z * (k * g)) * (sc * x))
  {
    hide *;
    CongruentTransitive(p, u * (z * (k * (g * y))), u * (sc * d), (sc * k) * e);
    CongruentSymmetric(p, (sc * k) * (z * (x * g)), (sc * k) * e);
    CongruentTransitive(p, u * (z * (k * (g * y))), (sc * k) * e, (sc * k) * (z * (x * g)));
    ClearedTerm(z, k, g, u, y);
    OtherClearedTerm(z, k, g, sc, x);
  }

  // -------------------------------------------------- at points in range

  /** With x not 0, neither y - 1 nor y + 1 vanishes. */
  lemma UnitsOnly(c: Curve, q: Coords)
    requires IsPrime(c.p) && Matching(c) && OnCurve(c, q) && q.0 != 0
    ensures !Divides(c.p, q.1 * q.1 - 1) && !Divides(c.p, q.0)
    ensures !Divides(c.p, 1 - q.1) && !Divides(c.p, 1 + q.1)
  {
    hide IsPrime, Divides, OnEdwards;
    UnitFactors(q.1);
    if Divides(c.p, 1 - q.1) { Scaled(c.p, -(1 + q.1), 1 - q.1); }
    if Divides(c.p, 1 + q.1) { Scaled(c.p, -(1 - q.1), 1 + q.1); }
    var p, u, e := c.p, q.0 * q.0, q.1 * q.1 - 1;
    if Divides(p, q.0) { SmallZero(p, q.0); }
    if Divides(p, e) {
      SquareOfU(c, q.0, q.1);
      DividesSum(p, u * (1 + c.d * (q.1 * q.1)) - e, e);
      NotProduct(p, q.0, q.0);
      Euclid(p, u, 1 + c.d * (q.1 * q.1));
      Combine(p, 1, 1 + c.d * (q.1 * q.1), c.d, e);
      Spread(c.d, q.1 * q.1, 1);
      MatchingOdd(c);
    }
  }

  /** The map of `to_montgomery_coords`, by the equations it solves. */
  lemma CorrespondsExactly(c: Curve, q: Coords, m: Coords)
    requires IsPrime(c.p) && Matching(c) && OnCurve(c, q) && q.0 != 0 && Scalar(c, m.0) && Scalar(c, m.1)
    ensures Corresponds(c, q, m) <==> ToMontgomeryCoords(c, q.0, q.1) == Some(m)
  {
    hide IsPrime, Divides, OnEdwards, Matching, Inverse;
    UnitsOnly(c, q);
    assert q.1 != 1 by { if q.1 == 1 { UnitZero(c.p); } }
    var w := ToMontgomeryCoords(c, q.0, q.1).value;
    ImageCorresponds(c, q);
    if Corresponds(c, q, m) {
      QuotientUnique(c.p, 1 - q.1, m.0, w.0, 1 + q.1);
      QuotientUnique(c.p, q.0, m.1, w.1, c.scale * m.0);
    }
  }

  lemma UnitZero(p: int)
    requires p > 0
    ensures Divides(p, 1 - 1)
  {
  }

  lemma ImageCorresponds(c: Curve, q: Coords)
    requires IsPrime(c.p) && Scalar(c, q.0) && Scalar(c, q.1) && q.0 != 0 && q.1 != 1
    ensures ToMontgomeryCoords(c, q.0, q.1).Some?
    ensures var w := ToMontgomeryCoords(c, q.0, q.1).value;
      Scalar(c, w.0) && Scalar(c, w.1) && Corresponds(c, q, w)
  {
    hide IsPrime, Congruent, Inverse;
    var p, x, y := c.p, q.0, q.1;
    var w := (1 - y) % p;
    var i, j := Inverse(p, w), Inverse(p, x);
    var u := ((1 + y) * i) % p;
    var v := (u * j) % p;
    ModCongruent(p, 1 - y);
    ModCongruent(p, (1 + y) * i);
    ModCongruent(p, u * j);
    ModCongruent(p, v * c.scale);
    CongruentMul(p, 1 - y, w, u, (1 + y) * i);
    Scale(p, 1 + y, w * i, 1);
    Across(w, 1 + y, i);
    CongruentTransitive(p, (1 - y) * u, w * ((1 + y) * i), (1 + y) * 1);
    Scale(p, x, (v * c.scale) % p, v * c.scale);
    Scale(p, x * c.scale, v, u * j);
    Scale(p, c.scale * u, x * j, 1);
    ImageTerms(x, v, c.scale, u, j);
    CongruentTransitive(p, x * (v * c.scale), (x * c.scale) * (u * j), (c.scale * u) * 1);
    CongruentTransitive(p, x * ((v * c.scale) % p), x * (v * c.scale), (c.scale * u) * 1);
  }

  /** The equations of the Montgomery addition of m and n, with slope l. */
  ghost predicate LineThrough(c: Curve, m: Coords, n: Coords, l: int, t: Coords)
    requires c.p > 0
  {
    && Congruent(c.p, (n.0 - m.0) * l, n.1 - m.1)
    && Congruent(c.p, l * l, c.a + m.0 + n.0 + t.0)
    && Congruent(c.p, (m.0 - t.0) * l, t.1 + m.1)
  }

  /** Different first coordinates come from different second Edwards coordinates. */
  lemma DifferentImages(c: Curve, q: Coords, r: Coords, m: Coords, n: Coords)
    requires IsPrime(c.p) && OnCurve(c, q) && OnCurve(c, r) && Corresponds(c, q, m) && Corresponds(c, r, n)
    requires Scalar(c, m.0) && Scalar(c, n.0) && m.0 != n.0 && !Divides(c.p, 1 - q.1)
    ensures !Divides(c.p, n.0 - m.0) && !Divides(c.p, r.1 - q.1)
  {
    hide IsPrime, Divides, OnEdwards;
    if Divides(c.p, n.0 - m.0) { SmallZero(c.p, n.0 - m.0); }
    if Divides(c.p, r.1 - q.1) {
      SmallZero(c.p, r.1 - q.1);
      QuotientUnique(c.p, 1 - q.1, m.0, n.0, 1 + q.1);
    }
  }

  /** The common denominator of the law does not vanish. */
  lemma SpreadsNonzero(c: Curve, q: Coords, r: Coords)
    requires IsPrime(c.p) && OnCurve(c, q) && OnCurve(c, r)
    requires !Divides(c.p, q.1 * q.1 - 1) && !Divides(c.p, r.1 * r.1 - 1)
    ensures !Divides(c.p, Spreads(c.d, q.1, r.1))
  {
    hide *;
    PrimeAboveOne(c.p);
    OnCurveIs(c, q);
    OnCurveIs(c, r);
    var k, n, o := q.0 * r.0, Spreads(c.d, q.1, r.1), (q.1 * q.1 - 1) * (r.1 * r.1 - 1);
    ProductOfSquaresU(c, q, r);
    NotProduct(c.p, q.1 * q.1 - 1, r.1 * r.1 - 1);
    if Divides(c.p, n) {
      Scaled(c.p, k * k, n);
      DividesCongruent(c.p, (k * k) * n, o);
    }
  }

  lemma FirstNonzero(c: Curve, q: Coords, m: Coords)
    requires IsPrime(c.p) && Corresponds(c, q, m) && !Divides(c.p, 1 + q.1)
    ensures !Divides(c.p, m.0)
  {
    hide IsPrime, Divides;
    PrimeAboveOne(c.p);
    if Divides(c.p, m.0) {
      Scaled(c.p, 1 - q.1, m.0);
      DividesSum(c.p, (1 - q.1) * m.0, (1 - q.1) * m.0 - (1 + q.1));
    }
  }

  /**
   Whatever satisfies the equations of the addition of two points with
   distinct first coordinates is the image of their sum.
   */
  lemma MontgomerySum(c: Curve, q: Coords, r: Coords, s: Coords, m: Coords, n: Coords, l: int, t: Coords)
    requires IsPrime(c.p) && Matching(c) && Complete(c) && OnCurve(c, q) && OnCurve(c, r) && OnCurve(c, s)
    requires SumAt(c, q, r, s) && q.0 != 0 && r.0 != 0 && s.0 != 0 && Scalar(c, t.0) && Scalar(c, t.1)
    requires ToMontgomeryCoords(c, q.0, q.1) == Some(m) && ToMontgomeryCoords(c, r.0, r.1) == Some(n) && m.0 != n.0
    requires LineThrough(c, m, n, l, t)
    ensures ToMontgomeryCoords(c, s.0, s.1) == Some(t)
  {
    hide *;
    PrimeAboveOne(c.p);
    OnCurveIs(c, q);
    OnCurveIs(c, r);
    MapsToCurve(c, q.0, q.1);
    MapsToCurve(c, r.0, r.1);
    UnitsOnly(c, q);
    UnitsOnly(c, r);
    UnitsOnly(c, s);
    CorrespondsExactly(c, q, m);
    CorrespondsExactly(c, r, n);
    DifferentImages(c, q, r, m, n);
    SpreadsNonzero(c, q, r);
    FirstNonzero(c, q, m);
    FirstNonzero(c, r, n);
    NotProduct(c.p, q.0, r.0);
    NotProduct(c.p, m.0, n.0);
    MatchingOdd(c);
    LineParts(c, m, n, l, t);
    ThirdFirst(c, q, r, m, n, l, t.0);
    SumFirst(c, q, r, s, t.0);
    SecondRelation(c, q, r, s);
    SumSecond(c, q, r, s, m, n, l, t.0, t.1);
    CorrespondWhole(c, s, t);
    CorrespondsExactly(c, s, t);
  }

  lemma LineParts(c: Curve, m: Coords, n: Coords, l: int, t: Coords)
    requires c.p > 0 && LineThrough(c, m, n, l, t)
    ensures Congruent(c.p, (n.0 - m.0) * l, n.1 - m.1) && Congruent(c.p, l * l, c.a + m.0 + n.0 + t.0)
    ensures Congruent(c.p, (m.0 - t.0) * l, t.1 + m.1)
  {
  }

  lemma CorrespondWhole(c: Curve, q: Coords, m: Coords)
    requires c.p > 0 && Congruent(c.p, (1 - q.1) * m.0, 1 + q.1) && Congruent(c.p, q.0 * m.1, c.scale * m.0)
    ensures Corresponds(c, q, m)
  {
  }
}
