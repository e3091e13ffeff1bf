/**
 The addition law of the Edwards curve: over a field with a root of -1 and none
 of d its denominators are never zero, so sums are determined by the equations
 the circuit constrains.
 */
module EdwardsLaw {
  import opened PrimeField
  import opened Groups
  import opened Montgomery

  ghost predicate IsRoot(p: int, x: int, a: int)
    requires p > 0
  {
    Congruent(p, x * x, a)
  }

  /** What makes the law complete: -1 is a square and d is not. */
  ghost predicate Complete(c: Curve) {
    && IsPrime(c.p) && c.p > 2
    && (exists i :: IsRoot(c.p, i, -1))
    && (forall x :: !IsRoot(c.p, x, c.d))
  }

  ghost predicate OnCurve(c: Curve, q: Coords)
    requires c.p > 0
  {
    Scalar(c, q.0) && Scalar(c, q.1) && OnEdwards(c, q.0, q.1)
  }

  /** The product in the denominators 1 + C and 1 - C. */
  function Cross(d: int, q: Coords, r: Coords): int { d * ((r.1 * q.0) * (r.0 * q.1)) }

  /** s is the sum of q and r, the denominators multiplied out. */
  ghost predicate SumAt(c: Curve, q: Coords, r: Coords, s: Coords)
    requires c.p > 0
  {
    && Congruent(c.p, (1 + Cross(c.d, q, r)) * s.0, r.1 * q.0 + r.0 * q.1)
    && Congruent(c.p, (1 - Cross(c.d, q, r)) * s.1, q.1 * r.1 + q.0 * r.0)
  }

  // -------------------------------------------------- the denominators

  /** (i a + f b)^2 - d (a b)^2 (i c + e)^2, from the curve equations of (a, b) and (c, e), in squares. */
  lemma RootIdentity(x: int, y: int, z: int, w: int, m: int, n: int, d: int, i: int, f: int, cross: int)
    requires m * m == x * y && n * n == z * w && cross == d * (m * n)
    ensures var k, j := d * (x * y), i * i + 1;
      (i * i * x + 2 * i * f * m + y) - k * (i * i * z + 2 * i * n + w) ==
      j * (x - k * z) + ((y - x) - (1 + k)) - k * ((w - z) - (1 + d * (z * w)))
      + (1 - cross * cross) + 2 * i * m * (f - cross)
  {
    var k := d * (x * y);
    assert k * n == m * cross by { assert d * (m * m) * n == m * (d * (m * n)); }
    assert k * (d * (z * w)) == cross * cross by { ProductOfSquares(d, m, n, x * y, z * w); }
    assert k * (2 * i * n) == 2 * i * (k * n);
    assert 2 * i * (m * cross) == 2 * i * m * cross;
  }

  lemma ProductOfSquares(d: int, m: int, n: int, xy: int, zw: int)
    requires m * m == xy && n * n == zw
    ensures (d * xy) * (d * zw) == (d * (m * n)) * (d * (m * n))
  {
    assert (m * m) * (n * n) == (m * n) * (m * n);
    assert (d * xy) * (d * zw) == (d * d) * (xy * zw);
    assert (d * (m * n)) * (d * (m * n)) == (d * d) * ((m * n) * (m * n));
  }

  lemma Squares(i: int, a: int, f: int, b: int)
    requires f * f == 1
    ensures (i * a + f * b) * (i * a + f * b) == i * i * (a * a) + 2 * i * f * (a * b) + b * b
  {
    assert (i * a) * (i * a) == i * i * (a * a);
    assert (f * b) * (f * b) == (f * f) * (b * b);
    assert (i * a) * (f * b) == i * f * (a * b);
  }

  /** The right side of the identity vanishes modulo p when the cross product is f. */
  lemma RightSide(p: int, j: int, k1: int, h1: int, k2: int, h2: int, f: int, cross: int, k3: int)
    requires p > 0 && Divides(p, j) && Divides(p, h1) && Divides(p, h2) && Divides(p, cross - f) && f * f == 1
    ensures Divides(p, j * k1 + h1 - k2 * h2 + (1 - cross * cross) + k3 * (f - cross))
  {
    DividesProduct(p, j, k1);
    DividesProduct(p, h2, k2);
    DividesSum(p, 0, cross - f);
    DividesProduct(p, cross - f, -(cross + f));
    assert (cross - f) * -(cross + f) == 1 - cross * cross;
    DividesProduct(p, cross - f, -k3);
    assert (cross - f) * -k3 == k3 * (f - cross);
    DividesSum(p, j * k1, h1);
    DividesSum(p, j * k1 + h1, k2 * h2);
    DividesSum(p, j * k1 + h1 - k2 * h2, 1 - cross * cross);
    DividesSum(p, j * k1 + h1 - k2 * h2 + (1 - cross * cross), k3 * (f - cross));
  }

  /** A cross product of f = 1 or -1 makes d times a square a square. */
  lemma CrossIsUnit(c: Curve, a: int, b: int, u: int, v: int, i: int, f: int)
    requires c.p > 0 && f * f == 1 && IsRoot(c.p, i, -1)
    requires OnEdwards(c, a, b) && OnEdwards(c, u, v) && Congruent(c.p, c.d * ((a * b) * (u * v)), f)
    ensures var s, t := i * a + f * b, (a * b) * (i * u + v);
      Congruent(c.p, s * s, c.d * (t * t))
  {
    var p, d, x, y, z, w, m, n := c.p, c.d, a * a, b * b, u * u, v * v, a * b, u * v;
    var k, cross, s, r := d * (x * y), d * (m * n), i * a + f * b, i * u + v;
    assert m * m == x * y && n * n == z * w by { SquareProduct(a, b); SquareProduct(u, v); }
    RootIdentity(x, y, z, w, m, n, d, i, f, cross);
    RightSide(p, i * i + 1, x - k * z, (y - x) - (1 + k), k, (w - z) - (1 + d * (z * w)), f, cross, 2 * i * m);
    Squares(i, a, f, b);
    Squares(i, u, 1, v);
    assert r * r == i * i * z + 2 * i * n + w;
    assert d * ((m * r) * (m * r)) == k * (r * r) by { ScaledSquare(d, m, r, x * y); }
  }

  lemma SquareProduct(a: int, b: int)
    ensures (a * b) * (a * b) == (a * a) * (b * b)
  {
  }

  lemma ScaledSquare(d: int, m: int, r: int, mm: int)
    requires m * m == mm
    ensures d * ((m * r) * (m * r)) == (d * mm) * (r * r)
  {
    SquareProduct(m, r);
    assert d * (mm * (r * r)) == (d * mm) * (r * r);
  }

  /** If s^2 is d times the square of a unit, d is a square. */
  lemma RootOfQuotient(p: int, s: int, t: int, d: int)
    requires IsPrime(p) && Congruent(p, s * s, d * (t * t)) && !Divides(p, t)
    ensures exists x :: IsRoot(p, x, d)
  {
    ModCongruent(p, t);
    var z := Inverse(p, t % p);
    assert Congruent(p, t * z, 1) by {
      DividesSum(p, 0, 0);
      CongruentMul(p, t, t % p, z, z);
      CongruentTransitive(p, t * z, (t % p) * z, 1);
    }
    CongruentMul(p, t * z, 1, t * z, 1);
    var e := (t * z) * (t * z);
    assert Congruent(p, (s * z) * (s * z), d * e) by {
      DividesSum(p, 0, 0);
      CongruentMul(p, s * s, d * (t * t), z * z, z * z);
      SquareProduct(s, z);
      SquareProduct(t, z);
      assert (d * (t * t)) * (z * z) == d * ((t * t) * (z * z));
    }
    DividesSum(p, 0, 0);
    CongruentMul(p, d, d, e, 1);
    CongruentTransitive(p, (s * z) * (s * z), d * e, d * 1);
    assert IsRoot(p, s * z, d);
  }

  /** No two points of a complete curve have a cross product of 1 or -1. */
  lemma CrossNotUnit(c: Curve, a: int, b: int, u: int, v: int, f: int)
    requires Complete(c) && f * f == 1 && OnEdwards(c, a, b) && OnEdwards(c, u, v)
    ensures !Congruent(c.p, c.d * ((a * b) * (u * v)), f)
  {
    var p := c.p;
    if Congruent(p, c.d * ((a * b) * (u * v)), f) {
      var i :| IsRoot(p, i, -1);
      hide Complete, OnEdwards;
      assert !Divides(p, a * b) && !Divides(p, v) by { FactorsNonzero(c, a * b, u, v, f); }
      var m := a * b;
      if !Divides(p, m * (i * u + v)) {
        CrossIsUnit(c, a, b, u, v, i, f);
        RootOfQuotient(p, i * a + f * b, m * (i * u + v), c.d) by { CompleteParts(c); }
      } else {
        // Then with (u, -v) instead of (u, v) and -f instead of f.
        Mirror(c, a * b, u, v, f);
        MirrorCurve(c, u, v);
        OtherFactor(c, m, i * u, v);
        CrossIsUnit(c, a, b, u, -v, i, -f);
        RootOfQuotient(p, i * a + -f * b, m * (i * u + -v), c.d) by { CompleteParts(c); }
      }
      CompleteParts(c);
    }
  }

  lemma CompleteParts(c: Curve)
    requires Complete(c)
    ensures IsPrime(c.p) && c.p > 2 && !exists x :: IsRoot(c.p, x, c.d)
  {
  }

  lemma Mirror(c: Curve, m: int, u: int, v: int, f: int)
    requires c.p > 0 && Congruent(c.p, c.d * (m * (u * v)), f)
    ensures Congruent(c.p, c.d * (m * (u * -v)), -f)
  {
    var t := c.d * (m * (u * v));
    assert c.d * (m * (u * -v)) == -t by {
      assert u * -v == -(u * v);
      assert m * -(u * v) == -(m * (u * v));
    }
    Scaled(c.p, -1, t - f);
  }

  lemma MirrorCurve(c: Curve, u: int, v: int)
    requires c.p > 0 && OnEdwards(c, u, v)
    ensures OnEdwards(c, u, -v)
  {
    assert (-v) * (-v) == v * v;
  }

  lemma FactorsNonzero(c: Curve, m: int, u: int, v: int, f: int)
    requires IsPrime(c.p) && f * f == 1 && Congruent(c.p, c.d * (m * (u * v)), f)
    ensures !Divides(c.p, m) && !Divides(c.p, v)
  {
    var p, t := c.p, c.d * (m * (u * v));
    if Divides(p, m) || Divides(p, v) {
      if Divides(p, m) {
        DividesProduct(p, m, u * v);
      } else {
        DividesProduct(p, v, u);
        DividesProduct(p, u * v, m);
      }
      DividesProduct(p, m * (u * v), c.d);
      DividesSum(p, t, t - f);
      DividesProduct(p, f, f);
      SmallZero(p, 1);
    }
  }

  /** Not both of s + v and s - v vanish, for v not 0 and p odd. */
  lemma OtherFactor(c: Curve, m: int, s: int, v: int)
    requires IsPrime(c.p) && c.p > 2 && !Divides(c.p, m) && !Divides(c.p, v) && Divides(c.p, m * (s + v))
    ensures !Divides(c.p, m * (s + -v))
  {
    var p := c.p;
    Euclid(p, m, s + v);
    if Divides(p, m * (s + -v)) {
      Euclid(p, m, s + -v);
      DividesSum(p, s + v, s + -v);
      assert (s + v) - (s + -v) == 2 * v;
      Euclid(p, 2, v);
      SmallZero(p, 2);
    }
  }

  lemma CrossOrder(d: int, q: Coords, r: Coords)
    ensures d * ((q.0 * q.1) * (r.0 * r.1)) == Cross(d, q, r)
  {
    assert (q.0 * q.1) * (r.0 * r.1) == (r.1 * q.0) * (r.0 * q.1);
  }

  /** Neither denominator of the law is ever zero. */
  lemma Denominators(c: Curve, q: Coords, r: Coords)
    requires Complete(c) && OnCurve(c, q) && OnCurve(c, r)
    ensures !Divides(c.p, 1 + Cross(c.d, q, r)) && !Divides(c.p, 1 - Cross(c.d, q, r))
  {
    hide Complete, OnEdwards, Cross;
    CompleteParts(c);
    var t := c.d * ((q.0 * q.1) * (r.0 * r.1));
    CrossOrder(c.d, q, r);
    CrossNotUnit(c, q.0, q.1, r.0, r.1, 1);
    CrossNotUnit(c, q.0, q.1, r.0, r.1, -1);
    if Divides(c.p, 1 - t) { Scaled(c.p, -1, 1 - t); }
  }

  lemma Factored(p: int, n: int, s: int, t: int, a: int)
    requires p > 0 && Congruent(p, n * s - n * t, a - a)
    ensures Divides(p, n * (s - t))
  {
    assert (n * s - n * t) - (a - a) == n * (s - t);
  }

  lemma QuotientUnique(p: int, n: int, s: int, t: int, a: int)
    requires IsPrime(p) && !Divides(p, n) && 0 <= s < p && 0 <= t < p
    requires Congruent(p, n * s, a) && Congruent(p, n * t, a)
    ensures s == t
  {
    hide *;
    PrimeAboveOne(p);
    CongruentAdd(p, n * s, a, n * t, a);
    Factored(p, n, s, t, a);
    Euclid(p, n, s - t);
    SmallZero(p, s - t);
  }

  /** The equations of the law have one solution in range. */
  lemma SumUnique(c: Curve, q: Coords, r: Coords, s: Coords, t: Coords)
    requires Complete(c) && OnCurve(c, q) && OnCurve(c, r)
    requires Scalar(c, s.0) && Scalar(c, s.1) && Scalar(c, t.0) && Scalar(c, t.1)
    requires SumAt(c, q, r, s) && SumAt(c, q, r, t)
    ensures s == t
  {
    hide Complete, OnEdwards, Cross;
    CompleteParts(c);
    Denominators(c, q, r);
    QuotientUnique(c.p, 1 + Cross(c.d, q, r), s.0, t.0, r.1 * q.0 + r.0 * q.1);
    QuotientUnique(c.p, 1 - Cross(c.d, q, r), s.1, t.1, q.1 * r.1 + q.0 * r.0);
  }

  // --------------------------------------------------- the curve's group

  /** g is the group of the curve's points under the law, at their coordinates. */
  ghost predicate Coordinates<P(!new)>(c: Curve, g: Group<P>, at: P -> Coords) {
    && Complete(c) && Abelian(g) && at(g.zero) == (0, 1)
    && (forall x :: OnCurve(c, at(x)))
    && (forall q: Coords :: OnCurve(c, q) ==> exists x :: at(x) == q)
    && (forall x, y :: at(x) == at(y) ==> x == y)
    && (forall x, y :: SumAt(c, at(x), at(y), at(g.add(x, y))))
  }

  /** Whatever satisfies the equations of the law at two points of the group is their sum. */
  lemma SumIs<P(!new)>(c: Curve, g: Group<P>, at: P -> Coords, x: P, y: P, s: Coords)
    requires Coordinates(c, g, at) && Scalar(c, s.0) && Scalar(c, s.1) && SumAt(c, at(x), at(y), s)
    ensures s == at(g.add(x, y))
  {
    hide Complete, OnEdwards, Abelian, SumAt;
    SumUnique(c, at(x), at(y), s, at(g.add(x, y)));
  }
}
