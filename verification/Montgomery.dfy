/**
 The map from the twisted Edwards curve to Montgomery coordinates
 (`to_montgomery_coords` in sapling_constants.rs), over the BLS12-381 scalar field.
 */
module Montgomery {
  import opened Wrappers
  import opened Bits
  import opened PrimeField

  /** The order of the BLS12-381 scalar field. */
  const FIELD: int := 0x73eda753299d7d483339d80809a1d80553bda402fffe5bfeffffffff00000001

  /** The source lists four 64-bit limbs each, least significant first. */
  function FromRaw(l0: u64, l1: u64, l2: u64, l3: u64): int {
    l0 + 0x1_0000_0000_0000_0000 * (l1 + 0x1_0000_0000_0000_0000 * (l2 + 0x1_0000_0000_0000_0000 * l3))
  }

  const EDWARDS_D: int := FromRaw(0x0106_5fd6_d634_3eb1, 0x292d_7f6d_3757_9d26, 0xf5fd_9207_e6bd_7fd4,
                                  0x2a93_18e7_4bfa_2b48)
  const MONTGOMERY_A: int := FromRaw(0xa002, 0, 0, 0)
  const MONTGOMERY_SCALE: int := FromRaw(0x8f45_35f7_cf82_b8d9, 0xce40_6970_3da8_8abd, 0x31de_341e_77d7_64e5,
                                         0x2762_de61_e862_645e)

  /** A field with Edwards and Montgomery parameters. */
  datatype Curve = Curve(p: int, d: int, a: int, scale: int)

  const JUBJUB: Curve := Curve(FIELD, EDWARDS_D, MONTGOMERY_A, MONTGOMERY_SCALE)

  /** The relations between the parameters that make the two curves correspond. */
  ghost predicate Matching(c: Curve) {
    && c.p > 2
    && Congruent(c.p, c.scale * c.scale, -(c.a + 2))
    && Congruent(c.p, c.d * (c.a + 2), 2 - c.a)
    && !Divides(c.p, 1 + c.d)
  }

  /** The listed constants meet them. */
  lemma ConstantsMatch()
    ensures Matching(JUBJUB)
  {
  }

  predicate Scalar(c: Curve, x: int) { 0 <= x < c.p }

  function ToMontgomeryCoords(c: Curve, x: int, y: int): Option<(int, int)>
    requires IsPrime(c.p) && Scalar(c, x) && Scalar(c, y)
  {
    if y == 1 then None
    else if x == 0 then Some((0, 0))
    else
      var w := (1 - y) % c.p;
      OneMinusNonzero(c, y);
      var u := ((1 + y) * Inverse(c.p, w)) % c.p;
      var v := (u * Inverse(c.p, x)) % c.p;
      Some((u, (v * c.scale) % c.p))
  }

  lemma OneMinusNonzero(c: Curve, y: int)
    requires Scalar(c, y) && y != 1 && c.p > 1
    ensures 0 < (1 - y) % c.p < c.p
  {
    if (1 - y) % c.p == 0 { SmallZero(c.p, 1 - y); }
  }

  // ------------------------------------------------- the map, modulo p

  lemma Scaled(p: int, c: int, h: int)
    requires p > 0 && Divides(p, h)
    ensures Divides(p, c * h)
  {
    DividesProduct(p, h, c);
  }

  /** u^2 + a u + 1 over the common denominator. */
  lemma Denominator(p: int, y: int, i: int, a: int, d: int)
    requires p > 0 && Congruent(p, (1 - y) * i, 1) && Congruent(p, d * (a + 2), 2 - a)
    ensures var u := (1 + y) * i;
      Congruent(p, u * u + a * u + 1, (i * i) * ((a + 2) * (1 + d * (y * y))))
  {
    var u, e := (1 + y) * i, (1 - y) * i;
    var h1, h5 := e - 1, d * (a + 2) - (2 - a);
    var n := (a + 2) + (2 - a) * (y * y);
    assert (1 + y) * (1 + y) + a * ((1 + y) * (1 - y)) + (1 - y) * (1 - y) == n;
    DenominatorIdentity(y, i, a, n);
    assert (a + 2) * (1 + d * (y * y)) - n == h5 * (y * y) by { LastIdentity(a, d, y * y); }
    Scaled(p, -(a * u + 1 + e), h1);
    Scaled(p, (i * i) * (y * y), h5);
    DividesSum(p, -(a * u + 1 + e) * h1, ((i * i) * (y * y)) * h5);
    ScaleDifference(i * i, (a + 2) * (1 + d * (y * y)), n, h5 * (y * y));
    MulAssoc(i * i, y * y, h5);
    assert (i * i) * (h5 * (y * y)) == ((i * i) * (y * y)) * h5;
  }

  lemma ThreeTerms(k: int, x: int, a: int, y: int, z: int)
    ensures k * x + a * (k * y) + k * z == k * (x + a * y + z)
  {
  }

  lemma Expanded(a: int, u: int, e: int)
    ensures -(a * u + 1 + e) * (e - 1) == a * u - a * (u * e) + 1 - e * e
  {
  }

  lemma DenominatorIdentity(y: int, i: int, a: int, n: int)
    requires (1 + y) * (1 + y) + a * ((1 + y) * (1 - y)) + (1 - y) * (1 - y) == n
    ensures var u, e := (1 + y) * i, (1 - y) * i;
      u * u + a * u + 1 == (i * i) * n + -(a * u + 1 + e) * (e - 1)
  {
    hide *;
    var u, e := (1 + y) * i, (1 - y) * i;
    Square(1 + y, 1 + y, i);
    Square(1 + y, 1 - y, i);
    Square(1 - y, 1 - y, i);
    ThreeTerms(i * i, (1 + y) * (1 + y), a, (1 + y) * (1 - y), (1 - y) * (1 - y));
    Expanded(a, u, e);
  }

  lemma Square(b: int, c: int, i: int)
    ensures (b * i) * (c * i) == (i * i) * (b * c)
  {
  }

  lemma LastIdentity(a: int, d: int, z: int)
    ensures (a + 2) * (1 + d * z) - ((a + 2) + (2 - a) * z) == (d * (a + 2) - (2 - a)) * z
  {
  }

  lemma ScaleDifference(c: int, x: int, y: int, z: int)
    requires x - y == z
    ensures c * x - c * y == c * z
  {
  }

  /** On the Edwards curve, x^2 (u^2 + a u + 1) is s^2 u. */
  lemma CurveStep(p: int, x: int, y: int, i: int, s: int, a: int, d: int)
    requires p > 0 && Congruent(p, (1 - y) * i, 1)
    requires Congruent(p, d * (a + 2), 2 - a) && Congruent(p, s * s, -(a + 2))
    requires Congruent(p, y * y - x * x, 1 + d * ((x * x) * (y * y)))
    ensures var u := (1 + y) * i;
      Congruent(p, (x * x) * (u * u + a * u + 1), (s * s) * u)
  {
    var u, e := (1 + y) * i, (1 - y) * i;
    var xx, yy, ii, t, ss := x * x, y * y, i * i, u * u + a * u + 1, s * s;
    Denominator(p, y, i, a, d);
    Square(1 + y, 1 - y, i);
    assert u * e == ii * (1 - yy) by { assert (1 + y) * (1 - y) == 1 - yy; }
    CurveCombination(p, xx, yy, ii, a, d, u, e, ss, t);
  }

  lemma CurveCombination(p: int, xx: int, yy: int, ii: int, a: int, d: int, u: int, e: int, ss: int, t: int)
    requires p > 0 && u * e == ii * (1 - yy)
    requires Congruent(p, t, ii * ((a + 2) * (1 + d * yy))) && Congruent(p, e, 1)
    requires Congruent(p, yy - xx, 1 + d * (xx * yy)) && Congruent(p, ss, -(a + 2))
    ensures Congruent(p, xx * t, ss * u)
  {
    var h1, h2 := t - ii * ((a + 2) * (1 + d * yy)), (yy - xx) - (1 + d * (xx * yy));
    var c2, c3 := -(ii * (a + 2)), -(a + 2) * u;
    Scaled(p, xx, h1);
    Scaled(p, c2, h2);
    Scaled(p, c3, e - 1);
    Scaled(p, u, ss + (a + 2));
    DividesSum(p, xx * h1, c2 * h2);
    DividesSum(p, xx * h1 + c2 * h2, c3 * (e - 1));
    DividesSum(p, xx * h1 + c2 * h2 + c3 * (e - 1), u * (ss + (a + 2)));
    CurveIdentity(xx, yy, ii, a, d, u, e, ss, t);
  }

  lemma FirstTerm(xx: int, t: int, ii: int, b: int, d: int, yy: int)
    ensures xx * (t - ii * (b * (1 + d * yy))) == xx * t - (ii * b) * (xx + d * (xx * yy))
  {
    assert xx * (ii * (b * (1 + d * yy))) == (ii * b) * (xx * (1 + d * yy)) by { Reorder(xx, ii, b, 1 + d * yy); }
    assert xx * (1 + d * yy) == xx + d * (xx * yy) by { Reorder(xx, d, yy, 1); }
  }

  lemma Reorder(x: int, i: int, b: int, z: int)
    ensures x * (i * (b * z)) == (i * b) * (x * z)
  {
    assert i * (b * z) == (i * b) * z;
    assert x * ((i * b) * z) == (i * b) * (x * z);
  }

  lemma SecondTerm(xx: int, yy: int, ii: int, b: int, d: int)
    ensures -(ii * b) * ((yy - xx) - (1 + d * (xx * yy))) == (ii * b) * (xx + d * (xx * yy)) - b * (ii * (yy - 1))
  {
    assert b * (ii * (yy - 1)) == (ii * b) * (yy - 1);
  }

  lemma ThirdTerm(b: int, u: int, e: int)
    ensures -b * u * (e - 1) == -b * (u * e) + b * u
  {
  }

  lemma FourthTerm(b: int, u: int, ss: int)
    ensures u * (ss + b) == ss * u + b * u
  {
  }

  lemma SwapSides(b: int, m: int, ii: int, yy: int)
    requires m == ii * (1 - yy)
    ensures -b * m == b * (ii * (yy - 1))
  {
    assert ii * (yy - 1) == -m;
  }

  lemma CurveIdentity(xx: int, yy: int, ii: int, a: int, d: int, u: int, e: int, ss: int, t: int)
    requires u * e == ii * (1 - yy)
    ensures xx * t - ss * u ==
      xx * (t - ii * ((a + 2) * (1 + d * yy))) + -(ii * (a + 2)) * ((yy - xx) - (1 + d * (xx * yy)))
      + -(a + 2) * u * (e - 1) - u * (ss + (a + 2))
  {
    hide *;
    var b := a + 2;
    FirstTerm(xx, t, ii, b, d, yy);
    SecondTerm(xx, yy, ii, b, d);
    ThirdTerm(b, u, e);
    FourthTerm(b, u, ss);
    SwapSides(b, u * e, ii, yy);
  }

  /** From there to the Montgomery equation, dividing by x. */
  lemma MontgomeryStep(p: int, x: int, j: int, u: int, s: int, a: int)
    requires p > 0 && Congruent(p, x * j, 1)
    requires Congruent(p, (x * x) * (u * u + a * u + 1), (s * s) * u)
    ensures var v := (u * j) * s;
      Congruent(p, v * v, u * (u * u + a * u + 1))
  {
    var t, v := u * u + a * u + 1, (u * j) * s;
    var h, e := (x * x) * t - (s * s) * u, x * j;
    Scaled(p, -(j * j) * u, h);
    Scaled(p, (u * t) * (e + 1), e - 1);
    DividesSum(p, -(j * j) * u * h, ((u * t) * (e + 1)) * (e - 1));
    MontgomeryIdentity(x, j, u, s, t);
  }

  lemma MontgomeryIdentity(x: int, j: int, u: int, s: int, t: int)
    ensures var v, e := (u * j) * s, x * j;
      v * v - u * t == -(j * j) * u * ((x * x) * t - (s * s) * u) + ((u * t) * (e + 1)) * (e - 1)
  {
    var v, e := (u * j) * s, x * j;
    assert v * v == (j * j) * u * ((s * s) * u);
    assert e * e == (j * j) * (x * x);
    assert ((u * t) * (e + 1)) * (e - 1) == (u * t) * (e * e) - u * t;
    assert (u * t) * (e * e) == (j * j) * u * ((x * x) * t);
  }

  ghost predicate OnEdwards(c: Curve, x: int, y: int)
    requires c.p > 0
  {
    Congruent(c.p, y * y - x * x, 1 + c.d * ((x * x) * (y * y)))
  }

  ghost predicate OnMontgomery(c: Curve, u: int, v: int)
    requires c.p > 0
  {
    Congruent(c.p, v * v, u * u * u + c.a * (u * u) + u)
  }

  /** Membership depends on residues only. */
  lemma OnMontgomeryResidues(c: Curve, u: int, v: int, u': int, v': int)
    requires c.p > 0 && OnMontgomery(c, u, v) && Congruent(c.p, u', u) && Congruent(c.p, v', v)
    ensures OnMontgomery(c, u', v')
  {
    hide Congruent;
    var p, a := c.p, c.a;
    CongruentMul(p, v', v, v', v);
    CongruentMul(p, u', u, u', u);
    CongruentMul(p, u' * u', u * u, u', u);
    CongruentSelf(p, a);
    CongruentMul(p, a, a, u' * u', u * u);
    CongruentAdd(p, u' * u' * u', u * u * u, a * (u' * u'), a * (u * u));
    CongruentAdd(p, u' * u' * u' + a * (u' * u'), u * u * u + a * (u * u), u', u);
    CongruentTransitive(p, v' * v', v * v, u * u * u + a * (u * u) + u);
    CongruentSymmetric(p, u' * u' * u' + a * (u' * u') + u', u * u * u + a * (u * u) + u);
    CongruentTransitive(p, v' * v', u * u * u + a * (u * u) + u, u' * u' * u' + a * (u' * u') + u');
  }

  /** The two inversions and the scaling, on unreduced integers. */
  lemma GenericPoint(c: Curve, x: int, y: int, i: int, j: int)
    requires Matching(c) && OnEdwards(c, x, y) && Congruent(c.p, (1 - y) * i, 1) && Congruent(c.p, x * j, 1)
    ensures OnMontgomery(c, (1 + y) * i, (((1 + y) * i) * j) * c.scale)
  {
    hide Congruent;
    var u := (1 + y) * i;
    CurveStep(c.p, x, y, i, c.scale, c.a, c.d);
    MontgomeryStep(c.p, x, j, u, c.scale, c.a);
    Expand(u, c.a);
  }

  lemma Expand(u: int, a: int)
    ensures u * (u * u + a * u + 1) == u * u * u + a * (u * u) + u
  {
  }

  /**
   Every affine point of the Edwards curve other than those with y = 1 lands
   on the Montgomery curve, the point (0, -1) of order two included.
   */
  lemma MapsToCurve(c: Curve, x: int, y: int)
    requires IsPrime(c.p) && Matching(c) && Scalar(c, x) && Scalar(c, y) && OnEdwards(c, x, y)
    ensures ToMontgomeryCoords(c, x, y).None? <==> y == 1
    ensures y != 1 ==>
      var m := ToMontgomeryCoords(c, x, y).value;
      Scalar(c, m.0) && Scalar(c, m.1) && OnMontgomery(c, m.0, m.1)
  {
    if y != 1 {
      if x == 0 {
        CongruentSelf(c.p, 0);
      } else {
        GeneralCase(c, x, y);
      }
    }
  }

  lemma GeneralCase(c: Curve, x: int, y: int)
    requires IsPrime(c.p) && Matching(c) && Scalar(c, x) && Scalar(c, y) && OnEdwards(c, x, y) && y != 1 && x != 0
    ensures var m := ToMontgomeryCoords(c, x, y).value;
      Scalar(c, m.0) && Scalar(c, m.1) && OnMontgomery(c, m.0, m.1)
  {
    hide OnEdwards, OnMontgomery, Congruent, IsPrime, Inverse, Matching;
    OneMinusNonzero(c, y);
    var p := c.p;
    var w := (1 - y) % p;
    var i, j := Inverse(p, w), Inverse(p, x);
    var u0 := (1 + y) * i;
    var u := u0 % p;
    var v0 := u * j;
    var v := v0 % p;
    // The reductions change nothing modulo p.
    ModCongruent(p, 1 - y);
    SameFactor(p, 1 - y, w, i, 1);
    GenericPoint(c, x, y, i, j);
    ModCongruent(p, u0);
    ModCongruent(p, v0);
    ModCongruent(p, v * c.scale);
    Times2(p, u, u0, j);
    CongruentTransitive(p, v, v0, u0 * j);
    Times2(p, v, u0 * j, c.scale);
    CongruentTransitive(p, (v * c.scale) % p, v * c.scale, (u0 * j) * c.scale);
    OnMontgomeryResidues(c, u0, (u0 * j) * c.scale, u, (v * c.scale) % p);
  }

  lemma Times2(p: int, x: int, y: int, c: int)
    requires p > 0 && Congruent(p, x, y)
    ensures Congruent(p, x * c, y * c)
  {
    DividesSum(p, 0, 0);
    CongruentMul(p, x, y, c, c);
  }

  lemma SameFactor(p: int, x: int, y: int, c: int, r: int)
    requires p > 0 && Congruent(p, x, y) && Congruent(p, y * c, r)
    ensures Congruent(p, x * c, r)
  {
    Times2(p, x, y, c);
    CongruentTransitive(p, x * c, y * c, r);
  }

  lemma NeutralEquation(d: int, x: int)
    ensures (1 * 1 - x * x) - (1 + d * ((x * x) * (1 * 1))) == -((1 + d) * (x * x))
  {
  }

  /** On the curve only the neutral element has y = 1. */
  lemma NeutralOnly(c: Curve, x: int)
    requires IsPrime(c.p) && Matching(c) && Scalar(c, x) && OnEdwards(c, x, 1)
    ensures x == 0
  {
    // -x^2 == d x^2, so (1 + d) x^2 == 0, and 1 + d is not 0.
    hide IsPrime;
    var k := 1 + c.d;
    NeutralEquation(c.d, x);
    NegativeDivides(c.p, k * (x * x));
    Euclid(c.p, k, x * x);
    Euclid(c.p, x, x);
    SmallZero(c.p, x);
  }

  lemma NegativeDivides(p: int, x: int)
    requires p > 0 && Divides(p, -x)
    ensures Divides(p, x)
  {
    Scaled(p, -1, -x);
  }
}
