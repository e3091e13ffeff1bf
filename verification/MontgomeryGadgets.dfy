/**
 Points in Montgomery coordinates in the circuit (`MontgomeryPoint::add` and
 `into_edwards`, crypto-circuit-age/src/gadgets/sapling_ecc.rs): values that
 satisfy the constraints are the image of the sum and the Edwards point itself.
 A segment of the Pedersen hash follows.
 */
module MontgomeryGadgets {
  import Bits
  import opened Wrappers
  import opened PrimeField
  import opened R1cs
  import opened Groups
  import opened Montgomery
  import opened RingIdentities
  import opened MontgomeryLaw
  import opened EdwardsLaw
  import opened EdwardsGadgets
  import opened EdwardsRun
  import opened PointGadgets

  /** bellman's `Num`: a value, unknown in set-up, and a linear combination. */
  datatype Number = Number(value: Option<int>, lc: LinComb)

  datatype MontgomeryPoint = MontgomeryPoint(x: Number, y: Number)

  /** `Num::lc`: every coefficient times k. */
  function ScaledLc(k: int, l: LinComb): (r: LinComb)
    ensures forall asg :: Eval(r, asg) == k * Eval(l, asg)
  {
    if l == [] then [] else
      var head, rest := [Term(k * l[0].coeff, l[0].v)], ScaledLc(k, l[1..]);
      assert (head + rest)[1..] == rest;
      assert forall asg :: Eval(head + rest, asg) == k * Eval(l, asg) by {
        forall asg ensures Eval(head + rest, asg) == k * Eval(l, asg) {
          ScaledHead(k, l[0].coeff, asg.At(l[0].v), Eval(l[1..], asg));
        }
      }
      head + rest
  }

  lemma ScaledHead(k: int, c: int, x: int, t: int)
    ensures (k * c) * x + k * t == k * (c * x + t)
  {
  }

  function Allocated(n: nat, value: Option<int>): Number { Number(value, Num(n)) }

  /** The three constraints of `add`: the slope and both coordinates. */
  function LineCons(c: Curve, n: nat, q: MontgomeryPoint, r: MontgomeryPoint): (k: seq<Constraint>)
    ensures |k| == 3
  {
    [Constraint(Minus(r.x.lc, q.x.lc), Num(n), Minus(r.y.lc, q.y.lc)),
     Constraint(Num(n), Num(n), Plus(Plus(Plus(Single(c.a, One), q.x.lc), r.x.lc), Num(n + 1))),
     Constraint(Minus(q.x.lc, Num(n + 1)), Num(n), Plus(Num(n + 2), q.y.lc))]
  }

  /** The two of `into_edwards`. */
  function EdwardsCons(c: Curve, n: nat, q: MontgomeryPoint): (k: seq<Constraint>)
    ensures |k| == 2
  {
    [Constraint(q.y.lc, Num(n), ScaledLc(c.scale, q.x.lc)),
     Constraint(Plus(q.x.lc, ONES), Num(n + 1), Minus(q.x.lc, ONES))]
  }

  function LcAt(asg: Assignment, q: MontgomeryPoint): Coords { (Eval(q.x.lc, asg), Eval(q.y.lc, asg)) }

  /** The combinations have the values of the Montgomery coordinates of z. */
  ghost predicate Carries(c: Curve, asg: Assignment, q: MontgomeryPoint, z: Coords) {
    && IsPrime(c.p) && Scalar(c, z.0) && Scalar(c, z.1)
    && var m := ToMontgomeryCoords(c, z.0, z.1);
      m.Some? && Congruent(c.p, LcAt(asg, q).0, m.value.0) && Congruent(c.p, LcAt(asg, q).1, m.value.1)
  }

  // ------------------------------------------------------------ soundness

  lemma LineMeaning(c: Curve, asg: Assignment, n: nat, q: MontgomeryPoint, r: MontgomeryPoint)
    requires c.p > 0
    ensures SatAll(c.p, asg, LineCons(c, n, q, r)) <==>
            LineThrough(c, LcAt(asg, q), LcAt(asg, r), asg.At(Aux(n)), (asg.At(Aux(n + 1)), asg.At(Aux(n + 2))))
  {
    hide Congruent, Eval;
    var ks := LineCons(c, n, q, r);
    if SatAll(c.p, asg, ks) {
      assert Sat(c.p, asg, ks[0]) && Sat(c.p, asg, ks[1]) && Sat(c.p, asg, ks[2]);
    }
  }

  /** The line depends on residues only. */
  lemma LineResidues(c: Curve, m: Coords, n: Coords, m': Coords, n': Coords, l: int, t: Coords)
    requires c.p > 0 && LineThrough(c, m, n, l, t)
    requires Congruent(c.p, m.0, m'.0) && Congruent(c.p, m.1, m'.1)
    requires Congruent(c.p, n.0, n'.0) && Congruent(c.p, n.1, n'.1)
    ensures LineThrough(c, m', n', l, t)
  {
    hide Congruent;
    var p := c.p;
    CongruentAdd(p, n.0, n'.0, m.0, m'.0);
    CongruentAdd(p, n.1, n'.1, m.1, m'.1);
    MovedProduct(p, n.0 - m.0, n'.0 - m'.0, l, n.1 - m.1, n'.1 - m'.1);
    CongruentAdd(p, c.a, c.a, m.0, m'.0);
    CongruentTransitive(p, l * l, c.a + m.0 + n.0 + t.0, c.a + m'.0 + n'.0 + t.0);
    CongruentAdd(p, m.0, m'.0, t.0, t.0);
    CongruentAdd(p, t.1, t.1, m.1, m'.1);
    MovedProduct(p, m.0 - t.0, m'.0 - t.0, l, t.1 + m.1, t.1 + m'.1);
  }

  lemma MovedProduct(p: int, x: int, y: int, l: int, a: int, b: int)
    requires p > 0 && Congruent(p, x, y) && Congruent(p, a, b) && Congruent(p, x * l, a)
    ensures Congruent(p, y * l, b)
  {
    hide Congruent;
    CongruentSymmetric(p, x, y);
    CongruentMul(p, y, x, l, l);
    CongruentTransitive(p, y * l, x * l, a);
    CongruentTransitive(p, y * l, a, b);
  }

  function LineOut(n: nat, xv: Option<int>, yv: Option<int>): MontgomeryPoint {
    MontgomeryPoint(Allocated(n + 1, xv), Allocated(n + 2, yv))
  }

  /** Satisfying values of `add` at points with distinct first coordinates are those of their sum. */
  lemma LineSound(c: Curve, asg: Assignment, n: nat, q: MontgomeryPoint, r: MontgomeryPoint, z: Coords, w: Coords,
                  s: Coords, out: MontgomeryPoint)
    requires InField(c.p, asg) && Matching(c) && Complete(c) && OnCurve(c, z) && OnCurve(c, w) && OnCurve(c, s)
    requires SumAt(c, z, w, s) && z.0 != 0 && w.0 != 0 && s.0 != 0 && Carries(c, asg, q, z) && Carries(c, asg, r, w)
    requires ToMontgomeryCoords(c, z.0, z.1).value.0 != ToMontgomeryCoords(c, w.0, w.1).value.0
    requires SatAll(c.p, asg, LineCons(c, n, q, r)) && out.x.lc == Num(n + 1) && out.y.lc == Num(n + 2)
    ensures Carries(c, asg, out, s)
  {
    hide Matching, Complete, OnCurve, SumAt, ToMontgomeryCoords, LineThrough, LineCons, SatAll, IsPrime, Congruent;
    hide Eval;
    var m, k := ToMontgomeryCoords(c, z.0, z.1).value, ToMontgomeryCoords(c, w.0, w.1).value;
    var l, t := asg.At(Aux(n)), (asg.At(Aux(n + 1)), asg.At(Aux(n + 2)));
    OnCurveIs(c, s);
    LineMeaning(c, asg, n, q, r);
    LineResidues(c, LcAt(asg, q), LcAt(asg, r), m, k, l, t);
    MontgomerySum(c, z, w, s, m, k, l, t);
    CongruentSelf(c.p, t.0);
    CongruentSelf(c.p, t.1);
  }

  /** The nonzero factors of the way back. */
  lemma BackFactors(c: Curve, z: Coords, m: Coords)
    requires IsPrime(c.p) && Matching(c) && OnCurve(c, z) && z.0 != 0 && Corresponds(c, z, m)
    ensures !Divides(c.p, m.1) && !Divides(c.p, m.0 + 1) && Congruent(c.p, (m.0 + 1) * z.1, m.0 - 1)
  {
    hide IsPrime, Divides, OnEdwards, Matching;
    MatchingOdd(c);
    UnitsOnly(c, z);
    FirstNonzero(c, z, m);
    ScaleNonzero(c);
    NotProduct(c.p, c.scale, m.0);
    var h := (1 - z.1) * m.0 - (1 + z.1);
    if Divides(c.p, m.1) {
      Scaled(c.p, z.0, m.1);
      DividesSum(c.p, z.0 * m.1, z.0 * m.1 - c.scale * m.0);
    }
    if Divides(c.p, m.0 + 1) {
      Combine(c.p, 1 - z.1, m.0 + 1, 1, h);
      assert (1 - z.1) * (m.0 + 1) - 1 * h == 2;
      SmallZero(c.p, 2);
    }
    Scaled(c.p, -1, h);
    assert (m.0 + 1) * z.1 - (m.0 - 1) == -1 * h;
  }

  lemma ScaleNonzero(c: Curve)
    requires IsPrime(c.p) && Matching(c)
    ensures !Divides(c.p, c.scale)
  {
    hide IsPrime, Divides, Matching;
    MatchingOdd(c);
    if Divides(c.p, c.scale) {
      ScaleRelation(c);
      Scaled(c.p, (1 + c.d) * c.scale, c.scale);
      Bits.MulAssoc(1 + c.d, c.scale, c.scale);
      DividesSum(c.p, (1 + c.d) * (c.scale * c.scale), (1 + c.d) * (c.scale * c.scale) - -4);
      Scaled(c.p, -1, -4);
      NotFour(c.p);
    }
  }

  /** `into_edwards` inverts the map. */
  lemma EdwardsSound(c: Curve, asg: Assignment, n: nat, q: MontgomeryPoint, z: Coords)
    requires InField(c.p, asg) && Matching(c) && OnCurve(c, z) && z.0 != 0 && Carries(c, asg, q, z)
    requires SatAll(c.p, asg, EdwardsCons(c, n, q))
    ensures PointAt(asg, EdwardsPoint(n, n + 1)) == z
  {
    hide Matching, OnEdwards, ToMontgomeryCoords, IsPrime, Congruent, Eval, MontgomeryLaw.Corresponds;
    var p, m, u, v := c.p, ToMontgomeryCoords(c, z.0, z.1).value, asg.At(Aux(n)), asg.At(Aux(n + 1));
    MapsToCurve(c, z.0, z.1);
    CorrespondsExactly(c, z, m);
    CorrespondParts(c, z, m);
    BackFactors(c, z, m);
    var ks, x := EdwardsCons(c, n, q), LcAt(asg, q);
    assert Sat(p, asg, ks[0]) && Sat(p, asg, ks[1]);
    Scale(p, c.scale, x.0, m.0);
    MovedProduct(p, x.1, m.1, u, c.scale * x.0, c.scale * m.0);
    CongruentAdd(p, x.0, m.0, 1, 1);
    MovedProduct(p, x.0 + 1, m.0 + 1, v, x.0 - 1, m.0 - 1);
    EdwardsLaw.QuotientUnique(p, m.1, u, z.0, c.scale * m.0);
    EdwardsLaw.QuotientUnique(p, m.0 + 1, v, z.1, m.0 - 1);
  }

  // ------------------------------------------------------ in the group

  /** A point of odd order that is not neutral has a nonzero first coordinate. */
  lemma ProperFirst<P(!new)>(c: Curve, g: Group<P>, at: P -> Coords, n: nat, x: P)
    requires Coordinates(c, g, at) && n % 2 == 1 && Times(g, n, x) == g.zero && x != g.zero
    ensures at(x).0 != 0
  {
    hide Coordinates, Abelian, Times, OnCurve, Complete;
    CoordinateParts(c, g, at);
    if at(x).0 == 0 {
      PointsOnCurve(c, g, at, x, x);
      TwiceNeutral(c, at(x));
      SumIs(c, g, at, x, x, (0, 1));
      SamePoint(c, g, at, g.add(x, x), g.zero);
      OddAndEven(g, x, n);
    }
  }

  /** Points with one second coordinate are equal or opposite. */
  lemma SameSecond<P(!new)>(c: Curve, g: Group<P>, at: P -> Coords, x: P, y: P)
    requires Coordinates(c, g, at) && Matching(c) && at(x).1 == at(y).1 && at(x).0 != 0
    ensures x == y || x == g.neg(y)
  {
    hide Coordinates, Abelian, Complete, OnEdwards, Matching, SumAt, IsPrime;
    CoordinateParts(c, g, at);
    PointsOnCurve(c, g, at, x, y);
    UnitsOnly(c, at(x));
    OppositeFirst(c, at(x), at(y));
    if at(x).0 == at(y).0 {
      SamePoint(c, g, at, x, y);
    } else {
      OppositeSum(c, at(x), at(y));
      SumIs(c, g, at, x, y, (0, 1));
      SamePoint(c, g, at, g.add(x, y), g.zero);
      DifferenceUnique(g, g.zero, y, x);
      Unit(g, g.neg(y));
    }
  }

  lemma OppositeFirst(c: Curve, q: Coords, r: Coords)
    requires IsPrime(c.p) && OnCurve(c, q) && OnCurve(c, r) && q.1 == r.1 && !Divides(c.p, q.1 * q.1 - 1)
    ensures q.0 == r.0 || q.0 + r.0 == c.p
  {
    hide IsPrime, Divides, OnEdwards;
    var p, e, u, w := c.p, 1 + c.d * (q.1 * q.1), q.0 * q.0, r.0 * r.0;
    SquareOfU(c, q.0, q.1);
    SquareOfU(c, r.0, r.1);
    CongruentAdd(p, u * e, q.1 * q.1 - 1, w * e, q.1 * q.1 - 1);
    if Divides(p, e) {
      Scaled(p, u, e);
      DividesSum(p, u * e, u * e - (q.1 * q.1 - 1));
    }
    SquaresApart(q.0, r.0, e);
    Euclid(p, e, (q.0 - r.0) * (q.0 + r.0));
    Euclid(p, q.0 - r.0, q.0 + r.0);
    if Divides(p, q.0 - r.0) { SmallZero(p, q.0 - r.0); } else { OnePeriod(p, q.0, r.0); }
  }

  lemma SquaresApart(x: int, y: int, e: int)
    ensures (x * x) * e - (y * y) * e == e * ((x - y) * (x + y))
  {
  }

  lemma OnePeriod(p: int, x: int, y: int)
    requires 0 <= x < p && 0 <= y < p && Divides(p, x + y) && !Divides(p, x - y)
    ensures x + y == p
  {
    if x + y < p {
      SmallZero(p, x + y);
    } else {
      DividesSum(p, x + y, p);
      SmallZero(p, x + y - p);
    }
  }

  lemma OppositeSum(c: Curve, q: Coords, r: Coords)
    requires c.p > 1 && OnCurve(c, q) && OnCurve(c, r) && q.1 == r.1 && q.0 + r.0 == c.p
    ensures SumAt(c, q, r, (0, 1)) && Scalar(c, 0) && Scalar(c, 1)
  {
    hide Divides, OnEdwards;
    var p, u, v, h := c.p, q.0, q.1, (q.1 * q.1 - q.0 * q.0) - (1 + c.d * ((q.0 * q.0) * (q.1 * q.1)));
    EquationOf(c, u, v);
    MultipleDivides(p, -v);
    MultipleDivides(p, -(u * (1 + c.d * (v * v))));
    DividesSum(p, p * -(u * (1 + c.d * (v * v))), h);
    OppositeIdentity(c.d, u, v, p);
  }

  lemma EquationOf(c: Curve, u: int, v: int)
    requires c.p > 0 && OnEdwards(c, u, v)
    ensures Divides(c.p, (v * v - u * u) - (1 + c.d * ((u * u) * (v * v))))
  {
  }

  lemma OppositeIdentity(d: int, u: int, v: int, p: int)
    ensures var w := p - u; var k := d * ((v * u) * (w * v));
      && (1 + k) * 0 - (v * u + w * v) == p * -v
      && (1 - k) * 1 - (v * v + u * w) ==
         p * -(u * (1 + d * (v * v))) - ((v * v - u * u) - (1 + d * ((u * u) * (v * v))))
  {
    var w := p - u;
    assert v * u + w * v == p * v;
    FourProduct(v, u, w, v);
    FourProduct(v, w, u, v);
    assert (v * u) * (w * v) == (v * v) * (u * w);
    assert u * w == p * u - u * u;
    Spread(v * v, p * u, u * u);
    Spread(d, (v * v) * (p * u), (v * v) * (u * u));
    Bits.MulAssoc(p, u, 1 + d * (v * v));
    Across(p * u, d, v * v);
  }

  /** The sum of two points that are not opposite has their odd order and is not neutral. */
  lemma SumProper<P(!new)>(g: Group<P>, n: nat, x: P, y: P)
    requires Abelian(g) && Times(g, n, x) == g.zero && Times(g, n, y) == g.zero && x != g.neg(y)
    ensures Times(g, n, g.add(x, y)) == g.zero && g.add(x, y) != g.zero
  {
    hide *;
    TimesSum(g, n, x, y);
    Unit(g, g.zero);
    if g.add(x, y) == g.zero {
      DifferenceUnique(g, g.zero, y, x);
      Unit(g, g.neg(y));
    }
  }

  /** Equal first Montgomery coordinates come from equal or opposite points. */
  lemma SameImage<P(!new)>(c: Curve, g: Group<P>, at: P -> Coords, x: P, y: P)
    requires Coordinates(c, g, at) && Matching(c) && IsPrime(c.p)
    requires OnCurve(c, at(x)) && OnCurve(c, at(y)) && at(x).0 != 0 && at(y).0 != 0
    requires ToMontgomeryCoords(c, at(x).0, at(x).1).Some? && ToMontgomeryCoords(c, at(y).0, at(y).1).Some?
    requires ToMontgomeryCoords(c, at(x).0, at(x).1).value.0 == ToMontgomeryCoords(c, at(y).0, at(y).1).value.0
    ensures x == y || x == g.neg(y)
  {
    hide *;
    PrimeAboveOne(c.p);
    OnCurveIs(c, at(x));
    OnCurveIs(c, at(y));
    MapsAway(c, at(x));
    MapsAway(c, at(y));
    var m, k := ToMontgomeryCoords(c, at(x).0, at(x).1).value, ToMontgomeryCoords(c, at(y).0, at(y).1).value;
    BackFactors(c, at(x), m);
    BackFactors(c, at(y), k);
    EdwardsLaw.QuotientUnique(c.p, m.0 + 1, at(x).1, at(y).1, m.0 - 1);
    SameSecond(c, g, at, x, y);
  }

  lemma ScalarIs(c: Curve, x: int)
    ensures Scalar(c, x) <==> 0 <= x < c.p
  {
  }

  /** Points of odd order, neither neutral, equal nor opposite, meet no exception of the Montgomery law. */
  lemma Regular<P(!new)>(c: Curve, g: Group<P>, at: P -> Coords, n: nat, x: P, y: P)
    requires Coordinates(c, g, at) && Matching(c) && n % 2 == 1 && Times(g, n, x) == g.zero && Times(g, n, y) == g.zero
    requires x != g.zero && y != g.zero && x != y && x != g.neg(y)
    ensures IsPrime(c.p) && OnCurve(c, at(x)) && OnCurve(c, at(y)) && OnCurve(c, at(g.add(x, y)))
    ensures at(x).0 != 0 && at(y).0 != 0 && at(g.add(x, y)).0 != 0
    ensures ToMontgomeryCoords(c, at(x).0, at(x).1).Some? && ToMontgomeryCoords(c, at(y).0, at(y).1).Some?
    ensures ToMontgomeryCoords(c, at(x).0, at(x).1).value.0 != ToMontgomeryCoords(c, at(y).0, at(y).1).value.0
  {
    hide *;
    CoordinateParts(c, g, at);
    PointsOnCurve(c, g, at, x, y);
    PointsOnCurve(c, g, at, g.add(x, y), g.add(x, y));
    SumProper(g, n, x, y);
    ProperFirst(c, g, at, n, x);
    ProperFirst(c, g, at, n, y);
    ProperFirst(c, g, at, n, g.add(x, y));
    MapsAway(c, at(x));
    MapsAway(c, at(y));
    if ToMontgomeryCoords(c, at(x).0, at(x).1).value.0 == ToMontgomeryCoords(c, at(y).0, at(y).1).value.0 {
      SameImage(c, g, at, x, y);
    }
  }

  lemma MapsAway(c: Curve, z: Coords)
    requires IsPrime(c.p) && Matching(c) && OnCurve(c, z) && z.0 != 0
    ensures ToMontgomeryCoords(c, z.0, z.1).Some?
    ensures var m := ToMontgomeryCoords(c, z.0, z.1).value; Scalar(c, m.0) && Scalar(c, m.1) && Corresponds(c, z, m)
  {
    hide Matching, OnEdwards, ToMontgomeryCoords, IsPrime, Corresponds;
    MapsToCurve(c, z.0, z.1);
    UnitsOnly(c, z);
    if z.1 == 1 { UnitZero(c.p); }
    CorrespondsExactly(c, z, ToMontgomeryCoords(c, z.0, z.1).value);
  }

  /** Satisfying values of `add` are the image of the sum in the group. */
  lemma SumSound<P(!new)>(c: Curve, g: Group<P>, at: P -> Coords, asg: Assignment, k: nat, q: MontgomeryPoint,
                          r: MontgomeryPoint, n: nat, x: P, y: P, out: MontgomeryPoint)
    requires Coordinates(c, g, at) && Matching(c) && n % 2 == 1 && Times(g, n, x) == g.zero && Times(g, n, y) == g.zero
    requires x != g.zero && y != g.zero && x != y && x != g.neg(y) && InField(c.p, asg)
    requires Carries(c, asg, q, at(x)) && Carries(c, asg, r, at(y)) && SatAll(c.p, asg, LineCons(c, k, q, r))
    requires out.x.lc == Num(k + 1) && out.y.lc == Num(k + 2)
    ensures Carries(c, asg, out, at(g.add(x, y)))
  {
    hide *;
    Regular(c, g, at, n, x, y);
    PointsOnCurve(c, g, at, x, y);
    SumAtPoints(c, g, at, x, y);
    LineSound(c, asg, k, q, r, at(x), at(y), at(g.add(x, y)), out);
  }

  lemma SumAtPoints<P(!new)>(c: Curve, g: Group<P>, at: P -> Coords, x: P, y: P)
    requires Coordinates(c, g, at)
    ensures c.p > 0 && SumAt(c, at(x), at(y), at(g.add(x, y)))
  {
  }

  // -------------------------------------------------------------- the run

  /** The values of `add`: slope and coordinates. */
  function LineValues(c: Curve, q: MontgomeryPoint, r: MontgomeryPoint): (s: seq<Option<int>>)
    requires IsPrime(c.p)
    ensures |s| == 3
  {
    var l := QuotientOf(c.p, DifferenceOf(r.y.value, q.y.value), DifferenceOf(r.x.value, q.x.value));
    var x := ThirdValue(c, l, q.x.value, r.x.value);
    [l, x, MirrorValue(c, l, q.x.value, q.y.value, x)]
  }

  function ThirdValue(c: Curve, l: Option<int>, x: Option<int>, y: Option<int>): Option<int>
    requires c.p > 0
  {
    var l :- l;
    var x :- x;
    var y :- y;
    Some((l * l - c.a - x - y) % c.p)
  }

  function MirrorValue(c: Curve, l: Option<int>, x: Option<int>, y: Option<int>, t: Option<int>): Option<int>
    requires c.p > 0
  {
    var l :- l;
    var x :- x;
    var y :- y;
    var t :- t;
    Some(-((t - x) * l + y) % c.p)
  }

  function LineResult(c: Curve, n: nat, q: MontgomeryPoint, r: MontgomeryPoint): MontgomeryPoint
    requires IsPrime(c.p)
  {
    LineOut(n, LineValues(c, q, r)[1], LineValues(c, q, r)[2])
  }

  /** `add`: the values of other minus self over the difference of the first coordinates. */
  method Add(cs: ConstraintSystem, c: Curve, q: MontgomeryPoint, r: MontgomeryPoint)
    returns (s: Result<MontgomeryPoint, SynthesisError>)
    requires IsPrime(c.p)
    modifies cs
    ensures s == if DivisionFails(c.p, DifferenceOf(r.x.value, q.x.value)) then Err(DivisionByZero)
                 else Ok(LineResult(c, |old(cs.aux)|, q, r))
    ensures s.Ok? ==> cs.aux == old(cs.aux) + LineValues(c, q, r)
    ensures s.Ok? ==> cs.constraints == old(cs.constraints) + LineCons(c, |old(cs.aux)|, q, r)
    ensures cs.inputs == old(cs.inputs)
  {
    hide Plus, Minus, Single, QuotientOf;
    var n, d := DifferenceOf(r.y.value, q.y.value), DifferenceOf(r.x.value, q.x.value);
    if DivisionFails(c.p, d) {
      return Err(DivisionByZero);
    }
    var lv := QuotientOf(c.p, n, d);
    var l := cs.Alloc(lv);
    cs.Enforce(Minus(r.x.lc, q.x.lc), Num(l), Minus(r.y.lc, q.y.lc));
    var xv := ThirdValue(c, lv, q.x.value, r.x.value);
    var x := cs.Alloc(xv);
    cs.Enforce(Num(l), Num(l), Plus(Plus(Plus(Single(c.a, One), q.x.lc), r.x.lc), Num(x)));
    var yv := MirrorValue(c, lv, q.x.value, q.y.value, xv);
    var y := cs.Alloc(yv);
    cs.Enforce(Minus(q.x.lc, Num(x)), Num(l), Plus(Num(y), q.y.lc));
    s := Ok(MontgomeryPoint(Allocated(x, xv), Allocated(y, yv)));
  }

  /** The values of `into_edwards`. */
  function EdwardsValues(c: Curve, q: MontgomeryPoint): (s: seq<Option<int>>)
    requires IsPrime(c.p)
    ensures |s| == 2
  {
    [QuotientOf(c.p, ProductOf(c.p, q.x.value, Some(c.scale)), q.y.value),
     QuotientOf(c.p, DifferenceOf(q.x.value, Some(1)), SumOf(q.x.value, Some(1)))]
  }

  method IntoEdwards(cs: ConstraintSystem, c: Curve, q: MontgomeryPoint)
    returns (s: Result<EdwardsPoint, SynthesisError>)
    requires IsPrime(c.p)
    modifies cs
    ensures s == if DivisionFails(c.p, q.y.value) || DivisionFails(c.p, SumOf(q.x.value, Some(1)))
                 then Err(DivisionByZero) else Ok(EdwardsPoint(|old(cs.aux)|, |old(cs.aux)| + 1))
    ensures s.Ok? ==> cs.aux == old(cs.aux) + EdwardsValues(c, q)
    ensures s.Ok? ==> cs.constraints == old(cs.constraints) + EdwardsCons(c, |old(cs.aux)|, q)
    ensures cs.inputs == old(cs.inputs)
  {
    hide Plus, Minus, Single, QuotientOf, ScaledLc;
    if DivisionFails(c.p, q.y.value) {
      return Err(DivisionByZero);
    }
    var u := cs.Alloc(QuotientOf(c.p, ProductOf(c.p, q.x.value, Some(c.scale)), q.y.value));
    cs.Enforce(q.y.lc, Num(u), ScaledLc(c.scale, q.x.lc));
    if DivisionFails(c.p, SumOf(q.x.value, Some(1))) {
      return Err(DivisionByZero);
    }
    var v := cs.Alloc(QuotientOf(c.p, DifferenceOf(q.x.value, Some(1)), SumOf(q.x.value, Some(1))));
    cs.Enforce(Plus(q.x.lc, ONES), Num(v), Minus(q.x.lc, ONES));
    s := Ok(EdwardsPoint(u, v));
  }

  /** A point in the run: its values are the image of z, and so is what its combinations carry from aux on. */
  ghost predicate Holds(c: Curve, aux: seq<Option<int>>, q: MontgomeryPoint, z: Coords) {
    && IsPrime(c.p) && Scalar(c, z.0) && Scalar(c, z.1)
    && var m := ToMontgomeryCoords(c, z.0, z.1);
      m.Some? && q.x.value == Some(m.value.0) && q.y.value == Some(m.value.1)
      && forall asg :: InField(c.p, asg) && Agrees(asg, aux) ==> Carries(c, asg, q, z)
  }

  lemma Distinct(p: int, x: int, y: int)
    requires p > 0 && 0 <= x < p && 0 <= y < p && x != y
    ensures (y - x) % p != 0
  {
  }

  lemma QuotientKnown(p: int, a: int, b: int) returns (l: int)
    requires IsPrime(p) && b % p != 0
    ensures p > 0 && QuotientOf(p, Some(a), Some(b)) == Some(l) && 0 <= l < p && Congruent(p, b * l, a)
  {
    hide IsPrime, Congruent, Inverse;
    QuotientIs(p, a, b);
    l := QuotientOf(p, Some(a), Some(b)).value;
  }

  lemma ThirdKnown(c: Curve, l: int, x: int, y: int) returns (t: int)
    requires c.p > 0
    ensures ThirdValue(c, Some(l), Some(x), Some(y)) == Some(t) && Scalar(c, t)
            && Congruent(c.p, l * l, c.a + x + y + t)
  {
    hide Congruent;
    var s := l * l - c.a - x - y;
    ModCongruent(c.p, s);
    t := s % c.p;
    Rearranged(c.p, l * l, c.a + x + y, s, t);
  }

  lemma MirrorKnown(c: Curve, l: int, x: int, y: int, t: int) returns (u: int)
    requires c.p > 0
    ensures MirrorValue(c, Some(l), Some(x), Some(y), Some(t)) == Some(u) && Scalar(c, u)
    ensures Congruent(c.p, (x - t) * l, u + y)
  {
    hide Congruent;
    var s := -((t - x) * l + y);
    ModCongruent(c.p, s);
    u := s % c.p;
    Rearranged(c.p, (x - t) * l, y, s, u);
  }

  /** The computed values solve the equations of the line. */
  lemma LineSolved(c: Curve, m: Coords, n: Coords) returns (l: int, t: Coords)
    requires IsPrime(c.p) && Scalar(c, m.0) && Scalar(c, n.0) && m.0 != n.0
    ensures (n.0 - m.0) % c.p != 0 && QuotientOf(c.p, Some(n.1 - m.1), Some(n.0 - m.0)) == Some(l)
    ensures ThirdValue(c, Some(l), Some(m.0), Some(n.0)) == Some(t.0)
    ensures MirrorValue(c, Some(l), Some(m.0), Some(m.1), Some(t.0)) == Some(t.1)
    ensures LineThrough(c, m, n, l, t) && Scalar(c, t.0) && Scalar(c, t.1)
  {
    hide *;
    ScalarIs(c, m.0);
    ScalarIs(c, n.0);
    Distinct(c.p, m.0, n.0);
    l := QuotientKnown(c.p, n.1 - m.1, n.0 - m.0);
    var x := ThirdKnown(c, l, m.0, n.0);
    var y := MirrorKnown(c, l, m.0, m.1, x);
    t := (x, y);
    LineWhole(c, m, n, l, t);
  }

  lemma LineWhole(c: Curve, m: Coords, n: Coords, l: int, t: Coords)
    requires c.p > 0 && Congruent(c.p, (n.0 - m.0) * l, n.1 - m.1) && Congruent(c.p, l * l, c.a + m.0 + n.0 + t.0)
    requires Congruent(c.p, (m.0 - t.0) * l, t.1 + m.1)
    ensures LineThrough(c, m, n, l, t)
  {
  }

  lemma Rearranged(p: int, s: int, a: int, x: int, y: int)
    requires p > 0 && x == s - a && Congruent(p, x, y)
    ensures Congruent(p, s, a + y)
  {
  }

  lemma CarriedCoords(c: Curve, asg: Assignment, q: MontgomeryPoint, z: Coords, m: Coords)
    requires Carries(c, asg, q, z) && ToMontgomeryCoords(c, z.0, z.1) == Some(m)
    ensures c.p > 0 && Congruent(c.p, LcAt(asg, q).0, m.0) && Congruent(c.p, LcAt(asg, q).1, m.1)
    ensures Congruent(c.p, m.0, LcAt(asg, q).0) && Congruent(c.p, m.1, LcAt(asg, q).1)
  {
    hide IsPrime, Congruent, ToMontgomeryCoords, LcAt;
    CongruentSymmetric(c.p, LcAt(asg, q).0, m.0);
    CongruentSymmetric(c.p, LcAt(asg, q).1, m.1);
  }

  lemma HeldCarries(c: Curve, aux: seq<Option<int>>, q: MontgomeryPoint, z: Coords, asg: Assignment)
    requires Holds(c, aux, q, z) && InField(c.p, asg) && Agrees(asg, aux)
    ensures Carries(c, asg, q, z)
  {
  }

  lemma HeldValues(c: Curve, aux: seq<Option<int>>, q: MontgomeryPoint, z: Coords)
    requires Holds(c, aux, q, z)
    ensures IsPrime(c.p) && Scalar(c, z.0) && Scalar(c, z.1) && ToMontgomeryCoords(c, z.0, z.1).Some?
    ensures var m := ToMontgomeryCoords(c, z.0, z.1).value; q.x.value == Some(m.0) && q.y.value == Some(m.1)
  {
  }

  /** The values of a run, in every assignment that agrees with it. */
  lemma ThreeHeld(asg: Assignment, aux: seq<Option<int>>, x: int, y: int, z: int)
    requires Agrees(asg, aux + [Some(x), Some(y), Some(z)])
    ensures Agrees(asg, aux) && asg.At(Aux(|aux|)) == x && asg.At(Aux(|aux| + 1)) == y && asg.At(Aux(|aux| + 2)) == z
  {
  }

  /** The line through two images, computed, is that of the sum's image. */
  lemma LineComputed(c: Curve, q: MontgomeryPoint, r: MontgomeryPoint, z: Coords, w: Coords, s: Coords, m: Coords,
                     k: Coords)
    returns (l: int, t: Coords)
    requires IsPrime(c.p) && Matching(c) && Complete(c) && OnCurve(c, z) && OnCurve(c, w) && OnCurve(c, s)
    requires SumAt(c, z, w, s) && z.0 != 0 && w.0 != 0 && s.0 != 0 && Scalar(c, s.0) && Scalar(c, s.1)
    requires Scalar(c, z.0) && Scalar(c, z.1) && Scalar(c, w.0) && Scalar(c, w.1)
    requires ToMontgomeryCoords(c, z.0, z.1) == Some(m) && ToMontgomeryCoords(c, w.0, w.1) == Some(k) && m.0 != k.0
    requires q.x.value == Some(m.0) && q.y.value == Some(m.1) && r.x.value == Some(k.0) && r.y.value == Some(k.1)
    ensures LineValues(c, q, r) == [Some(l), Some(t.0), Some(t.1)] && c.p > 0 && LineThrough(c, m, k, l, t)
    ensures !DivisionFails(c.p, DifferenceOf(r.x.value, q.x.value)) && ToMontgomeryCoords(c, s.0, s.1) == Some(t)
  {
    hide *;
    PrimeAboveOne(c.p);
    OnCurveIs(c, z);
    OnCurveIs(c, w);
    MapsToCurve(c, z.0, z.1);
    MapsToCurve(c, w.0, w.1);
    l, t := LineSolved(c, m, k);
    LineValuesAre(c, q, r, m, k);
    MontgomerySum(c, z, w, s, m, k, l, t);
  }

  /** What `add` computes at points with distinct first coordinates: no division fails, and the image of the sum. */
  lemma LineComplete(c: Curve, aux: seq<Option<int>>, q: MontgomeryPoint, r: MontgomeryPoint, z: Coords, w: Coords,
                     s: Coords)
    requires Matching(c) && Complete(c) && OnCurve(c, z) && OnCurve(c, w) && OnCurve(c, s) && SumAt(c, z, w, s)
    requires z.0 != 0 && w.0 != 0 && s.0 != 0 && Holds(c, aux, q, z) && Holds(c, aux, r, w)
    requires ToMontgomeryCoords(c, z.0, z.1).value.0 != ToMontgomeryCoords(c, w.0, w.1).value.0
    ensures !DivisionFails(c.p, DifferenceOf(r.x.value, q.x.value))
    ensures SatisfiedBy(c.p, aux + LineValues(c, q, r), LineCons(c, |aux|, q, r))
    ensures Holds(c, aux + LineValues(c, q, r), LineResult(c, |aux|, q, r), s)
  {
    hide *;
    HeldValues(c, aux, q, z);
    HeldValues(c, aux, r, w);
    OnCurveIs(c, s);
    var m, k := ToMontgomeryCoords(c, z.0, z.1).value, ToMontgomeryCoords(c, w.0, w.1).value;
    var l, t := LineComputed(c, q, r, z, w, s, m, k);
    var more := aux + LineValues(c, q, r);
    forall asg | InField(c.p, asg) && Agrees(asg, more) ensures SatAll(c.p, asg, LineCons(c, |aux|, q, r)) {
      LineHeld(c, asg, aux, q, r, z, w, m, k, l, t);
    }
    SatisfiedIs(c.p, more, LineCons(c, |aux|, q, r));
    ResultHolds(c, aux, q, r, s, l, t);
  }

  lemma SatisfiedIs(p: int, aux: seq<Option<int>>, ks: seq<Constraint>)
    requires p > 0 && forall asg :: InField(p, asg) && Agrees(asg, aux) ==> SatAll(p, asg, ks)
    ensures SatisfiedBy(p, aux, ks)
  {
  }

  lemma LineValuesAre(c: Curve, q: MontgomeryPoint, r: MontgomeryPoint, m: Coords, k: Coords)
    requires IsPrime(c.p) && q.x.value == Some(m.0) && q.y.value == Some(m.1)
    requires r.x.value == Some(k.0) && r.y.value == Some(k.1)
    ensures c.p > 0
    ensures var l := QuotientOf(c.p, Some(k.1 - m.1), Some(k.0 - m.0));
      var x := ThirdValue(c, l, Some(m.0), Some(k.0));
      LineValues(c, q, r) == [l, x, MirrorValue(c, l, Some(m.0), Some(m.1), x)]
    ensures DivisionFails(c.p, DifferenceOf(r.x.value, q.x.value)) <==> (k.0 - m.0) % c.p == 0
  {
  }

  lemma LineHeld(c: Curve, asg: Assignment, aux: seq<Option<int>>, q: MontgomeryPoint, r: MontgomeryPoint, z: Coords,
                 w: Coords, m: Coords, k: Coords, l: int, t: Coords)
    requires Holds(c, aux, q, z) && Holds(c, aux, r, w) && c.p > 0 && LineThrough(c, m, k, l, t) && InField(c.p, asg)
    requires IsPrime(c.p) && Scalar(c, z.0) && Scalar(c, z.1) && Scalar(c, w.0) && Scalar(c, w.1)
    requires ToMontgomeryCoords(c, z.0, z.1) == Some(m) && ToMontgomeryCoords(c, w.0, w.1) == Some(k)
    requires Agrees(asg, aux + [Some(l), Some(t.0), Some(t.1)])
    ensures SatAll(c.p, asg, LineCons(c, |aux|, q, r))
  {
    hide *;
    ThreeHeld(asg, aux, l, t.0, t.1);
    HeldCarries(c, aux, q, z, asg);
    HeldCarries(c, aux, r, w, asg);
    CarriedCoords(c, asg, q, z, m);
    CarriedCoords(c, asg, r, w, k);
    LineResidues(c, m, k, LcAt(asg, q), LcAt(asg, r), l, t);
    LineMeaning(c, asg, |aux|, q, r);
  }

  lemma ResultHolds(c: Curve, aux: seq<Option<int>>, q: MontgomeryPoint, r: MontgomeryPoint, s: Coords, l: int,
                    t: Coords)
    requires IsPrime(c.p) && LineValues(c, q, r) == [Some(l), Some(t.0), Some(t.1)]
    requires Scalar(c, s.0) && Scalar(c, s.1) && ToMontgomeryCoords(c, s.0, s.1) == Some(t)
    ensures Holds(c, aux + LineValues(c, q, r), LineResult(c, |aux|, q, r), s)
  {
    hide IsPrime, LineValues, ToMontgomeryCoords, InField, Agrees;
    var more, out := aux + LineValues(c, q, r), LineResult(c, |aux|, q, r);
    forall asg | InField(c.p, asg) && Agrees(asg, more) ensures Carries(c, asg, out, s) {
      ThreeHeld(asg, aux, l, t.0, t.1);
      CongruentSelf(c.p, t.0);
      CongruentSelf(c.p, t.1);
    }
  }

  lemma TwoHeld(asg: Assignment, aux: seq<Option<int>>, x: int, y: int)
    requires Agrees(asg, aux + [Some(x), Some(y)])
    ensures Agrees(asg, aux) && asg.At(Aux(|aux|)) == x && asg.At(Aux(|aux| + 1)) == y
  {
  }

  /** The quotients of the way back are the point's own coordinates. */
  lemma BackValues(c: Curve, z: Coords, m: Coords)
    requires IsPrime(c.p) && Matching(c) && OnCurve(c, z) && z.0 != 0 && Corresponds(c, z, m)
    ensures m.1 % c.p != 0 && (m.0 + 1) % c.p != 0
    ensures QuotientOf(c.p, ProductOf(c.p, Some(m.0), Some(c.scale)), Some(m.1)) == Some(z.0)
    ensures QuotientOf(c.p, Some(m.0 - 1), Some(m.0 + 1)) == Some(z.1)
  {
    hide *;
    PrimeAboveOne(c.p);
    var p := c.p;
    BackFactors(c, z, m);
    CorrespondParts(c, z, m);
    OnCurveIs(c, z);
    NotZeroResidue(p, m.1);
    NotZeroResidue(p, m.0 + 1);
    var x := KnownProduct(p, m.0, c.scale);
    var u := QuotientKnown(p, x, m.1);
    var v := QuotientKnown(p, m.0 - 1, m.0 + 1);
    Commutes(m.0, c.scale);
    CongruentTransitive(p, m.1 * u, x, c.scale * m.0);
    EdwardsLaw.QuotientUnique(p, m.1, u, z.0, c.scale * m.0);
    EdwardsLaw.QuotientUnique(p, m.0 + 1, v, z.1, m.0 - 1);
  }

  lemma NotZeroResidue(p: int, x: int)
    requires p > 0 && !Divides(p, x)
    ensures x % p != 0
  {
  }

  lemma KnownProduct(p: int, x: int, y: int) returns (z: int)
    requires p > 0
    ensures ProductOf(p, Some(x), Some(y)) == Some(z) && Congruent(p, z, x * y)
  {
    hide Congruent;
    ModCongruent(p, x * y);
    z := (x * y) % p;
  }

  /** What `into_edwards` computes: no division fails, and the point itself. */
  lemma EdwardsComplete(c: Curve, aux: seq<Option<int>>, q: MontgomeryPoint, z: Coords)
    requires Matching(c) && OnCurve(c, z) && z.0 != 0 && Holds(c, aux, q, z)
    ensures !DivisionFails(c.p, q.y.value) && !DivisionFails(c.p, SumOf(q.x.value, Some(1)))
    ensures EdwardsValues(c, q) == [Some(z.0), Some(z.1)]
    ensures SatisfiedBy(c.p, aux + EdwardsValues(c, q), EdwardsCons(c, |aux|, q))
  {
    hide *;
    HeldValues(c, aux, q, z);
    MapsAway(c, z);
    var m := ToMontgomeryCoords(c, z.0, z.1).value;
    BackValues(c, z, m);
    EdwardsValuesAre(c, q, m);
    var more := aux + EdwardsValues(c, q);
    forall asg | InField(c.p, asg) && Agrees(asg, more) ensures SatAll(c.p, asg, EdwardsCons(c, |aux|, q)) {
      TwoHeld(asg, aux, z.0, z.1);
      HeldCarries(c, aux, q, z, asg);
      CarriedCoords(c, asg, q, z, m);
      BackHeld(c, asg, |aux|, q, z, m);
    }
    SatisfiedIs(c.p, more, EdwardsCons(c, |aux|, q));
  }

  lemma EdwardsValuesAre(c: Curve, q: MontgomeryPoint, m: Coords)
    requires IsPrime(c.p) && q.x.value == Some(m.0) && q.y.value == Some(m.1)
    ensures c.p > 0
    ensures EdwardsValues(c, q) == [QuotientOf(c.p, ProductOf(c.p, Some(m.0), Some(c.scale)), Some(m.1)),
                                    QuotientOf(c.p, Some(m.0 - 1), Some(m.0 + 1))]
    ensures DivisionFails(c.p, q.y.value) <==> m.1 % c.p == 0
    ensures DivisionFails(c.p, SumOf(q.x.value, Some(1))) <==> (m.0 + 1) % c.p == 0
  {
  }

  lemma BackHeld(c: Curve, asg: Assignment, n: nat, q: MontgomeryPoint, z: Coords, m: Coords)
    requires IsPrime(c.p) && Matching(c) && OnCurve(c, z) && z.0 != 0 && Corresponds(c, z, m)
    requires Congruent(c.p, m.0, LcAt(asg, q).0) && Congruent(c.p, m.1, LcAt(asg, q).1)
    requires asg.At(Aux(n)) == z.0 && asg.At(Aux(n + 1)) == z.1
    ensures SatAll(c.p, asg, EdwardsCons(c, n, q))
  {
    hide *;
    PrimeAboveOne(c.p);
    BackFactors(c, z, m);
    CorrespondParts(c, z, m);
    var p, x := c.p, LcAt(asg, q);
    Scale(p, c.scale, m.0, x.0);
    MovedProduct(p, m.1, x.1, z.0, c.scale * m.0, c.scale * x.0);
    CongruentAdd(p, m.0, x.0, 1, 1);
    MovedProduct(p, m.0 + 1, x.0 + 1, z.1, m.0 - 1, x.0 - 1);
    BackMeaning(c, asg, n, q);
  }

  lemma BackMeaning(c: Curve, asg: Assignment, n: nat, q: MontgomeryPoint)
    requires c.p > 0
    ensures var x, u, v := LcAt(asg, q), asg.At(Aux(n)), asg.At(Aux(n + 1));
      SatAll(c.p, asg, EdwardsCons(c, n, q)) <==>
      Congruent(c.p, x.1 * u, c.scale * x.0) && Congruent(c.p, (x.0 + 1) * v, x.0 - 1)
  {
    hide Congruent, Eval;
    var ks := EdwardsCons(c, n, q);
    if SatAll(c.p, asg, ks) {
      assert Sat(c.p, asg, ks[0]) && Sat(c.p, asg, ks[1]);
    }
  }

  /** In the group: at points of odd order that the law covers, `add` does not fail and computes the sum. */
  lemma SumComplete<P(!new)>(c: Curve, g: Group<P>, at: P -> Coords, aux: seq<Option<int>>, q: MontgomeryPoint,
                             r: MontgomeryPoint, n: nat, x: P, y: P)
    requires Coordinates(c, g, at) && Matching(c) && n % 2 == 1 && Times(g, n, x) == g.zero && Times(g, n, y) == g.zero
    requires x != g.zero && y != g.zero && x != y && x != g.neg(y)
    requires Holds(c, aux, q, at(x)) && Holds(c, aux, r, at(y))
    ensures IsPrime(c.p) && !DivisionFails(c.p, DifferenceOf(r.x.value, q.x.value))
    ensures SatisfiedBy(c.p, aux + LineValues(c, q, r), LineCons(c, |aux|, q, r))
    ensures Holds(c, aux + LineValues(c, q, r), LineResult(c, |aux|, q, r), at(g.add(x, y)))
  {
    hide *;
    Regular(c, g, at, n, x, y);
    PointsOnCurve(c, g, at, x, y);
    SumAtPoints(c, g, at, x, y);
    LineComplete(c, aux, q, r, at(x), at(y), at(g.add(x, y)));
  }
}
