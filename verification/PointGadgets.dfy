/**
 Points entering the circuit (crypto-circuit-age/src/gadgets/sapling_ecc.rs):
 `witness`, which checks the curve equation, and `assert_not_small_order`,
 which doubles three times and demands an inverse of the first coordinate.
 */
module PointGadgets {
  import opened Wrappers
  import opened PrimeField
  import opened R1cs
  import opened Groups
  import opened Montgomery
  import opened EdwardsLaw
  import opened EdwardsGadgets
  import opened EdwardsRun

  function PointVars(n: nat): EdwardsPoint { EdwardsPoint(n, n + 1) }

  /** `witness`: two coordinates and the three products of the curve check. */
  function WitnessCons(c: Curve, n: nat): (r: seq<Constraint>)
    ensures |r| == 4
  {
    InterpretCons(c, n + 2, PointVars(n))
  }

  function WitnessAux(c: Curve, aux: seq<Option<int>>, x: Option<Coords>): (r: seq<Option<int>>)
    requires c.p > 0
    ensures aux <= r && |r| == |aux| + 5
  {
    var u, v := if x.Some? then Some(x.value.0) else None, if x.Some? then Some(x.value.1) else None;
    var uu, vv := ProductOf(c.p, u, u), ProductOf(c.p, v, v);
    aux + [u, v, uu, vv, ProductOf(c.p, uu, vv)]
  }

  method Witness(cs: ConstraintSystem, c: Curve, x: Option<Coords>) returns (q: EdwardsPoint)
    requires c.p > 0
    modifies cs
    ensures q == PointVars(|old(cs.aux)|) && cs.aux == WitnessAux(c, old(cs.aux), x)
    ensures cs.constraints == old(cs.constraints) + WitnessCons(c, |old(cs.aux)|) && cs.inputs == old(cs.inputs)
  {
    hide Plus, Negate, Single;
    var u := cs.Alloc(if x.Some? then Some(x.value.0) else None);
    var v := cs.Alloc(if x.Some? then Some(x.value.1) else None);
    var uu := AllocProduct(cs, c.p, u, u);
    var vv := AllocProduct(cs, c.p, v, v);
    var w := AllocProduct(cs, c.p, uu, vv);
    cs.Enforce(Plus(Negate(Num(uu)), Num(vv)), ONES, Plus(ONES, Single(c.d, Aux(w))));
    q := EdwardsPoint(u, v);
  }

  lemma WitnessSound<P(!new)>(c: Curve, g: Group<P>, at: P -> Coords, asg: Assignment, n: nat) returns (x: P)
    requires Coordinates(c, g, at) && InField(c.p, asg) && SatAll(c.p, asg, WitnessCons(c, n))
    ensures PointAt(asg, PointVars(n)) == at(x)
  {
    hide Coordinates, InField, SatAll, PointAt, OnCurve, WitnessCons, InterpretCons;
    CoordinateParts(c, g, at);
    WitnessIs(c, n);
    InterpretSound(c, asg, n + 2, PointVars(n));
    x := PointWith(c, g, at, PointAt(asg, PointVars(n)));
  }

  lemma WitnessIs(c: Curve, n: nat)
    ensures WitnessCons(c, n) == InterpretCons(c, n + 2, PointVars(n))
  {
  }

  lemma PointWith<P(!new)>(c: Curve, g: Group<P>, at: P -> Coords, q: Coords) returns (x: P)
    requires Coordinates(c, g, at) && c.p > 0 && OnCurve(c, q)
    ensures at(x) == q
  {
    x :| at(x) == q;
  }

  lemma WitnessComplete(c: Curve, aux: seq<Option<int>>, x: Coords)
    requires c.p > 1 && OnCurve(c, x)
    ensures PointVal(WitnessAux(c, aux, Some(x)), PointVars(|aux|)) == Some(x)
    ensures SatisfiedBy(c.p, WitnessAux(c, aux, Some(x)), WitnessCons(c, |aux|))
  {
    hide InterpretCons, SatAll, OnEdwards;
    var p, n, more := c.p, |aux|, WitnessAux(c, aux, Some(x));
    AddedValues(aux, more[n..]);
    forall asg | InField(p, asg) && Agrees(asg, more) ensures SatAll(p, asg, WitnessCons(c, n)) {
      PointHeld(asg, more, PointVars(n));
      assert asg.At(Aux(n + 2)) == (x.0 * x.0) % p && asg.At(Aux(n + 3)) == (x.1 * x.1) % p;
      InterpretComplete(c, asg, n + 2, PointVars(n));
    }
  }

  /** On the curve the products satisfy the check. */
  lemma InterpretComplete(c: Curve, asg: Assignment, n: nat, q: EdwardsPoint)
    requires c.p > 1 && OnCurve(c, PointAt(asg, q))
    requires var x := PointAt(asg, q);
      && asg.At(Aux(n)) == (x.0 * x.0) % c.p && asg.At(Aux(n + 1)) == (x.1 * x.1) % c.p
      && asg.At(Aux(n + 2)) == (asg.At(Aux(n)) * asg.At(Aux(n + 1))) % c.p
    ensures SatAll(c.p, asg, InterpretCons(c, n, q))
  {
    hide Congruent, Eval;
    var p, x, ks := c.p, PointAt(asg, q), InterpretCons(c, n, q);
    var uu, vv, w := asg.At(Aux(n)), asg.At(Aux(n + 1)), asg.At(Aux(n + 2));
    ProductIs(p, x.0, x.0);
    ProductIs(p, x.1, x.1);
    ProductIs(p, uu, vv);
    CurveOnProducts(p, c.d, x.0 * x.0, x.1 * x.1, uu, vv, w);
    assert -uu + vv == vv - uu;
    assert Sat(p, asg, ks[0]) && Sat(p, asg, ks[1]) && Sat(p, asg, ks[2]) && Sat(p, asg, ks[3]);
  }

  lemma CurveOnProducts(p: int, d: int, x: int, y: int, uu: int, vv: int, w: int)
    requires p > 0 && Congruent(p, x, uu) && Congruent(p, y, vv) && Congruent(p, uu * vv, w)
    requires Congruent(p, y - x, 1 + d * (x * y))
    ensures Congruent(p, vv - uu, 1 + d * w)
  {
    hide Congruent;
    CongruentAdd(p, y, vv, x, uu);
    CongruentSymmetric(p, y - x, vv - uu);
    CongruentTransitive(p, vv - uu, y - x, 1 + d * (x * y));
    CongruentMul(p, x, uu, y, vv);
    CongruentTransitive(p, x * y, uu * vv, w);
    CongruentSelf(p, d);
    CongruentMul(p, d, d, x * y, w);
    CongruentSelf(p, 1);
    CongruentAdd(p, 1, 1, d * (x * y), d * w);
    CongruentTransitive(p, vv - uu, 1 + d * (x * y), 1 + d * w);
  }

  // ------------------------------------------------------ not small order

  /** Three doublings and the inverse of the last first coordinate. */
  function SmallOrderCons(c: Curve, n: nat, q: EdwardsPoint): seq<Constraint> {
    DoubleCons(c, n, q) + DoubleCons(c, n + 5, DoubleOut(n)) + DoubleCons(c, n + 10, DoubleOut(n + 5))
    + [Constraint(Num(n + 13), Num(n + 15), ONES)]
  }

  function ThirdDouble(c: Curve, aux: seq<Option<int>>, q: EdwardsPoint): (r: seq<Option<int>>)
    requires IsPrime(c.p)
    ensures aux <= r && |r| == |aux| + 15
  {
    DoubleAux(c, DoubleAux(c, DoubleAux(c, aux, q), DoubleOut(|aux|)), DoubleOut(|aux| + 5))
  }

  function SmallOrderAux(c: Curve, aux: seq<Option<int>>, q: EdwardsPoint): (r: seq<Option<int>>)
    requires IsPrime(c.p)
    ensures aux <= r && |r| == |aux| + 16
  {
    var u := ThirdDouble(c, aux, q);
    u + [QuotientOf(c.p, Some(1), NumVal(u, |aux| + 13))]
  }

  /** Whether one of the four divisions fails. */
  predicate SmallOrderFails(c: Curve, aux: seq<Option<int>>, q: EdwardsPoint)
    requires IsPrime(c.p)
  {
    var u := DoubleAux(c, aux, q);
    var v := DoubleAux(c, u, DoubleOut(|aux|));
    || StepsFail(c.p, StepsOf(c, aux, q, q))
    || StepsFail(c.p, StepsOf(c, u, DoubleOut(|aux|), DoubleOut(|aux|)))
    || StepsFail(c.p, StepsOf(c, v, DoubleOut(|aux| + 5), DoubleOut(|aux| + 5)))
    || DivisionFails(c.p, NumVal(ThirdDouble(c, aux, q), |aux| + 13))
  }

  method AssertNotSmallOrder(cs: ConstraintSystem, c: Curve, q: EdwardsPoint) returns (r: Result<(), SynthesisError>)
    requires IsPrime(c.p) && Allocated(cs.aux, q)
    modifies cs
    ensures r == if SmallOrderFails(c, old(cs.aux), q) then Err(DivisionByZero) else Ok(())
    ensures r.Ok? ==> cs.aux == SmallOrderAux(c, old(cs.aux), q)
    ensures r.Ok? ==> cs.constraints == old(cs.constraints) + SmallOrderCons(c, |old(cs.aux)|, q)
    ensures cs.inputs == old(cs.inputs)
  {
    hide StepsFail, StepsOf, DoubleCons, DoubleAux, QuotientOf;
    var tmp := Double(cs, c, q);
    if tmp.Err? { return Err(tmp.error); }
    tmp := Double(cs, c, tmp.value);
    if tmp.Err? { return Err(tmp.error); }
    tmp := Double(cs, c, tmp.value);
    if tmp.Err? { return Err(tmp.error); }
    var u := tmp.value.u;
    if DivisionFails(c.p, cs.aux[u]) {
      return Err(DivisionByZero);
    }
    var inv := cs.Alloc(QuotientOf(c.p, Some(1), cs.aux[u]));
    cs.Enforce(Num(u), Num(inv), ONES);
    r := Ok(());
  }

  lemma EightTimes<P(!new)>(g: Group<P>, x: P)
    requires Abelian(g)
    ensures var y := g.add(x, x); var z := g.add(y, y); g.add(z, z) == Times(g, 8, x)
  {
    hide Abelian, Times;
    TimesOne(g, x);
    TimesAdd(g, 1, 1, x);
    TimesAdd(g, 2, 2, x);
    TimesAdd(g, 4, 4, x);
  }

  /** Satisfied only when eight times the point is not neutral. */
  lemma SmallOrderSound<P(!new)>(c: Curve, g: Group<P>, at: P -> Coords, asg: Assignment, n: nat, q: EdwardsPoint, x: P)
    requires Coordinates(c, g, at) && InField(c.p, asg) && PointAt(asg, q) == at(x)
    requires c.p > 0 && SatAll(c.p, asg, SmallOrderCons(c, n, q))
    ensures Times(g, 8, x) != g.zero
  {
    hide Coordinates, InField, SatAll, PointAt, DoubleCons, Abelian, Times;
    CoordinateParts(c, g, at);
    var y := g.add(x, x);
    var z := g.add(y, y);
    var last := [Constraint(Num(n + 13), Num(n + 15), ONES)];
    var two := DoubleCons(c, n, q) + DoubleCons(c, n + 5, DoubleOut(n));
    SatConcat(c.p, asg, two + DoubleCons(c, n + 10, DoubleOut(n + 5)), last);
    SatConcat(c.p, asg, two, DoubleCons(c, n + 10, DoubleOut(n + 5)));
    SatConcat(c.p, asg, DoubleCons(c, n, q), DoubleCons(c, n + 5, DoubleOut(n)));
    DoubleSound(c, g, at, asg, n, q, x);
    DoubleSound(c, g, at, asg, n + 5, DoubleOut(n), y);
    DoubleSound(c, g, at, asg, n + 10, DoubleOut(n + 5), z);
    EightTimes(g, x);
    InverseExists(c, asg, n + 13, n + 15, DoubleOut(n + 10));
  }

  lemma InverseExists(c: Curve, asg: Assignment, u: nat, inv: nat, q: EdwardsPoint)
    requires c.p > 1 && q.u == u && SatAll(c.p, asg, [Constraint(Num(u), Num(inv), ONES)])
    ensures PointAt(asg, q).0 != 0
  {
    var ks := [Constraint(Num(u), Num(inv), ONES)];
    assert Sat(c.p, asg, ks[0]);
    if asg.At(Aux(u)) == 0 {
      assert Congruent(c.p, 0, 1);
      SmallZero(c.p, 0 - 1);
    }
  }

  /** A point is twice neutral and an odd number of times neutral only if it is neutral. */
  lemma OddAndEven<P(!new)>(g: Group<P>, y: P, n: nat)
    requires Abelian(g) && n % 2 == 1 && g.add(y, y) == g.zero && Times(g, n, y) == g.zero
    ensures y == g.zero
  {
    hide Abelian, Times;
    var m := n / 2;
    TimesOne(g, y);
    TimesAdd(g, 1, 1, y);
    TimesMul(g, m, 2, y);
    TimesZero(g, m);
    TimesAdd(g, m * 2, 1, y);
    Unit(g, y);
  }

  /** In a curve of eight times an odd number of points, eight times x has first coordinate 0 only if it is neutral. */
  lemma FirstCoordinate<P(!new)>(c: Curve, g: Group<P>, at: P -> Coords, n: nat, x: P)
    requires Coordinates(c, g, at) && n % 2 == 1 && Times(g, n * 8, x) == g.zero && Times(g, 8, x) != g.zero
    ensures at(Times(g, 8, x)).0 != 0
  {
    hide Coordinates, Abelian, Times, OnCurve, Complete;
    CoordinateParts(c, g, at);
    var y := Times(g, 8, x);
    if at(y).0 == 0 {
      PointsOnCurve(c, g, at, y, y);
      TwiceNeutral(c, at(y));
      SumIs(c, g, at, y, y, (0, 1));
      SamePoint(c, g, at, g.add(y, y), g.zero);
      TimesMul(g, n, 8, x);
      OddAndEven(g, y, n);
    }
  }

  lemma SamePoint<P(!new)>(c: Curve, g: Group<P>, at: P -> Coords, x: P, y: P)
    requires Coordinates(c, g, at)
    ensures at(x) == at(y) <==> x == y
  {
  }

  /** (0, v) on the curve doubles to (0, 1). */
  lemma TwiceNeutral(c: Curve, q: Coords)
    requires c.p > 1 && OnCurve(c, q) && q.0 == 0
    ensures Scalar(c, 0) && Scalar(c, 1) && SumAt(c, q, q, (0, 1))
  {
    assert Cross(c.d, q, q) == 0;
    assert Congruent(c.p, q.1 * q.1, 1);
    CongruentSymmetric(c.p, q.1 * q.1, 1);
    CongruentSelf(c.p, 0);
  }

  lemma SmallOrderComplete<P(!new)>(c: Curve, g: Group<P>, at: P -> Coords, aux: seq<Option<int>>, q: EdwardsPoint,
                                    x: P)
    requires Coordinates(c, g, at) && PointVal(aux, q) == Some(at(x)) && at(Times(g, 8, x)).0 != 0
    ensures IsPrime(c.p) && !SmallOrderFails(c, aux, q)
    ensures SatisfiedBy(c.p, SmallOrderAux(c, aux, q), SmallOrderCons(c, |aux|, q))
  {
    hide IsPrime, Coordinates, SatisfiedBy, PointVal, DoubleCons, DoubleAux, StepsFail, StepsOf, Abelian, Times;
    hide QuotientOf;
    CoordinateParts(c, g, at);
    CoordinatesPrime(c, g, at);
    var n, y := |aux|, g.add(x, x);
    var z := g.add(y, y);
    var u := DoubleAux(c, aux, q);
    var v := DoubleAux(c, u, DoubleOut(n));
    var w := DoubleAux(c, v, DoubleOut(n + 5));
    DoubleComplete(c, g, at, aux, q, x);
    DoubleComplete(c, g, at, u, DoubleOut(n), y);
    DoubleComplete(c, g, at, v, DoubleOut(n + 5), z);
    EightTimes(g, x);
    InverseComplete(c, g, at, w, DoubleOut(n + 10), Times(g, 8, x));
    var two := DoubleCons(c, n, q) + DoubleCons(c, n + 5, DoubleOut(n));
    SatisfiedTogether(c.p, u, v, DoubleCons(c, n, q), DoubleCons(c, n + 5, DoubleOut(n)));
    SatisfiedTogether(c.p, v, w, two, DoubleCons(c, n + 10, DoubleOut(n + 5)));
    SatisfiedTogether(c.p, w, SmallOrderAux(c, aux, q), two + DoubleCons(c, n + 10, DoubleOut(n + 5)),
                      [Constraint(Num(n + 13), Num(n + 15), ONES)]);
  }

  /** On a point of the group the check refuses exactly when its eightfold has first coordinate 0. */
  lemma SmallOrderRefused<P(!new)>(c: Curve, g: Group<P>, at: P -> Coords, aux: seq<Option<int>>, q: EdwardsPoint, x: P)
    requires Coordinates(c, g, at) && PointVal(aux, q) == Some(at(x))
    ensures IsPrime(c.p) && (SmallOrderFails(c, aux, q) <==> at(Times(g, 8, x)).0 == 0)
  {
    hide IsPrime, Coordinates, SatisfiedBy, DoubleCons, DoubleAux, StepsFail, StepsOf, Abelian, Times, SmallOrderFails;
    CoordinatesPrime(c, g, at);
    if at(Times(g, 8, x)).0 != 0 {
      SmallOrderComplete(c, g, at, aux, q, x);
    } else {
      CoordinateParts(c, g, at);
      var n, y := |aux|, g.add(x, x);
      var u := DoubleAux(c, aux, q);
      var v := DoubleAux(c, u, DoubleOut(n));
      DoubleComplete(c, g, at, aux, q, x);
      DoubleComplete(c, g, at, u, DoubleOut(n), y);
      DoubleComplete(c, g, at, v, DoubleOut(n + 5), g.add(y, y));
      EightTimes(g, x);
      LastDivisionFails(c, aux, q);
    }
  }

  lemma LastDivisionFails(c: Curve, aux: seq<Option<int>>, q: EdwardsPoint)
    requires IsPrime(c.p) && NumVal(ThirdDouble(c, aux, q), |aux| + 13) == Some(0)
    ensures SmallOrderFails(c, aux, q)
  {
    hide IsPrime, ThirdDouble, StepsFail, StepsOf, DoubleAux;
    PrimeAboveOne(c.p);
  }

  lemma InverseComplete<P(!new)>(c: Curve, g: Group<P>, at: P -> Coords, w: seq<Option<int>>, q: EdwardsPoint, x: P)
    requires Coordinates(c, g, at) && IsPrime(c.p) && PointVal(w, q) == Some(at(x)) && at(x).0 != 0
    ensures !DivisionFails(c.p, NumVal(w, q.u))
    ensures SatisfiedBy(c.p, w + [QuotientOf(c.p, Some(1), NumVal(w, q.u))], [Constraint(Num(q.u), Num(|w|), ONES)])
  {
    hide Coordinates, OnEdwards, Complete, IsPrime;
    PointsOnCurve(c, g, at, x, x);
    var p, u := c.p, at(x).0;
    var more, ks := w + [QuotientOf(p, Some(1), Some(u))], [Constraint(Num(q.u), Num(|w|), ONES)];
    NotDivisible(p, u);
    QuotientIs(p, 1, u);
    forall asg | InField(p, asg) && Agrees(asg, more) ensures SatAll(p, asg, ks) {
      assert asg.At(Aux(q.u)) == u && asg.At(Aux(|w|)) == more[|w|].value;
      assert Sat(p, asg, ks[0]);
    }
  }

  lemma NotDivisible(p: int, u: int)
    requires 0 < u < p
    ensures u % p != 0
  {
    if u % p == 0 { SmallZero(p, u); }
  }
}
