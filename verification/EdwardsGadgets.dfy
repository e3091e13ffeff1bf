/**
 Curve arithmetic in the circuit (crypto-circuit-age/src/gadgets/sapling_ecc.rs):
 the constraints on a point's coordinates, its double, a sum, a conditional
 choice and a scalar multiple, against the group of the curve.
 */
module EdwardsGadgets {
  import opened Bits
  import opened PrimeField
  import opened R1cs
  import opened Groups
  import opened Montgomery
  import opened EdwardsLaw

  /** The auxiliary variables of the two coordinates. */
  datatype EdwardsPoint = EdwardsPoint(u: nat, v: nat)

  function PointAt(asg: Assignment, q: EdwardsPoint): Coords { (asg.At(Aux(q.u)), asg.At(Aux(q.v))) }

  function Num(i: nat): LinComb { Single(1, Aux(i)) }

  /** `AllocatedNum::mul` and `square`: the new variable is the product. */
  function MulCon(a: nat, b: nat, out: nat): Constraint { Constraint(Num(a), Num(b), Num(out)) }

  /** d x * y == z. */
  function CrossCon(c: Curve, x: nat, y: nat, z: nat): Constraint {
    Constraint(Single(c.d, Aux(x)), Num(y), Num(z))
  }

  /** The five variables and constraints of `double`: T, A, C and the coordinates. */
  function DoubleCons(c: Curve, n: nat, q: EdwardsPoint): (r: seq<Constraint>)
    ensures |r| == 5
  {
    [Constraint(Plus(Num(q.u), Num(q.v)), Plus(Num(q.u), Num(q.v)), Num(n)),
     MulCon(q.u, q.v, n + 1),
     CrossCon(c, n + 1, n + 1, n + 2),
     Constraint(Plus(ONES, Num(n + 2)), Num(n + 3), Plus(Num(n + 1), Num(n + 1))),
     Constraint(Minus(ONES, Num(n + 2)), Num(n + 4), Minus(Minus(Num(n), Num(n + 1)), Num(n + 1)))]
  }

  function DoubleOut(n: nat): EdwardsPoint { EdwardsPoint(n + 3, n + 4) }

  /** The six of `add`: U, A, B, C and the coordinates. */
  function AddCons(c: Curve, n: nat, q: EdwardsPoint, r: EdwardsPoint): (s: seq<Constraint>)
    ensures |s| == 6
  {
    [Constraint(Plus(Num(q.u), Num(q.v)), Plus(Num(r.u), Num(r.v)), Num(n)),
     MulCon(r.v, q.u, n + 1),
     MulCon(r.u, q.v, n + 2),
     CrossCon(c, n + 1, n + 2, n + 3),
     Constraint(Plus(ONES, Num(n + 3)), Num(n + 4), Plus(Num(n + 1), Num(n + 2))),
     Constraint(Minus(ONES, Num(n + 3)), Num(n + 5), Minus(Minus(Num(n), Num(n + 1)), Num(n + 2)))]
  }

  function AddOut(n: nat): EdwardsPoint { EdwardsPoint(n + 4, n + 5) }

  /** The point if the bit is 1, the neutral (0, 1) otherwise. */
  function SelectCons(n: nat, q: EdwardsPoint, b: Boolean): (r: seq<Constraint>)
    ensures |r| == 2
  {
    [Constraint(Num(q.u), b.Lc(1), Num(n)),
     Constraint(Num(q.v), b.Lc(1), Minus(Num(n + 1), b.Negated().Lc(1)))]
  }

  function SelectOut(n: nat): EdwardsPoint { EdwardsPoint(n, n + 1) }

  /** The squares, their product and the curve equation. */
  function InterpretCons(c: Curve, n: nat, q: EdwardsPoint): (r: seq<Constraint>)
    ensures |r| == 4
  {
    [MulCon(q.u, q.u, n), MulCon(q.v, q.v, n + 1), MulCon(n, n + 1, n + 2),
     Constraint(Plus(Negate(Num(n)), Num(n + 1)), ONES, Plus(ONES, Single(c.d, Aux(n + 2))))]
  }

  // ------------------------------------------------- what constraints say

  lemma SatSix(p: int, asg: Assignment, ks: seq<Constraint>)
    requires p > 0 && |ks| == 6
    ensures SatAll(p, asg, ks) <==>
            Sat(p, asg, ks[0]) && Sat(p, asg, ks[1]) && Sat(p, asg, ks[2]) && Sat(p, asg, ks[3])
            && Sat(p, asg, ks[4]) && Sat(p, asg, ks[5])
  {
    if SatAll(p, asg, ks) {
      assert Sat(p, asg, ks[0]) && Sat(p, asg, ks[1]) && Sat(p, asg, ks[2]);
      assert Sat(p, asg, ks[3]) && Sat(p, asg, ks[4]) && Sat(p, asg, ks[5]);
    }
  }

  /** The equations of `add` between the values of its variables. */
  ghost predicate AddSteps(p: int, d: int, q: Coords, r: Coords, t: int, a: int, b: int, k: int, s: Coords)
    requires p > 0
  {
    && Congruent(p, (q.0 + q.1) * (r.0 + r.1), t)
    && Congruent(p, r.1 * q.0, a) && Congruent(p, r.0 * q.1, b) && Congruent(p, (d * a) * b, k)
    && Congruent(p, (1 + k) * s.0, a + b) && Congruent(p, (1 - k) * s.1, t - a - b)
  }

  lemma AddMeaning(c: Curve, asg: Assignment, n: nat, q: EdwardsPoint, r: EdwardsPoint)
    requires c.p > 0
    ensures SatAll(c.p, asg, AddCons(c, n, q, r)) <==>
      AddSteps(c.p, c.d, PointAt(asg, q), PointAt(asg, r), asg.At(Aux(n)), asg.At(Aux(n + 1)), asg.At(Aux(n + 2)),
               asg.At(Aux(n + 3)), PointAt(asg, AddOut(n)))
  {
    hide Congruent, Eval;
    SatSix(c.p, asg, AddCons(c, n, q, r));
  }

  lemma DoubleMeaning(c: Curve, asg: Assignment, n: nat, q: EdwardsPoint)
    requires c.p > 0
    ensures SatAll(c.p, asg, DoubleCons(c, n, q)) <==>
      AddSteps(c.p, c.d, PointAt(asg, q), PointAt(asg, q), asg.At(Aux(n)), asg.At(Aux(n + 1)), asg.At(Aux(n + 1)),
               asg.At(Aux(n + 2)), PointAt(asg, DoubleOut(n)))
  {
    hide Congruent, Eval;
    var ks, x := DoubleCons(c, n, q), PointAt(asg, q);
    assert x.0 * x.1 == x.1 * x.0;
    if SatAll(c.p, asg, ks) {
      assert Sat(c.p, asg, ks[0]) && Sat(c.p, asg, ks[1]) && Sat(c.p, asg, ks[2]);
      assert Sat(c.p, asg, ks[3]) && Sat(c.p, asg, ks[4]);
    }
  }

  lemma StepsParts(p: int, d: int, q: Coords, r: Coords, t: int, a: int, b: int, k: int, s: Coords)
    requires p > 0 && AddSteps(p, d, q, r, t, a, b, k, s)
    ensures Congruent(p, (q.0 + q.1) * (r.0 + r.1), t) && Congruent(p, r.1 * q.0, a) && Congruent(p, r.0 * q.1, b)
    ensures Congruent(p, (d * a) * b, k)
    ensures Congruent(p, (1 + 1 * k) * s.0, a + b) && Congruent(p, (1 + -1 * k) * s.1, t - a - b)
  {
    hide Congruent;
  }

  lemma CrossStep(p: int, d: int, x: int, y: int, a: int, b: int, k: int)
    requires p > 0 && Congruent(p, x, a) && Congruent(p, y, b) && Congruent(p, (d * a) * b, k)
    ensures Congruent(p, d * (x * y), k)
  {
    hide *;
    CongruentMul(p, x, a, y, b);
    CongruentSelf(p, d);
    CongruentMul(p, d, d, x * y, a * b);
    MulAssoc(d, a, b);
    CongruentTransitive(p, d * (x * y), (d * a) * b, k);
  }

  /** A quotient with denominator 1 + f k is one with 1 + f x for congruent x, and of congruent numerators. */
  lemma SameQuotient(p: int, f: int, x: int, k: int, s: int, m: int, n: int)
    requires p > 0 && Congruent(p, x, k) && Congruent(p, (1 + f * k) * s, m) && Congruent(p, n, m)
    ensures Congruent(p, (1 + f * x) * s, n)
  {
    hide *;
    CongruentSelf(p, 1);
    CongruentSelf(p, f);
    CongruentSelf(p, s);
    CongruentMul(p, f, f, x, k);
    CongruentAdd(p, 1, 1, f * x, f * k);
    CongruentMul(p, 1 + f * x, 1 + f * k, s, s);
    CongruentTransitive(p, (1 + f * x) * s, (1 + f * k) * s, m);
    CongruentSymmetric(p, n, m);
    CongruentTransitive(p, (1 + f * x) * s, m, n);
  }

  lemma SumFromProducts(c: Curve, q: Coords, r: Coords, s: Coords, cross: int)
    requires c.p > 0 && cross == c.d * ((r.1 * q.0) * (r.0 * q.1))
    requires Congruent(c.p, (1 + 1 * cross) * s.0, r.1 * q.0 + r.0 * q.1)
    requires Congruent(c.p, (1 + -1 * cross) * s.1, q.1 * r.1 + q.0 * r.0)
    ensures SumAt(c, q, r, s)
  {
    hide Congruent;
  }

  /** The intermediate values may be replaced by what they stand for. */
  lemma StepsGiveSum(c: Curve, q: Coords, r: Coords, t: int, a: int, b: int, k: int, s: Coords)
    requires c.p > 0 && AddSteps(c.p, c.d, q, r, t, a, b, k, s)
    ensures SumAt(c, q, r, s)
  {
    hide *;
    StepsParts(c.p, c.d, q, r, t, a, b, k, s);
    var p, x, y, u := c.p, r.1 * q.0, r.0 * q.1, (q.0 + q.1) * (r.0 + r.1);
    var cross := c.d * (x * y);
    CrossStep(p, c.d, x, y, a, b, k);
    CongruentAdd(p, x, a, y, b);
    SameQuotient(p, 1, cross, k, s.0, a + b, x + y);
    CongruentAdd(p, u, t, x, a);
    CongruentAdd(p, u - x, t - a, y, b);
    SameQuotient(p, -1, cross, k, s.1, t - a - b, u - x - y);
    OtherProducts(q, r);
    SumFromProducts(c, q, r, s, cross);
  }

  lemma OtherProducts(q: Coords, r: Coords)
    ensures (q.0 + q.1) * (r.0 + r.1) - r.1 * q.0 - r.0 * q.1 == q.1 * r.1 + q.0 * r.0
  {
  }

  // ------------------------------------------------------------ soundness

  /** Values in the field are coordinates in range. */
  lemma PointInField(c: Curve, asg: Assignment, q: EdwardsPoint)
    requires InField(c.p, asg)
    ensures Scalar(c, PointAt(asg, q).0) && Scalar(c, PointAt(asg, q).1)
  {
  }

  /** Constrained to be a sum, the new point is the sum in the group. */
  lemma AddSound<P(!new)>(c: Curve, g: Group<P>, at: P -> Coords, asg: Assignment, n: nat, q: EdwardsPoint,
                          r: EdwardsPoint, x: P, y: P)
    requires Coordinates(c, g, at) && InField(c.p, asg) && PointAt(asg, q) == at(x) && PointAt(asg, r) == at(y)
    requires SatAll(c.p, asg, AddCons(c, n, q, r))
    ensures PointAt(asg, AddOut(n)) == at(g.add(x, y))
  {
    hide Coordinates, AddSteps, SumAt, PointAt;
    AddMeaning(c, asg, n, q, r);
    StepsGiveSum(c, at(x), at(y), asg.At(Aux(n)), asg.At(Aux(n + 1)), asg.At(Aux(n + 2)), asg.At(Aux(n + 3)),
                 PointAt(asg, AddOut(n)));
    PointInField(c, asg, AddOut(n));
    SumIs(c, g, at, x, y, PointAt(asg, AddOut(n)));
  }

  lemma DoubleSound<P(!new)>(c: Curve, g: Group<P>, at: P -> Coords, asg: Assignment, n: nat, q: EdwardsPoint, x: P)
    requires Coordinates(c, g, at) && InField(c.p, asg) && PointAt(asg, q) == at(x)
    requires SatAll(c.p, asg, DoubleCons(c, n, q))
    ensures PointAt(asg, DoubleOut(n)) == at(g.add(x, x))
  {
    hide Coordinates, AddSteps, SumAt, PointAt;
    DoubleMeaning(c, asg, n, q);
    StepsGiveSum(c, at(x), at(x), asg.At(Aux(n)), asg.At(Aux(n + 1)), asg.At(Aux(n + 1)), asg.At(Aux(n + 2)),
                 PointAt(asg, DoubleOut(n)));
    PointInField(c, asg, DoubleOut(n));
    SumIs(c, g, at, x, x, PointAt(asg, DoubleOut(n)));
  }

  lemma SelectEval(p: int, asg: Assignment, n: nat, q: EdwardsPoint, b: Boolean)
    requires p > 0
    ensures SatAll(p, asg, SelectCons(n, q, b)) <==>
      && Congruent(p, asg.At(Aux(q.u)) * b.Val(asg), asg.At(Aux(n)) - 0 * (1 - b.Val(asg)))
      && Congruent(p, asg.At(Aux(q.v)) * b.Val(asg), asg.At(Aux(n + 1)) - 1 * (1 - b.Val(asg)))
  {
    hide Congruent, Eval, Boolean.Lc, Boolean.Val, Boolean.Negated;
    var ks := SelectCons(n, q, b);
    LcVal(b, 1, asg);
    NegatedVal(asg, b);
    LcVal(b.Negated(), 1, asg);
    assert SatAll(p, asg, ks) <==> Sat(p, asg, ks[0]) && Sat(p, asg, ks[1]);
  }

  /** The choice constraints hold exactly when the new point is the chosen one. */
  lemma SelectMeaning(c: Curve, asg: Assignment, n: nat, q: EdwardsPoint, b: Boolean)
    requires c.p > 1 && InField(c.p, asg) && b.IsBit(asg)
    ensures SatAll(c.p, asg, SelectCons(n, q, b)) <==>
            PointAt(asg, SelectOut(n)) == if b.Holds(asg) then PointAt(asg, q) else (0, 1)
  {
    hide Congruent, Eval, InField, SatAll, SelectCons, Boolean.Val, Boolean.IsBit, Boolean.Holds;
    var p, bit := c.p, b.Val(asg);
    var u, v, u', v' := asg.At(Aux(q.u)), asg.At(Aux(q.v)), asg.At(Aux(n)), asg.At(Aux(n + 1));
    PointInField(c, asg, q);
    PointInField(c, asg, SelectOut(n));
    SelectEval(p, asg, n, q, b);
    BitCases(asg, b);
    Chosen(p, u, bit, 0, u');
    Chosen(p, v, bit, 1, v');
  }

  lemma NegatedVal(asg: Assignment, b: Boolean)
    ensures b.Negated().Val(asg) == 1 - b.Val(asg)
  {
  }

  lemma Chosen(p: int, x: int, bit: int, other: int, y: int)
    requires p > 1 && 0 <= x < p && 0 <= y < p && (bit == 0 || bit == 1) && (other == 0 || other == 1)
    ensures Congruent(p, x * bit, y - other * (1 - bit)) <==> y == if bit == 1 then x else other
  {
    hide Congruent;
    Shifted(p, x * bit, y, other * (1 - bit));
    assert x * bit + other * (1 - bit) == if bit == 1 then x else other;
    SameResidue(p, x * bit + other * (1 - bit), y);
  }

  lemma SameResidue(p: int, x: int, y: int)
    requires p > 0 && 0 <= x < p && 0 <= y < p
    ensures Congruent(p, x, y) <==> x == y
  {
    if Congruent(p, x, y) { CongruentUnique(p, x, y); }
    CongruentSelf(p, x);
  }

  lemma Shifted(p: int, x: int, y: int, z: int)
    requires p > 0
    ensures Congruent(p, x, y - z) <==> Congruent(p, x + z, y)
  {
    assert x - (y - z) == (x + z) - y;
  }

  /** The curve check holds exactly of points on the curve, given the squares and their product. */
  lemma InterpretSound(c: Curve, asg: Assignment, n: nat, q: EdwardsPoint)
    requires c.p > 1 && InField(c.p, asg) && SatAll(c.p, asg, InterpretCons(c, n, q))
    ensures OnCurve(c, PointAt(asg, q))
  {
    hide Congruent, Eval;
    var p, ks := c.p, InterpretCons(c, n, q);
    var u, v, uu, vv, w := asg.At(Aux(q.u)), asg.At(Aux(q.v)), asg.At(Aux(n)), asg.At(Aux(n + 1)), asg.At(Aux(n + 2));
    assert Sat(p, asg, ks[0]) && Sat(p, asg, ks[1]) && Sat(p, asg, ks[2]) && Sat(p, asg, ks[3]);
    PointInField(c, asg, q);
    assert Congruent(p, u * u, uu) && Congruent(p, v * v, vv) && Congruent(p, uu * vv, w);
    assert Congruent(p, -uu + vv, 1 + c.d * w);
    CongruentAdd(p, v * v, vv, u * u, uu);
    assert vv - uu == -uu + vv;
    CongruentTransitive(p, v * v - u * u, vv - uu, 1 + c.d * w);
    CongruentMul(p, u * u, uu, v * v, vv);
    CongruentTransitive(p, (u * u) * (v * v), uu * vv, w);
    CongruentSelf(p, c.d);
    CongruentMul(p, c.d, c.d, (u * u) * (v * v), w);
    CongruentSelf(p, 1);
    CongruentAdd(p, 1, 1, c.d * ((u * u) * (v * v)), c.d * w);
    CongruentSymmetric(p, 1 + c.d * ((u * u) * (v * v)), 1 + c.d * w);
    CongruentTransitive(p, v * v - u * u, 1 + c.d * w, 1 + c.d * ((u * u) * (v * v)));
  }

  // ------------------------------------------------- scalar multiplication

  /** Where bit i > 0 starts: a doubling, a choice and an addition each. */
  function StepAt(n: nat, i: nat): nat
    requires i > 0
  {
    n + 2 + 13 * (i - 1)
  }

  /** The point chosen or not at bit i, and the sum so far after it. */
  function MulBase(n: nat, q: EdwardsPoint, i: nat): EdwardsPoint { if i == 0 then q else DoubleOut(StepAt(n, i)) }

  function MulOut(n: nat, i: nat): EdwardsPoint { if i == 0 then SelectOut(n) else AddOut(StepAt(n, i) + 7) }

  function MulStepCons(c: Curve, n: nat, q: EdwardsPoint, b: Boolean, i: nat): seq<Constraint> {
    if i == 0 then SelectCons(n, q, b) else
      var m := StepAt(n, i);
      DoubleCons(c, m, MulBase(n, q, i - 1)) + SelectCons(m + 5, MulBase(n, q, i), b)
      + AddCons(c, m + 7, MulOut(n, i - 1), SelectOut(m + 5))
  }

  /** The constraints of the first k bits of `mul`. */
  function MulCons(c: Curve, n: nat, q: EdwardsPoint, bits: seq<Boolean>, k: nat): seq<Constraint>
    requires k <= |bits|
  {
    if k == 0 then [] else MulCons(c, n, q, bits, k - 1) + MulStepCons(c, n, q, bits[k - 1], k - 1)
  }

  lemma MulStepSound<P(!new)>(c: Curve, g: Group<P>, at: P -> Coords, asg: Assignment, n: nat, q: EdwardsPoint,
                              b: Boolean, i: nat, base: P, sum: P)
    requires Coordinates(c, g, at) && InField(c.p, asg) && b.IsBit(asg) && i > 0
    requires PointAt(asg, MulBase(n, q, i - 1)) == at(base) && PointAt(asg, MulOut(n, i - 1)) == at(sum)
    requires SatAll(c.p, asg, MulStepCons(c, n, q, b, i))
    ensures PointAt(asg, MulBase(n, q, i)) == at(g.add(base, base))
    ensures PointAt(asg, MulOut(n, i)) == at(g.add(sum, if b.Holds(asg) then g.add(base, base) else g.zero))
  {
    hide Coordinates, SatAll, PointAt, DoubleCons, SelectCons, AddCons;
    assert c.p > 1 && at(g.zero) == (0, 1) by { CoordinateParts(c, g, at); }
    var m, twice := StepAt(n, i), g.add(base, base);
    var chosen := if b.Holds(asg) then twice else g.zero;
    SatConcat(c.p, asg, DoubleCons(c, m, MulBase(n, q, i - 1)) + SelectCons(m + 5, MulBase(n, q, i), b),
              AddCons(c, m + 7, MulOut(n, i - 1), SelectOut(m + 5)));
    SatConcat(c.p, asg, DoubleCons(c, m, MulBase(n, q, i - 1)), SelectCons(m + 5, MulBase(n, q, i), b));
    DoubleSound(c, g, at, asg, m, MulBase(n, q, i - 1), base);
    SelectMeaning(c, asg, m + 5, MulBase(n, q, i), b);
    AddSound(c, g, at, asg, m + 7, MulOut(n, i - 1), SelectOut(m + 5), sum, chosen);
  }

  lemma CoordinateParts<P(!new)>(c: Curve, g: Group<P>, at: P -> Coords)
    requires Coordinates(c, g, at)
    ensures c.p > 2 && at(g.zero) == (0, 1) && Abelian(g)
  {
  }

  /** Bit i of a scalar contributes 2^i times the point. */
  lemma BitTerm<P(!new)>(g: Group<P>, x: P, s: seq<bool>, b: bool)
    requires Abelian(g)
    ensures g.add(Times(g, ValueOf(s), x), if b then Times(g, Pow2(|s|), x) else g.zero) ==
            Times(g, ValueOf(s + [b]), x)
  {
    hide Abelian, Times;
    ValueSnoc(s, b);
    TimesAdd(g, ValueOf(s), Pow2(|s|), x);
    Unit(g, Times(g, ValueOf(s), x));
  }

  /** After bit k - 1 the base has been doubled k - 1 times and the sum is the multiple by the bits so far. */
  lemma {:induction false} MulPrefix<P(!new)>(c: Curve, g: Group<P>, at: P -> Coords, asg: Assignment, n: nat,
                                              q: EdwardsPoint, bits: seq<Boolean>, x: P, k: nat)
    requires Coordinates(c, g, at) && InField(c.p, asg) && AllBits(asg, bits) && PointAt(asg, q) == at(x)
    requires 0 < k <= |bits| && SatAll(c.p, asg, MulCons(c, n, q, bits, k))
    ensures PointAt(asg, MulBase(n, q, k - 1)) == at(Times(g, Pow2(k - 1), x))
    ensures PointAt(asg, MulOut(n, k - 1)) == at(Times(g, ValueOf(Vals(asg, bits)[..k]), x))
  {
    hide Coordinates, SatAll, PointAt, MulStepCons, Times, ValueOf, SelectOut, DoubleOut, AddOut;
    CoordinateParts(c, g, at);
    var s := Vals(asg, bits);
    var b := bits[k - 1];
    assert b.IsBit(asg);
    SatConcat(c.p, asg, MulCons(c, n, q, bits, k - 1), MulStepCons(c, n, q, b, k - 1));
    assert s[..k] == s[..k - 1] + [s[k - 1]];
    BitTerm(g, x, s[..k - 1], s[k - 1]);
    if k == 1 {
      FirstBit(c, g, at, asg, n, q, b, x);
      assert s[..1] == [b.Holds(asg)];
    } else {
      MulPrefix(c, g, at, asg, n, q, bits, x, k - 1);
      var base := Times(g, Pow2(k - 2), x);
      MulStepSound(c, g, at, asg, n, q, b, k - 1, base, Times(g, ValueOf(s[..k - 1]), x));
      TimesAdd(g, Pow2(k - 2), Pow2(k - 2), x);
    }
  }

  lemma FirstBit<P(!new)>(c: Curve, g: Group<P>, at: P -> Coords, asg: Assignment, n: nat, q: EdwardsPoint,
                          b: Boolean, x: P)
    requires Coordinates(c, g, at) && InField(c.p, asg) && b.IsBit(asg) && PointAt(asg, q) == at(x)
    requires SatAll(c.p, asg, MulStepCons(c, n, q, b, 0))
    ensures PointAt(asg, MulBase(n, q, 0)) == at(Times(g, Pow2(0), x))
    ensures PointAt(asg, MulOut(n, 0)) == at(Times(g, ValueOf([b.Holds(asg)]), x))
  {
    hide Coordinates, SatAll, PointAt, SelectCons, Abelian;
    CoordinateParts(c, g, at);
    SelectMeaning(c, asg, n, q, b);
    TimesOne(g, x);
    assert Times(g, 0, x) == g.zero;
    assert [b.Holds(asg)][1..] == [];
  }

  /** The scalar multiple in the group, for any satisfying values and every number of bits. */
  lemma MulSound<P(!new)>(c: Curve, g: Group<P>, at: P -> Coords, asg: Assignment, n: nat, q: EdwardsPoint,
                          bits: seq<Boolean>, x: P)
    requires Coordinates(c, g, at) && InField(c.p, asg) && AllBits(asg, bits) && PointAt(asg, q) == at(x)
    requires bits != [] && SatAll(c.p, asg, MulCons(c, n, q, bits, |bits|))
    ensures PointAt(asg, MulOut(n, |bits| - 1)) == at(Times(g, ValueOf(Vals(asg, bits)), x))
  {
    hide Coordinates, SatAll, PointAt, MulCons, Times, ValueOf;
    MulPrefix(c, g, at, asg, n, q, bits, x, |bits|);
    assert Vals(asg, bits)[..|bits|] == Vals(asg, bits);
  }
}
