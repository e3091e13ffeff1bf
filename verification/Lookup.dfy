/**
 The table lookup of the Pedersen gadget, bellman's
 `lookup3_xy_with_conditional_negation` as sapling_pedersen.rs calls it: two
 bits select one of four points, a third negates it.
 */
module Lookup {
  import opened Wrappers
  import opened Bits
  import opened PrimeField
  import opened R1cs
  import opened Groups
  import opened BitGadgets
  import opened FixedBase
  import opened Montgomery
  import opened MontgomeryLaw
  import opened MontgomeryGadgets
  import opened EdwardsLaw
  import opened EdwardsGadgets
  import opened EdwardsRun
  import opened PointGadgets
  import PedersenHash

  // ---------------------------------------------------- the constraints

  /** The combination of 1, a, b and a * b with the value v[a + 2 b]. */
  function SelectedLc(v: seq<int>, a: Boolean, b: Boolean, both: Boolean): LinComb
    requires |v| == 4
  {
    Plus(Plus(Plus(Single(v[0], One), a.Lc(v[1] - v[0])), b.Lc(v[2] - v[0])), both.Lc(v[3] - v[2] - v[1] + v[0]))
  }

  function Firsts(t: seq<Coords>): (r: seq<int>)
    ensures |r| == |t|
  {
    seq(|t|, k requires 0 <= k < |t| => t[k].0)
  }

  function Seconds(t: seq<Coords>): (r: seq<int>)
    ensures |r| == |t|
  {
    seq(|t|, k requires 0 <= k < |t| => t[k].1)
  }

  /** The coordinate y is allocated at n, then the conjunction of a and b. */
  function LookupCons(t: seq<Coords>, n: nat, a: Boolean, b: Boolean, s: Boolean): seq<Constraint>
    requires |t| == 4
  {
    var y := SelectedLc(Seconds(t), a, b, AndOut(n + 1, a, b));
    AndCons(n + 1, a, b) + [Constraint(Plus(y, y), s.Lc(1), Minus(y, Num(n)))]
  }

  function LookupLen(a: Boolean, b: Boolean): nat { 1 + AndLen(a, b) }

  function LookupOut(t: seq<Coords>, n: nat, a: Boolean, b: Boolean, x: Option<int>, y: Option<int>): MontgomeryPoint
    requires |t| == 4
  {
    MontgomeryPoint(Number(x, SelectedLc(Firsts(t), a, b, AndOut(n + 1, a, b))), Number(y, Num(n)))
  }

  /** The index of two known bits. */
  function IndexOf(a: Option<bool>, b: Option<bool>): Option<nat> {
    if a.Some? && b.Some? then Some(Bit(a.value) + 2 * Bit(b.value)) else None
  }

  function FirstOf(t: seq<Coords>, a: Option<bool>, b: Option<bool>): Option<int>
    requires |t| == 4
  {
    match IndexOf(a, b)
    case None => None
    case Some(i) => Some(t[i].0)
  }

  function SecondOf(p: int, t: seq<Coords>, a: Option<bool>, b: Option<bool>, s: Option<bool>): Option<int>
    requires p > 0 && |t| == 4
  {
    match IndexOf(a, b)
    case None => None
    case Some(i) => if s.None? then None else Some((if s.value then -t[i].1 else t[i].1) % p)
  }

  function LookupAux(p: int, t: seq<Coords>, aux: seq<Option<int>>, a: Boolean, b: Boolean, s: Boolean)
    : (r: seq<Option<int>>)
    requires p > 0 && |t| == 4
    ensures aux <= r && |r| == |aux| + LookupLen(a, b)
  {
    AndAux(aux + [SecondOf(p, t, ReadBit(aux, a), ReadBit(aux, b), ReadBit(aux, s))], a, b)
  }

  function LookupResult(p: int, t: seq<Coords>, aux: seq<Option<int>>, a: Boolean, b: Boolean, s: Boolean)
    : MontgomeryPoint
    requires p > 0 && |t| == 4
  {
    LookupOut(t, |aux|, a, b, FirstOf(t, ReadBit(aux, a), ReadBit(aux, b)),
              SecondOf(p, t, ReadBit(aux, a), ReadBit(aux, b), ReadBit(aux, s)))
  }

  method LookupWithNegation(cs: ConstraintSystem, p: int, t: seq<Coords>, a: Boolean, b: Boolean, s: Boolean)
    returns (q: MontgomeryPoint)
    requires p > 0 && |t| == 4
    modifies cs
    ensures q == LookupResult(p, t, old(cs.aux), a, b, s)
    ensures cs.aux == LookupAux(p, t, old(cs.aux), a, b, s)
    ensures cs.constraints == old(cs.constraints) + LookupCons(t, |old(cs.aux)|, a, b, s) && cs.inputs == old(cs.inputs)
  {
    hide SelectedLc, AndCons, AndAux, AndOut, FirstOf, SecondOf, Plus, Minus;
    var x := FirstOf(t, cs.GetValue(a), cs.GetValue(b));
    var yv := SecondOf(p, t, cs.GetValue(a), cs.GetValue(b), cs.GetValue(s));
    var n := cs.Alloc(yv);
    var both := And(cs, a, b);
    var y := SelectedLc(Seconds(t), a, b, both);
    cs.Enforce(Plus(y, y), s.Lc(1), Minus(y, Num(n)));
    q := MontgomeryPoint(Number(x, SelectedLc(Firsts(t), a, b, both)), Number(yv, Num(n)));
  }

  // ------------------------------------------------------------- meaning

  /** Under bits whose conjunction is held, the combination has the selected value. */
  lemma SelectedValue(asg: Assignment, v: seq<int>, a: Boolean, b: Boolean, both: Boolean)
    requires |v| == 4 && a.IsBit(asg) && b.IsBit(asg) && both.IsBit(asg)
    requires both.Holds(asg) == (a.Holds(asg) && b.Holds(asg))
    ensures 0 <= Bit(a.Holds(asg)) + 2 * Bit(b.Holds(asg)) < 4
    ensures Eval(SelectedLc(v, a, b, both), asg) == v[Bit(a.Holds(asg)) + 2 * Bit(b.Holds(asg))]
  {
    hide *;
    BitCases(asg, a);
    BitCases(asg, b);
    BitCases(asg, both);
    BitsAre(a.Holds(asg));
    BitsAre(b.Holds(asg));
    SelectedEval(asg, v, a, b, both);
    SelectedTerm(v, a.Val(asg), b.Val(asg), both.Val(asg));
  }

  lemma BitsAre(x: bool)
    ensures Bit(x) == if x then 1 else 0
  {
  }

  lemma SelectedEval(asg: Assignment, v: seq<int>, a: Boolean, b: Boolean, both: Boolean)
    requires |v| == 4
    ensures Eval(SelectedLc(v, a, b, both), asg) ==
            v[0] + (v[1] - v[0]) * a.Val(asg) + (v[2] - v[0]) * b.Val(asg)
            + (v[3] - v[2] - v[1] + v[0]) * both.Val(asg)
  {
    hide Eval, Plus, Single, Boolean.Lc, Boolean.Val;
    LcVal(a, v[1] - v[0], asg);
    LcVal(b, v[2] - v[0], asg);
    LcVal(both, v[3] - v[2] - v[1] + v[0], asg);
  }

  lemma SelectedTerm(v: seq<int>, x: int, y: int, z: int)
    requires |v| == 4 && (x == 0 || x == 1) && (y == 0 || y == 1) && z == if x == 1 then y else 0
    ensures v[0] + (v[1] - v[0]) * x + (v[2] - v[0]) * y + (v[3] - v[2] - v[1] + v[0]) * z == v[x + 2 * y]
  {
  }

  /** The constraints hold exactly when the conjunction does and y is the selected coordinate, negated under s. */
  lemma LookupMeaning(p: int, asg: Assignment, t: seq<Coords>, n: nat, a: Boolean, b: Boolean, s: Boolean)
    requires InField(p, asg) && |t| == 4 && a.IsBit(asg) && b.IsBit(asg) && s.IsBit(asg)
    ensures 0 <= Bit(a.Holds(asg)) + 2 * Bit(b.Holds(asg)) < 4
    ensures var y := t[Bit(a.Holds(asg)) + 2 * Bit(b.Holds(asg))].1;
      SatAll(p, asg, LookupCons(t, n, a, b, s)) <==>
      SatAll(p, asg, AndCons(n + 1, a, b)) && Congruent(p, asg.At(Aux(n)), if s.Holds(asg) then -y else y)
  {
    hide SelectedLc, AndCons, Congruent, Eval, SatAll;
    var both, k := AndOut(n + 1, a, b), LookupCons(t, n, a, b, s)[|AndCons(n + 1, a, b)|];
    SatConcat(p, asg, AndCons(n + 1, a, b), [k]);
    if SatAll(p, asg, AndCons(n + 1, a, b)) {
      AndMeaning(p, asg, n + 1, a, b);
      SelectedValue(asg, Seconds(t), a, b, both);
      LcVal(s, 1, asg);
      var y := t[Bit(a.Holds(asg)) + 2 * Bit(b.Holds(asg))].1;
      OneConstraint(p, asg, k);
      NegationMeaning(p, y, s.Val(asg), asg.At(Aux(n)));
    }
  }

  lemma OneConstraint(p: int, asg: Assignment, k: Constraint)
    requires p > 0
    ensures SatAll(p, asg, [k]) <==> Congruent(p, Eval(k.a, asg) * Eval(k.b, asg), Eval(k.c, asg))
  {
    hide Eval, Congruent;
    assert SatAll(p, asg, [k]) <==> Sat(p, asg, [k][0]);
  }

  /** 2 y s == y - z says that z is y, or -y under s. */
  lemma NegationMeaning(p: int, y: int, s: int, z: int)
    requires p > 0 && (s == 0 || s == 1)
    ensures Congruent(p, (y + y) * s, y - z) <==> Congruent(p, z, if s == 1 then -y else y)
  {
    assert (y + y) * s - (y - z) == z - (if s == 1 then -y else y);
  }

  // -------------------------------------------------- the selected entry

  /** The point with the first coordinate negated is the inverse. */
  lemma NegatedPoint<P(!new)>(c: Curve, g: Group<P>, at: P -> Coords, x: P)
    requires Coordinates(c, g, at) && at(x).0 != 0
    ensures at(g.neg(x)) == (c.p - at(x).0, at(x).1)
  {
    hide *;
    CoordinateParts(c, g, at);
    PointsOnCurve(c, g, at, x, x);
    OnCurveIs(c, at(x));
    var q := (c.p - at(x).0, at(x).1);
    MirroredOnCurve(c, at(x));
    var y := PointWith(c, g, at, q);
    OppositeSum(c, q, at(x));
    SumIs(c, g, at, y, x, (0, 1));
    SamePoint(c, g, at, g.add(y, x), g.zero);
    DifferenceUnique(g, g.zero, x, y);
    Unit(g, g.neg(x));
  }

  lemma MirroredOnCurve(c: Curve, q: Coords)
    requires c.p > 1 && OnCurve(c, q) && q.0 != 0
    ensures OnCurve(c, (c.p - q.0, q.1))
  {
    hide Congruent;
    var u, w := q.0, c.p - q.0;
    SameSquare(c.p, u);
    var z := q.1 * q.1;
    CongruentSelf(c.p, z);
    CongruentSelf(c.p, 1);
    CongruentSelf(c.p, c.d);
    CongruentAdd(c.p, z, z, w * w, u * u);
    CongruentMul(c.p, w * w, u * u, z, z);
    CongruentMul(c.p, c.d, c.d, (w * w) * z, (u * u) * z);
    CongruentAdd(c.p, 1, 1, c.d * ((w * w) * z), c.d * ((u * u) * z));
    CongruentTransitive(c.p, z - w * w, z - u * u, 1 + c.d * ((u * u) * z));
    CongruentSymmetric(c.p, 1 + c.d * ((w * w) * z), 1 + c.d * ((u * u) * z));
    CongruentTransitive(c.p, z - w * w, 1 + c.d * ((u * u) * z), 1 + c.d * ((w * w) * z));
  }

  lemma SameSquare(p: int, u: int)
    requires p > 0
    ensures Congruent(p, (p - u) * (p - u), u * u)
  {
    MultipleDivides(p, p - 2 * u);
    assert (p - u) * (p - u) - u * u == p * (p - 2 * u);
  }

  /** Its Montgomery coordinates are those of the point, the second negated. */
  lemma NegatedImage(c: Curve, z: Coords, m: Coords)
    requires IsPrime(c.p) && Matching(c) && OnCurve(c, z) && z.0 != 0
    requires ToMontgomeryCoords(c, z.0, z.1) == Some(m)
    ensures Scalar(c, c.p - z.0) && Scalar(c, z.1)
    ensures ToMontgomeryCoords(c, c.p - z.0, z.1) == Some((m.0, (-m.1) % c.p))
  {
    hide *;
    PrimeAboveOne(c.p);
    OnCurveIs(c, z);
    ScalarIs(c, z.0);
    ScalarIs(c, z.1);
    ScalarIs(c, c.p - z.0);
    MirroredOnCurve(c, z);
    MapsAway(c, z);
    CorrespondParts(c, z, m);
    ModCongruent(c.p, -m.1);
    var w, n := (c.p - z.0, z.1), (m.0, (-m.1) % c.p);
    ScalarIs(c, n.0);
    ScalarIs(c, n.1);
    OppositeProduct(c.p, z.0, m.1, n.1, c.scale * m.0);
    CorrespondWhole(c, w, n);
    CorrespondsExactly(c, w, n);
  }

  lemma OppositeProduct(p: int, u: int, y: int, z: int, t: int)
    requires p > 0 && Congruent(p, u * y, t) && Congruent(p, z, -y)
    ensures Congruent(p, (p - u) * z, t)
  {
    hide Congruent;
    CongruentSelf(p, p - u);
    CongruentMul(p, p - u, p - u, z, -y);
    OppositeFactors(p, u, y);
    CongruentTransitive(p, (p - u) * -y, u * y, t);
    CongruentTransitive(p, (p - u) * z, (p - u) * -y, t);
  }

  lemma OppositeFactors(p: int, u: int, y: int)
    requires p > 0
    ensures Congruent(p, (p - u) * -y, u * y)
  {
    MultipleDivides(p, -y);
    assert (p - u) * -y - u * y == p * -y;
  }

  /** The table of chunk w: the Montgomery coordinates of the first four multiples. */
  ghost predicate TableOf<P>(c: Curve, g: Group<P>, at: P -> Coords, gen: P, w: nat, t: seq<Coords>) {
    && IsPrime(c.p) && |t| == 4
    && forall k :: 0 <= k < 4 ==>
      var z := at(ChunkPoint(g, gen, w, k));
      Scalar(c, z.0) && Scalar(c, z.1) && ToMontgomeryCoords(c, z.0, z.1) == Some(t[k])
  }

  /** The coordinates of the entry that the bits select, negated under the third. */
  lemma SelectedCoords<P(!new)>(c: Curve, g: Group<P>, at: P -> Coords, gen: P, n: nat, w: nat, t: seq<Coords>,
                                a: bool, b: bool, s: bool)
    requires Coordinates(c, g, at) && Matching(c) && TableOf(c, g, at, gen, w, t)
    requires n % 2 == 1 && HasOrder(g, gen, n) && ChunkPoint(g, gen, w, Bit(a) + 2 * Bit(b)) != g.zero
    ensures 0 <= Bit(a) + 2 * Bit(b) < 4
    ensures var z, m := at(SelectedPoint(g, gen, w, PedersenHash.DigitOf(a, b, s))), t[Bit(a) + 2 * Bit(b)];
      && Scalar(c, z.0) && Scalar(c, z.1)
      && ToMontgomeryCoords(c, z.0, z.1) == Some((m.0, if s then (-m.1) % c.p else m.1))
  {
    hide *;
    CoordinateParts(c, g, at);
    BitsAre(a);
    BitsAre(b);
    var i := Bit(a) + 2 * Bit(b);
    var x := ChunkPoint(g, gen, w, i);
    TableEntry(c, g, at, gen, w, t, i);
    SelectedEntry(g, gen, w, a, b, s);
    ChunkKilled(g, gen, n, w, i);
    ProperFirst(c, g, at, n, x);
    PointsOnCurve(c, g, at, x, x);
    NegatedPoint(c, g, at, x);
    NegatedImage(c, at(x), t[i]);
  }

  lemma TableEntry<P>(c: Curve, g: Group<P>, at: P -> Coords, gen: P, w: nat, t: seq<Coords>, i: nat)
    requires TableOf(c, g, at, gen, w, t) && i < 4
    ensures IsPrime(c.p) && |t| == 4
    ensures var z := at(ChunkPoint(g, gen, w, i));
      Scalar(c, z.0) && Scalar(c, z.1) && ToMontgomeryCoords(c, z.0, z.1) == Some(t[i])
  {
  }

  lemma SelectedEntry<P>(g: Group<P>, gen: P, w: nat, a: bool, b: bool, s: bool)
    ensures var x := ChunkPoint(g, gen, w, Bit(a) + 2 * Bit(b));
      SelectedPoint(g, gen, w, PedersenHash.DigitOf(a, b, s)) == if s then g.neg(x) else x
  {
    hide ChunkPoint;
  }

  lemma ChunkKilled<P(!new)>(g: Group<P>, gen: P, n: nat, w: nat, k: nat)
    requires Abelian(g) && HasOrder(g, gen, n)
    ensures Times(g, n, ChunkPoint(g, gen, w, k)) == g.zero
  {
    hide Abelian, HasOrder, Times, Power;
    TimesMul(g, k + 1, Power(16, w), gen);
    var m: nat := (k + 1) * Power(16, w);
    TimesSwap(g, n, m, gen);
    OrderAt(g, gen, n, n);
    MultipleDivides(n, 1);
    TimesZero(g, m);
  }

  /** Satisfying values of a lookup are the image of the entry that its bits select. */
  lemma LookupSound<P(!new)>(c: Curve, g: Group<P>, at: P -> Coords, asg: Assignment, gen: P, n: nat, w: nat,
                             t: seq<Coords>, k: nat, a: Boolean, b: Boolean, s: Boolean, out: MontgomeryPoint)
    requires Coordinates(c, g, at) && Matching(c) && TableOf(c, g, at, gen, w, t) && InField(c.p, asg)
    requires n % 2 == 1 && HasOrder(g, gen, n) && a.IsBit(asg) && b.IsBit(asg) && s.IsBit(asg)
    requires ChunkPoint(g, gen, w, Bit(a.Holds(asg)) + 2 * Bit(b.Holds(asg))) != g.zero
    requires SatAll(c.p, asg, LookupCons(t, k, a, b, s)) && out == LookupOut(t, k, a, b, out.x.value, out.y.value)
    ensures var d := PedersenHash.DigitOf(a.Holds(asg), b.Holds(asg), s.Holds(asg));
      Carries(c, asg, out, at(SelectedPoint(g, gen, w, d)))
  {
    hide *;
    CoordinatesPrime(c, g, at);
    PrimeAboveOne(c.p);
    TableEntry(c, g, at, gen, w, t, 0);
    SelectedCoords(c, g, at, gen, n, w, t, a.Holds(asg), b.Holds(asg), s.Holds(asg));
    LookupMeaning(c.p, asg, t, k, a, b, s);
    AndMeaning(c.p, asg, k + 1, a, b);
    SelectedValue(asg, Firsts(t), a, b, AndOut(k + 1, a, b));
    var m := t[Bit(a.Holds(asg)) + 2 * Bit(b.Holds(asg))];
    CongruentSelf(c.p, m.0);
    ModCongruent(c.p, -m.1);
    OutputIs(asg, t, k, a, b, out);
    if s.Holds(asg) { CongruentTransitive(c.p, asg.At(Aux(k)), -m.1, (-m.1) % c.p); }
    CarriesIs(c, asg, out, at(SelectedPoint(g, gen, w, PedersenHash.DigitOf(a.Holds(asg), b.Holds(asg), s.Holds(asg)))),
              (m.0, if s.Holds(asg) then (-m.1) % c.p else m.1));
  }

  lemma OutputIs(asg: Assignment, t: seq<Coords>, k: nat, a: Boolean, b: Boolean, out: MontgomeryPoint)
    requires |t| == 4 && out == LookupOut(t, k, a, b, out.x.value, out.y.value)
    ensures LcAt(asg, out) == (Eval(SelectedLc(Firsts(t), a, b, AndOut(k + 1, a, b)), asg), asg.At(Aux(k)))
    ensures forall i :: 0 <= i < 4 ==> Firsts(t)[i] == t[i].0
  {
    hide Eval, SelectedLc, AndOut;
  }

  lemma CarriesIs(c: Curve, asg: Assignment, q: MontgomeryPoint, z: Coords, m: Coords)
    requires IsPrime(c.p) && Scalar(c, z.0) && Scalar(c, z.1) && ToMontgomeryCoords(c, z.0, z.1) == Some(m)
    requires c.p > 0 && Congruent(c.p, LcAt(asg, q).0, m.0) && Congruent(c.p, LcAt(asg, q).1, m.1)
    ensures Carries(c, asg, q, z)
  {
  }

  // --------------------------------------------------------- completeness

  /** On known bits the computed values satisfy the constraints. */
  lemma LookupHeld(p: int, t: seq<Coords>, aux: seq<Option<int>>, a: Boolean, b: Boolean, s: Boolean, asg: Assignment)
    requires InField(p, asg) && |t| == 4 && Agrees(asg, LookupAux(p, t, aux, a, b, s))
    requires ReadBit(aux, a).Some? && ReadBit(aux, b).Some? && ReadBit(aux, s).Some?
    ensures a.IsBit(asg) && b.IsBit(asg) && s.IsBit(asg)
    ensures a.Holds(asg) == ReadBit(aux, a).value && b.Holds(asg) == ReadBit(aux, b).value
    ensures s.Holds(asg) == ReadBit(aux, s).value && SatAll(p, asg, LookupCons(t, |aux|, a, b, s))
  {
    hide AndCons, AndAux, SelectedLc, SatAll, LookupCons, Congruent, ReadBit, Agrees;
    var y := SecondOf(p, t, ReadBit(aux, a), ReadBit(aux, b), ReadBit(aux, s));
    var next, more := aux + [y], LookupAux(p, t, aux, a, b, s);
    AgreesPrefix(asg, next, more);
    ReadBitHolds(asg, aux, more, a);
    ReadBitHolds(asg, aux, more, b);
    ReadBitHolds(asg, aux, more, s);
    ReadBitHolds(asg, aux, next, a);
    ReadBitHolds(asg, aux, next, b);
    AndComplete(p, asg, next, a, b);
    LastHeld(asg, aux, y.value);
    LookupMeaning(p, asg, t, |aux|, a, b, s);
    BitsAre(a.Holds(asg));
    BitsAre(b.Holds(asg));
    var v := t[Bit(a.Holds(asg)) + 2 * Bit(b.Holds(asg))].1;
    ModCongruent(p, v);
    ModCongruent(p, -v);
  }

  lemma LastHeld(asg: Assignment, aux: seq<Option<int>>, y: int)
    requires Agrees(asg, aux + [Some(y)])
    ensures asg.At(Aux(|aux|)) == y
  {
    assert (aux + [Some(y)])[|aux|] == Some(y);
  }

  /** What the lookup computes on known bits is the entry they select, in every assignment with these values. */
  lemma LookupComplete<P(!new)>(c: Curve, g: Group<P>, at: P -> Coords, gen: P, n: nat, w: nat, t: seq<Coords>,
                                aux: seq<Option<int>>, a: Boolean, b: Boolean, s: Boolean)
    requires Coordinates(c, g, at) && Matching(c) && TableOf(c, g, at, gen, w, t) && n % 2 == 1 && HasOrder(g, gen, n)
    requires ReadBit(aux, a).Some? && ReadBit(aux, b).Some? && ReadBit(aux, s).Some?
    requires ChunkPoint(g, gen, w, Bit(ReadBit(aux, a).value) + 2 * Bit(ReadBit(aux, b).value)) != g.zero
    ensures c.p > 0 && SatisfiedBy(c.p, LookupAux(c.p, t, aux, a, b, s), LookupCons(t, |aux|, a, b, s))
    ensures var d := PedersenHash.DigitOf(ReadBit(aux, a).value, ReadBit(aux, b).value, ReadBit(aux, s).value);
      Holds(c, LookupAux(c.p, t, aux, a, b, s), LookupResult(c.p, t, aux, a, b, s), at(SelectedPoint(g, gen, w, d)))
  {
    hide *;
    CoordinatesPrime(c, g, at);
    PrimeAboveOne(c.p);
    TableEntry(c, g, at, gen, w, t, 0);
    var x, y, z := ReadBit(aux, a).value, ReadBit(aux, b).value, ReadBit(aux, s).value;
    var more, out := LookupAux(c.p, t, aux, a, b, s), LookupResult(c.p, t, aux, a, b, s);
    var q := at(SelectedPoint(g, gen, w, PedersenHash.DigitOf(x, y, z)));
    SelectedCoords(c, g, at, gen, n, w, t, x, y, z);
    forall asg | InField(c.p, asg) && Agrees(asg, more)
      ensures SatAll(c.p, asg, LookupCons(t, |aux|, a, b, s)) && Carries(c, asg, out, q)
    {
      LookupHeld(c.p, t, aux, a, b, s, asg);
      ResultIs(c.p, t, aux, a, b, s);
      LookupSound(c, g, at, asg, gen, n, w, t, |aux|, a, b, s, out);
    }
    SatisfiedIs(c.p, more, LookupCons(t, |aux|, a, b, s));
    ResultIs(c.p, t, aux, a, b, s);
    BitsAre(x);
    BitsAre(y);
    var m := t[Bit(x) + 2 * Bit(y)];
    EntryInRange(c, g, at, gen, n, w, t, Bit(x) + 2 * Bit(y));
    HoldsIs(c, more, out, q, (m.0, if z then (-m.1) % c.p else m.1));
  }

  lemma ResultIs(p: int, t: seq<Coords>, aux: seq<Option<int>>, a: Boolean, b: Boolean, s: Boolean)
    requires p > 0 && |t| == 4 && ReadBit(aux, a).Some? && ReadBit(aux, b).Some? && ReadBit(aux, s).Some?
    ensures var out := LookupResult(p, t, aux, a, b, s);
      var m := t[Bit(ReadBit(aux, a).value) + 2 * Bit(ReadBit(aux, b).value)];
      && out == LookupOut(t, |aux|, a, b, out.x.value, out.y.value) && out.x.value == Some(m.0)
      && out.y.value == Some((if ReadBit(aux, s).value then -m.1 else m.1) % p)
  {
    hide SelectedLc, AndOut, ReadBit;
  }

  lemma EntryInRange<P(!new)>(c: Curve, g: Group<P>, at: P -> Coords, gen: P, n: nat, w: nat, t: seq<Coords>, i: nat)
    requires Coordinates(c, g, at) && Matching(c) && TableOf(c, g, at, gen, w, t) && i < 4
    requires n % 2 == 1 && HasOrder(g, gen, n) && ChunkPoint(g, gen, w, i) != g.zero
    ensures c.p > 0 && |t| == 4 && t[i].1 % c.p == t[i].1
  {
    hide *;
    CoordinatesPrime(c, g, at);
    CoordinateParts(c, g, at);
    PrimeAboveOne(c.p);
    var x := ChunkPoint(g, gen, w, i);
    TableEntry(c, g, at, gen, w, t, i);
    ChunkKilled(g, gen, n, w, i);
    ProperFirst(c, g, at, n, x);
    PointsOnCurve(c, g, at, x, x);
    MapsAway(c, at(x));
    ScalarIs(c, t[i].1);
    SmallResidue(c.p, t[i].1);
  }

  lemma SmallResidue(p: int, x: int)
    requires 0 <= x < p
    ensures x % p == x
  {
  }

  lemma HoldsIs(c: Curve, aux: seq<Option<int>>, q: MontgomeryPoint, z: Coords, m: Coords)
    requires IsPrime(c.p) && Scalar(c, z.0) && Scalar(c, z.1) && ToMontgomeryCoords(c, z.0, z.1) == Some(m)
    requires q.x.value == Some(m.0) && q.y.value == Some(m.1)
    requires forall asg :: InField(c.p, asg) && Agrees(asg, aux) ==> Carries(c, asg, q, z)
    ensures Holds(c, aux, q, z)
  {
  }
}
