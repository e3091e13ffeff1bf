/**
 The run of the curve gadgets (crypto-circuit-age/src/gadgets/sapling_ecc.rs):
 the methods with the values they compute, and completeness: on points of the
 curve no division fails and the values satisfy the constraints.
 */
module EdwardsRun {
  import opened Wrappers
  import opened Bits
  import opened PrimeField
  import opened R1cs
  import opened Groups
  import opened Montgomery
  import opened EdwardsLaw
  import opened EdwardsGadgets

  function NumVal(aux: seq<Option<int>>, i: nat): Option<int> { if i < |aux| then aux[i] else None }

  function PointVal(aux: seq<Option<int>>, q: EdwardsPoint): Option<Coords> {
    var u :- NumVal(aux, q.u);
    var v :- NumVal(aux, q.v);
    Some((u, v))
  }

  function SumOf(x: Option<int>, y: Option<int>): Option<int> {
    var a :- x;
    var b :- y;
    Some(a + b)
  }

  function DifferenceOf(x: Option<int>, y: Option<int>): Option<int> {
    var a :- x;
    var b :- y;
    Some(a - b)
  }

  function ProductOf(p: int, x: Option<int>, y: Option<int>): Option<int>
    requires p > 0
  {
    var a :- x;
    var b :- y;
    Some((a * b) % p)
  }

  function QuotientOf(p: int, x: Option<int>, y: Option<int>): Option<int>
    requires IsPrime(p)
  {
    var a :- x;
    var b :- y;
    if b % p == 0 then None else Some((a * Inverse(p, b % p)) % p)
  }

  /** A division fails when the divisor is known and zero. */
  predicate DivisionFails(p: int, den: Option<int>)
    requires p > 0
  {
    den.Some? && den.value % p == 0
  }

  /** The values of `add`'s variables; `double` has the same with B = A left out. */
  datatype Steps = Steps(t: Option<int>, a: Option<int>, b: Option<int>, k: Option<int>, u: Option<int>, v: Option<int>)

  function SumSteps(c: Curve, u1: Option<int>, v1: Option<int>, u2: Option<int>, v2: Option<int>): Steps
    requires IsPrime(c.p)
  {
    var t := ProductOf(c.p, SumOf(u1, v1), SumOf(u2, v2));
    var a, b := ProductOf(c.p, v2, u1), ProductOf(c.p, u2, v1);
    var k := ProductOf(c.p, ProductOf(c.p, a, b), Some(c.d));
    Steps(t, a, b, k, QuotientOf(c.p, SumOf(a, b), SumOf(Some(1), k)),
          QuotientOf(c.p, DifferenceOf(DifferenceOf(t, a), b), DifferenceOf(Some(1), k)))
  }

  function StepsOf(c: Curve, aux: seq<Option<int>>, q: EdwardsPoint, r: EdwardsPoint): Steps
    requires IsPrime(c.p)
  {
    SumSteps(c, NumVal(aux, q.u), NumVal(aux, q.v), NumVal(aux, r.u), NumVal(aux, r.v))
  }

  predicate StepsFail(p: int, x: Steps)
    requires p > 0
  {
    DivisionFails(p, SumOf(Some(1), x.k)) || DivisionFails(p, DifferenceOf(Some(1), x.k))
  }

  function AddAux(c: Curve, aux: seq<Option<int>>, q: EdwardsPoint, r: EdwardsPoint): (s: seq<Option<int>>)
    requires IsPrime(c.p)
    ensures aux <= s && |s| == |aux| + 6
  {
    var x := StepsOf(c, aux, q, r);
    aux + [x.t, x.a, x.b, x.k, x.u, x.v]
  }

  function DoubleAux(c: Curve, aux: seq<Option<int>>, q: EdwardsPoint): (s: seq<Option<int>>)
    requires IsPrime(c.p)
    ensures aux <= s && |s| == |aux| + 5
  {
    var x := StepsOf(c, aux, q, q);
    aux + [x.t, x.a, x.k, x.u, x.v]
  }

  function SelectAux(aux: seq<Option<int>>, q: EdwardsPoint, b: Boolean): (s: seq<Option<int>>)
    ensures aux <= s && |s| == |aux| + 2
  {
    match ReadBit(aux, b)
    case None => aux + [None, None]
    case Some(bit) => aux + (if bit then [NumVal(aux, q.u), NumVal(aux, q.v)] else [Some(0), Some(1)])
  }

  predicate Allocated(aux: seq<Option<int>>, q: EdwardsPoint) { q.u < |aux| && q.v < |aux| }

  /** `AllocatedNum::mul`. */
  method AllocProduct(cs: ConstraintSystem, p: int, a: nat, b: nat) returns (out: nat)
    requires p > 0
    modifies cs
    ensures out == |old(cs.aux)|
    ensures cs.aux == old(cs.aux) + [ProductOf(p, NumVal(old(cs.aux), a), NumVal(old(cs.aux), b))]
    ensures cs.constraints == old(cs.constraints) + [MulCon(a, b, out)] && cs.inputs == old(cs.inputs)
  {
    out := cs.Alloc(ProductOf(p, NumVal(cs.aux, a), NumVal(cs.aux, b)));
    cs.Enforce(Num(a), Num(b), Num(out));
  }

  function QuotientCons(t: nat, a: nat, b: nat, k: nat, s: EdwardsPoint): seq<Constraint> {
    [Constraint(Plus(ONES, Num(k)), Num(s.u), Plus(Num(a), Num(b))),
     Constraint(Minus(ONES, Num(k)), Num(s.v), Minus(Minus(Num(t), Num(a)), Num(b)))]
  }

  /** The two divisions that end `add` and `double`. */
  method AllocQuotients(cs: ConstraintSystem, c: Curve, t: nat, a: nat, b: nat, k: nat, ghost x: Steps)
    returns (s: Result<EdwardsPoint, SynthesisError>)
    requires IsPrime(c.p) && t < |cs.aux| && a < |cs.aux| && b < |cs.aux| && k < |cs.aux|
    requires cs.aux[t] == x.t && cs.aux[a] == x.a && cs.aux[b] == x.b && cs.aux[k] == x.k
    requires x.u == QuotientOf(c.p, SumOf(x.a, x.b), SumOf(Some(1), x.k))
    requires x.v == QuotientOf(c.p, DifferenceOf(DifferenceOf(x.t, x.a), x.b), DifferenceOf(Some(1), x.k))
    modifies cs
    ensures s == if StepsFail(c.p, x) then Err(DivisionByZero)
                 else Ok(EdwardsPoint(|old(cs.aux)|, |old(cs.aux)| + 1))
    ensures s.Ok? ==> cs.aux == old(cs.aux) + [x.u, x.v]
    ensures s.Ok? ==> cs.constraints == old(cs.constraints) + QuotientCons(t, a, b, k, s.value)
    ensures cs.inputs == old(cs.inputs)
  {
    hide Plus, Minus, Single;
    var tv, av, bv, kv := cs.aux[t], cs.aux[a], cs.aux[b], cs.aux[k];
    if DivisionFails(c.p, SumOf(Some(1), kv)) {
      return Err(DivisionByZero);
    }
    var u := cs.Alloc(QuotientOf(c.p, SumOf(av, bv), SumOf(Some(1), kv)));
    cs.Enforce(Plus(ONES, Num(k)), Num(u), Plus(Num(a), Num(b)));
    if DivisionFails(c.p, DifferenceOf(Some(1), kv)) {
      return Err(DivisionByZero);
    }
    var v := cs.Alloc(QuotientOf(c.p, DifferenceOf(DifferenceOf(tv, av), bv), DifferenceOf(Some(1), kv)));
    cs.Enforce(Minus(ONES, Num(k)), Num(v), Minus(Minus(Num(t), Num(a)), Num(b)));
    s := Ok(EdwardsPoint(u, v));
  }

  method Add(cs: ConstraintSystem, c: Curve, q: EdwardsPoint, r: EdwardsPoint)
    returns (s: Result<EdwardsPoint, SynthesisError>)
    requires IsPrime(c.p) && Allocated(cs.aux, q) && Allocated(cs.aux, r)
    modifies cs
    ensures s == if StepsFail(c.p, StepsOf(c, old(cs.aux), q, r)) then Err(DivisionByZero)
                 else Ok(AddOut(|old(cs.aux)|))
    ensures s.Ok? ==> cs.aux == AddAux(c, old(cs.aux), q, r)
    ensures s.Ok? ==> cs.constraints == old(cs.constraints) + AddCons(c, |old(cs.aux)|, q, r)
    ensures cs.inputs == old(cs.inputs)
  {
    hide Plus, Minus, Single, QuotientOf, ProductOf;
    ghost var x := StepsOf(c, cs.aux, q, r);
    var t := cs.Alloc(ProductOf(c.p, SumOf(cs.aux[q.u], cs.aux[q.v]), SumOf(cs.aux[r.u], cs.aux[r.v])));
    cs.Enforce(Plus(Num(q.u), Num(q.v)), Plus(Num(r.u), Num(r.v)), Num(t));
    var a := AllocProduct(cs, c.p, r.v, q.u);
    var b := AllocProduct(cs, c.p, r.u, q.v);
    var k := cs.Alloc(ProductOf(c.p, ProductOf(c.p, cs.aux[a], cs.aux[b]), Some(c.d)));
    cs.Enforce(Single(c.d, Aux(a)), Num(b), Num(k));
    s := AllocQuotients(cs, c, t, a, b, k, x);
  }

  method Double(cs: ConstraintSystem, c: Curve, q: EdwardsPoint) returns (s: Result<EdwardsPoint, SynthesisError>)
    requires IsPrime(c.p) && Allocated(cs.aux, q)
    modifies cs
    ensures s == if StepsFail(c.p, StepsOf(c, old(cs.aux), q, q)) then Err(DivisionByZero)
                 else Ok(DoubleOut(|old(cs.aux)|))
    ensures s.Ok? ==> cs.aux == DoubleAux(c, old(cs.aux), q)
    ensures s.Ok? ==> cs.constraints == old(cs.constraints) + DoubleCons(c, |old(cs.aux)|, q)
    ensures cs.inputs == old(cs.inputs)
  {
    hide Plus, Minus, Single, QuotientOf;
    ghost var x := StepsOf(c, cs.aux, q, q);
    assert x.a == x.b by { ProductCommutes(c.p, NumVal(cs.aux, q.u), NumVal(cs.aux, q.v)); }
    var t := cs.Alloc(ProductOf(c.p, SumOf(cs.aux[q.u], cs.aux[q.v]), SumOf(cs.aux[q.u], cs.aux[q.v])));
    cs.Enforce(Plus(Num(q.u), Num(q.v)), Plus(Num(q.u), Num(q.v)), Num(t));
    ProductCommutes(c.p, cs.aux[q.u], cs.aux[q.v]);
    var a := AllocProduct(cs, c.p, q.u, q.v);
    var k := cs.Alloc(ProductOf(c.p, ProductOf(c.p, cs.aux[a], cs.aux[a]), Some(c.d)));
    cs.Enforce(Single(c.d, Aux(a)), Num(a), Num(k));
    s := AllocQuotients(cs, c, t, a, a, k, x);
  }

  lemma ProductCommutes(p: int, x: Option<int>, y: Option<int>)
    requires p > 0
    ensures ProductOf(p, x, y) == ProductOf(p, y, x)
  {
    if x.Some? && y.Some? { assert x.value * y.value == y.value * x.value; }
  }

  method ConditionallySelect(cs: ConstraintSystem, q: EdwardsPoint, b: Boolean) returns (s: EdwardsPoint)
    requires Allocated(cs.aux, q)
    modifies cs
    ensures s == SelectOut(|old(cs.aux)|) && cs.aux == SelectAux(old(cs.aux), q, b)
    ensures cs.constraints == old(cs.constraints) + SelectCons(|old(cs.aux)|, q, b) && cs.inputs == old(cs.inputs)
  {
    hide Minus, Single;
    var bit := cs.GetValue(b);
    var u := cs.Alloc(match bit case None => None case Some(true) => cs.aux[q.u] case Some(false) => Some(0));
    cs.Enforce(Num(q.u), b.Lc(1), Num(u));
    var v := cs.Alloc(match bit case None => None case Some(true) => cs.aux[q.v] case Some(false) => Some(1));
    cs.Enforce(Num(q.v), b.Lc(1), Minus(Num(v), b.Negated().Lc(1)));
    s := EdwardsPoint(u, v);
  }

  // --------------------------------------------------------- completeness

  lemma ProductIs(p: int, a: int, b: int)
    requires p > 0
    ensures Congruent(p, a * b, (a * b) % p) && 0 <= (a * b) % p < p
  {
    ModCongruent(p, a * b);
  }

  lemma QuotientIs(p: int, a: int, b: int)
    requires IsPrime(p) && b % p != 0
    ensures var q := (a * Inverse(p, b % p)) % p;
      0 <= q < p && Congruent(p, b * q, a)
  {
    hide IsPrime;
    PrimeAboveOne(p);
    var m, z := b % p, Inverse(p, b % p);
    ModCongruent(p, b);
    ModCongruent(p, a * z);
    var q := (a * z) % p;
    CongruentSelf(p, a);
    CongruentMul(p, b, m, q, a * z);
    assert m * (a * z) == a * (m * z);
    CongruentMul(p, a, a, m * z, 1);
    CongruentTransitive(p, b * q, m * (a * z), a * 1);
  }

  /** The steps at known points, written out. */
  lemma StepsValues(c: Curve, q: Coords, r: Coords)
    requires IsPrime(c.p)
    ensures var p := c.p;
      var st := SumSteps(c, Some(q.0), Some(q.1), Some(r.0), Some(r.1));
      var t, a, b := ((q.0 + q.1) * (r.0 + r.1)) % p, (r.1 * q.0) % p, (r.0 * q.1) % p;
      var k := (((a * b) % p) * c.d) % p;
      && st.t == Some(t) && st.a == Some(a) && st.b == Some(b) && st.k == Some(k)
      && (StepsFail(p, st) <==> (1 + k) % p == 0 || (1 - k) % p == 0)
      && st.u == QuotientOf(p, Some(a + b), Some(1 + k)) && st.v == QuotientOf(p, Some(t - a - b), Some(1 - k))
  {
    hide QuotientOf, IsPrime;
  }

  /** The values computed for a sum satisfy its equations; no division fails. */
  lemma StepsSolve(c: Curve, q: Coords, r: Coords)
    requires Complete(c) && OnCurve(c, q) && OnCurve(c, r)
    ensures var st := SumSteps(c, Some(q.0), Some(q.1), Some(r.0), Some(r.1));
      && !StepsFail(c.p, st) && st.t.Some? && st.a.Some? && st.b.Some? && st.k.Some? && st.u.Some? && st.v.Some?
      && Scalar(c, st.u.value) && Scalar(c, st.v.value)
      && AddSteps(c.p, c.d, q, r, st.t.value, st.a.value, st.b.value, st.k.value, (st.u.value, st.v.value))
  {
    hide Complete, OnEdwards, Congruent, SumSteps, StepsFail, IsPrime, Inverse;
    CompleteParts(c);
    var p := c.p;
    StepsValues(c, q, r);
    ProductIs(p, q.0 + q.1, r.0 + r.1);
    ProductIs(p, r.1, q.0);
    ProductIs(p, r.0, q.1);
    var t, a, b := ((q.0 + q.1) * (r.0 + r.1)) % p, (r.1 * q.0) % p, (r.0 * q.1) % p;
    var k := (((a * b) % p) * c.d) % p;
    CrossValue(c, q, r, a, b, k);
    QuotientIs(p, a + b, 1 + k);
    QuotientIs(p, t - a - b, 1 - k);
  }

  /** At points of the group they are the sum. */
  lemma StepsHonest<P(!new)>(c: Curve, g: Group<P>, at: P -> Coords, x: P, y: P)
    requires Coordinates(c, g, at)
    ensures IsPrime(c.p)
    ensures var q, r, s := at(x), at(y), at(g.add(x, y));
      var st := SumSteps(c, Some(q.0), Some(q.1), Some(r.0), Some(r.1));
      && !StepsFail(c.p, st) && st.t.Some? && st.a.Some? && st.b.Some? && st.k.Some?
      && st.u == Some(s.0) && st.v == Some(s.1)
      && AddSteps(c.p, c.d, q, r, st.t.value, st.a.value, st.b.value, st.k.value, s)
  {
    hide Complete, OnCurve, Coordinates, AddSteps, SumSteps, StepsFail, IsPrime;
    CoordinatesPrime(c, g, at);
    PointsOnCurve(c, g, at, x, y);
    var q, r := at(x), at(y);
    StepsSolve(c, q, r);
    var st := SumSteps(c, Some(q.0), Some(q.1), Some(r.0), Some(r.1));
    var s := (st.u.value, st.v.value);
    StepsGiveSum(c, q, r, st.t.value, st.a.value, st.b.value, st.k.value, s);
    SumIs(c, g, at, x, y, s);
  }

  lemma PointsOnCurve<P(!new)>(c: Curve, g: Group<P>, at: P -> Coords, x: P, y: P)
    requires Coordinates(c, g, at)
    ensures Complete(c) && c.p > 2 && OnCurve(c, at(x)) && OnCurve(c, at(y))
  {
  }

  /** The computed cross product is the one of the law, so its denominators are not zero. */
  lemma CrossValue(c: Curve, q: Coords, r: Coords, a: int, b: int, k: int)
    requires Complete(c) && OnCurve(c, q) && OnCurve(c, r)
    requires Congruent(c.p, r.1 * q.0, a) && Congruent(c.p, r.0 * q.1, b) && k == (((a * b) % c.p) * c.d) % c.p
    ensures Congruent(c.p, (c.d * a) * b, k) && 0 <= k < c.p
    ensures (1 + k) % c.p != 0 && (1 - k) % c.p != 0
  {
    hide Complete, OnEdwards, Congruent, IsPrime, Cross;
    CompleteParts(c);
    CrossChain(c.p, c.d, r.1 * q.0, r.0 * q.1, a, b, k);
    CrossIs(c.d, q, r);
    Denominators(c, q, r);
    SameDenominators(c.p, Cross(c.d, q, r), k);
  }

  lemma CrossIs(d: int, q: Coords, r: Coords)
    ensures Cross(d, q, r) == d * ((r.1 * q.0) * (r.0 * q.1))
  {
  }

  lemma CrossChain(p: int, d: int, x: int, y: int, a: int, b: int, k: int)
    requires p > 0 && Congruent(p, x, a) && Congruent(p, y, b) && k == (((a * b) % p) * d) % p
    ensures Congruent(p, (d * a) * b, k) && Congruent(p, d * (x * y), k) && 0 <= k < p
  {
    hide Congruent;
    var m := (a * b) % p;
    ProductIs(p, a, b);
    ProductIs(p, m, d);
    CongruentSelf(p, d);
    CongruentMul(p, a * b, m, d, d);
    CongruentTransitive(p, (a * b) * d, m * d, k);
    CongruentMul(p, x, a, y, b);
    CongruentMul(p, d, d, x * y, a * b);
    ThreeFactors(d, a, b);
    CongruentTransitive(p, d * (x * y), (d * a) * b, k);
  }

  lemma ThreeFactors(d: int, a: int, b: int)
    ensures (d * a) * b == (a * b) * d == d * (a * b)
  {
  }

  lemma SameDenominators(p: int, x: int, k: int)
    requires p > 0 && Congruent(p, x, k) && !Divides(p, 1 + x) && !Divides(p, 1 - x)
    ensures (1 + k) % p != 0 && (1 - k) % p != 0
  {
    hide Congruent;
    CongruentSelf(p, 1);
    CongruentAdd(p, 1, 1, x, k);
    SameZero(p, 1 + x, 1 + k);
    SameZero(p, 1 - x, 1 - k);
  }

  lemma SameZero(p: int, x: int, y: int)
    requires p > 0 && Congruent(p, x, y)
    ensures Divides(p, x) <==> y % p == 0
  {
    if Divides(p, x) { DividesSum(p, x, x - y); }
    if y % p == 0 { DividesSum(p, x - y, y); }
  }

  lemma PointValLater(aux: seq<Option<int>>, more: seq<Option<int>>, q: EdwardsPoint)
    requires aux <= more && PointVal(aux, q).Some?
    ensures PointVal(more, q) == PointVal(aux, q) && Allocated(aux, q)
  {
  }

  lemma PointHeld(asg: Assignment, aux: seq<Option<int>>, q: EdwardsPoint)
    requires Agrees(asg, aux) && PointVal(aux, q).Some?
    ensures PointAt(asg, q) == PointVal(aux, q).value
  {
  }

  /** Every assignment with these values satisfies the constraints. */
  ghost predicate SatisfiedBy(p: int, aux: seq<Option<int>>, ks: seq<Constraint>)
    requires p > 0
  {
    forall asg :: InField(p, asg) && Agrees(asg, aux) ==> SatAll(p, asg, ks)
  }

  lemma SatisfiedLater(p: int, aux: seq<Option<int>>, more: seq<Option<int>>, ks: seq<Constraint>)
    requires p > 0 && aux <= more && SatisfiedBy(p, aux, ks)
    ensures SatisfiedBy(p, more, ks)
  {
    forall asg | InField(p, asg) && Agrees(asg, more) ensures SatAll(p, asg, ks) {
      AgreesPrefix(asg, aux, more);
    }
  }

  lemma SatisfiedTogether(p: int, aux: seq<Option<int>>, more: seq<Option<int>>, ks: seq<Constraint>,
                          ls: seq<Constraint>)
    requires p > 0 && aux <= more && SatisfiedBy(p, aux, ks) && SatisfiedBy(p, more, ls)
    ensures SatisfiedBy(p, more, ks + ls)
  {
    SatisfiedLater(p, aux, more, ks);
    forall asg | InField(p, asg) && Agrees(asg, more) ensures SatAll(p, asg, ks + ls) {
      SatConcat(p, asg, ks, ls);
    }
  }

  lemma NoneSatisfied(p: int, aux: seq<Option<int>>)
    requires p > 0
    ensures SatisfiedBy(p, aux, [])
  {
  }

  lemma AddComplete<P(!new)>(c: Curve, g: Group<P>, at: P -> Coords, aux: seq<Option<int>>, q: EdwardsPoint,
                             r: EdwardsPoint, x: P, y: P)
    requires Coordinates(c, g, at) && PointVal(aux, q) == Some(at(x)) && PointVal(aux, r) == Some(at(y))
    ensures IsPrime(c.p) && !StepsFail(c.p, StepsOf(c, aux, q, r))
    ensures PointVal(AddAux(c, aux, q, r), AddOut(|aux|)) == Some(at(g.add(x, y)))
    ensures SatisfiedBy(c.p, AddAux(c, aux, q, r), AddCons(c, |aux|, q, r))
  {
    hide IsPrime, Coordinates, SumSteps, AddSteps, AddCons, StepsFail, SatAll;
    StepsHonest(c, g, at, x, y);
    var more, st := AddAux(c, aux, q, r), StepsOf(c, aux, q, r);
    AddedValues(aux, [st.t, st.a, st.b, st.k, st.u, st.v]);
    forall asg | InField(c.p, asg) && Agrees(asg, more) ensures SatAll(c.p, asg, AddCons(c, |aux|, q, r)) {
      AddMeaning(c, asg, |aux|, q, r);
    }
  }

  lemma AddedValues(aux: seq<Option<int>>, xs: seq<Option<int>>)
    ensures forall i :: 0 <= i < |xs| ==> (aux + xs)[|aux| + i] == xs[i]
  {
  }

  lemma CoordinatesPrime<P(!new)>(c: Curve, g: Group<P>, at: P -> Coords)
    requires Coordinates(c, g, at)
    ensures IsPrime(c.p)
  {
  }

  lemma StepsSymmetric(c: Curve, u: Option<int>, v: Option<int>)
    requires IsPrime(c.p)
    ensures var st := SumSteps(c, u, v, u, v); st.a == st.b
  {
    ProductCommutes(c.p, u, v);
  }

  lemma DoubleComplete<P(!new)>(c: Curve, g: Group<P>, at: P -> Coords, aux: seq<Option<int>>, q: EdwardsPoint, x: P)
    requires Coordinates(c, g, at) && PointVal(aux, q) == Some(at(x))
    ensures IsPrime(c.p) && !StepsFail(c.p, StepsOf(c, aux, q, q))
    ensures PointVal(DoubleAux(c, aux, q), DoubleOut(|aux|)) == Some(at(g.add(x, x)))
    ensures SatisfiedBy(c.p, DoubleAux(c, aux, q), DoubleCons(c, |aux|, q))
  {
    hide IsPrime, Coordinates, SumSteps, AddSteps, DoubleCons, StepsFail, SatAll, ProductOf;
    StepsHonest(c, g, at, x, x);
    var more, st := DoubleAux(c, aux, q), StepsOf(c, aux, q, q);
    StepsSymmetric(c, NumVal(aux, q.u), NumVal(aux, q.v));
    AddedValues(aux, [st.t, st.a, st.k, st.u, st.v]);
    forall asg | InField(c.p, asg) && Agrees(asg, more) ensures SatAll(c.p, asg, DoubleCons(c, |aux|, q)) {
      DoubleMeaning(c, asg, |aux|, q);
    }
  }

  lemma SelectComplete<P(!new)>(c: Curve, g: Group<P>, at: P -> Coords, aux: seq<Option<int>>, q: EdwardsPoint,
                                b: Boolean, bit: bool, x: P)
    requires Coordinates(c, g, at) && PointVal(aux, q) == Some(at(x)) && ReadBit(aux, b) == Some(bit)
    ensures PointVal(SelectAux(aux, q, b), SelectOut(|aux|)) == Some(at(if bit then x else g.zero))
    ensures c.p > 0 && SatisfiedBy(c.p, SelectAux(aux, q, b), SelectCons(|aux|, q, b))
  {
    hide Coordinates, SelectCons, SatAll;
    CoordinateParts(c, g, at);
    var more := SelectAux(aux, q, b);
    forall asg | InField(c.p, asg) && Agrees(asg, more) ensures SatAll(c.p, asg, SelectCons(|aux|, q, b)) {
      PointHeld(asg, more, q);
      PointHeld(asg, more, SelectOut(|aux|));
      ReadBitHolds(asg, aux, more, b);
      SelectMeaning(c, asg, |aux|, q, b);
    }
  }

  // ---------------------------------------------- the run of a multiple

  /** The values after the first k bits. */
  function MulAux(c: Curve, aux: seq<Option<int>>, q: EdwardsPoint, bits: seq<Boolean>, k: nat): (r: seq<Option<int>>)
    requires IsPrime(c.p) && k <= |bits|
    ensures aux <= r && |r| == if k == 0 then |aux| else StepAt(|aux|, k)
  {
    if k == 0 then aux else MulStepAux(c, |aux|, MulAux(c, aux, q, bits, k - 1), q, bits[k - 1], k - 1)
  }

  function MulStepAux(c: Curve, n: nat, u: seq<Option<int>>, q: EdwardsPoint, b: Boolean, i: nat): (r: seq<Option<int>>)
    requires IsPrime(c.p)
    ensures u <= r && |r| == if i == 0 then |u| + 2 else |u| + 13
  {
    if i == 0 then SelectAux(u, q, b) else
      var doubled := DoubleAux(c, u, MulBase(n, q, i - 1));
      var chosen := SelectAux(doubled, MulBase(n, q, i), b);
      AddAux(c, chosen, MulOut(n, i - 1), SelectOut(|doubled|))
  }

  /** Whether a division fails at bit i. */
  predicate MulStepFails(c: Curve, n: nat, u: seq<Option<int>>, q: EdwardsPoint, b: Boolean, i: nat)
    requires IsPrime(c.p)
  {
    i > 0 &&
    var doubled := DoubleAux(c, u, MulBase(n, q, i - 1));
    || StepsFail(c.p, StepsOf(c, u, MulBase(n, q, i - 1), MulBase(n, q, i - 1)))
    || StepsFail(c.p, StepsOf(c, SelectAux(doubled, MulBase(n, q, i), b), MulOut(n, i - 1), SelectOut(|doubled|)))
  }

  predicate MulFails(c: Curve, aux: seq<Option<int>>, q: EdwardsPoint, bits: seq<Boolean>, k: nat)
    requires IsPrime(c.p) && k <= |bits|
  {
    k > 0 && (MulFails(c, aux, q, bits, k - 1) ||
              MulStepFails(c, |aux|, MulAux(c, aux, q, bits, k - 1), q, bits[k - 1], k - 1))
  }

  /** One round of the loop: `base` and `sum` are the state after the round before. */
  method MulStep(cs: ConstraintSystem, c: Curve, ghost n: nat, q: EdwardsPoint, b: Boolean, ghost i: nat,
                 base: Option<EdwardsPoint>, sum: Option<EdwardsPoint>)
    returns (r: Result<(EdwardsPoint, EdwardsPoint), SynthesisError>)
    requires IsPrime(c.p) && Allocated(cs.aux, q)
    requires if i == 0 then base.None? && sum.None? && n == |cs.aux|
             else base == Some(MulBase(n, q, i - 1)) && sum == Some(MulOut(n, i - 1)) && StepAt(n, i) == |cs.aux|
    modifies cs
    ensures r == if MulStepFails(c, n, old(cs.aux), q, b, i) then Err(DivisionByZero)
                 else Ok((MulBase(n, q, i), MulOut(n, i)))
    ensures r.Ok? ==> cs.aux == MulStepAux(c, n, old(cs.aux), q, b, i)
    ensures r.Ok? ==> cs.constraints == old(cs.constraints) + MulStepCons(c, n, q, b, i)
    ensures cs.inputs == old(cs.inputs)
  {
    hide StepsFail, StepsOf, DoubleCons, AddCons, SelectCons, AddAux, DoubleAux, SelectAux;
    if base.None? {
      var first := ConditionallySelect(cs, q, b);
      return Ok((q, first));
    }
    var doubled := Double(cs, c, base.value);
    if doubled.Err? { return Err(doubled.error); }
    var chosen := ConditionallySelect(cs, doubled.value, b);
    var total := Add(cs, c, sum.value, chosen);
    if total.Err? { return Err(total.error); }
    r := Ok((doubled.value, total.value));
  }

  /** `mul`: double, choose and add, bit by bit; of no bits there is no result. */
  method Mul(cs: ConstraintSystem, c: Curve, q: EdwardsPoint, bits: seq<Boolean>)
    returns (r: Result<EdwardsPoint, SynthesisError>)
    requires IsPrime(c.p) && Allocated(cs.aux, q)
    modifies cs
    ensures r == if bits == [] then Err(AssignmentMissing)
                 else if MulFails(c, old(cs.aux), q, bits, |bits|) then Err(DivisionByZero)
                 else Ok(MulOut(|old(cs.aux)|, |bits| - 1))
    ensures r.Ok? ==> cs.aux == MulAux(c, old(cs.aux), q, bits, |bits|)
    ensures r.Ok? ==> cs.constraints == old(cs.constraints) + MulCons(c, |old(cs.aux)|, q, bits, |bits|)
    ensures cs.inputs == old(cs.inputs)
  {
    hide MulStepFails, MulStepAux, MulStepCons, IsPrime;
    ghost var aux0, cons0 := cs.aux, cs.constraints;
    var base: Option<EdwardsPoint>, sum: Option<EdwardsPoint> := None, None;
    for i := 0 to |bits|
      invariant cs.aux == MulAux(c, aux0, q, bits, i) && cs.inputs == old(cs.inputs)
      invariant cs.constraints == cons0 + MulCons(c, |aux0|, q, bits, i)
      invariant !MulFails(c, aux0, q, bits, i)
      invariant if i == 0 then base.None? && sum.None?
                else base == Some(MulBase(|aux0|, q, i - 1)) && sum == Some(MulOut(|aux0|, i - 1))
    {
      ghost var cons := cs.constraints;
      var step := MulStep(cs, c, |aux0|, q, bits[i], i, base, sum);
      if step.Err? {
        FailsLater(c, aux0, q, bits, i + 1);
        return Err(step.error);
      }
      AppendAssoc(cons0, MulCons(c, |aux0|, q, bits, i), MulStepCons(c, |aux0|, q, bits[i], i));
      base, sum := Some(step.value.0), Some(step.value.1);
    }
    r := if sum.Some? then Ok(sum.value) else Err(AssignmentMissing);
  }

  lemma {:induction false} FailsLater(c: Curve, aux: seq<Option<int>>, q: EdwardsPoint, bits: seq<Boolean>, k: nat)
    requires IsPrime(c.p) && k <= |bits| && MulFails(c, aux, q, bits, k)
    ensures MulFails(c, aux, q, bits, |bits|)
    decreases |bits| - k
  {
    if k < |bits| { FailsLater(c, aux, q, bits, k + 1); }
  }

  lemma MulStepComplete<P(!new)>(c: Curve, g: Group<P>, at: P -> Coords, u: seq<Option<int>>, n: nat, q: EdwardsPoint,
                                 b: Boolean, bit: bool, i: nat, base: P, sum: P)
    requires Coordinates(c, g, at) && i > 0 && |u| == StepAt(n, i) && ReadBit(u, b) == Some(bit)
    requires PointVal(u, MulBase(n, q, i - 1)) == Some(at(base)) && PointVal(u, MulOut(n, i - 1)) == Some(at(sum))
    ensures IsPrime(c.p) && !MulStepFails(c, n, u, q, b, i)
    ensures var r, twice := MulStepAux(c, n, u, q, b, i), g.add(base, base);
      && PointVal(r, MulBase(n, q, i)) == Some(at(twice))
      && PointVal(r, MulOut(n, i)) == Some(at(g.add(sum, if bit then twice else g.zero)))
      && SatisfiedBy(c.p, r, MulStepCons(c, n, q, b, i))
  {
    hide IsPrime, Coordinates, StepsFail, StepsOf, DoubleCons, AddCons, SelectCons, AddAux, DoubleAux, SelectAux;
    hide SatisfiedBy, PointVal, ReadBit;
    assert IsPrime(c.p) by { CoordinatesPrime(c, g, at); }
    var twice := g.add(base, base);
    var chosen := if bit then twice else g.zero;
    DoubleComplete(c, g, at, u, MulBase(n, q, i - 1), base);
    var v := DoubleAux(c, u, MulBase(n, q, i - 1));
    ReadBitHolds(Assignment([], []), u, v, b);
    SelectComplete(c, g, at, v, MulBase(n, q, i), b, bit, twice);
    var w := SelectAux(v, MulBase(n, q, i), b);
    PointValLater(u, w, MulOut(n, i - 1));
    AddComplete(c, g, at, w, MulOut(n, i - 1), SelectOut(|v|), sum, chosen);
    var r := AddAux(c, w, MulOut(n, i - 1), SelectOut(|v|));
    PointValLater(v, r, MulBase(n, q, i));
    SatisfiedTogether(c.p, v, w, DoubleCons(c, |u|, MulBase(n, q, i - 1)), SelectCons(|v|, MulBase(n, q, i), b));
    SatisfiedTogether(c.p, w, r, DoubleCons(c, |u|, MulBase(n, q, i - 1)) + SelectCons(|v|, MulBase(n, q, i), b),
                      AddCons(c, |w|, MulOut(n, i - 1), SelectOut(|v|)));
  }

  lemma ReadAtIndex(aux: seq<Option<int>>, bits: seq<Boolean>, s: seq<bool>, i: nat)
    requires ReadBits(aux, bits) == Known(s) && i < |s| == |bits|
    ensures ReadBit(aux, bits[i]) == Some(s[i])
  {
    assert ReadBits(aux, bits)[i] == Known(s)[i];
  }

  lemma SnocPrefix(s: seq<bool>, k: nat)
    requires 0 < k <= |s|
    ensures s[..k] == s[..k - 1] + [s[k - 1]] && (k == 1 ==> s[..k] == [s[0]])
  {
  }

  /** One bit more. */
  lemma MulUnfold(c: Curve, aux: seq<Option<int>>, q: EdwardsPoint, bits: seq<Boolean>, k: nat)
    requires IsPrime(c.p) && 0 < k <= |bits|
    ensures var n, u, b := |aux|, MulAux(c, aux, q, bits, k - 1), bits[k - 1];
      && MulAux(c, aux, q, bits, k) == MulStepAux(c, n, u, q, b, k - 1)
      && MulCons(c, n, q, bits, k) == MulCons(c, n, q, bits, k - 1) + MulStepCons(c, n, q, b, k - 1)
      && (MulFails(c, aux, q, bits, k) <==> MulFails(c, aux, q, bits, k - 1) || MulStepFails(c, n, u, q, b, k - 1))
  {
    hide MulStepAux, MulStepCons, MulStepFails, IsPrime;
  }

  lemma NoRounds(c: Curve, aux: seq<Option<int>>, q: EdwardsPoint, bits: seq<Boolean>)
    requires IsPrime(c.p)
    ensures MulAux(c, aux, q, bits, 0) == aux && MulCons(c, |aux|, q, bits, 0) == [] && !MulFails(c, aux, q, bits, 0)
  {
  }

  /** The run on known bits never divides by zero, satisfies the constraints, and computes the multiple. */
  lemma {:induction false} MulComplete<P(!new)>(c: Curve, g: Group<P>, at: P -> Coords, aux: seq<Option<int>>,
      q: EdwardsPoint, bits: seq<Boolean>, s: seq<bool>, x: P, k: nat)
    requires Coordinates(c, g, at) && PointVal(aux, q) == Some(at(x)) && ReadBits(aux, bits) == Known(s)
    requires |bits| == |s| && 0 < k <= |s|
    ensures IsPrime(c.p) && !MulFails(c, aux, q, bits, k)
    ensures var r := MulAux(c, aux, q, bits, k);
      && PointVal(r, MulBase(|aux|, q, k - 1)) == Some(at(Times(g, Pow2(k - 1), x)))
      && PointVal(r, MulOut(|aux|, k - 1)) == Some(at(Times(g, ValueOf(s[..k]), x)))
      && SatisfiedBy(c.p, r, MulCons(c, |aux|, q, bits, k))
  {
    hide *;
    CoordinatesPrime(c, g, at);
    CoordinateParts(c, g, at);
    var u, r, b := MulAux(c, aux, q, bits, k - 1), MulAux(c, aux, q, bits, k), bits[k - 1];
    ReadAtIndex(aux, bits, s, k - 1);
    ReadBitHolds(Assignment([], []), aux, u, b);
    MulUnfold(c, aux, q, bits, k);
    SnocPrefix(s, k);
    if k == 1 {
      NoRounds(c, aux, q, bits);
      FirstComplete(c, g, at, aux, q, b, s[0], x);
      NoneSatisfied(c.p, aux);
    } else {
      MulComplete(c, g, at, aux, q, bits, s, x, k - 1);
      var base := Times(g, Pow2(k - 2), x);
      MulStepComplete(c, g, at, u, |aux|, q, b, s[k - 1], k - 1, base, Times(g, ValueOf(s[..k - 1]), x));
      Pow2Double(k - 1);
      TimesAdd(g, Pow2(k - 2), Pow2(k - 2), x);
      BitTerm(g, x, s[..k - 1], s[k - 1]);
    }
    SatisfiedTogether(c.p, u, r, MulCons(c, |aux|, q, bits, k - 1), MulStepCons(c, |aux|, q, b, k - 1));
  }

  lemma FirstComplete<P(!new)>(c: Curve, g: Group<P>, at: P -> Coords, aux: seq<Option<int>>, q: EdwardsPoint,
                               b: Boolean, bit: bool, x: P)
    requires Coordinates(c, g, at) && PointVal(aux, q) == Some(at(x)) && ReadBit(aux, b) == Some(bit)
    ensures IsPrime(c.p) && !MulStepFails(c, |aux|, aux, q, b, 0)
    ensures var r := MulStepAux(c, |aux|, aux, q, b, 0);
      && PointVal(r, MulBase(|aux|, q, 0)) == Some(at(Times(g, Pow2(0), x)))
      && PointVal(r, MulOut(|aux|, 0)) == Some(at(Times(g, ValueOf([bit]), x)))
      && SatisfiedBy(c.p, r, MulStepCons(c, |aux|, q, b, 0))
  {
    hide IsPrime, Coordinates, SelectAux, SelectCons, SatisfiedBy, PointVal, Abelian, DoubleAux, AddAux;
    hide StepsFail;
    assert IsPrime(c.p) by { CoordinatesPrime(c, g, at); }
    assert Abelian(g) by { CoordinateParts(c, g, at); }
    SelectComplete(c, g, at, aux, q, b, bit, x);
    PointValLater(aux, SelectAux(aux, q, b), q);
    TimesOne(g, x);
    assert Times(g, 0, x) == g.zero;
    assert [bit][1..] == [];
  }
}
