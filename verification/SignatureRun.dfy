/**
 The run of the RedJubjub verification gadget (crypto-circuit-age/src/gadgets/redjubjub.rs):
 its methods, the values they compute, and completeness. With `SignatureGadget`
 it shows that the constraints decide exactly `Issuance.GadgetAccepts`.
 */
module SignatureRun {
  import opened Wrappers
  import opened Bits
  import opened PrimeField
  import opened R1cs
  import opened BitAlloc
  import opened BitGadgets
  import opened Groups
  import opened Constants
  import opened PublicInputs
  import opened Gadgets
  import opened Montgomery
  import opened EdwardsLaw
  import opened EdwardsGadgets
  import opened EdwardsRun
  import opened PointGadgets
  import opened RedJubjub
  import opened Issuance
  import opened SignatureGadget

  // ---------------------------------------------------- values of the run

  /** A point, its bits and its encoding. */
  function EncodedAux<P>(e: EcKit<P>, aux: seq<Option<int>>, x: Option<Coords>, bits: Option<seq<bool>>, m: nat)
    : (r: seq<Option<int>>)
    requires IsPrime(e.curve.p) && (bits.Some? ==> |bits.value| == m)
    ensures aux <= r && |r| == |aux| + 21 + m + e.repr.size
  {
    ReprAux(e.repr, PointAux(e, aux, x) + BitValues(m, bits), PointVars(|aux|))
  }

  function PointAux<P>(e: EcKit<P>, aux: seq<Option<int>>, x: Option<Coords>): (r: seq<Option<int>>)
    requires IsPrime(e.curve.p)
    ensures aux <= r && |r| == |aux| + 21
  {
    SmallOrderAux(e.curve, WitnessAux(e.curve, aux, x), PointVars(|aux|))
  }

  /** The coordinates a run allocates: of the decoded point, or of the set-up's. */
  function RunPoint<P>(e: EcKit<P>, b: Option<Bytes32>): Option<Coords> {
    if b.None? then Some(e.at(e.placeholder))
    else match e.scheme.decode(b.value)
      case None => None
      case Some(x) => Some(e.at(x))
  }

  function VkRun<P>(e: EcKit<P>, aux: seq<Option<int>>, vk: Option<Bytes32>): (r: seq<Option<int>>)
    requires IsPrime(e.curve.p)
    ensures aux <= r && |r| == |aux| + VkSize(e)
  {
    EncodedAux(e, aux, RunPoint(e, vk), MapOption(vk, b => BytesToBits(b)), 256)
  }

  function SigRun<P>(e: EcKit<P>, aux: seq<Option<int>>, sig: Option<Bytes64>): (r: seq<Option<int>>)
    requires IsPrime(e.curve.p)
    ensures aux <= r && |r| == |aux| + SigSize(e)
  {
    var r: Option<Bytes32> := if sig.Some? then Some(sig.value[..32]) else None;
    EncodedAux(e, aux, RunPoint(e, r), MapOption(sig, b => BytesToBits(b)), 512)
  }

  function VerifySize<P>(e: EcKit<P>, vk: nat, sig: nat, hash: seq<Boolean>): nat {
    e.challenge.size(ChallengeIns(vk, sig, hash)) + 5 + 6634 + 6
  }

  function VerifyRun<P>(e: EcKit<P>, aux: seq<Option<int>>, vk: nat, sig: nat, hash: seq<Boolean>)
    : (r: seq<Option<int>>)
    requires IsPrime(e.curve.p)
    ensures aux <= r
    ensures |e.challenge.out(|aux|, ChallengeIns(vk, sig, hash))| == 256 ==> |r| == |aux| + VerifySize(e, vk, sig, hash)
  {
    var c, ins, s := e.curve, ChallengeIns(vk, sig, hash), BitVars(sig + 277, 256);
    var l, challenge := VerifyPlacesAt(e, |aux|, ins), e.challenge.out(|aux|, ins);
    var u := WitnessAux(c, HashAux(e.challenge, aux, ins), Some(e.at(e.scheme.generator)));
    var v := MulAux(c, u, PointVars(l.baseAt), s, |s|);
    AddAux(c, MulAux(c, v, PointVars(vk), challenge, |challenge|), PointVars(sig), MulOut(l.rightAt, 255))
  }

  /** Whether one of the divisions of `verify` fails. */
  predicate VerifyFails<P>(e: EcKit<P>, aux: seq<Option<int>>, vk: nat, sig: nat, hash: seq<Boolean>)
    requires IsPrime(e.curve.p)
  {
    var c, ins, s := e.curve, ChallengeIns(vk, sig, hash), BitVars(sig + 277, 256);
    var l, challenge := VerifyPlacesAt(e, |aux|, ins), e.challenge.out(|aux|, ins);
    var u := WitnessAux(c, HashAux(e.challenge, aux, ins), Some(e.at(e.scheme.generator)));
    var v := MulAux(c, u, PointVars(l.baseAt), s, |s|);
    var w := MulAux(c, v, PointVars(vk), challenge, |challenge|);
    || MulFails(c, u, PointVars(l.baseAt), s, |s|) || MulFails(c, v, PointVars(vk), challenge, |challenge|)
    || StepsFail(c.p, StepsOf(c, w, PointVars(sig), MulOut(l.rightAt, 255)))
  }

  // ------------------------------------------------------------- methods

  /** `repr`, as its functional specification. */
  method RunRepr(cs: ConstraintSystem, r: ReprGadget, q: EdwardsPoint) returns (out: seq<Boolean>)
    modifies cs
    ensures out == r.out(|old(cs.aux)|, q) && cs.aux == ReprAux(r, old(cs.aux), q)
    ensures cs.constraints == old(cs.constraints) + r.cons(|old(cs.aux)|, q) && cs.inputs == old(cs.inputs)
  {
    out := r.out(|cs.aux|, q);
    cs.constraints := cs.constraints + r.cons(|cs.aux|, q);
    cs.aux := ReprAux(r, cs.aux, q);
  }

  /** Whether `assert_not_small_order` fails on the point just witnessed. */
  predicate PointFails<P>(e: EcKit<P>, aux: seq<Option<int>>, x: Option<Coords>)
    requires IsPrime(e.curve.p)
  {
    SmallOrderFails(e.curve, WitnessAux(e.curve, aux, x), PointVars(|aux|))
  }

  method AllocPoint<P>(cs: ConstraintSystem, e: EcKit<P>, x: Option<Coords>)
    returns (r: Result<EdwardsPoint, SynthesisError>)
    requires IsPrime(e.curve.p)
    modifies cs
    ensures r == if PointFails(e, old(cs.aux), x) then Err(DivisionByZero) else Ok(PointVars(|old(cs.aux)|))
    ensures r.Ok? ==> cs.aux == PointAux(e, old(cs.aux), x)
    ensures r.Ok? ==> cs.constraints == old(cs.constraints) +
                      (WitnessCons(e.curve, |old(cs.aux)|)
                       + SmallOrderCons(e.curve, |old(cs.aux)| + 5, PointVars(|old(cs.aux)|)))
    ensures cs.inputs == old(cs.inputs)
  {
    hide WitnessCons, SmallOrderCons, WitnessAux, SmallOrderAux, SmallOrderFails;
    ghost var n, cons0 := |cs.aux|, cs.constraints;
    var q := Witness(cs, e.curve, x);
    var checked := AssertNotSmallOrder(cs, e.curve, q);
    if checked.Err? { return Err(checked.error); }
    AppendAssoc(cons0, WitnessCons(e.curve, n), SmallOrderCons(e.curve, n + 5, q));
    r := Ok(q);
  }

  /** The end of both allocations: the encoding of the point must be its raw bits. */
  method ConstrainEncoding<P>(cs: ConstraintSystem, e: EcKit<P>, q: EdwardsPoint, raw: seq<Boolean>)
    returns (r: Result<(), SynthesisError>)
    requires |raw| == 256 && |e.repr.out(|cs.aux|, q)| == 256
    modifies cs
    ensures r.Ok?
    ensures cs.constraints == old(cs.constraints) + e.repr.cons(|old(cs.aux)|, q)
                              + EqualConsOf(e.repr.out(|old(cs.aux)|, q), raw)
    ensures cs.aux == ReprAux(e.repr, old(cs.aux), q) && cs.inputs == old(cs.inputs)
  {
    hide EqualCons;
    var bits := RunRepr(cs, e.repr, q);
    r := EnforceBitsEqual(cs, bits, raw);
  }

  /** `alloc_vk`: the place of the key's variables, or the refusal of bytes that do not parse. */
  method AllocVk<P>(cs: ConstraintSystem, e: EcKit<P>, vk: Option<Bytes32>) returns (r: Result<nat, SynthesisError>)
    requires IsPrime(e.curve.p) && forall n, q :: |e.repr.out(n, q)| == 256
    modifies cs
    ensures r == if RunPoint(e, vk).None? then Err(Unsatisfiable)
                 else if PointFails(e, old(cs.aux), RunPoint(e, vk)) then Err(DivisionByZero)
                 else Ok(|old(cs.aux)|)
    ensures r.Ok? ==> cs.constraints == old(cs.constraints) + EncodedCons(e, |old(cs.aux)|, 256)
    ensures r.Ok? ==> cs.aux == VkRun(e, old(cs.aux), vk)
    ensures cs.inputs == old(cs.inputs)
  {
    hide WitnessCons, SmallOrderCons, EqualConsOf, PointAux, PointFails, ReprAux, BoolCons, BitVars, BitValues, IsPrime;
    ghost var n, cons0 := |cs.aux|, cs.constraints;
    var x := RunPoint(e, vk);
    if x.None? {
      return Err(Unsatisfiable);
    }
    var q := AllocPoint(cs, e, x);
    if q.Err? { return Err(q.error); }
    var raw := AllocBytesWitnessFixed(cs, vk, 32);
    var made := ConstrainEncoding(cs, e, q.value, raw.value);
    ghost var point := WitnessCons(e.curve, n) + SmallOrderCons(e.curve, n + 5, PointVars(n));
    AppendFour(cons0, point, BoolCons(n + 21, 256), e.repr.cons(n + 277, PointVars(n)),
                EqualConsOf(e.repr.out(n + 277, PointVars(n)), BitVars(n + 21, 256)));
    r := Ok(q.value.u);
  }

  /** `alloc_sig`: the place of R's and s's variables. */
  method AllocSig<P>(cs: ConstraintSystem, e: EcKit<P>, sig: Option<Bytes64>) returns (r: Result<nat, SynthesisError>)
    requires IsPrime(e.curve.p) && forall n, q :: |e.repr.out(n, q)| == 256
    modifies cs
    ensures var point: Option<Bytes32> := if sig.Some? then Some(sig.value[..32]) else None;
      r == if RunPoint(e, point).None? || (sig.Some? && FromLe(sig.value[32..]) >= e.scheme.order)
           then Err(Unsatisfiable)
           else if PointFails(e, old(cs.aux), RunPoint(e, point)) then Err(DivisionByZero)
           else Ok(|old(cs.aux)|)
    ensures r.Ok? ==> cs.constraints == old(cs.constraints) + EncodedCons(e, |old(cs.aux)|, 512)
    ensures r.Ok? ==> cs.aux == SigRun(e, old(cs.aux), sig)
    ensures cs.inputs == old(cs.inputs)
  {
    hide WitnessCons, SmallOrderCons, EqualConsOf, PointAux, PointFails, ReprAux, BoolCons, BitVars, BitValues, IsPrime;
    hide BytesToBits, FromLe, PointVars;
    var n := |cs.aux|;
    ghost var cons0 := cs.constraints;
    var point: Option<Bytes32>, scalar: Option<Bytes32> := None, None;
    if sig.Some? {
      point, scalar := Some(sig.value[..32]), Some(sig.value[32..]);
    }
    var x := RunPoint(e, point);
    if x.None? || (scalar.Some? && FromLe(scalar.value) >= e.scheme.order) {
      return Err(Unsatisfiable);
    }
    var q := AllocPoint(cs, e, x);
    if q.Err? { return Err(q.error); }
    var raw := AllocBytesWitnessFixed(cs, point, 32);
    var s := AllocBytesWitnessFixed(cs, scalar, 32);
    BitsJoined(PointAux(e, old(cs.aux), x), n + 21, sig);
    var made := ConstrainEncoding(cs, e, q.value, raw.value);
    ghost var cons := WitnessCons(e.curve, n) + SmallOrderCons(e.curve, n + 5, PointVars(n));
    AppendAssoc(cons0 + cons, BoolCons(n + 21, 256), BoolCons(n + 277, 256));
    AppendFour(cons0, cons, BoolCons(n + 21, 512), e.repr.cons(n + 533, PointVars(n)),
                EqualConsOf(e.repr.out(n + 533, PointVars(n)), BitVars(n + 21, 256)));
    r := Ok(n);
  }

  /** The fixed base, pinned. */
  method GetGeneratorPoint<P>(cs: ConstraintSystem, e: EcKit<P>) returns (q: EdwardsPoint)
    requires e.curve.p > 0
    modifies cs
    ensures q == PointVars(|old(cs.aux)|) && cs.inputs == old(cs.inputs)
    ensures cs.aux == WitnessAux(e.curve, old(cs.aux), Some(e.at(e.scheme.generator)))
    ensures cs.constraints == old(cs.constraints) + GeneratorCons(e.curve, |old(cs.aux)|, e.at(e.scheme.generator))
  {
    hide WitnessCons, WitnessAux;
    var x := e.at(e.scheme.generator);
    q := Witness(cs, e.curve, Some(x));
    cs.Enforce(Num(q.u), ONES, Single(x.0, One));
    cs.Enforce(Num(q.v), ONES, Single(x.1, One));
  }

  method EnforcePointsEqual(cs: ConstraintSystem, q: EdwardsPoint, r: EdwardsPoint)
    modifies cs
    ensures cs.constraints == old(cs.constraints) + SameCons(q, r) && cs.aux == old(cs.aux)
            && cs.inputs == old(cs.inputs)
  {
    cs.Enforce(Minus(Num(q.u), Num(r.u)), ONES, []);
    cs.Enforce(Minus(Num(q.v), Num(r.v)), ONES, []);
  }

  /** The multiples of both sides, the sum and the comparison. */
  method EnforceEquation(cs: ConstraintSystem, c: Curve, base: EdwardsPoint, s: seq<Boolean>, v: EdwardsPoint,
                         k: seq<Boolean>, q: EdwardsPoint) returns (r: Result<(), SynthesisError>)
    requires IsPrime(c.p) && Allocated(cs.aux, base) && Allocated(cs.aux, v) && Allocated(cs.aux, q)
    requires s != [] && k != []
    modifies cs
    ensures var u := old(cs.aux);
      var w := MulAux(c, u, base, s, |s|);
      var x := MulAux(c, w, v, k, |k|);
      && r == (if MulFails(c, u, base, s, |s|) || MulFails(c, w, v, k, |k|)
                  || StepsFail(c.p, StepsOf(c, x, q, MulOut(|w|, |k| - 1)))
               then Err(DivisionByZero) else Ok(()))
      && (r.Ok? ==> cs.aux == AddAux(c, x, q, MulOut(|w|, |k| - 1)))
      && (r.Ok? ==> cs.constraints == old(cs.constraints) + MulCons(c, |u|, base, s, |s|) + MulCons(c, |w|, v, k, |k|)
                                      + AddCons(c, |x|, q, MulOut(|w|, |k| - 1))
                                      + SameCons(MulOut(|u|, |s| - 1), AddOut(|x|)))
    ensures cs.inputs == old(cs.inputs)
  {
    hide MulCons, AddCons, SameCons, MulAux, AddAux, MulFails, StepsFail, StepsOf, IsPrime;
    var left := Mul(cs, c, base, s);
    if left.Err? { return Err(left.error); }
    var right := Mul(cs, c, v, k);
    if right.Err? { return Err(right.error); }
    var sum := Add(cs, c, q, right.value);
    if sum.Err? { return Err(sum.error); }
    EnforcePointsEqual(cs, left.value, sum.value);
    r := Ok(());
  }

  /** `verify`: challenge, both multiples, the sum and the equality of the two sides. */
  method Verify<P>(cs: ConstraintSystem, e: EcKit<P>, vk: nat, sig: nat, hash: seq<Boolean>)
    returns (r: Result<(), SynthesisError>)
    requires IsPrime(e.curve.p) && vk + VkSize(e) <= |cs.aux| && sig + SigSize(e) <= |cs.aux|
    requires forall n, ins :: |e.challenge.out(n, ins)| == 256
    modifies cs
    ensures r == if |hash| != 256 then Err(Unsatisfiable)
                 else if VerifyFails(e, old(cs.aux), vk, sig, hash) then Err(DivisionByZero)
                 else Ok(())
    ensures r.Ok? ==> cs.constraints == old(cs.constraints) + VerifyCons(e, |old(cs.aux)|, vk, sig, hash)
    ensures r.Ok? ==> cs.aux == VerifyRun(e, old(cs.aux), vk, sig, hash)
    ensures cs.inputs == old(cs.inputs)
  {
    hide GeneratorCons, MulCons, AddCons, SameCons, MulAux, AddAux, WitnessAux, HashAux, MulFails, StepsFail, StepsOf;
    hide IsPrime, VerifyRun, VerifyFails;
    if |hash| != 256 {
      return Err(Unsatisfiable);
    }
    PrimeAboveOne(e.curve.p);
    VerifyRunIs(e, cs.aux, vk, sig, hash);
    ghost var n, cons0 := |cs.aux|, cs.constraints;
    var ins, s := ChallengeIns(vk, sig, hash), BitVars(sig + 277, 256);
    ghost var l := VerifyPlacesAt(e, n, ins);
    var challenge := RunHash(cs, e.challenge, ins);
    var base := GetGeneratorPoint(cs, e);
    r := EnforceEquation(cs, e.curve, base, s, PointVars(vk), challenge, PointVars(sig));
    AppendGrouped(cons0, e.challenge.cons(n, ins), GeneratorCons(e.curve, l.baseAt, e.at(e.scheme.generator)),
                  MulCons(e.curve, l.leftAt, base, s, |s|), MulCons(e.curve, l.rightAt, PointVars(vk), challenge, 256),
                  AddCons(e.curve, l.sumAt, PointVars(sig), MulOut(l.rightAt, 255)),
                  SameCons(MulOut(l.leftAt, 255), AddOut(l.sumAt)));
  }

  /** Two allocations of 32 bytes are one of 64. */
  lemma BitsJoined(u: seq<Option<int>>, n: nat, sig: Option<Bytes64>)
    ensures BoolCons(n, 256) + BoolCons(n + 256, 256) == BoolCons(n, 512)
    ensures var r: Option<Bytes32>, s: Option<Bytes32> :=
        if sig.Some? then Some(sig.value[..32]) else None, if sig.Some? then Some(sig.value[32..]) else None;
      u + BitValues(256, MapOption(r, b => BytesToBits(b))) + BitValues(256, MapOption(s, b => BytesToBits(b))) ==
      u + BitValues(512, MapOption(sig, b => BytesToBits(b)))
  {
    hide BytesToBits;
    if sig.Some? {
      assert sig.value == sig.value[..32] + sig.value[32..];
      BytesToBitsConcat(sig.value[..32], sig.value[32..]);
    }
  }

  // --------------------------------------------------------- completeness

  lemma UseReprComplete<P(!new)>(e: EcKit<P>, aux: seq<Option<int>>, q: EdwardsPoint, x: P)
    requires e.curve.p > 0 && PointVal(aux, q) == Some(e.at(x)) && ReprCorrect(e)
    ensures SatisfiedBy(e.curve.p, ReprAux(e.repr, aux, q), e.repr.cons(|aux|, q)) && |e.repr.out(|aux|, q)| == 256
    ensures ReadBits(ReprAux(e.repr, aux, q), e.repr.out(|aux|, q)) == Known(BytesToBits(e.scheme.encode(x)))
  {
    assert ReprCompleteAt(e, aux, q, x);
  }

  lemma BitsSatisfied(p: int, aux: seq<Option<int>>, s: seq<bool>)
    requires IsPrime(p)
    ensures p > 0 && SatisfiedBy(p, aux + BitValues(|s|, Some(s)), BoolCons(|aux|, |s|))
  {
    forall asg | InField(p, asg) && Agrees(asg, aux + BitValues(|s|, Some(s)))
      ensures SatAll(p, asg, BoolCons(|aux|, |s|))
    {
      BitsComplete(p, asg, aux, s);
    }
  }

  lemma EqualSatisfied(p: int, aux: seq<Option<int>>, a: seq<Boolean>, b: seq<Boolean>, s: seq<bool>)
    requires p > 1 && |a| == |b| && ReadBits(aux, a) == Known(s) && ReadBits(aux, b) == Known(s)
    ensures SatisfiedBy(p, aux, EqualCons(a, b))
  {
    forall asg | InField(p, asg) && Agrees(asg, aux) ensures SatAll(p, asg, EqualCons(a, b)) {
      ReadBitsHold(asg, aux, aux, a, s);
      ReadBitsHold(asg, aux, aux, b, s);
      EqualMeaning(p, asg, a, b);
    }
  }

  /** The first k of the bits just allocated. */
  lemma ReadFirst(u: seq<Option<int>>, s: seq<bool>, all: seq<Option<int>>, k: nat)
    requires k <= |s| && u + BitValues(|s|, Some(s)) <= all
    ensures ReadBits(all, BitVars(|u|, |s|)) == Known(s)
    ensures ReadBits(all, BitVars(|u|, k)) == Known(s[..k])
    ensures ReadBits(all, BitVars(|u| + k, |s| - k)) == Known(s[k..])
  {
    ReadLater(u, s, all);
    var bs := BitVars(|u|, |s|);
    forall i | 0 <= i < |s| ensures ReadBit(all, bs[i]) == Some(s[i]) {
      assert ReadBits(all, bs)[i] == Known(s)[i];
    }
    ReadAll(all, BitVars(|u|, k), s[..k]);
    var rest := BitVars(|u| + k, |s| - k);
    forall i | 0 <= i < |rest| ensures ReadBit(all, rest[i]) == Some(s[k..][i]) {
      assert rest[i] == bs[k + i];
    }
    ReadAll(all, rest, s[k..]);
  }

  /** An honest point with its bits satisfies its constraints. */
  lemma EncodedComplete<P(!new)>(e: EcKit<P>, aux: seq<Option<int>>, x: P, bits: seq<bool>)
    requires |bits| >= 256 && bits[..256] == BytesToBits(e.scheme.encode(x))
    requires Times(e.scheme.group, 8, x) != e.scheme.group.zero && KitReadyForCurve(e)
    ensures IsPrime(e.curve.p)
    ensures SatisfiedBy(e.curve.p, EncodedAux(e, aux, Some(e.at(x)), Some(bits), |bits|), EncodedCons(e, |aux|, |bits|))
    ensures PointVal(EncodedAux(e, aux, Some(e.at(x)), Some(bits), |bits|), PointVars(|aux|)) == Some(e.at(x))
  {
    hide KitReadyForCurve, Coordinates, Proper, CofactorEight, ReprCorrect, HashCorrect, SatisfiedBy, PointVal, IsPrime;
    hide WitnessCons, SmallOrderCons, BoolCons, EqualCons, Times, BytesToBits, BitVars, WitnessAux, SmallOrderAux;
    hide ReprAux;
    hide BitValues, OnCurve, Complete, ReadBits;
    KitParts(e);
    var p, c, q, n, m := e.curve.p, e.curve, PointVars(|aux|), |aux|, |bits|;
    NotSmall(e, x);
    PointsOnCurve(c, e.scheme.group, e.at, x, x);
    var u := WitnessAux(c, aux, Some(e.at(x)));
    WitnessComplete(c, aux, e.at(x));
    var v := SmallOrderAux(c, u, q);
    SmallOrderComplete(c, e.scheme.group, e.at, u, q, x);
    var w := v + BitValues(m, Some(bits));
    BitsSatisfied(p, v, bits);
    PointValLater(u, w, q);
    var r := ReprAux(e.repr, w, q);
    UseReprComplete(e, w, q, x);
    PointValLater(w, r, q);
    ReadFirst(v, bits, r, 256);
    EqualSatisfied(p, r, e.repr.out(n + 21 + m, q), BitVars(n + 21, 256), bits[..256]);
    var cons := WitnessCons(c, n) + SmallOrderCons(c, n + 5, q);
    SatisfiedTogether(p, u, v, WitnessCons(c, n), SmallOrderCons(c, n + 5, q));
    SatisfiedTogether(p, v, w, cons, BoolCons(n + 21, m));
    SatisfiedTogether(p, w, r, cons + BoolCons(n + 21, m), e.repr.cons(n + 21 + m, q));
    SatisfiedTogether(p, r, r, cons + BoolCons(n + 21, m) + e.repr.cons(n + 21 + m, q),
                      EqualCons(e.repr.out(n + 21 + m, q), BitVars(n + 21, 256)));
  }

  lemma NotSmall<P(!new)>(e: EcKit<P>, x: P)
    requires KitReadyForCurve(e) && Times(e.scheme.group, 8, x) != e.scheme.group.zero
    ensures e.at(Times(e.scheme.group, 8, x)).0 != 0
  {
    hide Coordinates, Times, IsPrime, ReprCorrect, HashCorrect, Abelian, HasOrder, InSubgroup;
    OddOrder(e.scheme.order);
    FirstCoordinate(e.curve, e.scheme.group, e.at, e.scheme.order, x);
  }

  /** `assert_not_small_order` fails on a point exactly when eight times the point is neutral. */
  lemma RefusedPoint<P(!new)>(e: EcKit<P>, aux: seq<Option<int>>, x: P)
    requires KitReadyForCurve(e)
    ensures IsPrime(e.curve.p)
    ensures PointFails(e, aux, Some(e.at(x))) <==> Times(e.scheme.group, 8, x) == e.scheme.group.zero
  {
    hide KitReadyForCurve, Coordinates, Proper, ReprCorrect, HashCorrect, IsPrime, Times, SmallOrderFails, WitnessAux;
    hide OnEdwards, Complete, Abelian, WitnessCons, SatisfiedBy;
    KitParts(e);
    var c, g := e.curve, e.scheme.group;
    PointsOnCurve(c, g, e.at, x, x);
    WitnessComplete(c, aux, e.at(x));
    SmallOrderRefused(c, g, e.at, WitnessAux(c, aux, Some(e.at(x))), PointVars(|aux|), x);
    CoordinateParts(c, g, e.at);
    if Times(g, 8, x) != g.zero { NotSmall(e, x); }
  }

  /** `alloc_vk` refuses exactly the bytes of no point and of points of small order. */
  lemma RefusedKey<P(!new)>(e: EcKit<P>, aux: seq<Option<int>>, vk: Bytes32)
    requires KitReadyForCurve(e)
    ensures IsPrime(e.curve.p)
    ensures RunPoint(e, Some(vk)).None? || PointFails(e, aux, RunPoint(e, Some(vk))) <==>
            !GadgetSpec(e.scheme).vkParses(vk)
  {
    hide KitReadyForCurve, IsPrime, Times, PointFails;
    KitParts(e);
    var x := e.scheme.decode(vk);
    if x.Some? { RefusedPoint(e, aux, x.value); }
  }

  /** `alloc_sig` refuses exactly an R of no point or of small order and scalars out of range. */
  lemma RefusedSignature<P(!new)>(e: EcKit<P>, aux: seq<Option<int>>, sig: Bytes64)
    requires KitReadyForCurve(e)
    ensures IsPrime(e.curve.p)
    ensures RunPoint(e, Some(sig[..32])).None? || FromLe(sig[32..]) >= e.scheme.order
            || PointFails(e, aux, RunPoint(e, Some(sig[..32]))) <==>
            !GadgetSpec(e.scheme).sigParses(sig)
  {
    hide KitReadyForCurve, IsPrime, Times, PointFails, FromLe;
    RefusedKey(e, aux, sig[..32]);
  }

  lemma OddOrder(n: nat)
    requires IsPrime(n) && n > 2
    ensures n % 2 == 1
  {
    assert !Divides(2, n);
  }

  lemma ReadKept(aux: seq<Option<int>>, more: seq<Option<int>>, bs: seq<Boolean>, s: seq<bool>)
    requires aux <= more && ReadBits(aux, bs) == Known(s)
    ensures ReadBits(more, bs) == Known(s)
  {
    ReadBitsHold(Assignment([], []), aux, more, bs, s);
  }

  lemma ChallengeComplete<P(!new)>(e: EcKit<P>, asg: Assignment, aux: seq<Option<int>>, ins: seq<Boolean>, s: seq<bool>)
    requires ReadBits(aux, ins) == Known(s) && |s| == 768 && InField(e.curve.p, asg)
    requires Agrees(asg, HashAux(e.challenge, aux, ins)) && HashCorrect(e.challenge, ChallengeSpec(e.scheme), e.curve.p)
    ensures |e.challenge.out(|aux|, ins)| == 256 && SatAll(e.curve.p, asg, e.challenge.cons(|aux|, ins))
    ensures ReadBits(HashAux(e.challenge, aux, ins), e.challenge.out(|aux|, ins)) ==
            Known(BytesToBits(e.scheme.personalBlake2s(REDJUBJUB_PERSONALIZATION, BitsToBytes(s))))
  {
    assert HashCompleteAt(e.challenge, ChallengeSpec(e.scheme), e.curve.p, aux, ins, s, asg);
  }

  /** The base: its values satisfy the constraints and are the generator's. */
  lemma BaseComplete<P(!new)>(e: EcKit<P>, asg: Assignment, aux: seq<Option<int>>)
    requires InField(e.curve.p, asg) && Agrees(asg, WitnessAux(e.curve, aux, Some(e.at(e.scheme.generator))))
    requires Coordinates(e.curve, e.scheme.group, e.at)
    ensures SatAll(e.curve.p, asg, GeneratorCons(e.curve, |aux|, e.at(e.scheme.generator)))
    ensures PointVal(WitnessAux(e.curve, aux, Some(e.at(e.scheme.generator))), PointVars(|aux|)) ==
            Some(e.at(e.scheme.generator))
  {
    hide Coordinates, SatAll, WitnessCons, WitnessAux, OnEdwards, Complete, PointVal, PointAt, InField, Agrees;
    var c, n, x := e.curve, |aux|, e.at(e.scheme.generator);
    PointsOnCurve(c, e.scheme.group, e.at, e.scheme.generator, e.scheme.generator);
    var more := WitnessAux(c, aux, Some(x));
    WitnessComplete(c, aux, x);
    PointHeld(asg, more, PointVars(n));
    UseSatisfied(c.p, asg, more, WitnessCons(c, n));
    PinnedMeaning(c, asg, n, x);
    SatConcat(c.p, asg, WitnessCons(c, n),
              [Constraint(Num(n), ONES, Single(x.0, One)), Constraint(Num(n + 1), ONES, Single(x.1, One))]);
  }

  lemma UseSatisfied(p: int, asg: Assignment, aux: seq<Option<int>>, ks: seq<Constraint>)
    requires p > 0 && SatisfiedBy(p, aux, ks) && InField(p, asg) && Agrees(asg, aux)
    ensures SatAll(p, asg, ks)
  {
  }

  /** The challenge of known bits. */
  function KnownChallenge<P>(c: Scheme<P>, rb: seq<bool>, vb: seq<bool>, hb: seq<bool>): nat
    requires |rb| == |vb| == |hb| == 256
  {
    FromLe(c.personalBlake2s(REDJUBJUB_PERSONALIZATION, BitsToBytes(rb + vb + hb)))
  }

  /** What the state before `verify` holds: the points and the bits of R, the key, s and the hash. */
  ghost predicate Prepared<P>(e: EcKit<P>, aux: seq<Option<int>>, vk: nat, sig: nat, hash: seq<Boolean>,
                              v: P, r: P, rb: seq<bool>, vb: seq<bool>, sb: seq<bool>, hb: seq<bool>)
  {
    && |rb| == |vb| == |sb| == |hb| == 256
    && PointVal(aux, PointVars(vk)) == Some(e.at(v)) && PointVal(aux, PointVars(sig)) == Some(e.at(r))
    && ReadBits(aux, BitVars(sig + 21, 256)) == Known(rb) && ReadBits(aux, BitVars(vk + 21, 256)) == Known(vb)
    && ReadBits(aux, BitVars(sig + 277, 256)) == Known(sb) && ReadBits(aux, hash) == Known(hb)
  }

  lemma ReadIns(aux: seq<Option<int>>, vk: nat, sig: nat, hash: seq<Boolean>, rb: seq<bool>, vb: seq<bool>,
                hb: seq<bool>)
    requires ReadBits(aux, BitVars(sig + 21, 256)) == Known(rb) && ReadBits(aux, BitVars(vk + 21, 256)) == Known(vb)
    requires ReadBits(aux, hash) == Known(hb)
    ensures ReadBits(aux, ChallengeIns(vk, sig, hash)) == Known(rb + vb + hb)
  {
    hide ReadBits, Known;
    ReadConcat(aux, BitVars(sig + 21, 256), BitVars(vk + 21, 256), rb, vb);
    ReadConcat(aux, BitVars(sig + 21, 256) + BitVars(vk + 21, 256), hash, rb + vb, hb);
  }

  lemma PreparedParts<P>(e: EcKit<P>, aux: seq<Option<int>>, vk: nat, sig: nat, hash: seq<Boolean>,
                         v: P, r: P, rb: seq<bool>, vb: seq<bool>, sb: seq<bool>, hb: seq<bool>)
    requires Prepared(e, aux, vk, sig, hash, v, r, rb, vb, sb, hb)
    ensures |rb| == |vb| == |sb| == |hb| == 256
    ensures PointVal(aux, PointVars(vk)) == Some(e.at(v)) && PointVal(aux, PointVars(sig)) == Some(e.at(r))
    ensures ReadBits(aux, BitVars(sig + 21, 256)) == Known(rb) && ReadBits(aux, BitVars(vk + 21, 256)) == Known(vb)
    ensures ReadBits(aux, BitVars(sig + 277, 256)) == Known(sb) && ReadBits(aux, hash) == Known(hb)
  {
    hide PointVal, ReadBits, Known, BitVars;
  }

  /** The hash of known bits. */
  function Digest<P>(c: Scheme<P>, rb: seq<bool>, vb: seq<bool>, hb: seq<bool>): Bytes32
    requires |rb| == |vb| == |hb| == 256
  {
    c.personalBlake2s(REDJUBJUB_PERSONALIZATION, BitsToBytes(rb + vb + hb))
  }

  lemma DigestIs<P>(c: Scheme<P>, rb: seq<bool>, vb: seq<bool>, hb: seq<bool>)
    requires |rb| == |vb| == |hb| == 256
    ensures Digest(c, rb, vb, hb) == c.personalBlake2s(REDJUBJUB_PERSONALIZATION, BitsToBytes(rb + vb + hb))
    ensures KnownChallenge(c, rb, vb, hb) == FromLe(Digest(c, rb, vb, hb))
  {
    hide BitsToBytes, FromLe;
  }

  lemma VerifyRunIs<P>(e: EcKit<P>, aux: seq<Option<int>>, vk: nat, sig: nat, hash: seq<Boolean>)
    requires IsPrime(e.curve.p)
    ensures var ins, s := ChallengeIns(vk, sig, hash), BitVars(sig + 277, 256);
      var l, challenge := VerifyPlacesAt(e, |aux|, ins), e.challenge.out(|aux|, ins);
      var u := WitnessAux(e.curve, HashAux(e.challenge, aux, ins), Some(e.at(e.scheme.generator)));
      var v := MulAux(e.curve, u, PointVars(l.baseAt), s, |s|);
      var w := MulAux(e.curve, v, PointVars(vk), challenge, |challenge|);
      && VerifyRun(e, aux, vk, sig, hash) == AddAux(e.curve, w, PointVars(sig), MulOut(l.rightAt, 255))
      && (VerifyFails(e, aux, vk, sig, hash) <==>
          || MulFails(e.curve, u, PointVars(l.baseAt), s, |s|)
          || MulFails(e.curve, v, PointVars(vk), challenge, |challenge|)
          || StepsFail(e.curve.p, StepsOf(e.curve, w, PointVars(sig), MulOut(l.rightAt, 255))))
  {
    hide WitnessAux, HashAux, MulAux, AddAux, BitVars, VerifyPlacesAt, IsPrime, MulFails, StepsFail, StepsOf;
  }

  /** Where the run has arrived before each part. */
  lemma PlacesReached<P>(e: EcKit<P>, n: nat, ins: seq<Boolean>)
    ensures var l := VerifyPlacesAt(e, n, ins);
      && l.baseAt == n + e.challenge.size(ins) && l.leftAt == l.baseAt + 5
      && l.rightAt == StepAt(l.leftAt, 256) && l.sumAt == StepAt(l.rightAt, 256)
  {
  }

  lemma VerifyConsParts<P>(e: EcKit<P>, asg: Assignment, n: nat, vk: nat, sig: nat, hash: seq<Boolean>)
    requires e.curve.p > 0
    ensures var c, p, ins, s := e.curve, e.curve.p, ChallengeIns(vk, sig, hash), BitVars(sig + 277, 256);
      var l, challenge := VerifyPlacesAt(e, n, ins), e.challenge.out(n, ins);
      SatAll(p, asg, VerifyCons(e, n, vk, sig, hash)) <==>
      && SatAll(p, asg, e.challenge.cons(n, ins))
      && SatAll(p, asg, GeneratorCons(c, l.baseAt, e.at(e.scheme.generator)))
      && SatAll(p, asg, MulCons(c, l.leftAt, PointVars(l.baseAt), s, |s|))
      && SatAll(p, asg, MulCons(c, l.rightAt, PointVars(vk), challenge, |challenge|))
      && SatAll(p, asg, AddCons(c, l.sumAt, PointVars(sig), MulOut(l.rightAt, 255)))
      && SatAll(p, asg, SameCons(MulOut(l.leftAt, 255), AddOut(l.sumAt)))
  {
    hide SatAll, GeneratorCons, MulCons, AddCons, SameCons, BitVars, VerifyPlacesAt;
    var c, p, ins, s := e.curve, e.curve.p, ChallengeIns(vk, sig, hash), BitVars(sig + 277, 256);
    var l, challenge := VerifyPlacesAt(e, n, ins), e.challenge.out(n, ins);
    var right, same := AddCons(c, l.sumAt, PointVars(sig), MulOut(l.rightAt, 255)),
                       SameCons(MulOut(l.leftAt, 255), AddOut(l.sumAt));
    SatConcat(p, asg, right, same);
    SatFive(p, asg, e.challenge.cons(n, ins), GeneratorCons(c, l.baseAt, e.at(e.scheme.generator)),
            MulCons(c, l.leftAt, PointVars(l.baseAt), s, |s|),
            MulCons(c, l.rightAt, PointVars(vk), challenge, |challenge|), right + same);
  }

  /** With the values of the run every constraint but the last two holds, and those exactly when the equation does. */
  lemma VerifyComplete<P(!new)>(e: EcKit<P>, asg: Assignment, aux: seq<Option<int>>, vk: nat, sig: nat,
      hash: seq<Boolean>, v: P, r: P, rb: seq<bool>, vb: seq<bool>, sb: seq<bool>, hb: seq<bool>)
    requires InField(e.curve.p, asg) && Prepared(e, aux, vk, sig, hash, v, r, rb, vb, sb, hb)
    requires IsPrime(e.curve.p) && Agrees(asg, VerifyRun(e, aux, vk, sig, hash)) && KitReadyForCurve(e)
    ensures !VerifyFails(e, aux, vk, sig, hash)
    ensures SatAll(e.curve.p, asg, VerifyCons(e, |aux|, vk, sig, hash)) <==>
            GadgetEquation(e.scheme, ValueOf(sb), r, KnownChallenge(e.scheme, rb, vb, hb), v)
  {
    hide *;
    KitParts(e);
    PreparedParts(e, aux, vk, sig, hash, v, r, rb, vb, sb, hb);
    var p, c, g, ins, n := e.curve.p, e.curve, e.scheme.group, ChallengeIns(vk, sig, hash), |aux|;
    var l, challenge, left := VerifyPlacesAt(e, n, ins), e.challenge.out(n, ins), BitVars(sig + 277, 256);
    var gen, digest := e.scheme.generator, Digest(e.scheme, rb, vb, hb);
    var u1 := HashAux(e.challenge, aux, ins);
    var u2 := WitnessAux(c, u1, Some(e.at(gen)));
    var u3 := MulAux(c, u2, PointVars(l.baseAt), left, |left|);
    var u4 := MulAux(c, u3, PointVars(vk), challenge, |challenge|);
    var u5 := AddAux(c, u4, PointVars(sig), MulOut(l.rightAt, 255));
    VerifyRunIs(e, aux, vk, sig, hash);
    PlacesReached(e, n, ins);
    AgreesPrefix(asg, u4, u5);
    AgreesPrefix(asg, u3, u4);
    AgreesPrefix(asg, u2, u3);
    AgreesPrefix(asg, u1, u2);
    ReadIns(aux, vk, sig, hash, rb, vb, hb);
    ChallengeComplete(e, asg, aux, ins, rb + vb + hb);
    DigestIs(e.scheme, rb, vb, hb);
    BaseComplete(e, asg, u1);
    ReadKept(aux, u2, left, sb);
    MulComplete(c, g, e.at, u2, PointVars(l.baseAt), left, sb, gen, 256);
    PointValLater(aux, u3, PointVars(vk));
    ReadKept(u1, u3, challenge, BytesToBits(digest));
    MulComplete(c, g, e.at, u3, PointVars(vk), challenge, BytesToBits(digest), v, 256);
    PointValLater(aux, u4, PointVars(sig));
    WholeValue(sb, digest);
    var s, k := ValueOf(sb), FromLe(digest);
    AddComplete(c, g, e.at, u4, PointVars(sig), MulOut(l.rightAt, 255), r, Times(g, k, v));
    PointValLater(u3, u5, MulOut(l.leftAt, 255));
    PointHeld(asg, u5, MulOut(l.leftAt, 255));
    PointHeld(asg, u5, AddOut(l.sumAt));
    SameMeaning(c, asg, MulOut(l.leftAt, 255), AddOut(l.sumAt));
    SamePoint(c, g, e.at, Times(g, s, gen), g.add(r, Times(g, k, v)));
    EquationIs(e.scheme, s, r, k, v);
    UseSatisfied(p, asg, u3, MulCons(c, l.leftAt, PointVars(l.baseAt), left, |left|));
    UseSatisfied(p, asg, u4, MulCons(c, l.rightAt, PointVars(vk), challenge, |challenge|));
    UseSatisfied(p, asg, u5, AddCons(c, l.sumAt, PointVars(sig), MulOut(l.rightAt, 255)));
    VerifyConsParts(e, asg, n, vk, sig, hash);
  }

  lemma WholeValue(sb: seq<bool>, digest: Bytes32)
    requires |sb| == 256
    ensures sb[..256] == sb && BytesToBits(digest)[..256] == BytesToBits(digest)
    ensures ValueOf(BytesToBits(digest)) == FromLe(digest)
  {
    ValueOfBytes(digest);
  }
}
