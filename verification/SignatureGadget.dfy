/**
 The RedJubjub verification gadget (crypto-circuit-age/src/gadgets/redjubjub.rs):
 `alloc_vk`, `alloc_sig` and `verify` as constraints on curve points, given the
 gadget that encodes a point and the Blake2s gadget for the challenge.
 Soundness: any satisfying values carry a key and a signature that the relation
 of `Issuance.GadgetAccepts` accepts.
 */
module SignatureGadget {
  import opened Wrappers
  import opened Bits
  import opened PrimeField
  import opened R1cs
  import opened BitGadgets
  import opened Groups
  import opened Constants
  import opened Gadgets
  import opened Montgomery
  import opened EdwardsLaw
  import opened EdwardsGadgets
  import opened EdwardsRun
  import opened PointGadgets
  import opened RedJubjub
  import opened Issuance

  /** `repr`: the 256 bits of a point's encoding, by strict decomposition of its coordinates. */
  datatype ReprGadget = ReprGadget(
    size: nat,
    cons: (nat, EdwardsPoint) -> seq<Constraint>,
    out: (nat, EdwardsPoint) -> seq<Boolean>,
    fill: (seq<Option<int>>, EdwardsPoint, nat) -> Option<int>)

  /** The curve with its group and scheme, the point a set-up run allocates, and the two sub-gadgets. */
  datatype EcKit<!P> = EcKit(curve: Curve, scheme: Scheme<P>, at: P -> Coords, placeholder: P,
                             repr: ReprGadget, challenge: HashGadget)

  function ReprAux(r: ReprGadget, aux: seq<Option<int>>, q: EdwardsPoint): (s: seq<Option<int>>)
    ensures aux <= s && |s| == |aux| + r.size
  {
    aux + seq(r.size, k requires 0 <= k < r.size => r.fill(aux, q, k))
  }

  ghost predicate ReprSoundAt<P>(e: EcKit<P>, n: nat, q: EdwardsPoint, asg: Assignment, x: P)
    requires e.curve.p > 0
  {
    InField(e.curve.p, asg) && PointAt(asg, q) == e.at(x) && SatAll(e.curve.p, asg, e.repr.cons(n, q)) ==>
      AllBits(asg, e.repr.out(n, q)) && Vals(asg, e.repr.out(n, q)) == BytesToBits(e.scheme.encode(x))
  }

  ghost predicate ReprCompleteAt<P>(e: EcKit<P>, aux: seq<Option<int>>, q: EdwardsPoint, x: P)
    requires e.curve.p > 0
  {
    PointVal(aux, q) == Some(e.at(x)) ==>
      && SatisfiedBy(e.curve.p, ReprAux(e.repr, aux, q), e.repr.cons(|aux|, q))
      && ReadBits(ReprAux(e.repr, aux, q), e.repr.out(|aux|, q)) == Known(BytesToBits(e.scheme.encode(x)))
  }

  ghost predicate ReprInRangeAt(r: ReprGadget, p: int, aux: seq<Option<int>>, q: EdwardsPoint, k: nat) {
    InRange(p, aux) ==> Within(p, r.fill(aux, q, k))
  }

  ghost predicate ReprCorrect<P(!new)>(e: EcKit<P>)
    requires e.curve.p > 0
  {
    && (forall n, q :: |e.repr.out(n, q)| == 256)
    && (forall n, q, asg, x :: ReprSoundAt(e, n, q, asg, x))
    && (forall aux, q, x :: ReprCompleteAt(e, aux, q, x))
    && (forall aux, q, k :: ReprInRangeAt(e.repr, e.curve.p, aux, q, k))
  }

  /** The personalised hash, on whole bytes. */
  function ChallengeSpec<P>(c: Scheme<P>): HashSpec {
    s => if |s| % 8 == 0 && |s| <= MAX_BLAKE2S_BITS
         then Some(BytesToBits(c.personalBlake2s(REDJUBJUB_PERSONALIZATION, BitsToBytes(s)))) else None
  }

  /** The curve has eight times as many points as the subgroup. */
  ghost predicate CofactorEight<P(!new)>(c: Scheme<P>) {
    forall x :: Times(c.group, c.order * 8, x) == c.group.zero
  }

  ghost predicate KitReadyForCurve<P(!new)>(e: EcKit<P>) {
    && Coordinates(e.curve, e.scheme.group, e.at) && Proper(e.scheme) && CofactorEight(e.scheme)
    && ReprCorrect(e) && HashCorrect(e.challenge, ChallengeSpec(e.scheme), e.curve.p)
  }

  // ----------------------------------------------------- the constraints

  /** A point that is not of small order, m bits of which the first 256 must encode it. */
  function EncodedCons<P>(e: EcKit<P>, n: nat, m: nat): seq<Constraint>
    requires m >= 256
  {
    WitnessCons(e.curve, n) + SmallOrderCons(e.curve, n + 5, PointVars(n)) + BoolCons(n + 21, m)
    + e.repr.cons(n + 21 + m, PointVars(n))
    + EqualConsOf(e.repr.out(n + 21 + m, PointVars(n)), BitVars(n + 21, 256))
  }

  /** The equality constraints, for vectors of one length. */
  function EqualConsOf(a: seq<Boolean>, b: seq<Boolean>): seq<Constraint> {
    if |a| == |b| then EqualCons(a, b) else []
  }

  function VkSize<P>(e: EcKit<P>): nat { 277 + e.repr.size }
  function SigSize<P>(e: EcKit<P>): nat { 533 + e.repr.size }

  function ChallengeIns(vk: nat, sig: nat, hash: seq<Boolean>): seq<Boolean> {
    BitVars(sig + 21, 256) + BitVars(vk + 21, 256) + hash
  }

  /** The fixed base: a witnessed point pinned to the generator's coordinates. */
  function GeneratorCons(c: Curve, n: nat, x: Coords): seq<Constraint> {
    WitnessCons(c, n) + [Constraint(Num(n), ONES, Single(x.0, One)), Constraint(Num(n + 1), ONES, Single(x.1, One))]
  }

  function SameCons(q: EdwardsPoint, r: EdwardsPoint): seq<Constraint> {
    [Constraint(Minus(Num(q.u), Num(r.u)), ONES, []), Constraint(Minus(Num(q.v), Num(r.v)), ONES, [])]
  }

  /** Where the parts of `verify` start: base, its multiple, the key's multiple, the sum and the end. */
  datatype VerifyPlaces = VerifyPlaces(baseAt: nat, leftAt: nat, rightAt: nat, sumAt: nat)

  function VerifyPlacesAt<P>(e: EcKit<P>, n: nat, ins: seq<Boolean>): VerifyPlaces {
    var b := n + e.challenge.size(ins);
    VerifyPlaces(b, b + 5, b + 5 + 3317, b + 5 + 6634)
  }

  function VerifyCons<P>(e: EcKit<P>, n: nat, vk: nat, sig: nat, hash: seq<Boolean>): seq<Constraint> {
    var c, ins, s := e.curve, ChallengeIns(vk, sig, hash), BitVars(sig + 277, 256);
    var l, challenge := VerifyPlacesAt(e, n, ins), e.challenge.out(n, ins);
    e.challenge.cons(n, ins) + GeneratorCons(c, l.baseAt, e.at(e.scheme.generator))
    + MulCons(c, l.leftAt, PointVars(l.baseAt), s, |s|)
    + MulCons(c, l.rightAt, PointVars(vk), challenge, |challenge|)
    + (AddCons(c, l.sumAt, PointVars(sig), MulOut(l.rightAt, 255)) + SameCons(MulOut(l.leftAt, 255), AddOut(l.sumAt)))
  }

  // ------------------------------------------------------------ soundness

  lemma KitParts<P(!new)>(e: EcKit<P>)
    requires KitReadyForCurve(e)
    ensures Coordinates(e.curve, e.scheme.group, e.at) && Proper(e.scheme) && CofactorEight(e.scheme)
    ensures e.curve.p > 2 && IsPrime(e.curve.p) && Abelian(e.scheme.group)
    ensures ReprCorrect(e) && HashCorrect(e.challenge, ChallengeSpec(e.scheme), e.curve.p)
  {
  }

  lemma UseRepr<P(!new)>(e: EcKit<P>, n: nat, q: EdwardsPoint, asg: Assignment, x: P)
    requires e.curve.p > 0 && ReprCorrect(e) && InField(e.curve.p, asg) && PointAt(asg, q) == e.at(x)
    requires SatAll(e.curve.p, asg, e.repr.cons(n, q))
    ensures |e.repr.out(n, q)| == 256
    ensures AllBits(asg, e.repr.out(n, q)) && Vals(asg, e.repr.out(n, q)) == BytesToBits(e.scheme.encode(x))
  {
    assert ReprSoundAt(e, n, q, asg, x);
  }

  lemma ReprLength<P(!new)>(e: EcKit<P>, n: nat, q: EdwardsPoint)
    requires e.curve.p > 0 && ReprCorrect(e)
    ensures |e.repr.out(n, q)| == 256
  {
  }

  /** n holds a point of the group, not of small order, and m bits of which the first 256 encode it. */
  ghost predicate EncodedAs<P>(e: EcKit<P>, asg: Assignment, n: nat, m: nat, x: P) {
    && AllBits(asg, BitVars(n + 21, m)) && AllBits(asg, BitVars(n + 21, 256))
    && PointAt(asg, PointVars(n)) == e.at(x) && Times(e.scheme.group, 8, x) != e.scheme.group.zero
    && BitsToBytes(Vals(asg, BitVars(n + 21, 256))) == e.scheme.encode(x)
  }

  /** The point behind an allocated key or the R of a signature. */
  lemma EncodedSound<P(!new)>(e: EcKit<P>, asg: Assignment, n: nat, m: nat) returns (x: P)
    requires m >= 256 && InField(e.curve.p, asg) && SatAll(e.curve.p, asg, EncodedCons(e, n, m))
    requires KitReadyForCurve(e)
    ensures EncodedAs(e, asg, n, m, x)
  {
    hide *;
    KitParts(e);
    var p, c, q, at := e.curve.p, e.curve, PointVars(n), n + 21 + m;
    ReprLength(e, at, q);
    EncodedConsIs(e, n, m);
    SatFive(p, asg, WitnessCons(c, n), SmallOrderCons(c, n + 5, q), BoolCons(n + 21, m), e.repr.cons(at, q),
            EqualCons(e.repr.out(at, q), BitVars(n + 21, 256)));
    x := WitnessSound(c, e.scheme.group, e.at, asg, n);
    SmallOrderSound(c, e.scheme.group, e.at, asg, n + 5, q, x);
    BitsMeaning(p, asg, n + 21, m);
    FirstBits(asg, n + 21, 256, m);
    UseRepr(e, at, q, asg, x);
    EqualMeaning(p, asg, e.repr.out(at, q), BitVars(n + 21, 256));
    BytesBitsBytes(e.scheme.encode(x));
    EncodedAsIs(e, asg, n, m, x);
  }

  lemma EncodedConsIs<P>(e: EcKit<P>, n: nat, m: nat)
    requires m >= 256 && |e.repr.out(n + 21 + m, PointVars(n))| == 256
    ensures EncodedCons(e, n, m) ==
            WitnessCons(e.curve, n) + SmallOrderCons(e.curve, n + 5, PointVars(n)) + BoolCons(n + 21, m)
            + e.repr.cons(n + 21 + m, PointVars(n))
            + EqualCons(e.repr.out(n + 21 + m, PointVars(n)), BitVars(n + 21, 256))
  {
    hide WitnessCons, SmallOrderCons, BoolCons, EqualCons, BitVars;
    assert |BitVars(n + 21, 256)| == 256;
  }

  lemma EncodedAsIs<P>(e: EcKit<P>, asg: Assignment, n: nat, m: nat, x: P)
    ensures EncodedAs(e, asg, n, m, x) <==>
      && AllBits(asg, BitVars(n + 21, m)) && AllBits(asg, BitVars(n + 21, 256))
      && PointAt(asg, PointVars(n)) == e.at(x) && Times(e.scheme.group, 8, x) != e.scheme.group.zero
      && BitsToBytes(Vals(asg, BitVars(n + 21, 256))) == e.scheme.encode(x)
  {
  }

  lemma FirstBits(asg: Assignment, n: nat, k: nat, m: nat)
    requires k <= m && AllBits(asg, BitVars(n, m))
    ensures AllBits(asg, BitVars(n, k)) && AllBits(asg, BitVars(n + k, m - k))
    ensures BitVars(n, m) == BitVars(n, k) + BitVars(n + k, m - k)
  {
    forall i | 0 <= i < k ensures BitVars(n, k)[i].IsBit(asg) {
      assert BitVars(n, m)[i].IsBit(asg);
    }
    var rest := BitVars(n + k, m - k);
    forall i | 0 <= i < m - k ensures rest[i].IsBit(asg) {
      assert BitVars(n, m)[k + i].IsBit(asg);
    }
  }

  /** A number's bits, read from its bytes. */
  lemma {:induction false} ValueOfBytes(b: seq<byte>)
    ensures ValueOf(BytesToBits(b)) == FromLe(b)
  {
    if b != [] {
      ValueOfBytes(b[1..]);
      Pow2Byte();
      ValueOfBits(b[0], 8);
      ValueConcat(BitsLe(b[0], 8), BytesToBits(b[1..]));
      assert BytesToBits(b) == BitsLe(b[0], 8) + BytesToBits(b[1..]);
    }
  }

  /** The bytes of 512 bits, half by half. */
  lemma Halves(s: seq<bool>, t: seq<bool>)
    requires |s| == |t| == 256
    ensures BitsToBytes(s + t)[..32] == BitsToBytes(s) && BitsToBytes(s + t)[32..] == BitsToBytes(t)
    ensures FromLe(BitsToBytes(t)) == ValueOf(t)
  {
    hide BytesToBits, BitsToBytes;
    var a, b := BitsToBytes(s), BitsToBytes(t);
    BitsBytesBits(s);
    BitsBytesBits(t);
    BytesToBitsConcat(a, b);
    BytesBitsBytes(a + b);
    ValueOfBytes(b);
  }

  lemma ThreeParts(a: seq<bool>, b: seq<bool>, c: seq<bool>)
    requires |a| % 8 == 0 && |b| % 8 == 0 && |c| % 8 == 0
    ensures BitsToBytes(a + b + c) == BitsToBytes(a) + BitsToBytes(b) + BitsToBytes(c)
  {
    hide BytesToBits, BitsToBytes;
    var x, y, z := BitsToBytes(a), BitsToBytes(b), BitsToBytes(c);
    BitsBytesBits(a);
    BitsBytesBits(b);
    BitsBytesBits(c);
    BytesToBitsConcat(x, y);
    BytesToBitsConcat(x + y, z);
    BytesBitsBytes(x + y + z);
  }

  lemma UseChallenge<P(!new)>(e: EcKit<P>, n: nat, ins: seq<Boolean>, asg: Assignment)
    requires HashCorrect(e.challenge, ChallengeSpec(e.scheme), e.curve.p) && InField(e.curve.p, asg)
    requires AllBits(asg, ins) && |ins| == 768 && SatAll(e.curve.p, asg, e.challenge.cons(n, ins))
    ensures |e.challenge.out(n, ins)| == 256 && AllBits(asg, e.challenge.out(n, ins))
    ensures ValueOf(Vals(asg, e.challenge.out(n, ins))) ==
            FromLe(e.scheme.personalBlake2s(REDJUBJUB_PERSONALIZATION, BitsToBytes(Vals(asg, ins))))
  {
    assert HashSoundAt(e.challenge, ChallengeSpec(e.scheme), e.curve.p, n, ins, asg);
    hide HashCorrect, BytesToBits, BitsToBytes, ValueOf, FromLe;
    ValueOfBytes(e.scheme.personalBlake2s(REDJUBJUB_PERSONALIZATION, BitsToBytes(Vals(asg, ins))));
  }

  lemma PinnedMeaning(c: Curve, asg: Assignment, n: nat, x: Coords)
    requires InField(c.p, asg) && Scalar(c, x.0) && Scalar(c, x.1)
    ensures SatAll(c.p, asg, [Constraint(Num(n), ONES, Single(x.0, One)),
                              Constraint(Num(n + 1), ONES, Single(x.1, One))])
            <==> PointAt(asg, PointVars(n)) == x
  {
    hide Congruent;
    var ks := [Constraint(Num(n), ONES, Single(x.0, One)), Constraint(Num(n + 1), ONES, Single(x.1, One))];
    PointInField(c, asg, PointVars(n));
    assert SatAll(c.p, asg, ks) <==> Sat(c.p, asg, ks[0]) && Sat(c.p, asg, ks[1]);
    SameResidue(c.p, asg.At(Aux(n)), x.0);
    SameResidue(c.p, asg.At(Aux(n + 1)), x.1);
  }

  lemma SameMeaning(c: Curve, asg: Assignment, q: EdwardsPoint, r: EdwardsPoint)
    requires InField(c.p, asg)
    ensures SatAll(c.p, asg, SameCons(q, r)) <==> PointAt(asg, q) == PointAt(asg, r)
  {
    hide Congruent;
    var ks := SameCons(q, r);
    PointInField(c, asg, q);
    PointInField(c, asg, r);
    assert SatAll(c.p, asg, ks) <==> Sat(c.p, asg, ks[0]) && Sat(c.p, asg, ks[1]);
    SameResidueZero(c.p, asg.At(Aux(q.u)), asg.At(Aux(r.u)));
    SameResidueZero(c.p, asg.At(Aux(q.v)), asg.At(Aux(r.v)));
  }

  lemma SameResidueZero(p: int, x: int, y: int)
    requires p > 0 && 0 <= x < p && 0 <= y < p
    ensures Congruent(p, (x - y) * 1, 0) <==> x == y
  {
    SameResidue(p, x, y);
    assert (x - y) * 1 - 0 == x - y;
  }

  /** The challenge of the bits an assignment carries. */
  function CarriedChallenge<P>(c: Scheme<P>, asg: Assignment, vk: nat, sig: nat, hash: seq<Boolean>): nat
    requires |hash| == 256
  {
    FromLe(c.personalBlake2s(REDJUBJUB_PERSONALIZATION, BitsToBytes(Vals(asg, ChallengeIns(vk, sig, hash)))))
  }

  /** The equation of the signature, on the points and bits that the constraints carry. */
  lemma VerifySound<P(!new)>(e: EcKit<P>, asg: Assignment, n: nat, vk: nat, sig: nat, hash: seq<Boolean>, v: P, r: P)
    requires InField(e.curve.p, asg) && |hash| == 256 && AllBits(asg, hash)
    requires AllBits(asg, BitVars(vk + 21, 256)) && AllBits(asg, BitVars(sig + 21, 256))
    requires AllBits(asg, BitVars(sig + 277, 256))
    requires PointAt(asg, PointVars(vk)) == e.at(v) && PointAt(asg, PointVars(sig)) == e.at(r)
    requires SatAll(e.curve.p, asg, VerifyCons(e, n, vk, sig, hash)) && KitReadyForCurve(e)
    ensures GadgetEquation(e.scheme, ValueOf(Vals(asg, BitVars(sig + 277, 256))), r,
                           CarriedChallenge(e.scheme, asg, vk, sig, hash), v)
  {
    hide KitReadyForCurve, Coordinates, Proper, CofactorEight, ReprCorrect, HashCorrect, InField, SatAll, PointAt;
    hide WitnessCons, MulCons, AddCons, SameCons, Times, BitsToBytes, AllBits, Vals, BitVars, ValueOf, FromLe, IsPrime;
    hide MulOut, AddOut, Abelian;
    KitParts(e);
    var p, c, g, ins := e.curve.p, e.curve, e.scheme.group, ChallengeIns(vk, sig, hash);
    var l, challenge := VerifyPlacesAt(e, n, ins), e.challenge.out(n, ins);
    var left, right := BitVars(sig + 277, 256), AddCons(c, l.sumAt, PointVars(sig), MulOut(l.rightAt, 255));
    SatFive(p, asg, e.challenge.cons(n, ins), GeneratorCons(c, l.baseAt, e.at(e.scheme.generator)),
            MulCons(c, l.leftAt, PointVars(l.baseAt), left, |left|),
            MulCons(c, l.rightAt, PointVars(vk), challenge, |challenge|),
            right + SameCons(MulOut(l.leftAt, 255), AddOut(l.sumAt)));
    SatConcat(p, asg, right, SameCons(MulOut(l.leftAt, 255), AddOut(l.sumAt)));
    InsAreBits(asg, vk, sig, hash);
    UseChallenge(e, n, ins, asg);
    BaseSound(e, asg, l.baseAt);
    MulSound(c, g, e.at, asg, l.leftAt, PointVars(l.baseAt), left, e.scheme.generator);
    MulSound(c, g, e.at, asg, l.rightAt, PointVars(vk), challenge, v);
    var s, k := ValueOf(Vals(asg, left)), ValueOf(Vals(asg, challenge));
    AddSound(c, g, e.at, asg, l.sumAt, PointVars(sig), MulOut(l.rightAt, 255), r, Times(g, k, v));
    SameMeaning(c, asg, MulOut(l.leftAt, 255), AddOut(l.sumAt));
    SamePoint(c, g, e.at, Times(g, s, e.scheme.generator), g.add(r, Times(g, k, v)));
  }

  lemma InsAreBits(asg: Assignment, vk: nat, sig: nat, hash: seq<Boolean>)
    requires AllBits(asg, hash) && AllBits(asg, BitVars(vk + 21, 256)) && AllBits(asg, BitVars(sig + 21, 256))
    ensures AllBits(asg, ChallengeIns(vk, sig, hash)) && |ChallengeIns(vk, sig, hash)| == 512 + |hash|
    ensures Vals(asg, ChallengeIns(vk, sig, hash)) ==
            Vals(asg, BitVars(sig + 21, 256)) + Vals(asg, BitVars(vk + 21, 256)) + Vals(asg, hash)
  {
    hide AllBits, Vals;
    ValsConcat(asg, BitVars(sig + 21, 256), BitVars(vk + 21, 256));
    ValsConcat(asg, BitVars(sig + 21, 256) + BitVars(vk + 21, 256), hash);
  }

  lemma BaseSound<P(!new)>(e: EcKit<P>, asg: Assignment, n: nat)
    requires Coordinates(e.curve, e.scheme.group, e.at) && InField(e.curve.p, asg)
    requires SatAll(e.curve.p, asg, GeneratorCons(e.curve, n, e.at(e.scheme.generator)))
    ensures PointAt(asg, PointVars(n)) == e.at(e.scheme.generator)
  {
    hide Coordinates, InField, SatAll, WitnessCons, OnEdwards, Complete;
    var c, x := e.curve, e.at(e.scheme.generator);
    PointsOnCurve(c, e.scheme.group, e.at, e.scheme.generator, e.scheme.generator);
    SatConcat(c.p, asg, WitnessCons(c, n),
              [Constraint(Num(n), ONES, Single(x.0, One)), Constraint(Num(n + 1), ONES, Single(x.1, One))]);
    PinnedMeaning(c, asg, n, x);
  }

  /** Any values that satisfy the three gadgets carry a key and a signature the relation accepts. */
  lemma GadgetSound<P(!new)>(e: EcKit<P>, asg: Assignment, vk: nat, sig: nat, n: nat, hash: seq<Boolean>)
    requires InField(e.curve.p, asg) && |hash| == 256 && AllBits(asg, hash)
    requires SatAll(e.curve.p, asg, EncodedCons(e, vk, 256)) && SatAll(e.curve.p, asg, EncodedCons(e, sig, 512))
    requires SatAll(e.curve.p, asg, VerifyCons(e, n, vk, sig, hash)) && KitReadyForCurve(e)
    ensures AllBits(asg, BitVars(vk + 21, 256)) && AllBits(asg, BitVars(sig + 21, 512))
    ensures GadgetAccepts(e.scheme, BitsToBytes(Vals(asg, BitVars(vk + 21, 256))),
                          BitsToBytes(Vals(asg, BitVars(sig + 21, 512))), BitsToBytes(Vals(asg, hash)))
  {
    hide KitReadyForCurve, Coordinates, Proper, CofactorEight, ReprCorrect, HashCorrect, InField, SatAll, PointAt;
    hide EncodedCons, VerifyCons, Times, BitsToBytes, AllBits, Vals, BitVars, ValueOf, FromLe, IsPrime, GadgetEquation;
    KitParts(e);
    var v := EncodedSound(e, asg, vk, 256);
    var r := EncodedSound(e, asg, sig, 512);
    EncodedAsIs(e, asg, vk, 256, v);
    EncodedAsIs(e, asg, sig, 512, r);
    FirstBits(asg, sig + 21, 256, 512);
    ValsConcat(asg, BitVars(sig + 21, 256), BitVars(sig + 277, 256));
    VerifySound(e, asg, n, vk, sig, hash, v, r);
    InsAreBits(asg, vk, sig, hash);
    Halves(Vals(asg, BitVars(sig + 21, 256)), Vals(asg, BitVars(sig + 277, 256)));
    ThreeParts(Vals(asg, BitVars(sig + 21, 256)), Vals(asg, BitVars(vk + 21, 256)), Vals(asg, hash));
    Decodes(e.scheme, v);
    Decodes(e.scheme, r);
  }

  lemma Decodes<P(!new)>(c: Scheme<P>, x: P)
    requires Proper(c)
    ensures c.decode(c.encode(x)) == Some(x)
  {
  }
}
