/**
 The RedJubjub gadget as a `SigGadget`: its constraints decide exactly the
 relation `Issuance.GadgetAccepts`, so the hypothesis of the circuit's theorems
 about the signature gadget reduces to the point encoding and the Blake2s gadget.
 */
module CurveGadget {
  import opened Wrappers
  import opened Bits
  import opened PrimeField
  import opened R1cs
  import opened BitAlloc
  import opened Groups
  import opened PublicInputs
  import opened Gadgets
  import opened Montgomery
  import opened EdwardsLaw
  import opened EdwardsGadgets
  import opened EdwardsRun
  import opened PointGadgets
  import opened RedJubjub
  import opened Issuance
  import opened SignatureGadget
  import opened SignatureRun

  /** The value at a position a run reaches. */
  function ValueAt(run: seq<Option<int>>, k: nat): Option<int> { if k < |run| then run[k] else None }

  ghost function VkFill<P>(e: EcKit<P>, aux: seq<Option<int>>, vk: Option<Bytes32>, k: nat): Option<int> {
    if IsPrime(e.curve.p) then ValueAt(VkRun(e, aux, vk), |aux| + k) else None
  }

  ghost function SigFill<P>(e: EcKit<P>, aux: seq<Option<int>>, sig: Option<Bytes64>, k: nat): Option<int> {
    if IsPrime(e.curve.p) then ValueAt(SigRun(e, aux, sig), |aux| + k) else None
  }

  ghost function VerifyFill<P>(e: EcKit<P>, aux: seq<Option<int>>, vk: nat, sig: nat, hash: seq<Boolean>, k: nat)
    : Option<int>
  {
    if IsPrime(e.curve.p) then ValueAt(VerifyRun(e, aux, vk, sig, hash), |aux| + k) else None
  }

  ghost function Gadget<P>(e: EcKit<P>): SigGadget {
    SigGadget(VkSize(e), (n: nat) => EncodedCons(e, n, 256), (n: nat) => BitVars(n + 21, 256),
              (aux, vk: Option<Bytes32>, k: nat) => VkFill(e, aux, vk, k),
              SigSize(e), (n: nat) => EncodedCons(e, n, 512), (n: nat) => BitVars(n + 21, 512),
              (aux, sig: Option<Bytes64>, k: nat) => SigFill(e, aux, sig, k),
              (vk: nat, sig: nat, hash) => VerifySize(e, vk, sig, hash),
              (vk: nat, sig: nat, n: nat, hash) => VerifyCons(e, n, vk, sig, hash),
              (aux, vk: nat, sig: nat, hash, k: nat) => VerifyFill(e, aux, vk, sig, hash, k))
  }

  lemma FilledIs(aux: seq<Option<int>>, run: seq<Option<int>>, n: nat, filled: seq<Option<int>>)
    requires aux <= run && |run| == |aux| + n && |filled| == n
    requires forall k :: 0 <= k < n ==> filled[k] == ValueAt(run, |aux| + k)
    ensures aux + filled == run
  {
    forall i | 0 <= i < |run| ensures (aux + filled)[i] == run[i] {
      if i >= |aux| {
        assert filled[i - |aux|] == ValueAt(run, |aux| + (i - |aux|));
      }
    }
  }

  lemma VkAuxIs<P>(e: EcKit<P>, aux: seq<Option<int>>, vk: Option<Bytes32>)
    requires IsPrime(e.curve.p)
    ensures VkAux(Gadget(e), aux, vk) == VkRun(e, aux, vk)
  {
    hide VkRun, IsPrime, EncodedCons, VerifyCons;
    var n, g := VkSize(e), Gadget(e);
    var filled := seq(n, k requires 0 <= k < n => g.vkFill(aux, vk, k));
    assert forall k :: 0 <= k < n ==> filled[k] == VkFill(e, aux, vk, k);
    FilledIs(aux, VkRun(e, aux, vk), n, filled);
  }

  lemma SigAuxIs<P>(e: EcKit<P>, aux: seq<Option<int>>, sig: Option<Bytes64>)
    requires IsPrime(e.curve.p)
    ensures SigAux(Gadget(e), aux, sig) == SigRun(e, aux, sig)
  {
    hide SigRun, IsPrime, EncodedCons, VerifyCons;
    var n, g := SigSize(e), Gadget(e);
    var filled := seq(n, k requires 0 <= k < n => g.sigFill(aux, sig, k));
    assert forall k :: 0 <= k < n ==> filled[k] == SigFill(e, aux, sig, k);
    FilledIs(aux, SigRun(e, aux, sig), n, filled);
  }

  lemma VerifyAuxIs<P>(e: EcKit<P>, aux: seq<Option<int>>, vk: nat, sig: nat, hash: seq<Boolean>)
    requires IsPrime(e.curve.p) && |e.challenge.out(|aux|, ChallengeIns(vk, sig, hash))| == 256
    ensures VerifyAux(Gadget(e), aux, vk, sig, hash) == VerifyRun(e, aux, vk, sig, hash)
  {
    hide VerifyRun, IsPrime, EncodedCons, VerifyCons, VerifySize;
    var n, g := VerifySize(e, vk, sig, hash), Gadget(e);
    var filled := seq(n, k requires 0 <= k < n => g.verifyFill(aux, vk, sig, hash, k));
    assert forall k :: 0 <= k < n ==> filled[k] == VerifyFill(e, aux, vk, sig, hash, k);
    FilledIs(aux, VerifyRun(e, aux, vk, sig, hash), n, filled);
  }

  // ------------------------------------------------------------- in range

  lemma InRangeAdded(p: int, aux: seq<Option<int>>, xs: seq<Option<int>>)
    requires InRange(p, aux) && forall i :: 0 <= i < |xs| ==> Within(p, xs[i])
    ensures InRange(p, aux + xs)
  {
  }

  lemma StepsInRange(c: Curve, aux: seq<Option<int>>, q: EdwardsPoint, r: EdwardsPoint)
    requires IsPrime(c.p)
    ensures var x := StepsOf(c, aux, q, r);
      Within(c.p, x.t) && Within(c.p, x.a) && Within(c.p, x.b) && Within(c.p, x.k) && Within(c.p, x.u)
      && Within(c.p, x.v)
  {
    PrimeAboveOne(c.p);
  }

  lemma AddInRange(c: Curve, aux: seq<Option<int>>, q: EdwardsPoint, r: EdwardsPoint)
    requires IsPrime(c.p) && InRange(c.p, aux)
    ensures InRange(c.p, AddAux(c, aux, q, r))
  {
    hide StepsOf, InRange;
    var x := StepsOf(c, aux, q, r);
    StepsInRange(c, aux, q, r);
    InRangeAdded(c.p, aux, [x.t, x.a, x.b, x.k, x.u, x.v]);
  }

  lemma DoubleInRange(c: Curve, aux: seq<Option<int>>, q: EdwardsPoint)
    requires IsPrime(c.p) && InRange(c.p, aux)
    ensures InRange(c.p, DoubleAux(c, aux, q))
  {
    hide StepsOf, InRange;
    var x := StepsOf(c, aux, q, q);
    StepsInRange(c, aux, q, q);
    InRangeAdded(c.p, aux, [x.t, x.a, x.k, x.u, x.v]);
  }

  lemma SelectInRange(p: int, aux: seq<Option<int>>, q: EdwardsPoint, b: Boolean)
    requires p > 1 && InRange(p, aux)
    ensures InRange(p, SelectAux(aux, q, b))
  {
  }

  lemma {:induction false} MulInRange(c: Curve, aux: seq<Option<int>>, q: EdwardsPoint, bits: seq<Boolean>, k: nat)
    requires IsPrime(c.p) && InRange(c.p, aux) && k <= |bits|
    ensures InRange(c.p, MulAux(c, aux, q, bits, k))
  {
    hide InRange, DoubleAux, SelectAux, AddAux, IsPrime;
    PrimeAboveOne(c.p);
    if k > 0 {
      MulInRange(c, aux, q, bits, k - 1);
      var n, u, i, b := |aux|, MulAux(c, aux, q, bits, k - 1), k - 1, bits[k - 1];
      if i == 0 {
        SelectInRange(c.p, u, q, b);
      } else {
        var v := DoubleAux(c, u, MulBase(n, q, i - 1));
        DoubleInRange(c, u, MulBase(n, q, i - 1));
        SelectInRange(c.p, v, MulBase(n, q, i), b);
        AddInRange(c, SelectAux(v, MulBase(n, q, i), b), MulOut(n, i - 1), SelectOut(|v|));
      }
    }
  }

  lemma WitnessInRange(c: Curve, aux: seq<Option<int>>, x: Option<Coords>)
    requires c.p > 0 && InRange(c.p, aux) && (x.Some? ==> Scalar(c, x.value.0) && Scalar(c, x.value.1))
    ensures InRange(c.p, WitnessAux(c, aux, x))
  {
    hide InRange;
    InRangeAdded(c.p, aux, WitnessAux(c, aux, x)[|aux|..]);
    assert WitnessAux(c, aux, x) == aux + WitnessAux(c, aux, x)[|aux|..];
  }

  lemma SmallOrderInRange(c: Curve, aux: seq<Option<int>>, q: EdwardsPoint)
    requires IsPrime(c.p) && InRange(c.p, aux)
    ensures InRange(c.p, SmallOrderAux(c, aux, q))
  {
    hide InRange, DoubleAux, IsPrime;
    PrimeAboveOne(c.p);
    var u := DoubleAux(c, aux, q);
    var v := DoubleAux(c, u, DoubleOut(|aux|));
    var w := ThirdDouble(c, aux, q);
    DoubleInRange(c, aux, q);
    DoubleInRange(c, u, DoubleOut(|aux|));
    DoubleInRange(c, v, DoubleOut(|aux| + 5));
    InRangeAdded(c.p, w, [QuotientOf(c.p, Some(1), NumVal(w, |aux| + 13))]);
  }

  lemma ReprInRange<P(!new)>(e: EcKit<P>, aux: seq<Option<int>>, q: EdwardsPoint)
    requires e.curve.p > 0 && InRange(e.curve.p, aux) && ReprCorrect(e)
    ensures InRange(e.curve.p, ReprAux(e.repr, aux, q))
  {
    var xs := seq(e.repr.size, k requires 0 <= k < e.repr.size => e.repr.fill(aux, q, k));
    forall k | 0 <= k < |xs| ensures Within(e.curve.p, xs[k]) {
      assert ReprInRangeAt(e.repr, e.curve.p, aux, q, k);
    }
    InRangeAdded(e.curve.p, aux, xs);
  }

  lemma EncodedInRange<P(!new)>(e: EcKit<P>, aux: seq<Option<int>>, x: Option<Coords>, bits: Option<seq<bool>>, m: nat)
    requires IsPrime(e.curve.p) && InRange(e.curve.p, aux) && (bits.Some? ==> |bits.value| == m)
    requires (x.Some? ==> Scalar(e.curve, x.value.0) && Scalar(e.curve, x.value.1)) && ReprCorrect(e)
    ensures InRange(e.curve.p, EncodedAux(e, aux, x, bits, m))
  {
    hide InRange, WitnessAux, SmallOrderAux, IsPrime, ReprCorrect, BitValues, ReprAux;
    PrimeAboveOne(e.curve.p);
    var u, q := WitnessAux(e.curve, aux, x), PointVars(|aux|);
    WitnessInRange(e.curve, aux, x);
    SmallOrderInRange(e.curve, u, q);
    var v := SmallOrderAux(e.curve, u, q);
    BitValuesInRange(e.curve.p, m, bits);
    InRangeAdded(e.curve.p, v, BitValues(m, bits));
    ReprInRange(e, v + BitValues(m, bits), q);
  }

  lemma BitValuesInRange(p: int, m: nat, bits: Option<seq<bool>>)
    requires p > 1 && (bits.Some? ==> |bits.value| == m)
    ensures forall i :: 0 <= i < m ==> Within(p, BitValues(m, bits)[i])
  {
  }

  lemma RunPointInRange<P(!new)>(e: EcKit<P>, b: Option<Bytes32>)
    requires Coordinates(e.curve, e.scheme.group, e.at)
    ensures RunPoint(e, b).Some? ==> Scalar(e.curve, RunPoint(e, b).value.0) && Scalar(e.curve, RunPoint(e, b).value.1)
  {
    hide Coordinates;
    var x := match b case None => e.placeholder case Some(s) =>
      match e.scheme.decode(s) case None => e.placeholder case Some(y) => y;
    PointsOnCurve(e.curve, e.scheme.group, e.at, x, x);
  }

  lemma VerifyInRange<P(!new)>(e: EcKit<P>, aux: seq<Option<int>>, vk: nat, sig: nat, hash: seq<Boolean>)
    requires IsPrime(e.curve.p) && InRange(e.curve.p, aux) && KitReadyForCurve(e)
    ensures InRange(e.curve.p, VerifyRun(e, aux, vk, sig, hash))
  {
    hide KitReadyForCurve, Coordinates, Proper, CofactorEight, ReprCorrect, HashCorrect, IsPrime;
    hide InRange, WitnessAux, MulAux, AddAux, HashAux, BitVars;
    KitParts(e);
    var c, ins, left := e.curve, ChallengeIns(vk, sig, hash), BitVars(sig + 277, 256);
    var l, challenge := VerifyPlacesAt(e, |aux|, ins), e.challenge.out(|aux|, ins);
    var u1 := HashAux(e.challenge, aux, ins);
    HashAuxInRange(e.challenge, ChallengeSpec(e.scheme), c.p, aux, ins);
    var gen := e.scheme.generator;
    CoordinatesScalar(e, gen);
    WitnessInRange(c, u1, Some(e.at(gen)));
    var u2 := WitnessAux(c, u1, Some(e.at(gen)));
    MulInRange(c, u2, PointVars(l.baseAt), left, |left|);
    var u3 := MulAux(c, u2, PointVars(l.baseAt), left, |left|);
    MulInRange(c, u3, PointVars(vk), challenge, |challenge|);
    AddInRange(c, MulAux(c, u3, PointVars(vk), challenge, |challenge|), PointVars(sig), MulOut(l.rightAt, 255));
  }

  lemma CoordinatesScalar<P(!new)>(e: EcKit<P>, x: P)
    requires Coordinates(e.curve, e.scheme.group, e.at)
    ensures Scalar(e.curve, e.at(x).0) && Scalar(e.curve, e.at(x).1)
  {
    hide Coordinates;
    PointsOnCurve(e.curve, e.scheme.group, e.at, x, x);
  }

  lemma FillsInRange<P(!new)>(e: EcKit<P>, aux: seq<Option<int>>, vk: Option<Bytes32>, sig: Option<Bytes64>,
                              m: nat, n: nat, hash: seq<Boolean>, k: nat)
    requires InRange(e.curve.p, aux) && KitReadyForCurve(e)
    ensures Within(e.curve.p, VkFill(e, aux, vk, k)) && Within(e.curve.p, SigFill(e, aux, sig, k))
    ensures Within(e.curve.p, VerifyFill(e, aux, m, n, hash, k))
  {
    hide KitReadyForCurve, Coordinates, Proper, CofactorEight, ReprCorrect, HashCorrect, IsPrime;
    hide EncodedAux, VerifyRun, RunPoint, BytesToBits;
    KitParts(e);
    var r: Option<Bytes32> := if sig.Some? then Some(sig.value[..32]) else None;
    RunPointInRange(e, vk);
    RunPointInRange(e, r);
    EncodedInRange(e, aux, RunPoint(e, vk), MapOption(vk, b => BytesToBits(b)), 256);
    EncodedInRange(e, aux, RunPoint(e, r), MapOption(sig, b => BytesToBits(b)), 512);
    VerifyInRange(e, aux, m, n, hash);
  }

  // ---------------------------------------------------- the whole gadget

  /** The bits of an encoded allocation, once it is part of the state. */
  lemma ReadEncoded<P>(e: EcKit<P>, aux: seq<Option<int>>, x: Option<Coords>, bits: seq<bool>, all: seq<Option<int>>,
                       k: nat)
    requires IsPrime(e.curve.p) && k <= |bits| && EncodedAux(e, aux, x, Some(bits), |bits|) <= all
    ensures ReadBits(all, BitVars(|aux| + 21, |bits|)) == Known(bits)
    ensures ReadBits(all, BitVars(|aux| + 21, k)) == Known(bits[..k])
    ensures ReadBits(all, BitVars(|aux| + 21 + k, |bits| - k)) == Known(bits[k..])
  {
    hide IsPrime, PointAux, ReprAux, ReadBits, Known, BitVars, BitValues;
    var u := PointAux(e, aux, x);
    assert u + BitValues(|bits|, Some(bits)) <= EncodedAux(e, aux, x, Some(bits), |bits|);
    ReadFirst(u, bits, all, k);
  }

  /** An allocation whose bytes parse, inside any later state: its constraints hold and its values read back. */
  lemma AllocatedHolds<P(!new)>(e: EcKit<P>, asg: Assignment, aux: seq<Option<int>>, at: nat, b: Bytes32,
                                bits: seq<bool>, x: P)
    requires IsPrime(e.curve.p) && InField(e.curve.p, asg) && Agrees(asg, aux) && at <= |aux|
    requires |bits| >= 256 && bits[..256] == BytesToBits(b) && GadgetPoint(e.scheme, b) == Some(x)
    requires EncodedAux(e, aux[..at], Some(e.at(x)), Some(bits), |bits|) <= aux && KitReadyForCurve(e)
    ensures SatAll(e.curve.p, asg, EncodedCons(e, at, |bits|)) && PointVal(aux, PointVars(at)) == Some(e.at(x))
    ensures ReadBits(aux, BitVars(at + 21, 256)) == Known(bits[..256])
    ensures ReadBits(aux, BitVars(at + 277, |bits| - 256)) == Known(bits[256..])
  {
    hide KitReadyForCurve, Coordinates, Proper, CofactorEight, ReprCorrect, HashCorrect, IsPrime, InField, SatAll;
    hide EncodedAux, EncodedCons, Times, BytesToBits, BitVars, PointVal, ReadBits, Known, Agrees, SatisfiedBy;
    KitParts(e);
    Encodes(e.scheme, b);
    var u := aux[..at];
    var more := EncodedAux(e, u, Some(e.at(x)), Some(bits), |bits|);
    EncodedComplete(e, u, x, bits);
    AgreesPrefix(asg, more, aux);
    UseSatisfied(e.curve.p, asg, more, EncodedCons(e, at, |bits|));
    PointValLater(more, aux, PointVars(at));
    ReadEncoded(e, u, Some(e.at(x)), bits, aux, 256);
  }

  lemma Encodes<P(!new)>(c: Scheme<P>, b: Bytes32)
    requires Proper(c) && c.decode(b).Some?
    ensures c.encode(c.decode(b).value) == b
  {
  }

  lemma KnownChallengeIs<P>(c: Scheme<P>, r: Bytes32, vk: Bytes32, hash: Bytes32)
    ensures |BytesToBits(r)| == |BytesToBits(vk)| == |BytesToBits(hash)| == 256
    ensures KnownChallenge(c, BytesToBits(r), BytesToBits(vk), BytesToBits(hash)) == GadgetChallenge(c, r, vk, hash)
  {
    hide FromLe;
    ThreeParts(BytesToBits(r), BytesToBits(vk), BytesToBits(hash));
    BytesBitsBytes(r);
    BytesBitsBytes(vk);
    BytesBitsBytes(hash);
  }

  lemma SignatureBits(sig: Bytes64)
    ensures var r: Bytes32, s: Bytes32 := sig[..32], sig[32..];
      BytesToBits(sig)[..256] == BytesToBits(r) && BytesToBits(sig)[256..] == BytesToBits(s)
      && ValueOf(BytesToBits(s)) == FromLe(s)
  {
    hide ValueOf, FromLe;
    assert sig == sig[..32] + sig[32..];
    BytesToBitsConcat(sig[..32], sig[32..]);
    ValueOfBytes(sig[32..]);
  }

  /** On bytes that parse, the run satisfies the three gadgets exactly when the relation accepts. */
  lemma GadgetComplete<P(!new)>(e: EcKit<P>, asg: Assignment, aux: seq<Option<int>>, vkAt: nat, sigAt: nat,
                                hash: seq<Boolean>, vk: Bytes32, sig: Bytes64, hashBytes: Bytes32)
    requires InField(e.curve.p, asg) && IsPrime(e.curve.p)
    requires GadgetPoint(e.scheme, vk).Some? && GadgetPoint(e.scheme, sig[..32]).Some?
    requires vkAt <= |aux| && sigAt <= |aux|
    requires VkRun(e, aux[..vkAt], Some(vk)) <= aux && SigRun(e, aux[..sigAt], Some(sig)) <= aux
    requires ReadBits(aux, hash) == Known(BytesToBits(hashBytes))
    requires Agrees(asg, VerifyRun(e, aux, vkAt, sigAt, hash)) && KitReadyForCurve(e)
    ensures SatAll(e.curve.p, asg, EncodedCons(e, vkAt, 256)) && SatAll(e.curve.p, asg, EncodedCons(e, sigAt, 512))
    ensures !VerifyFails(e, aux, vkAt, sigAt, hash)
    ensures SatAll(e.curve.p, asg, VerifyCons(e, |aux|, vkAt, sigAt, hash)) <==>
            GadgetAccepts(e.scheme, vk, sig, hashBytes)
  {
    hide KitReadyForCurve, Coordinates, Proper, CofactorEight, ReprCorrect, HashCorrect, IsPrime, InField, SatAll;
    hide EncodedAux, EncodedCons, VerifyCons, Times, BytesToBits, BitVars, PointVal, ReadBits, Known, Agrees;
    hide VerifyRun, VerifyFails, ValueOf, FromLe, KnownChallenge, GadgetChallenge, GadgetEquation;
    var v, r := GadgetPoint(e.scheme, vk).value, GadgetPoint(e.scheme, sig[..32]).value;
    AgreesPrefix(asg, aux, VerifyRun(e, aux, vkAt, sigAt, hash));
    SignatureBits(sig);
    AllocatedHolds(e, asg, aux, vkAt, vk, BytesToBits(vk), v);
    AllocatedHolds(e, asg, aux, sigAt, sig[..32], BytesToBits(sig), r);
    KnownChallengeIs(e.scheme, sig[..32], vk, hashBytes);
    VerifyComplete(e, asg, aux, vkAt, sigAt, hash, v, r, BytesToBits(sig[..32]), BytesToBits(vk),
                   BytesToBits(sig[32..]), BytesToBits(hashBytes));
  }

  /** After bytes that parse, and any hash bits, `verify` divides by nothing that is zero. */
  lemma VerifySucceeds<P(!new)>(e: EcKit<P>, aux: seq<Option<int>>, vkAt: nat, sigAt: nat,
                                hash: seq<Boolean>, vk: Bytes32, sig: Bytes64, hashBytes: Bytes32)
    requires IsPrime(e.curve.p) && vkAt <= |aux| && sigAt <= |aux|
    requires VkRun(e, aux[..vkAt], Some(vk)) <= aux && SigRun(e, aux[..sigAt], Some(sig)) <= aux
    requires ReadBits(aux, hash) == Known(BytesToBits(hashBytes)) && InRange(e.curve.p, aux)
    requires GadgetPoint(e.scheme, vk).Some? && GadgetPoint(e.scheme, sig[..32]).Some? && KitReadyForCurve(e)
    ensures !VerifyFails(e, aux, vkAt, sigAt, hash)
  {
    hide KitReadyForCurve, IsPrime, EncodedCons, VerifyCons, Times, VkRun, SigRun, VerifyRun, VerifyFails, GadgetPoint;
    hide ReadBits, Known, BytesToBits, GadgetAccepts, SatAll;
    VerifyInRange(e, aux, vkAt, sigAt, hash);
    PrimeAboveOne(e.curve.p);
    var asg := RunAssignment([], VerifyRun(e, aux, vkAt, sigAt, hash));
    GadgetComplete(e, asg, aux, vkAt, sigAt, hash, vk, sig, hashBytes);
  }

  lemma SoundAt<P(!new)>(e: EcKit<P>, vk: nat, sig: nat, n: nat, hash: seq<Boolean>, asg: Assignment)
    requires KitReadyForCurve(e)
    ensures SigSoundAt(Gadget(e), GadgetSpec(e.scheme), e.curve.p, vk, sig, n, hash, asg)
  {
    hide KitReadyForCurve, SatAll, AllBits, Vals, BitsToBytes, EncodedCons, VerifyCons, GadgetAccepts, BitVars;
    var p := e.curve.p;
    if InField(p, asg) && |hash| == 256 && AllBits(asg, hash) && SigSat(Gadget(e), p, vk, sig, n, hash, asg) {
      GadgetSound(e, asg, vk, sig, n, hash);
    }
  }

  lemma CompleteAt<P(!new)>(e: EcKit<P>, aux: seq<Option<int>>, vk: nat, sig: nat, hash: seq<Boolean>,
                            vkBytes: Bytes32, sigBytes: Bytes64, hashBytes: Bytes32, asg: Assignment)
    requires KitReadyForCurve(e)
    ensures SigCompleteAt(Gadget(e), GadgetSpec(e.scheme), e.curve.p, aux, vk, sig, hash, vkBytes, sigBytes, hashBytes,
                          asg)
  {
    hide KitReadyForCurve, InField, SatAll, EncodedCons, VerifyCons, GadgetAccepts, GadgetPoint, ReadBits, Known;
    hide Agrees;
    hide BytesToBits, VkRun, SigRun, VerifyRun, VkAux, SigAux, VerifyAux, BitVars, VkFill, SigFill, VerifyFill, IsPrime;
    KitParts(e);
    var p, g, spec := e.curve.p, Gadget(e), GadgetSpec(e.scheme);
    if InField(p, asg) && spec.vkParses(vkBytes) && spec.sigParses(sigBytes)
       && Allotted(g, aux, vk, sig, vkBytes, sigBytes) && ReadBits(aux, hash) == Known(BytesToBits(hashBytes))
       && Agrees(asg, VerifyAux(g, aux, vk, sig, hash)) {
      ChallengeLength(e, |aux|, ChallengeIns(vk, sig, hash));
      VkAuxIs(e, aux[..vk], Some(vkBytes));
      SigAuxIs(e, aux[..sig], Some(sigBytes));
      VerifyAuxIs(e, aux, vk, sig, hash);
      GadgetComplete(e, asg, aux, vk, sig, hash, vkBytes, sigBytes, hashBytes);
    }
  }

  lemma ChallengeLength<P(!new)>(e: EcKit<P>, n: nat, ins: seq<Boolean>)
    requires HashCorrect(e.challenge, ChallengeSpec(e.scheme), e.curve.p)
    ensures |e.challenge.out(n, ins)| == 256
  {
  }

  lemma KeyBitsAt<P(!new)>(e: EcKit<P>, aux: seq<Option<int>>, vk: Bytes32)
    requires IsPrime(e.curve.p)
    ensures VkBitsAt(Gadget(e), aux, vk)
  {
    hide EncodedCons, VerifyCons, ReadBits, Known, BytesToBits, EncodedAux, VkAux, BitVars, IsPrime, RunPoint;
    VkAuxIs(e, aux, Some(vk));
    ReadEncoded(e, aux, RunPoint(e, Some(vk)), BytesToBits(vk), VkRun(e, aux, Some(vk)), 256);
  }

  /**
   The gadget meets the hypotheses of the circuit's theorems for the relation
   on curve points: what is left to assume is the encoding of a point, the
   hash of the challenge and the mathematics of the curve.
   */
  lemma GadgetCorrect<P(!new)>(e: EcKit<P>)
    requires KitReadyForCurve(e)
    ensures SigCorrect(Gadget(e), GadgetSpec(e.scheme), e.curve.p)
  {
    hide KitReadyForCurve, SigSoundAt, SigCompleteAt, VkBitsAt, InRange, VkFill, SigFill, VerifyFill, IsPrime;
    hide EncodedCons, VerifyCons, GadgetSpec;
    KitParts(e);
    var p, g, spec := e.curve.p, Gadget(e), GadgetSpec(e.scheme);
    forall vk: nat, sig: nat, n: nat, hash, asg ensures SigSoundAt(g, spec, p, vk, sig, n, hash, asg) {
      SoundAt(e, vk, sig, n, hash, asg);
    }
    forall aux, vk: nat, sig: nat, hash, vkBytes: Bytes32, sigBytes: Bytes64, hashBytes: Bytes32, asg
      ensures SigCompleteAt(g, spec, p, aux, vk, sig, hash, vkBytes, sigBytes, hashBytes, asg)
    {
      CompleteAt(e, aux, vk, sig, hash, vkBytes, sigBytes, hashBytes, asg);
    }
    forall aux, vk: Bytes32 ensures VkBitsAt(g, aux, vk) {
      KeyBitsAt(e, aux, vk);
    }
    forall k: nat, vk, sig, aux, m: nat, n: nat, hash ensures SigInRangeAt(g, p, k, vk, sig, aux, m, n, hash) {
      if InRange(p, aux) { FillsInRange(e, aux, vk, sig, m, n, hash, k); }
    }
  }
}
