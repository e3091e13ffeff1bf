/**
 The circuit with the RedJubjub gadget in place: what it decides, and what
 that means to the host.
 */
module CurveCircuit {
  import opened Wrappers
  import opened Bits
  import opened PrimeField
  import opened Multipack
  import opened Groups
  import opened PublicInputs
  import opened Transcript
  import opened Commit
  import opened Gadgets
  import opened AgeCircuit
  import opened AgeStatement
  import opened AgeCompleteness
  import opened RedJubjub
  import opened Issuance
  import opened SignatureGadget
  import opened CurveGadget

  /** A kit with the RedJubjub gadget and correct hash gadgets, over the curve's own field. */
  ghost predicate CurveKit<P(!new)>(e: EcKit<P>, k: Kit, h: Hashes) {
    && e.curve.p > Pow2(CAPACITY) && KitReadyForCurve(e) && k.sig == Gadget(e) && h.blake2s == e.scheme.blake2s
    && HashCorrect(k.nullHash, PedersenSpec(h, MerkleTree(0)), e.curve.p)
    && HashCorrect(k.commitHash, PedersenSpec(h, NoteCommitment), e.curve.p)
    && HashCorrect(k.blake, BlakeSpec(h), e.curve.p)
  }

  lemma CurveSetting<P(!new)>(e: EcKit<P>, k: Kit, h: Hashes)
    requires CurveKit(e, k, h)
    ensures Setting(e.curve.p, k, h, GadgetSpec(e.scheme)) && Proper(e.scheme) && h.blake2s == e.scheme.blake2s
  {
    hide Pow2, KitReadyForCurve, HashSoundAt, HashCompleteAt, SigCorrect, Proper, IsPrime, Gadget, PedersenSpec;
    hide BlakeSpec;
    KitParts(e);
    GadgetCorrect(e);
    GadgetLengths(e);
  }

  lemma GadgetLengths<P>(e: EcKit<P>)
    ensures forall n: nat :: |Gadget(e).vkBits(n)| == 256
  {
    hide EncodedCons, VerifyCons, VkFill, SigFill, VerifyFill;
  }

  /**
   The public values can be satisfied exactly when there is a credential of the
   statement, its signature judged by the equation on the curve.
   */
  lemma CurveCircuitDecides<P(!new)>(e: EcKit<P>, k: Kit, h: Hashes, pub: AgePublic)
    requires CurveKit(e, k, h)
    ensures e.curve.p > 0 && KitReady(k)
    ensures Satisfiable(e.curve.p, k, pub) <==> exists w :: Statement(h, GadgetSpec(e.scheme), pub, w)
  {
    hide CurveKit, Setting, Proper, Satisfiable, Statement, GadgetSpec;
    CurveSetting(e, k, h);
    SettingParts(e.curve.p, k, h, GadgetSpec(e.scheme));
    ParsingForm(e.scheme);
    CircuitRelation(e.curve.p, k, h, GadgetSpec(e.scheme), pub);
  }

  /** The signature with its scalar reduced. */
  function Reduced<P>(c: Scheme<P>, sig: Bytes64): Bytes64
    requires c.order > 0
  {
    sig[..32] + LeBytes(FromLe(sig[32..]) % c.order, 32)
  }

  /**
   Under a key of the prime-order subgroup a witness of the statement carries
   what the host calls a signed credential: with the scalar reduced its
   signature passes `verify_cred_v2`, unless the scalar is then zero.
   */
  lemma WitnessVerifies<P(!new)>(c: Scheme<P>, h: Hashes, pub: AgePublic, w: AgeWitness)
    requires Proper(c) && h.blake2s == c.blake2s && Statement(h, GadgetSpec(c), pub, w)
             && KeyInSubgroup(c, pub.issuerVk)
    ensures c.order > 0 && Fits(Message(w))
    ensures var s := FromLe(w.sig[32..]) % c.order;
      Verified(c, Message(w), Reduced(c, w.sig), pub.issuerVk) ==
      if s == 0 then Err(InvalidSignatureBytes) else Ok(())
  {
    hide Proper, Abelian, HasOrder, Times, FromLe, LeBytes, IsPrime, InSubgroup, GadgetAccepts, HostAccepts, Encode;
    hide VerifyHash;
    hide Nullifier, Commitment;
    ProperParts(c);
    var hash := c.blake2s(Encode(Message(w)));
    var t := Reduced(c, w.sig);
    ReducedScalar(c, w.issuerVk, w.sig, hash, t);
    VerifiersAgree(c, w.issuerVk, t, hash);
    ScalarOfReduced(c, w.sig);
    VerdictOf(c, Message(w), t, pub.issuerVk);
    KeyParses(c, w.issuerVk, t, hash);
  }

  lemma ScalarOfReduced<P(!new)>(c: Scheme<P>, sig: Bytes64)
    requires Proper(c)
    ensures FromLe(Reduced(c, sig)[32..]) == FromLe(sig[32..]) % c.order
  {
    hide Abelian, HasOrder, Times, FromLe, LeBytes, IsPrime, InSubgroup;
    FromLeOf(FromLe(sig[32..]) % c.order, 32);
    assert Reduced(c, sig)[32..] == LeBytes(FromLe(sig[32..]) % c.order, 32);
  }

  /** The verdict on a message that fits, when key and R parse. */
  lemma VerdictOf<P(!new)>(c: Scheme<P>, m: CredMsg, sig: Bytes64, vk: Bytes32)
    requires c.order > 0 && Fits(m)
    ensures HostAccepts(c, vk, sig, c.blake2s(Encode(m))) ==> Verified(c, m, sig, vk) == Ok(())
    ensures FromLe(sig[32..]) == 0 && VerificationKeyFromBytes(c, vk).Ok? ==>
            Verified(c, m, sig, vk) == Err(InvalidSignatureBytes)
  {
    hide Times, FromLe, InSubgroup, VerifyHash, Encode;
  }

  /** A key of the subgroup that the circuit takes is one the host takes. */
  lemma KeyParses<P(!new)>(c: Scheme<P>, vk: Bytes32, sig: Bytes64, hash: Bytes32)
    requires Proper(c) && KeyInSubgroup(c, vk) && GadgetAccepts(c, vk, sig, hash)
    ensures VerificationKeyFromBytes(c, vk).Ok?
  {
    hide Proper, Abelian, HasOrder, Times, IsPrime, InSubgroup, GadgetEquation, GadgetChallenge, FromLe;
    SmallInSubgroup(c, c.decode(vk).value);
  }
}
