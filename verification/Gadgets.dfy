/**
 Functional specifications of the gadgets whose insides are not modelled: the
 Pedersen and Blake2s hashes and the signature gadget. A gadget is the number
 of variables it allocates, the constraints it emits, its output bits and the
 values it computes, all as functions of where it starts and what it is given.
 */
module Gadgets {
  import opened Wrappers
  import opened Bits
  import opened R1cs
  import opened PublicInputs

  datatype HashGadget = HashGadget(
    size: seq<Boolean> -> nat,
    cons: (nat, seq<Boolean>) -> seq<Constraint>,
    out: (nat, seq<Boolean>) -> seq<Boolean>,
    fill: (seq<Option<int>>, seq<Boolean>, nat) -> Option<int>)

  /** The hash a gadget computes, on the inputs where anything is claimed. */
  type HashSpec = seq<bool> -> Option<seq<bool>>

  function HashAux(g: HashGadget, aux: seq<Option<int>>, ins: seq<Boolean>): (r: seq<Option<int>>)
    ensures aux <= r && |r| == |aux| + g.size(ins)
  {
    aux + seq(g.size(ins), k requires 0 <= k < g.size(ins) => g.fill(aux, ins, k))
  }

  /** Any satisfying assignment carries the hash of the input bits on the output bits. */
  ghost predicate HashSoundAt(g: HashGadget, spec: HashSpec, p: int, n: nat, ins: seq<Boolean>, asg: Assignment) {
    InField(p, asg) && AllBits(asg, ins) && SatAll(p, asg, g.cons(n, ins)) && spec(Vals(asg, ins)).Some? ==>
      AllBits(asg, g.out(n, ins)) && Some(Vals(asg, g.out(n, ins))) == spec(Vals(asg, ins))
  }

  /** On known bits the computed values satisfy the constraints and read back as the hash. */
  ghost predicate HashCompleteAt(g: HashGadget, spec: HashSpec, p: int, aux: seq<Option<int>>,
                                 ins: seq<Boolean>, s: seq<bool>, asg: Assignment)
  {
    InField(p, asg) && ReadBits(aux, ins) == Known(s) && spec(s).Some? && Agrees(asg, HashAux(g, aux, ins)) ==>
      && SatAll(p, asg, g.cons(|aux|, ins))
      && ReadBits(HashAux(g, aux, ins), g.out(|aux|, ins)) == Known(spec(s).value)
  }

  ghost predicate HashInRangeAt(g: HashGadget, p: int, aux: seq<Option<int>>, ins: seq<Boolean>, k: nat) {
    InRange(p, aux) ==> Within(p, g.fill(aux, ins, k))
  }

  ghost predicate HashCorrect(g: HashGadget, spec: HashSpec, p: int) {
    && (forall n, ins :: |g.out(n, ins)| == 256)
    && (forall n, ins, asg :: HashSoundAt(g, spec, p, n, ins, asg))
    && (forall aux, ins, s, asg :: HashCompleteAt(g, spec, p, aux, ins, s, asg))
    && (forall aux, ins, k :: HashInRangeAt(g, p, aux, ins, k))
  }

  lemma HashAuxInRange(g: HashGadget, spec: HashSpec, p: int, aux: seq<Option<int>>, ins: seq<Boolean>)
    requires HashCorrect(g, spec, p) && InRange(p, aux)
    ensures InRange(p, HashAux(g, aux, ins))
  {
    var more := HashAux(g, aux, ins);
    forall i | |aux| <= i < |more| ensures Within(p, more[i]) {
      assert HashInRangeAt(g, p, aux, ins, i - |aux|);
    }
  }

  method RunHash(cs: ConstraintSystem, g: HashGadget, ins: seq<Boolean>) returns (out: seq<Boolean>)
    modifies cs
    ensures out == g.out(|old(cs.aux)|, ins)
    ensures cs.constraints == old(cs.constraints) + g.cons(|old(cs.aux)|, ins)
    ensures cs.aux == HashAux(g, old(cs.aux), ins) && cs.inputs == old(cs.inputs)
  {
    out := g.out(|cs.aux|, ins);
    cs.constraints := cs.constraints + g.cons(|cs.aux|, ins);
    cs.aux := HashAux(g, cs.aux, ins);
  }

  /** BLAKE2s takes messages of less than 2^64 bytes, section 3.3 of RFC 7693. */
  const MAX_BLAKE2S_BITS: nat := 8 * 0xFFFF_FFFF_FFFF_FFFF

  // ----------------------------------------------------------- signature

  /** `alloc_vk`, `alloc_sig` and `verify` of the signature gadget. */
  datatype SigGadget = SigGadget(
    vkSize: nat, vkCons: nat -> seq<Constraint>, vkBits: nat -> seq<Boolean>,
    vkFill: (seq<Option<int>>, Option<Bytes32>, nat) -> Option<int>,
    sigSize: nat, sigCons: nat -> seq<Constraint>, sigBits: nat -> seq<Boolean>,
    sigFill: (seq<Option<int>>, Option<Bytes64>, nat) -> Option<int>,
    verifySize: (nat, nat, seq<Boolean>) -> nat,
    verifyCons: (nat, nat, nat, seq<Boolean>) -> seq<Constraint>,
    verifyFill: (seq<Option<int>>, nat, nat, seq<Boolean>, nat) -> Option<int>)

  /**
   Which byte strings the allocation parses, and which (key, signature, hash)
   the constraints accept. Constraints need not force what parsing checks.
   */
  datatype SigSpec = SigSpec(vkParses: Bytes32 -> bool, sigParses: Bytes64 -> bool,
                             accepts: (Bytes32, Bytes64, Bytes32) -> bool)

  function VkAux(g: SigGadget, aux: seq<Option<int>>, vk: Option<Bytes32>): (r: seq<Option<int>>)
    ensures aux <= r && |r| == |aux| + g.vkSize
  {
    aux + seq(g.vkSize, k requires 0 <= k < g.vkSize => g.vkFill(aux, vk, k))
  }

  function SigAux(g: SigGadget, aux: seq<Option<int>>, sig: Option<Bytes64>): (r: seq<Option<int>>)
    ensures aux <= r && |r| == |aux| + g.sigSize
  {
    aux + seq(g.sigSize, k requires 0 <= k < g.sigSize => g.sigFill(aux, sig, k))
  }

  function VerifyAux(g: SigGadget, aux: seq<Option<int>>, vk: nat, sig: nat, hash: seq<Boolean>)
    : (r: seq<Option<int>>)
    ensures aux <= r && |r| == |aux| + g.verifySize(vk, sig, hash)
  {
    aux + seq(g.verifySize(vk, sig, hash), k requires 0 <= k < g.verifySize(vk, sig, hash) =>
      g.verifyFill(aux, vk, sig, hash, k))
  }

  /** The three gadgets' constraints together. */
  ghost predicate SigSat(g: SigGadget, p: int, vk: nat, sig: nat, n: nat, hash: seq<Boolean>, asg: Assignment)
    requires p > 0
  {
    && SatAll(p, asg, g.vkCons(vk)) && SatAll(p, asg, g.sigCons(sig))
    && SatAll(p, asg, g.verifyCons(vk, sig, n, hash))
  }

  ghost predicate SigSoundAt(g: SigGadget, spec: SigSpec, p: int, vk: nat, sig: nat, n: nat,
                             hash: seq<Boolean>, asg: Assignment)
    requires forall m :: |g.vkBits(m)| == 256 && |g.sigBits(m)| == 512
  {
    InField(p, asg) && |hash| == 256 && AllBits(asg, hash) && SigSat(g, p, vk, sig, n, hash, asg) ==>
      && AllBits(asg, g.vkBits(vk)) && AllBits(asg, g.sigBits(sig))
      && spec.accepts(BitsToBytes(Vals(asg, g.vkBits(vk))), BitsToBytes(Vals(asg, g.sigBits(sig))),
                      BitsToBytes(Vals(asg, hash)))
  }

  /** The prefix up to and including the key's variables, and likewise for the signature's. */
  ghost predicate Allotted(g: SigGadget, aux: seq<Option<int>>, vk: nat, sig: nat, vkBytes: Bytes32,
                           sigBytes: Bytes64)
  {
    && vk <= |aux| && sig <= |aux|
    && VkAux(g, aux[..vk], Some(vkBytes)) <= aux
    && SigAux(g, aux[..sig], Some(sigBytes)) <= aux
  }

  /** On values that parse, the honest run satisfies the constraints exactly when the signature is accepted. */
  ghost predicate SigCompleteAt(g: SigGadget, spec: SigSpec, p: int, aux: seq<Option<int>>, vk: nat, sig: nat,
                                hash: seq<Boolean>, vkBytes: Bytes32, sigBytes: Bytes64, hashBytes: Bytes32,
                                asg: Assignment)
  {
    InField(p, asg) && spec.vkParses(vkBytes) && spec.sigParses(sigBytes)
    && Allotted(g, aux, vk, sig, vkBytes, sigBytes)
    && ReadBits(aux, hash) == Known(BytesToBits(hashBytes)) && Agrees(asg, VerifyAux(g, aux, vk, sig, hash)) ==>
      (SigSat(g, p, vk, sig, |aux|, hash, asg) <==> spec.accepts(vkBytes, sigBytes, hashBytes))
  }

  /** The key's raw bits are allocated with the key's own bytes. */
  ghost predicate VkBitsAt(g: SigGadget, aux: seq<Option<int>>, vk: Bytes32) {
    ReadBits(VkAux(g, aux, Some(vk)), g.vkBits(|aux|)) == Known(BytesToBits(vk))
  }

  ghost predicate SigInRangeAt(g: SigGadget, p: int, k: nat, vk: Option<Bytes32>, sig: Option<Bytes64>,
                               aux: seq<Option<int>>, m: nat, n: nat, hash: seq<Boolean>)
  {
    InRange(p, aux) ==>
      && Within(p, g.vkFill(aux, vk, k)) && Within(p, g.sigFill(aux, sig, k))
      && Within(p, g.verifyFill(aux, m, n, hash, k))
  }

  ghost predicate SigCorrect(g: SigGadget, spec: SigSpec, p: int) {
    && (forall m :: |g.vkBits(m)| == 256 && |g.sigBits(m)| == 512)
    && (forall vk, sig, n, hash, asg :: SigSoundAt(g, spec, p, vk, sig, n, hash, asg))
    && (forall aux, vk, sig, hash, vkBytes, sigBytes, hashBytes, asg ::
          SigCompleteAt(g, spec, p, aux, vk, sig, hash, vkBytes, sigBytes, hashBytes, asg))
    && (forall aux, vk :: VkBitsAt(g, aux, vk))
    && (forall k, vk, sig, aux, m, n, hash :: SigInRangeAt(g, p, k, vk, sig, aux, m, n, hash))
  }

  method AllocVk(cs: ConstraintSystem, g: SigGadget, spec: SigSpec, vk: Option<Bytes32>)
    returns (r: Result<nat, SynthesisError>)
    modifies cs
    ensures r == if vk.Some? && !spec.vkParses(vk.value) then Err(Unsatisfiable) else Ok(|old(cs.aux)|)
    ensures r.Ok? ==> cs.constraints == old(cs.constraints) + g.vkCons(|old(cs.aux)|)
    ensures r.Ok? ==> cs.aux == VkAux(g, old(cs.aux), vk)
    ensures cs.inputs == old(cs.inputs)
  {
    if vk.Some? && !spec.vkParses(vk.value) {
      return Err(Unsatisfiable);
    }
    r := Ok(|cs.aux|);
    cs.constraints := cs.constraints + g.vkCons(|cs.aux|);
    cs.aux := VkAux(g, cs.aux, vk);
  }

  method AllocSig(cs: ConstraintSystem, g: SigGadget, spec: SigSpec, sig: Option<Bytes64>)
    returns (r: Result<nat, SynthesisError>)
    modifies cs
    ensures r == if sig.Some? && !spec.sigParses(sig.value) then Err(Unsatisfiable) else Ok(|old(cs.aux)|)
    ensures r.Ok? ==> cs.constraints == old(cs.constraints) + g.sigCons(|old(cs.aux)|)
    ensures r.Ok? ==> cs.aux == SigAux(g, old(cs.aux), sig)
    ensures cs.inputs == old(cs.inputs)
  {
    if sig.Some? && !spec.sigParses(sig.value) {
      return Err(Unsatisfiable);
    }
    r := Ok(|cs.aux|);
    cs.constraints := cs.constraints + g.sigCons(|cs.aux|);
    cs.aux := SigAux(g, cs.aux, sig);
  }

  method RunVerify(cs: ConstraintSystem, g: SigGadget, vk: nat, sig: nat, hash: seq<Boolean>)
    modifies cs
    ensures cs.constraints == old(cs.constraints) + g.verifyCons(vk, sig, |old(cs.aux)|, hash)
    ensures cs.aux == VerifyAux(g, old(cs.aux), vk, sig, hash) && cs.inputs == old(cs.inputs)
  {
    cs.constraints := cs.constraints + g.verifyCons(vk, sig, |cs.aux|, hash);
    cs.aux := VerifyAux(g, cs.aux, vk, sig, hash);
  }
}
