/**
 `AgeCircuit::synthesize` (crypto-circuit-age/src/lib.rs). The constraints of
 each stage are functions of variable numbers alone; the witness of each stage
 is a function of the values allocated before it.
 */
module AgeCircuit {
  import opened Wrappers
  import opened Bits
  import opened R1cs
  import opened BitAlloc
  import opened BitGadgets
  import opened Comparator
  import opened Constants
  import opened Multipack
  import opened PublicInputs
  import opened Transcript
  import opened Gadgets

  const KID_SIZE_BYTES: nat := 14
  const SCHEMA_SIZE_BYTES: nat := 12

  datatype AgeWitness = AgeWitness(dobDays: i32, rBits: seq<bool>, issuerVk: Bytes32, sig: seq<byte>, v: byte,
                                   kid: seq<byte>, c: Bytes32, iat: u64, exp: u64, schema: seq<byte>)

  predicate WellSized(w: AgeWitness) {
    |w.kid| == KID_SIZE_BYTES && |w.schema| == SCHEMA_SIZE_BYTES && |w.sig| == 64 && |w.rBits| == 128
  }

  predicate AllZero(bs: seq<byte>) { forall i :: 0 <= i < |bs| ==> bs[i] == 0 }

  /** `AgeWitness::new`: the sizes the circuit needs, and no all-zero commitment or signature. */
  method NewWitness(dobDays: i32, rBits: seq<bool>, issuerVk: Bytes32, sig: seq<byte>, v: byte,
                    kid: seq<byte>, c: Bytes32, iat: u64, exp: u64, schema: seq<byte>)
    returns (r: Result<AgeWitness, Error>)
    ensures var w := AgeWitness(dobDays, rBits, issuerVk, sig, v, kid, c, iat, exp, schema);
      r == if |kid| == 14 && |schema| == 12 && |rBits| == 128 && |sig| == 64 && !AllZero(c) && !AllZero(sig)
           then Ok(w) else Err(InvalidInput)
    ensures r.Ok? ==> WellSized(r.value)
  {
    if |kid| != KID_SIZE_BYTES || |schema| != SCHEMA_SIZE_BYTES || |rBits| != 128 || |sig| != 64 {
      return Err(InvalidInput);
    }
    if c == seq(32, _ => 0) {
      return Err(InvalidInput);
    }
    var allZero := true;
    for i := 0 to |sig|
      invariant allZero <==> forall j :: 0 <= j < i ==> sig[j] == 0
    {
      allZero := allZero && sig[i] == 0;
    }
    if allZero {
      return Err(InvalidInput);
    }
    r := Ok(AgeWitness(dobDays, rBits, issuerVk, sig, v, kid, c, iat, exp, schema));
  }

  /** The sub-gadgets in use. */
  datatype Kit = Kit(commitHash: HashGadget, nullHash: HashGadget, blake: HashGadget, sig: SigGadget)

  /** Every hash yields 256 bits, and a key has 256 raw bits. */
  ghost predicate KitReady(k: Kit) {
    && (forall n, ins :: |k.nullHash.out(n, ins)| == 256)
    && (forall n, ins :: |k.commitHash.out(n, ins)| == 256)
    && (forall n, ins :: |k.blake.out(n, ins)| == 256)
    && (forall n :: |k.sig.vkBits(n)| == 256)
  }

  // ------------------------------------------------- where things live

  /** The bit vectors of the public values. */
  datatype PublicVectors = PublicVectors(dir: seq<Boolean>, cutoff: seq<Boolean>, rp: seq<Boolean>,
                                         vk: seq<Boolean>, nul: seq<Boolean>)

  function PublicVectorsAt(n0: nat): PublicVectors {
    PublicVectors(BitVars(n0, 32), BitVars(n0 + 32, 32), BitVars(n0 + 64, 256), BitVars(n0 + 320, 256),
                  BitVars(n0 + 576, 256))
  }

  /** Date of birth, blinding bits, and where the key and the signature start. */
  datatype SecretVectors = SecretVectors(dob: seq<Boolean>, r: seq<Boolean>, vkAt: nat, sigAt: nat)

  function SecretVectorsAt(k: Kit, n: nat): SecretVectors {
    SecretVectors(BitVars(n, 32), BitVars(n + 32, 128), n + 160, n + 160 + k.sig.vkSize)
  }

  /** The credential message. */
  datatype MessageVectors = MessageVectors(v: seq<Boolean>, kid: seq<Boolean>, c: seq<Boolean>,
                                           iat: seq<Boolean>, exp: seq<Boolean>, schema: seq<Boolean>)

  function MessageVectorsAt(n: nat): MessageVectors {
    MessageVectors(BitVars(n, 8), BitVars(n + 8, 112), BitVars(n + 120, 256), BitVars(n + 376, 64),
                   BitVars(n + 440, 64), BitVars(n + 504, 96))
  }

  /** Every vector of the circuit, and where the statement's gadgets start. */
  datatype Layout = Layout(pub: PublicVectors, sec: SecretVectors, msg: MessageVectors, statementAt: nat)

  function MessageAt(k: Kit, n0: nat): nat { n0 + 992 + k.sig.vkSize + k.sig.sigSize }

  /** The layout of a circuit whose first variable is n0. */
  function LayoutAt(k: Kit, n0: nat): Layout {
    Layout(PublicVectorsAt(n0), SecretVectorsAt(k, n0 + 832), MessageVectorsAt(MessageAt(k, n0)),
           MessageAt(k, n0) + 600)
  }

  // -------------------------------------------------- public inputs

  function PublicBitCons(n0: nat): seq<Constraint> {
    BoolCons(n0, 32) + BoolCons(n0 + 32, 32) + BoolCons(n0 + 64, 256) + BoolCons(n0 + 320, 256)
    + BoolCons(n0 + 576, 256)
  }

  function PublicPackCons(n0: nat, i0: nat): seq<Constraint> {
    PackCons(BitVars(n0, 32), i0) + PackCons(BitVars(n0 + 32, 32), i0 + 1) + PackCons(BitVars(n0 + 64, 256), i0 + 2)
    + PackCons(BitVars(n0 + 320, 256), i0 + 4) + PackCons(BitVars(n0 + 576, 256), i0 + 6)
  }

  function PublicAux(aux: seq<Option<int>>, pub: AgePublic): (r: seq<Option<int>>)
    ensures aux <= r && |r| == |aux| + 832
  {
    aux + BitValues(32, Some(BitsLe(DirectionWord(pub.over), 32)))
    + BitValues(32, Some(BitsLe(BiasForCircuit(pub.cutoffDays), 32)))
    + BitValues(256, Some(BytesToBits(pub.rpHash)))
    + BitValues(256, Some(BytesToBits(pub.issuerVk)))
    + BitValues(256, Some(BytesToBits(pub.credNullifier)))
  }

  // ------------------------------------------------------------ witness

  /** Date of birth, blinding bits, key and signature. */
  function SecretCons(k: Kit, n: nat): seq<Constraint> {
    BoolCons(n, 32) + BoolCons(n + 32, 128) + k.sig.vkCons(n + 160) + k.sig.sigCons(n + 160 + k.sig.vkSize)
  }

  /** The credential message. */
  function MessageCons(n: nat): seq<Constraint> {
    BoolCons(n, 8) + BoolCons(n + 8, 112) + BoolCons(n + 120, 256) + BoolCons(n + 376, 64)
    + BoolCons(n + 440, 64) + BoolCons(n + 504, 96)
  }

  function WitnessCons(k: Kit, n: nat): seq<Constraint> {
    SecretCons(k, n) + MessageCons(n + 160 + k.sig.vkSize + k.sig.sigSize)
  }

  /** The values, or unknowns in a set-up run. */
  function SecretAux(k: Kit, aux: seq<Option<int>>, w: Option<AgeWitness>): (r: seq<Option<int>>)
    requires w.Some? ==> WellSized(w.value)
    ensures aux <= r && |r| == |aux| + 160 + k.sig.vkSize + k.sig.sigSize
  {
    var u1 := aux + BitValues(32, MapOption(w, (x: AgeWitness) => BitsLe(BiasForCircuit(x.dobDays), 32)));
    var u2 := u1 + BitValues(128, if w.None? then None else Some(w.value.rBits));
    var u3 := VkAux(k.sig, u2, MapOption(w, (x: AgeWitness) => x.issuerVk));
    SigAux(k.sig, u3, if w.None? then None else Some(w.value.sig))
  }

  function MessageAux(aux: seq<Option<int>>, w: Option<AgeWitness>): (r: seq<Option<int>>)
    requires w.Some? ==> WellSized(w.value)
    ensures aux <= r && |r| == |aux| + 600
  {
    var u5 := aux + BitValues(8, MapOption(w, (x: AgeWitness) => BitsLe(x.v, 8)));
    var u6 := u5 + BitValues(112, if w.None? then None else Some(BytesToBits(w.value.kid)));
    var u7 := u6 + BitValues(256, MapOption(w, (x: AgeWitness) => BytesToBits(x.c)));
    var u8 := u7 + BitValues(64, MapOption(w, (x: AgeWitness) => BytesToBits(BeBytes(x.iat, 8))));
    var u9 := u8 + BitValues(64, MapOption(w, (x: AgeWitness) => BytesToBits(BeBytes(x.exp, 8))));
    u9 + BitValues(96, if w.None? then None else Some(BytesToBits(w.value.schema)))
  }

  function WitnessAux(k: Kit, aux: seq<Option<int>>, w: Option<AgeWitness>): (r: seq<Option<int>>)
    requires w.Some? ==> WellSized(w.value)
    ensures aux <= r && |r| == |aux| + 760 + k.sig.vkSize + k.sig.sigSize
  {
    MessageAux(SecretAux(k, aux, w), w)
  }

  // ---------------------------------------------------------- statement

  function NullifierIns(l: Layout): seq<Boolean> { ConstBits(NULLIFIER_DST) + l.msg.c }
  function CommitIns(l: Layout): seq<Boolean> { l.sec.dob + l.sec.r }

  predicate PrehashReady(l: Layout) { PrehashSizes(l.msg.v, l.msg.kid, l.msg.c, l.msg.iat, l.msg.exp, l.msg.schema) }

  function PrehashIns(l: Layout): seq<Boolean>
    requires PrehashReady(l)
  {
    PrehashBits(l.msg.v, l.msg.kid, l.msg.c, l.msg.iat, l.msg.exp, l.msg.schema)
  }

  /** The shape facts that the stages of the statement rely on. */
  ghost predicate Ready(k: Kit, l: Layout) {
    && |l.pub.dir| == |l.pub.cutoff| == |l.sec.dob| == 32 && |l.pub.vk| == |l.pub.nul| == |l.msg.c| == 256
    && KitReady(k) && PrehashReady(l)
  }

  /** Where each gadget of the statement starts. */
  datatype Places = Places(commitAt: nat, swapAt: nat, geAt: nat, blakeAt: nat, verifyAt: nat)

  function PlacesOf(k: Kit, l: Layout): Places
    requires PrehashReady(l)
  {
    var commitAt := l.statementAt + k.nullHash.size(NullifierIns(l));
    var swapAt := commitAt + k.commitHash.size(CommitIns(l));
    var geAt := swapAt + 64;
    var blakeAt := geAt + GeLen(geAt, SwapLeft(swapAt, 32), SwapRight(swapAt, 32));
    Places(commitAt, swapAt, geAt, blakeAt, blakeAt + k.blake.size(PrehashIns(l)))
  }

  /** Key equality, nullifier and commitment. */
  function BindingCons(k: Kit, l: Layout): seq<Constraint>
    requires Ready(k, l)
  {
    var n := l.statementAt;
    var at := PlacesOf(k, l);
    EqualCons(k.sig.vkBits(l.sec.vkAt), l.pub.vk)
    + k.nullHash.cons(n, NullifierIns(l)) + EqualCons(k.nullHash.out(n, NullifierIns(l)), l.pub.nul)
    + k.commitHash.cons(at.commitAt, CommitIns(l)) + EqualCons(k.commitHash.out(at.commitAt, CommitIns(l)), l.msg.c)
  }

  /** The mux on direction bit 0 and the comparison. */
  function AgeCheckCons(k: Kit, l: Layout): seq<Constraint>
    requires Ready(k, l)
  {
    var at := PlacesOf(k, l);
    SwapCons(at.swapAt, l.pub.dir[0], l.pub.cutoff, l.sec.dob, 32)
    + GeCons(at.geAt, SwapLeft(at.swapAt, 32), SwapRight(at.swapAt, 32))
  }

  /** The message hash and the signature. */
  function SignatureCons(k: Kit, l: Layout): seq<Constraint>
    requires Ready(k, l)
  {
    var at := PlacesOf(k, l);
    k.blake.cons(at.blakeAt, PrehashIns(l))
    + k.sig.verifyCons(l.sec.vkAt, l.sec.sigAt, at.verifyAt, k.blake.out(at.blakeAt, PrehashIns(l)))
  }

  function BindingAux(k: Kit, l: Layout, aux: seq<Option<int>>): (r: seq<Option<int>>)
    ensures aux <= r && |r| == |aux| + k.nullHash.size(NullifierIns(l)) + k.commitHash.size(CommitIns(l))
  {
    HashAux(k.commitHash, HashAux(k.nullHash, aux, NullifierIns(l)), CommitIns(l))
  }

  function AgeCheckAux(l: Layout, aux: seq<Option<int>>): (r: seq<Option<int>>)
    requires |l.pub.dir| == |l.pub.cutoff| == |l.sec.dob| == 32
    ensures aux <= r
    ensures |r| == |aux| + 64 + GeLen(|aux| + 64, SwapLeft(|aux|, 32), SwapRight(|aux|, 32))
  {
    GeAux(SwapAux(aux, l.pub.dir[0], l.pub.cutoff, l.sec.dob, 32), SwapLeft(|aux|, 32), SwapRight(|aux|, 32))
  }

  function SignatureAux(k: Kit, l: Layout, aux: seq<Option<int>>): (r: seq<Option<int>>)
    requires PrehashReady(l)
    ensures aux <= r
  {
    VerifyAux(k.sig, HashAux(k.blake, aux, PrehashIns(l)), l.sec.vkAt, l.sec.sigAt, k.blake.out(|aux|, PrehashIns(l)))
  }

  // -------------------------------------------------- the whole circuit

  /** Steps 2 to 4, written out. */
  lemma BindingIs(k: Kit, l: Layout, aux: seq<Option<int>>)
    requires Ready(k, l) && l.statementAt == |aux|
    ensures var ins, at := ConstBits(NULLIFIER_DST) + l.msg.c, PlacesOf(k, l);
      var u := HashAux(k.nullHash, aux, ins);
      && |k.sig.vkBits(l.sec.vkAt)| == |l.pub.vk| == |k.nullHash.out(|aux|, ins)| == |l.pub.nul| == 256
      && |k.commitHash.out(|u|, l.sec.dob + l.sec.r)| == |l.msg.c| == 256 && |u| == at.commitAt
      && BindingAux(k, l, aux) == HashAux(k.commitHash, u, l.sec.dob + l.sec.r)
      && BindingCons(k, l) ==
         EqualCons(k.sig.vkBits(l.sec.vkAt), l.pub.vk) + k.nullHash.cons(|aux|, ins)
         + EqualCons(k.nullHash.out(|aux|, ins), l.pub.nul) + k.commitHash.cons(|u|, l.sec.dob + l.sec.r)
         + EqualCons(k.commitHash.out(|u|, l.sec.dob + l.sec.r), l.msg.c)
  {
    hide EqualCons, HashAux, ConstBits, GeLen, SwapLeft, SwapRight, PrehashIns;
  }

  lemma ReadyParts(k: Kit, l: Layout)
    requires Ready(k, l)
    ensures PrehashReady(l) && |l.pub.dir| == |l.pub.cutoff| == |l.sec.dob| == 32
    ensures |k.sig.vkBits(l.sec.vkAt)| == |l.pub.vk| == |l.pub.nul| == |l.msg.c| == 256
    ensures forall n, ins :: |k.nullHash.out(n, ins)| == |k.commitHash.out(n, ins)| == |k.blake.out(n, ins)| == 256
  {
  }

  lemma LayoutReady(k: Kit, n0: nat)
    requires KitReady(k)
    ensures Ready(k, LayoutAt(k, n0))
  {
  }

  /** All constraints, for a system whose next variable is n0 and next input is i0. */
  function AgeCons(k: Kit, n0: nat, i0: nat): seq<Constraint>
    requires KitReady(k)
  {
    LayoutReady(k, n0);
    var l := LayoutAt(k, n0);
    PublicBitCons(n0) + PublicPackCons(n0, i0) + WitnessCons(k, n0 + 832)
    + BindingCons(k, l) + AgeCheckCons(k, l) + SignatureCons(k, l)
  }

  /** All variables, with the values of the run. */
  function AgeAux(k: Kit, aux: seq<Option<int>>, pub: AgePublic, w: Option<AgeWitness>): seq<Option<int>>
    requires KitReady(k) && (w.Some? ==> WellSized(w.value))
  {
    LayoutReady(k, |aux|);
    var l := LayoutAt(k, |aux|);
    SignatureAux(k, l, AgeCheckAux(l, BindingAux(k, l, WitnessAux(k, PublicAux(aux, pub), w))))
  }

  // ------------------------------------------------------- synthesize

  /** Step 0: allocate the public values as bits and bind them to the eight inputs. */
  method AllocPublic(p: int, cs: ConstraintSystem, pub: AgePublic) returns (v: PublicVectors)
    requires p > Pow2(CAPACITY)
    modifies cs
    ensures v == PublicVectorsAt(|old(cs.aux)|)
    ensures cs.aux == PublicAux(old(cs.aux), pub)
    ensures cs.constraints == old(cs.constraints) +
            (PublicBitCons(|old(cs.aux)|) + PublicPackCons(|old(cs.aux)|, |old(cs.inputs)|))
    ensures cs.inputs == old(cs.inputs) + Known(Elements(pub))
  {
    hide PublicVectorsAt, PublicBitCons, PublicPackCons, PublicAux, Elements, Pow2;
    ghost var n0, cons0 := |cs.aux|, cs.constraints;
    v := AllocPublicBits(cs, pub);
    PackPublic(p, cs, pub, v, old(cs.aux));
    AppendAssoc(cons0, PublicBitCons(n0), PublicPackCons(n0, |old(cs.inputs)|));
  }

  method AllocPublicBits(cs: ConstraintSystem, pub: AgePublic) returns (v: PublicVectors)
    modifies cs
    ensures v == PublicVectorsAt(|old(cs.aux)|)
    ensures cs.aux == PublicAux(old(cs.aux), pub)
    ensures cs.constraints == old(cs.constraints) + PublicBitCons(|old(cs.aux)|)
    ensures cs.inputs == old(cs.inputs)
  {
    hide BitValues, BoolCons, BitVars;
    ghost var n0, cons0 := |cs.aux|, cs.constraints;
    var dirBits := AllocU32Input(cs, DirectionWord(pub.over));
    var cutoffBits := AllocU32Input(cs, BiasForCircuit(pub.cutoffDays));
    var rpHashBits := AllocBytesInput(cs, pub.rpHash);
    var issuerVkBits := AllocBytesInput(cs, pub.issuerVk);
    var credNullifierBits := AllocBytesInput(cs, pub.credNullifier);
    AppendFive(cons0, BoolCons(n0, 32), BoolCons(n0 + 32, 32), BoolCons(n0 + 64, 256),
               BoolCons(n0 + 320, 256), BoolCons(n0 + 576, 256));
    v := PublicVectors(dirBits, cutoffBits, rpHashBits, issuerVkBits, credNullifierBits);
  }

  /** The public bits, read back from any run that allocated them. */
  lemma PublicReads(aux0: seq<Option<int>>, pub: AgePublic, all: seq<Option<int>>)
    requires PublicAux(aux0, pub) <= all
    ensures ReadBits(all, BitVars(|aux0|, 32)) == Known(BitsLe(DirectionWord(pub.over), 32))
    ensures ReadBits(all, BitVars(|aux0| + 32, 32)) == Known(BitsLe(BiasForCircuit(pub.cutoffDays), 32))
    ensures ReadBits(all, BitVars(|aux0| + 64, 256)) == Known(BytesToBits(pub.rpHash))
    ensures ReadBits(all, BitVars(|aux0| + 320, 256)) == Known(BytesToBits(pub.issuerVk))
    ensures ReadBits(all, BitVars(|aux0| + 576, 256)) == Known(BytesToBits(pub.credNullifier))
  {
    hide BitValues, BitVars, ReadBits, Known, BitsLe, BytesToBits;
    var s1, s2 := BitsLe(DirectionWord(pub.over), 32), BitsLe(BiasForCircuit(pub.cutoffDays), 32);
    var s3, s4, s5 := BytesToBits(pub.rpHash), BytesToBits(pub.issuerVk), BytesToBits(pub.credNullifier);
    var u1 := aux0 + BitValues(32, Some(s1));
    var u2 := u1 + BitValues(32, Some(s2));
    var u3 := u2 + BitValues(256, Some(s3));
    var u4 := u3 + BitValues(256, Some(s4));
    ReadLater(aux0, s1, all);
    ReadLater(u1, s2, all);
    ReadLater(u2, s3, all);
    ReadLater(u3, s4, all);
    ReadLater(u4, s5, all);
  }

  /** Pack the blocks in the verifier's order. */
  method PackPublic(p: int, cs: ConstraintSystem, pub: AgePublic, v: PublicVectors, ghost aux0: seq<Option<int>>)
    requires p > Pow2(CAPACITY) && cs.aux == PublicAux(aux0, pub) && v == PublicVectorsAt(|aux0|)
    modifies cs
    ensures cs.constraints == old(cs.constraints) + PublicPackCons(|aux0|, |old(cs.inputs)|)
    ensures cs.inputs == old(cs.inputs) + Known(Elements(pub))
    ensures cs.aux == old(cs.aux)
  {
    hide BitVars, ReadBits, Known, BitsLe, BytesToBits, Pack, PackCons, PackOpts, PublicAux, Pow2, BiasForCircuit;
    ghost var n0, i0, cons0, inputs0 := |aux0|, |cs.inputs|, cs.constraints, cs.inputs;
    ghost var s1, s2 := BitsLe(DirectionWord(pub.over), 32), BitsLe(BiasForCircuit(pub.cutoffDays), 32);
    ghost var s3, s4, s5 := BytesToBits(pub.rpHash), BytesToBits(pub.issuerVk), BytesToBits(pub.credNullifier);
    PublicReads(aux0, pub, cs.aux);
    WordBlock(DirectionWord(pub.over));
    WordBlock(BiasForCircuit(pub.cutoffDays));
    BytesBlock(pub.rpHash);
    BytesBlock(pub.issuerVk);
    BytesBlock(pub.credNullifier);
    PackBlock(p, cs, v.dir, s1);
    PackBlock(p, cs, v.cutoff, s2);
    PackBlock(p, cs, v.rp, s3);
    PackBlock(p, cs, v.vk, s4);
    PackBlock(p, cs, v.nul, s5);
    AppendFive(cons0, PackCons(BitVars(n0, 32), i0), PackCons(BitVars(n0 + 32, 32), i0 + 1),
               PackCons(BitVars(n0 + 64, 256), i0 + 2), PackCons(BitVars(n0 + 320, 256), i0 + 4),
               PackCons(BitVars(n0 + 576, 256), i0 + 6));
    AppendFive(inputs0, Known(Pack(s1)), Known(Pack(s2)), Known(Pack(s3)), Known(Pack(s4)), Known(Pack(s5)));
    KnownFive(Pack(s1), Pack(s2), Pack(s3), Pack(s4), Pack(s5));
  }

  lemma KnownFive(a: seq<int>, b: seq<int>, c: seq<int>, d: seq<int>, e: seq<int>)
    ensures Known(a + b + c + d + e) == Known(a) + Known(b) + Known(c) + Known(d) + Known(e)
  {
  }

  /** Packing a block whose bits are known. */
  method PackBlock(p: int, cs: ConstraintSystem, bs: seq<Boolean>, ghost s: seq<bool>)
    requires p > Pow2(CAPACITY) && ReadBits(cs.aux, bs) == Known(s)
    modifies cs
    ensures cs.constraints == old(cs.constraints) + PackCons(bs, |old(cs.inputs)|)
    ensures cs.inputs == old(cs.inputs) + Known(Pack(s))
    ensures cs.aux == old(cs.aux)
  {
    PackIntoInputs(p, cs, bs);
    PackOptsKnown(s);
  }

  /** The witnesses `synthesize` does not refuse; a set-up run has none. */
  predicate Accepted(spec: SigSpec, w: Option<AgeWitness>) {
    w.Some? ==> WellSized(w.value) && spec.vkParses(w.value.issuerVk) && spec.sigParses(w.value.sig)
  }

  /** Step 1: refuse a wrongly sized witness, then allocate it (or unknowns of the same sizes). */
  method AllocWitness(cs: ConstraintSystem, k: Kit, spec: SigSpec, w: Option<AgeWitness>)
    returns (r: Result<(SecretVectors, MessageVectors), SynthesisError>)
    modifies cs
    ensures r.Ok? <==> Accepted(spec, w)
    ensures r.Ok? ==> r.value == (SecretVectorsAt(k, |old(cs.aux)|),
                                  MessageVectorsAt(|old(cs.aux)| + 160 + k.sig.vkSize + k.sig.sigSize))
    ensures r.Ok? ==> cs.aux == WitnessAux(k, old(cs.aux), w)
    ensures r.Ok? ==> cs.constraints == old(cs.constraints) + WitnessCons(k, |old(cs.aux)|)
    ensures cs.inputs == old(cs.inputs)
  {
    hide SecretAux, MessageAux, SecretCons, MessageCons, SecretVectorsAt, MessageVectorsAt;
    if w.Some? && (|w.value.kid| != KID_SIZE_BYTES || |w.value.schema| != SCHEMA_SIZE_BYTES
                   || |w.value.sig| != 64 || |w.value.rBits| != 128) {
      return Err(Unsatisfiable);
    }
    ghost var n, cons0 := |cs.aux|, cs.constraints;
    var secret := AllocSecrets(cs, k, spec, w);
    if secret.Err? { return Err(secret.error); }
    var message := AllocMessage(cs, w);
    AppendAssoc(cons0, SecretCons(k, n), MessageCons(n + 160 + k.sig.vkSize + k.sig.sigSize));
    r := Ok((secret.value, message));
  }

  method AllocSecrets(cs: ConstraintSystem, k: Kit, spec: SigSpec, w: Option<AgeWitness>)
    returns (r: Result<SecretVectors, SynthesisError>)
    requires w.Some? ==> WellSized(w.value)
    modifies cs
    ensures r == if Accepted(spec, w) then Ok(SecretVectorsAt(k, |old(cs.aux)|)) else Err(Unsatisfiable)
    ensures r.Ok? ==> cs.aux == SecretAux(k, old(cs.aux), w)
    ensures r.Ok? ==> cs.constraints == old(cs.constraints) + SecretCons(k, |old(cs.aux)|)
    ensures cs.inputs == old(cs.inputs)
  {
    hide BitValues, BoolCons, BitVars, VkAux, SigAux, BitsLe, BiasForCircuit;
    ghost var n, cons0 := |cs.aux|, cs.constraints;
    var dob := AllocU32Witness(cs, MapOption(w, (x: AgeWitness) => BiasForCircuit(x.dobDays)));
    var rBits := AllocBoolVecWitnessFixed(cs, if w.None? then None else Some(w.value.rBits), 128);
    var vk := AllocVk(cs, k.sig, spec, MapOption(w, (x: AgeWitness) => x.issuerVk));
    if vk.Err? { return Err(vk.error); }
    var sig := AllocSig(cs, k.sig, spec, if w.None? then None else Some(w.value.sig));
    if sig.Err? { return Err(sig.error); }
    r := Ok(SecretVectors(dob, rBits.value, vk.value, sig.value));
    AppendFive(cons0, [], BoolCons(n, 32), BoolCons(n + 32, 128), k.sig.vkCons(n + 160),
               k.sig.sigCons(n + 160 + k.sig.vkSize));
    assert [] + BoolCons(n, 32) == BoolCons(n, 32) && cons0 + [] == cons0;
  }

  method AllocMessage(cs: ConstraintSystem, w: Option<AgeWitness>) returns (m: MessageVectors)
    requires w.Some? ==> WellSized(w.value)
    modifies cs
    ensures m == MessageVectorsAt(|old(cs.aux)|)
    ensures cs.aux == MessageAux(old(cs.aux), w)
    ensures cs.constraints == old(cs.constraints) + MessageCons(|old(cs.aux)|)
    ensures cs.inputs == old(cs.inputs)
  {
    hide BitValues, BoolCons, BitVars, BitsLe, BytesToBits, BeBytes, Shr;
    ghost var n, cons0 := |cs.aux|, cs.constraints;
    var v := AllocU8Witness(cs, MapOption(w, (x: AgeWitness) => x.v));
    var kid := AllocBytesWitnessFixed(cs, if w.None? then None else Some(w.value.kid), KID_SIZE_BYTES);
    var c := AllocBytesWitnessFixed(cs, if w.None? then None else Some(w.value.c), 32);
    var iat := AllocU64Witness(cs, MapOption(w, (x: AgeWitness) => x.iat));
    var exp := AllocU64Witness(cs, MapOption(w, (x: AgeWitness) => x.exp));
    var schema := AllocBytesWitnessFixed(cs, if w.None? then None else Some(w.value.schema), SCHEMA_SIZE_BYTES);
    m := MessageVectors(v, kid.value, c.value, iat, exp, schema.value);
    AppendFive(cons0, BoolCons(n, 8), BoolCons(n + 8, 112), BoolCons(n + 120, 256), BoolCons(n + 376, 64),
               BoolCons(n + 440, 64));
    AppendAssoc(cons0, BoolCons(n, 8) + BoolCons(n + 8, 112) + BoolCons(n + 120, 256) + BoolCons(n + 376, 64)
                + BoolCons(n + 440, 64), BoolCons(n + 504, 96));
  }

  /** Steps 2 to 4: the key is the public key, and nullifier and commitment are recomputed. */
  method EnforceBinding(cs: ConstraintSystem, k: Kit, l: Layout) returns (r: Result<(), SynthesisError>)
    requires Ready(k, l) && l.statementAt == |cs.aux|
    modifies cs
    ensures r.Ok?
    ensures cs.constraints == old(cs.constraints) + BindingCons(k, l)
    ensures cs.aux == BindingAux(k, l, old(cs.aux)) && cs.inputs == old(cs.inputs)
  {
    hide *;
    ReadyParts(k, l);
    ghost var aux0, cons0, at := cs.aux, cs.constraints, PlacesOf(k, l);
    BindingIs(k, l, aux0);
    var issuerVkBits := k.sig.vkBits(l.sec.vkAt);
    r := EnforceBitsEqual(cs, issuerVkBits, l.pub.vk);
    var nullifierBits := ConstBytes(NULLIFIER_DST);
    nullifierBits := nullifierBits + l.msg.c;
    var full := RunHash(cs, k.nullHash, nullifierBits);
    var computed := if |full| < 256 then full else full[..256];
    assert computed == full;
    r := EnforceBitsEqual(cs, computed, l.pub.nul);
    var commitBits := RunHash(cs, k.commitHash, l.sec.dob + l.sec.r);
    r := EnforceBitsEqual(cs, commitBits, l.msg.c);
    AppendFive(cons0, EqualCons(issuerVkBits, l.pub.vk), k.nullHash.cons(|aux0|, nullifierBits),
               EqualCons(computed, l.pub.nul), k.commitHash.cons(at.commitAt, l.sec.dob + l.sec.r),
               EqualCons(commitBits, l.msg.c));
  }

  /** Step 5: order the operands by the direction bit and compare. */
  method EnforceAgeCheck(cs: ConstraintSystem, k: Kit, l: Layout) returns (r: Result<(), SynthesisError>)
    requires Ready(k, l) && PlacesOf(k, l).swapAt == |cs.aux|
    modifies cs
    ensures r.Ok?
    ensures cs.constraints == old(cs.constraints) + AgeCheckCons(k, l)
    ensures cs.aux == AgeCheckAux(l, old(cs.aux)) && cs.inputs == old(cs.inputs)
  {
    hide SwapCons, GeCons, GeAux, SwapAux;
    ghost var cons0, at := cs.constraints, PlacesOf(k, l);
    var sides := ConditionalSwap(cs, l.pub.dir[0], l.pub.cutoff, l.sec.dob);
    r := EnforceGe(cs, sides.value.0, sides.value.1);
    AppendAssoc(cons0, SwapCons(at.swapAt, l.pub.dir[0], l.pub.cutoff, l.sec.dob, 32),
                GeCons(at.geAt, SwapLeft(at.swapAt, 32), SwapRight(at.swapAt, 32)));
  }

  /** Steps 6 to 8: build the transcript, hash it and verify the signature. */
  method EnforceSignature(cs: ConstraintSystem, k: Kit, l: Layout) returns (r: Result<(), SynthesisError>)
    requires Ready(k, l) && PlacesOf(k, l).blakeAt == |cs.aux|
    modifies cs
    ensures r.Ok?
    ensures cs.constraints == old(cs.constraints) + SignatureCons(k, l)
    ensures cs.aux == SignatureAux(k, l, old(cs.aux)) && cs.inputs == old(cs.inputs)
  {
    hide HashAux, VerifyAux, PrehashBits, Ready, GeLen, SwapLeft, SwapRight, ConstBits;
    ReadyParts(k, l);
    ghost var cons0, at := cs.constraints, PlacesOf(k, l);
    var message := BuildPrehashBits(l.msg.v, l.msg.kid, l.msg.c, l.msg.iat, l.msg.exp, l.msg.schema);
    var hash := RunHash(cs, k.blake, message.value);
    RunVerify(cs, k.sig, l.sec.vkAt, l.sec.sigAt, hash);
    AppendAssoc(cons0, k.blake.cons(at.blakeAt, PrehashIns(l)),
                k.sig.verifyCons(l.sec.vkAt, l.sec.sigAt, at.verifyAt, hash));
    r := Ok(());
  }

  /**
   The whole circuit. It is refused exactly for a witness that is not accepted;
   otherwise the constraints are those of `AgeCons`, whatever the public values
   and the witness, and the inputs are the host's elements.
   */
  method Synthesize(p: int, cs: ConstraintSystem, k: Kit, spec: SigSpec, pub: AgePublic, w: Option<AgeWitness>)
    returns (r: Result<(), SynthesisError>)
    requires p > Pow2(CAPACITY) && KitReady(k)
    modifies cs
    ensures r.Ok? <==> Accepted(spec, w)
    ensures r.Ok? ==>
      cs.constraints == old(cs.constraints) + AgeCons(k, |old(cs.aux)|, |old(cs.inputs)|)
    ensures r.Ok? ==> cs.aux == AgeAux(k, old(cs.aux), pub, w)
    ensures cs.inputs == old(cs.inputs) + Known(Elements(pub))
  {
    hide PublicBitCons, PublicPackCons, PublicAux, WitnessCons, WitnessAux, BindingCons, BindingAux;
    hide AgeCheckCons, AgeCheckAux, SignatureCons, SignatureAux, Elements, Pow2, Ready, KitReady, PrehashReady;
    hide Accepted;
    ghost var n0, i0, cons0 := |cs.aux|, |cs.inputs|, cs.constraints;
    var pubVectors := AllocPublic(p, cs, pub);
    var vectors := AllocWitness(cs, k, spec, w);
    if vectors.Err? { return Err(vectors.error); }
    var l := Layout(pubVectors, vectors.value.0, vectors.value.1, |cs.aux|);
    LayoutReady(k, n0);
    assert l == LayoutAt(k, n0);
    var bound := EnforceBinding(cs, k, l);
    var checked := EnforceAgeCheck(cs, k, l);
    r := EnforceSignature(cs, k, l);
    AppendSix(cons0, PublicBitCons(n0), PublicPackCons(n0, i0), WitnessCons(k, n0 + 832), BindingCons(k, l),
              AgeCheckCons(k, l), SignatureCons(k, l));
  }
}
