/**
 What the age circuit proves. Soundness: any satisfying assignment over F_p
 contains a witness for the statement in terms of the host's own functions.
 Completeness: the synthesized assignment satisfies exactly when the statement holds.
 */
module AgeStatement {
  import opened Wrappers
  import opened Bits
  import opened PrimeField
  import opened R1cs
  import opened BitGadgets
  import opened Comparator
  import opened ComparatorProofs
  import opened Constants
  import opened Multipack
  import opened PublicInputs
  import opened Transcript
  import opened Commit
  import opened Gadgets
  import opened AgeCircuit

  function Message(w: AgeWitness): CredMsg {
    CredMsg(w.v, w.kid, w.c, w.iat, w.exp, w.schema)
  }

  /** The credential in w is bound to the public values and satisfies the age bound. */
  ghost predicate Statement(h: Hashes, spec: SigSpec, pub: AgePublic, w: AgeWitness) {
    && WellSized(w)
    && w.issuerVk == pub.issuerVk
    && pub.credNullifier == Nullifier(h, w.c)
    && w.c == Commitment(h, w.dobDays, w.rBits)
    && (if pub.over then w.dobDays <= pub.cutoffDays else w.dobDays >= pub.cutoffDays)
    && spec.accepts(w.issuerVk, w.sig, h.blake2s(Encode(Message(w))))
  }

  // --------------------------------------------- what the hashes compute

  /** The Pedersen gadgets take at most the bits of Sapling's generators. */
  const MAX_PEDERSEN_BITS: nat := 1128

  function PedersenSpec(h: Hashes, t: Personalization): HashSpec {
    s => if |s| <= MAX_PEDERSEN_BITS then Some(BytesToBits(h.pedersen(t, s))) else None
  }

  function BlakeSpec(h: Hashes): HashSpec {
    s => if |s| % 8 == 0 && |s| <= MAX_BLAKE2S_BITS then Some(BytesToBits(h.blake2s(BitsToBytes(s)))) else None
  }

  ghost predicate KitCorrect(k: Kit, h: Hashes, spec: SigSpec, p: int) {
    && HashCorrect(k.nullHash, PedersenSpec(h, MerkleTree(0)), p)
    && HashCorrect(k.commitHash, PedersenSpec(h, NoteCommitment), p)
    && HashCorrect(k.blake, BlakeSpec(h), p)
    && SigCorrect(k.sig, spec, p)
  }

  /** The setting of every result below. */
  ghost predicate Setting(p: int, k: Kit, h: Hashes, spec: SigSpec) {
    IsPrime(p) && p > Pow2(CAPACITY) && KitReady(k) && KitCorrect(k, h, spec, p)
  }

  lemma SettingParts(p: int, k: Kit, h: Hashes, spec: SigSpec)
    requires Setting(p, k, h, spec)
    ensures IsPrime(p) && p > Pow2(CAPACITY) && p > 1 && KitReady(k) && SigCorrect(k.sig, spec, p)
    ensures HashCorrect(k.nullHash, PedersenSpec(h, MerkleTree(0)), p)
    ensures HashCorrect(k.commitHash, PedersenSpec(h, NoteCommitment), p) && HashCorrect(k.blake, BlakeSpec(h), p)
  {
  }

  // -------------------------------------------------------- extraction

  /** The witness an assignment carries. */
  function Extract(asg: Assignment, k: Kit, l: Layout): AgeWitness
    requires |l.sec.dob| == 32 && |l.msg.v| == 8 && |l.msg.c| == 256 && |l.msg.iat| == 64 && |l.msg.exp| == 64
    requires |l.msg.kid| % 8 == 0 && |l.msg.schema| % 8 == 0
    requires |k.sig.vkBits(l.sec.vkAt)| == 256 && |k.sig.sigBits(l.sec.sigAt)| == 512
  {
    var m := MessageOf(Vals(asg, l.msg.v), Vals(asg, l.msg.kid), Vals(asg, l.msg.c), Vals(asg, l.msg.iat),
                       Vals(asg, l.msg.exp), Vals(asg, l.msg.schema));
    ValueBound(Vals(asg, l.sec.dob));
    Pow2Words();
    AgeWitness(UnbiasFromCircuit(ValueOf(Vals(asg, l.sec.dob))), Vals(asg, l.sec.r),
               BitsToBytes(Vals(asg, k.sig.vkBits(l.sec.vkAt))), BitsToBytes(Vals(asg, k.sig.sigBits(l.sec.sigAt))),
               m.v, m.kid, m.c, m.iat, m.exp, m.schema)
  }

  // --------------------------------------------------- stage by stage

  lemma BigPrime(p: int)
    requires p > Pow2(CAPACITY)
    ensures p > 3
  {
    Pow2Mono(2, CAPACITY);
  }

  /** The public vectors hold the bits of the public values. */
  ghost predicate PublicHeld(asg: Assignment, v: PublicVectors, pub: AgePublic) {
    && AllBits(asg, v.dir) && AllBits(asg, v.cutoff) && AllBits(asg, v.rp) && AllBits(asg, v.vk) && AllBits(asg, v.nul)
    && Vals(asg, v.dir) == BitsLe(DirectionWord(pub.over), 32)
    && Vals(asg, v.cutoff) == BitsLe(BiasForCircuit(pub.cutoffDays), 32)
    && Vals(asg, v.rp) == BytesToBits(pub.rpHash)
    && Vals(asg, v.vk) == BytesToBits(pub.issuerVk)
    && Vals(asg, v.nul) == BytesToBits(pub.credNullifier)
  }

  /** The host's five blocks, each at its place among the inputs. */
  lemma InputBlocks(asg: Assignment, i0: nat, pub: AgePublic)
    ensures InputsAre(asg, i0, Elements(pub)) <==>
      && InputsAre(asg, i0, Pack(BitsLe(DirectionWord(pub.over), 32)))
      && InputsAre(asg, i0 + 1, Pack(BitsLe(BiasForCircuit(pub.cutoffDays), 32)))
      && InputsAre(asg, i0 + 2, Pack(BytesToBits(pub.rpHash)))
      && InputsAre(asg, i0 + 4, Pack(BytesToBits(pub.issuerVk)))
      && InputsAre(asg, i0 + 6, Pack(BytesToBits(pub.credNullifier)))
  {
    hide Pack, BitsLe, BytesToBits, InputsAre, BiasForCircuit;
    var a, b := Pack(BitsLe(DirectionWord(pub.over), 32)), Pack(BitsLe(BiasForCircuit(pub.cutoffDays), 32));
    var c, d, e := Pack(BytesToBits(pub.rpHash)), Pack(BytesToBits(pub.issuerVk)), Pack(BytesToBits(pub.credNullifier));
    WordBlock(DirectionWord(pub.over));
    WordBlock(BiasForCircuit(pub.cutoffDays));
    BytesBlock(pub.rpHash);
    BytesBlock(pub.issuerVk);
    BytesBlock(pub.credNullifier);
    InputsAreConcat(asg, i0, a + b + c + d, e);
    InputsAreConcat(asg, i0, a + b + c, d);
    InputsAreConcat(asg, i0, a + b, c);
    InputsAreConcat(asg, i0, a, b);
  }

  /** With the host's inputs, bit and packing constraints leave the public vectors one value. */
  lemma PublicSound(p: int, asg: Assignment, n0: nat, i0: nat, pub: AgePublic)
    requires IsPrime(p) && p > Pow2(CAPACITY) && InField(p, asg)
    requires SatAll(p, asg, PublicBitCons(n0)) && SatAll(p, asg, PublicPackCons(n0, i0))
    requires InputsAre(asg, i0, Elements(pub))
    ensures PublicHeld(asg, PublicVectorsAt(n0), pub)
  {
    hide SatAll, BoolCons, PackCons, BitVars, AllBits, Vals, InputsAre, Pack, BitsLe, BytesToBits, Pow2, InField;
    hide BiasForCircuit;
    SatFive(p, asg, BoolCons(n0, 32), BoolCons(n0 + 32, 32), BoolCons(n0 + 64, 256),
            BoolCons(n0 + 320, 256), BoolCons(n0 + 576, 256));
    SatFive(p, asg, PackCons(BitVars(n0, 32), i0), PackCons(BitVars(n0 + 32, 32), i0 + 1),
            PackCons(BitVars(n0 + 64, 256), i0 + 2), PackCons(BitVars(n0 + 320, 256), i0 + 4),
            PackCons(BitVars(n0 + 576, 256), i0 + 6));
    InputBlocks(asg, i0, pub);
    BitsMeaning(p, asg, n0, 32);
    BitsMeaning(p, asg, n0 + 32, 32);
    BitsMeaning(p, asg, n0 + 64, 256);
    BitsMeaning(p, asg, n0 + 320, 256);
    BitsMeaning(p, asg, n0 + 576, 256);
    PackUnique(p, asg, BitVars(n0, 32), i0, BitsLe(DirectionWord(pub.over), 32));
    PackUnique(p, asg, BitVars(n0 + 32, 32), i0 + 1, BitsLe(BiasForCircuit(pub.cutoffDays), 32));
    PackUnique(p, asg, BitVars(n0 + 64, 256), i0 + 2, BytesToBits(pub.rpHash));
    PackUnique(p, asg, BitVars(n0 + 320, 256), i0 + 4, BytesToBits(pub.issuerVk));
    PackUnique(p, asg, BitVars(n0 + 576, 256), i0 + 6, BytesToBits(pub.credNullifier));
  }

  /** All witness vectors hold bits. */
  ghost predicate WitnessHeld(asg: Assignment, l: Layout) {
    && AllBits(asg, l.sec.dob) && AllBits(asg, l.sec.r) && AllBits(asg, l.msg.v) && AllBits(asg, l.msg.kid)
    && AllBits(asg, l.msg.c) && AllBits(asg, l.msg.iat) && AllBits(asg, l.msg.exp) && AllBits(asg, l.msg.schema)
  }

  lemma WitnessSound(p: int, asg: Assignment, k: Kit, n0: nat)
    requires IsPrime(p) && InField(p, asg) && SatAll(p, asg, WitnessCons(k, n0 + 832))
    ensures WitnessHeld(asg, LayoutAt(k, n0))
    ensures SatAll(p, asg, k.sig.vkCons(LayoutAt(k, n0).sec.vkAt))
    ensures SatAll(p, asg, k.sig.sigCons(LayoutAt(k, n0).sec.sigAt))
  {
    hide SatAll, BoolCons, BitVars, AllBits, InField;
    var n, m := n0 + 832, MessageAt(k, n0);
    SatConcat(p, asg, SecretCons(k, n), MessageCons(m));
    SatConcat(p, asg, BoolCons(n, 32) + BoolCons(n + 32, 128) + k.sig.vkCons(n + 160),
              k.sig.sigCons(n + 160 + k.sig.vkSize));
    SatConcat(p, asg, BoolCons(n, 32) + BoolCons(n + 32, 128), k.sig.vkCons(n + 160));
    SatConcat(p, asg, BoolCons(n, 32), BoolCons(n + 32, 128));
    SatConcat(p, asg, BoolCons(m, 8) + BoolCons(m + 8, 112) + BoolCons(m + 120, 256) + BoolCons(m + 376, 64)
              + BoolCons(m + 440, 64), BoolCons(m + 504, 96));
    SatFive(p, asg, BoolCons(m, 8), BoolCons(m + 8, 112), BoolCons(m + 120, 256), BoolCons(m + 376, 64),
            BoolCons(m + 440, 64));
    BitsMeaning(p, asg, n, 32);
    BitsMeaning(p, asg, n + 32, 128);
    BitsMeaning(p, asg, m, 8);
    BitsMeaning(p, asg, m + 8, 112);
    BitsMeaning(p, asg, m + 120, 256);
    BitsMeaning(p, asg, m + 376, 64);
    BitsMeaning(p, asg, m + 440, 64);
    BitsMeaning(p, asg, m + 504, 96);
  }

  /** A hash gadget on bits whose count is in its domain. */
  lemma UseHashSound(g: HashGadget, spec: HashSpec, p: int, n: nat, ins: seq<Boolean>, asg: Assignment)
    requires HashCorrect(g, spec, p) && InField(p, asg) && AllBits(asg, ins)
    requires SatAll(p, asg, g.cons(n, ins)) && spec(Vals(asg, ins)).Some?
    ensures |g.out(n, ins)| == 256 && AllBits(asg, g.out(n, ins))
    ensures Vals(asg, g.out(n, ins)) == spec(Vals(asg, ins)).value
  {
    assert HashSoundAt(g, spec, p, n, ins, asg);
  }

  /** The circuit's Pedersen input for the nullifier is the host's, bit for bit. */
  lemma NullifierInputsAgree(asg: Assignment, l: Layout)
    requires AllBits(asg, l.msg.c) && |l.msg.c| == 256
    ensures AllBits(asg, NullifierIns(l))
    ensures Vals(asg, NullifierIns(l)) == NullifierBits(BitsToBytes(Vals(asg, l.msg.c)))
  {
    hide ConstBits;
    ConstBitsVals(asg, NULLIFIER_DST);
    ValsConcat(asg, ConstBits(NULLIFIER_DST), l.msg.c);
    BitsBytesBits(Vals(asg, l.msg.c));
  }

  /** The circuit's Pedersen input for the commitment is the host's, bit for bit. */
  lemma CommitInputsAgree(asg: Assignment, l: Layout)
    requires AllBits(asg, l.sec.dob) && AllBits(asg, l.sec.r) && |l.sec.dob| == 32
    ensures AllBits(asg, CommitIns(l))
    ensures ValueOf(Vals(asg, l.sec.dob)) < Pow2(32) == U32_SIZE
    ensures Vals(asg, CommitIns(l)) ==
            CommitBits(UnbiasFromCircuit(ValueOf(Vals(asg, l.sec.dob))), Vals(asg, l.sec.r))
  {
    ValsConcat(asg, l.sec.dob, l.sec.r);
    ValueBound(Vals(asg, l.sec.dob));
    Pow2Words();
    BitsOfValue(Vals(asg, l.sec.dob));
    BiasIsOrderIsomorphism(0, 0, ValueOf(Vals(asg, l.sec.dob)));
  }

  lemma DirectionBit(over: bool)
    ensures BitsLe(DirectionWord(over), 32)[0] == over
  {
  }

  lemma BiasValue(days: i32)
    ensures ValueOf(BitsLe(BiasForCircuit(days), 32)) == days + 0x8000_0000
  {
    Pow2Words();
    ValueOfBits(BiasForCircuit(days), 32);
    BiasMeaning(days);
  }

  /** Steps 2 to 4 tie the key, the nullifier and the commitment to the host's functions. */
  lemma BindingSound(p: int, asg: Assignment, k: Kit, h: Hashes, spec: SigSpec, n0: nat, pub: AgePublic)
    requires Setting(p, k, h, spec) && InField(p, asg)
    requires PublicHeld(asg, PublicVectorsAt(n0), pub) && WitnessHeld(asg, LayoutAt(k, n0))
    requires AllBits(asg, k.sig.vkBits(LayoutAt(k, n0).sec.vkAt))
    requires SatAll(p, asg, BindingCons(k, LayoutAt(k, n0)))
    ensures var w := Extract(asg, k, LayoutAt(k, n0));
      && w.issuerVk == pub.issuerVk
      && pub.credNullifier == Nullifier(h, w.c)
      && w.c == Commitment(h, w.dobDays, w.rBits)
  {
    hide SatAll, AllBits, EqualCons, BytesToBits, BitsToBytes, ConstBits, InField, UnbiasFromCircuit;
    hide Setting, IsPrime, HashCorrect, SigCorrect, Pow2, BitsLe, BiasForCircuit;
    SettingParts(p, k, h, spec);
    var l := LayoutAt(k, n0);
    var n, at := l.statementAt, PlacesOf(k, l);
    var w := Extract(asg, k, l);
    var vkBits, nulIns, comIns := k.sig.vkBits(l.sec.vkAt), NullifierIns(l), CommitIns(l);
    var nulOut, comOut := k.nullHash.out(n, nulIns), k.commitHash.out(at.commitAt, comIns);
    SatFive(p, asg, EqualCons(vkBits, l.pub.vk), k.nullHash.cons(n, nulIns), EqualCons(nulOut, l.pub.nul),
            k.commitHash.cons(at.commitAt, comIns), EqualCons(comOut, l.msg.c));
    EqualMeaning(p, asg, vkBits, l.pub.vk);
    BytesBitsBytes(pub.issuerVk);
    NullifierInputsAgree(asg, l);
    UseHashSound(k.nullHash, PedersenSpec(h, MerkleTree(0)), p, n, nulIns, asg);
    EqualMeaning(p, asg, nulOut, l.pub.nul);
    BytesToBitsInjective(pub.credNullifier, Nullifier(h, w.c));
    CommitInputsAgree(asg, l);
    UseHashSound(k.commitHash, PedersenSpec(h, NoteCommitment), p, at.commitAt, comIns, asg);
    EqualMeaning(p, asg, comOut, l.msg.c);
    BytesBitsBytes(Commitment(h, w.dobDays, w.rBits));
  }

  /** Step 5 compares the dates in the public direction. */
  lemma AgeCheckSound(p: int, asg: Assignment, k: Kit, n0: nat, pub: AgePublic)
    requires IsPrime(p) && p > Pow2(CAPACITY) && KitReady(k) && InField(p, asg)
    requires PublicHeld(asg, PublicVectorsAt(n0), pub) && WitnessHeld(asg, LayoutAt(k, n0))
    requires SatAll(p, asg, AgeCheckCons(k, LayoutAt(k, n0)))
    ensures var v := ValueOf(Vals(asg, LayoutAt(k, n0).sec.dob)) - 0x8000_0000;
      if pub.over then v <= pub.cutoffDays else v >= pub.cutoffDays
  {
    hide SatAll, SwapCons, GeCons, SwapLeft, SwapRight, Pow2, BitsLe, BiasForCircuit;
    var l := LayoutAt(k, n0);
    var at := PlacesOf(k, l);
    var left, right := SwapLeft(at.swapAt, 32), SwapRight(at.swapAt, 32);
    SatConcat(p, asg, SwapCons(at.swapAt, l.pub.dir[0], l.pub.cutoff, l.sec.dob, 32), GeCons(at.geAt, left, right));
    assert l.pub.dir[0].IsBit(asg);
    assert l.pub.dir[0].Holds(asg) == Vals(asg, l.pub.dir)[0];
    DirectionBit(pub.over);
    SwapMeaning(p, asg, at.swapAt, l.pub.dir[0], l.pub.cutoff, l.sec.dob);
    BigPrime(p);
    GeSound(p, asg, at.geAt, left, right);
    BiasValue(pub.cutoffDays);
  }

  lemma UseSigSound(k: Kit, spec: SigSpec, p: int, l: Layout, n: nat, hash: seq<Boolean>, asg: Assignment)
    requires SigCorrect(k.sig, spec, p) && InField(p, asg) && |hash| == 256 && AllBits(asg, hash)
    requires SigSat(k.sig, p, l.sec.vkAt, l.sec.sigAt, n, hash, asg)
    ensures |k.sig.vkBits(l.sec.vkAt)| == 256 && |k.sig.sigBits(l.sec.sigAt)| == 512
    ensures AllBits(asg, k.sig.vkBits(l.sec.vkAt))
    ensures var vk, sig := BitsToBytes(Vals(asg, k.sig.vkBits(l.sec.vkAt))),
                           BitsToBytes(Vals(asg, k.sig.sigBits(l.sec.sigAt)));
      spec.accepts(vk, sig, BitsToBytes(Vals(asg, hash)))
  {
    assert SigSoundAt(k.sig, spec, p, l.sec.vkAt, l.sec.sigAt, n, hash, asg);
  }

  /** Steps 6 to 8 accept the signature on the hash of the host's transcript. */
  lemma SignatureSound(p: int, asg: Assignment, k: Kit, h: Hashes, spec: SigSpec, n0: nat)
    requires Setting(p, k, h, spec) && InField(p, asg) && WitnessHeld(asg, LayoutAt(k, n0))
    requires SatAll(p, asg, k.sig.vkCons(LayoutAt(k, n0).sec.vkAt))
    requires SatAll(p, asg, k.sig.sigCons(LayoutAt(k, n0).sec.sigAt))
    requires SatAll(p, asg, SignatureCons(k, LayoutAt(k, n0)))
    ensures AllBits(asg, k.sig.vkBits(LayoutAt(k, n0).sec.vkAt))
    ensures var w := Extract(asg, k, LayoutAt(k, n0));
      && WellSized(w) && spec.accepts(w.issuerVk, w.sig, h.blake2s(Encode(Message(w))))
  {
    hide SatAll, AllBits, BytesToBits, BitsToBytes, InField, UnbiasFromCircuit, PrehashBits, FromBe;
    hide Setting, IsPrime, HashCorrect, SigCorrect, Pow2;
    SettingParts(p, k, h, spec);
    var l := LayoutAt(k, n0);
    var at := PlacesOf(k, l);
    var w := Extract(asg, k, l);
    LayoutReady(k, n0);
    var ins, hash := PrehashIns(l), k.blake.out(at.blakeAt, PrehashIns(l));
    SatConcat(p, asg, k.blake.cons(at.blakeAt, ins), k.sig.verifyCons(l.sec.vkAt, l.sec.sigAt, at.verifyAt, hash));
    TranscriptsAgree(asg, l.msg.v, l.msg.kid, l.msg.c, l.msg.iat, l.msg.exp, l.msg.schema);
    assert Message(w) == MessageOf(Vals(asg, l.msg.v), Vals(asg, l.msg.kid), Vals(asg, l.msg.c), Vals(asg, l.msg.iat),
                                   Vals(asg, l.msg.exp), Vals(asg, l.msg.schema));
    UseHashSound(k.blake, BlakeSpec(h), p, at.blakeAt, ins, asg);
    BytesBitsBytes(Encode(Message(w)));
    BytesBitsBytes(h.blake2s(Encode(Message(w))));
    UseSigSound(k, spec, p, l, at.verifyAt, hash, asg);
  }

  lemma AgeConsParts(p: int, asg: Assignment, k: Kit, n0: nat, i0: nat)
    requires p > 0 && KitReady(k)
    ensures Ready(k, LayoutAt(k, n0))
    ensures SatAll(p, asg, AgeCons(k, n0, i0)) <==>
      && SatAll(p, asg, PublicBitCons(n0)) && SatAll(p, asg, PublicPackCons(n0, i0))
      && SatAll(p, asg, WitnessCons(k, n0 + 832)) && SatAll(p, asg, BindingCons(k, LayoutAt(k, n0)))
      && SatAll(p, asg, AgeCheckCons(k, LayoutAt(k, n0))) && SatAll(p, asg, SignatureCons(k, LayoutAt(k, n0)))
  {
    hide SatAll, PublicBitCons, PublicPackCons, WitnessCons, BindingCons, AgeCheckCons, SignatureCons;
    LayoutReady(k, n0);
    var l := LayoutAt(k, n0);
    SatFive(p, asg, PublicBitCons(n0), PublicPackCons(n0, i0), WitnessCons(k, n0 + 832), BindingCons(k, l),
            AgeCheckCons(k, l));
    SatConcat(p, asg, PublicBitCons(n0) + PublicPackCons(n0, i0) + WitnessCons(k, n0 + 832) + BindingCons(k, l)
              + AgeCheckCons(k, l), SignatureCons(k, l));
  }

  /**
   Soundness of the whole circuit. Whoever finds values for all variables that
   satisfy every constraint, with the inputs the host assembles for pub, holds
   a witness: a signed credential whose commitment opens to a date of birth on
   the right side of the cutoff, under the public key and nullifier.
   */
  lemma CircuitSound(p: int, asg: Assignment, k: Kit, h: Hashes, spec: SigSpec, n0: nat, i0: nat, pub: AgePublic)
    requires Setting(p, k, h, spec) && InField(p, asg)
    requires SatAll(p, asg, AgeCons(k, n0, i0)) && InputsAre(asg, i0, Elements(pub))
    ensures Statement(h, spec, pub, Extract(asg, k, LayoutAt(k, n0)))
  {
    hide SatAll, AllBits, PublicBitCons, PublicPackCons, WitnessCons, BindingCons, AgeCheckCons, SignatureCons;
    hide BytesToBits, BitsToBytes, InField, Encode, AgeCons, Pow2, Elements, InputsAre, UnbiasFromCircuit;
    AgeConsParts(p, asg, k, n0, i0);
    PublicSound(p, asg, n0, i0, pub);
    WitnessSound(p, asg, k, n0);
    SignatureSound(p, asg, k, h, spec, n0);
    BindingSound(p, asg, k, h, spec, n0, pub);
    AgeCheckSound(p, asg, k, n0, pub);
    var v := ValueOf(Vals(asg, LayoutAt(k, n0).sec.dob));
    ValueBound(Vals(asg, LayoutAt(k, n0).sec.dob));
    Pow2Words();
    UnbiasMeaning(v);
  }

  /** Of the 32 direction bits only the selector is free: it is the public direction, the rest are 0. */
  lemma DirectionForced(p: int, asg: Assignment, k: Kit, n0: nat, i0: nat, pub: AgePublic)
    requires IsPrime(p) && p > Pow2(CAPACITY) && KitReady(k) && InField(p, asg)
    requires SatAll(p, asg, AgeCons(k, n0, i0)) && InputsAre(asg, i0, Elements(pub))
    ensures forall i :: 0 <= i < 32 ==> PublicVectorsAt(n0).dir[i].Val(asg) == if i == 0 && pub.over then 1 else 0
  {
    hide SatAll, AgeCons, PublicBitCons, PublicPackCons, InField, InputsAre, Elements, Pow2;
    AgeConsParts(p, asg, k, n0, i0);
    PublicSound(p, asg, n0, i0, pub);
    var dir := PublicVectorsAt(n0).dir;
    DirectionBits(pub.over);
    forall i | 0 <= i < 32
      ensures dir[i].Val(asg) == if i == 0 && pub.over then 1 else 0
    {
      assert dir[i].IsBit(asg);
      assert Vals(asg, dir)[i] == BitsLe(DirectionWord(pub.over), 32)[i];
    }
  }

  lemma DirectionBits(over: bool)
    ensures forall i :: 0 <= i < 32 ==> BitsLe(DirectionWord(over), 32)[i] == (i == 0 && over)
  {
    ZeroBits(31);
    assert BitsLe(DirectionWord(over), 32) == [over] + BitsLe(0, 31);
  }

  lemma {:induction false} ZeroBits(n: nat)
    ensures forall i :: 0 <= i < n ==> !BitsLe(0, n)[i]
  {
    if n > 0 { ZeroBits(n - 1); }
  }
}
