/**
 The synthesized assignment: it satisfies every constraint exactly when the
 statement holds of the witness it was made from.
 */
module AgeCompleteness {
  import opened Wrappers
  import opened Bits
  import opened PrimeField
  import opened R1cs
  import opened BitGadgets
  import opened Comparator
  import opened ComparatorProofs
  import opened Constants
  import opened Multipack
  import opened PublicInputs
  import opened Transcript
  import opened Commit
  import opened Gadgets
  import opened AgeCircuit
  import opened AgeStatement

  // ---------------------------------------------- what the run has written

  ghost predicate PublicRead(aux: seq<Option<int>>, v: PublicVectors, pub: AgePublic) {
    && ReadBits(aux, v.dir) == Known(BitsLe(DirectionWord(pub.over), 32))
    && ReadBits(aux, v.cutoff) == Known(BitsLe(BiasForCircuit(pub.cutoffDays), 32))
    && ReadBits(aux, v.rp) == Known(BytesToBits(pub.rpHash))
    && ReadBits(aux, v.vk) == Known(BytesToBits(pub.issuerVk))
    && ReadBits(aux, v.nul) == Known(BytesToBits(pub.credNullifier))
  }

  ghost predicate SecretRead(aux: seq<Option<int>>, k: Kit, v: SecretVectors, w: AgeWitness)
    requires |w.sig| == 64
  {
    && ReadBits(aux, v.dob) == Known(BitsLe(BiasForCircuit(w.dobDays), 32))
    && ReadBits(aux, v.r) == Known(w.rBits)
    && ReadBits(aux, k.sig.vkBits(v.vkAt)) == Known(BytesToBits(w.issuerVk))
    && Allotted(k.sig, aux, v.vkAt, v.sigAt, w.issuerVk, w.sig)
  }

  ghost predicate MessageRead(aux: seq<Option<int>>, v: MessageVectors, w: AgeWitness) {
    && ReadBits(aux, v.v) == Known(BitsLe(w.v, 8))
    && ReadBits(aux, v.kid) == Known(BytesToBits(w.kid))
    && ReadBits(aux, v.c) == Known(BytesToBits(w.c))
    && ReadBits(aux, v.iat) == Known(BytesToBits(BeBytes(w.iat, 8)))
    && ReadBits(aux, v.exp) == Known(BytesToBits(BeBytes(w.exp, 8)))
    && ReadBits(aux, v.schema) == Known(BytesToBits(w.schema))
  }

  /** Everything the first two steps wrote, still there in any later state of the run. */
  ghost predicate Written(aux: seq<Option<int>>, k: Kit, l: Layout, pub: AgePublic, w: AgeWitness)
    requires |w.sig| == 64
  {
    PublicRead(aux, l.pub, pub) && SecretRead(aux, k, l.sec, w) && MessageRead(aux, l.msg, w)
  }

  lemma SecretWritten(aux: seq<Option<int>>, k: Kit, spec: SigSpec, p: int, w: AgeWitness, all: seq<Option<int>>)
    requires WellSized(w) && SigCorrect(k.sig, spec, p) && SecretAux(k, aux, Some(w)) <= all
    ensures SecretRead(all, k, SecretVectorsAt(k, |aux|), w)
  {
    hide BitValues, BitVars, ReadBits, Known, BitsLe, BytesToBits, BiasForCircuit, VkAux, SigAux;
    var s1 := BitsLe(BiasForCircuit(w.dobDays), 32);
    var u1 := aux + BitValues(32, Some(s1));
    var u2 := u1 + BitValues(128, Some(w.rBits));
    var u3 := VkAux(k.sig, u2, Some(w.issuerVk));
    ReadLater(aux, s1, all);
    ReadLater(u1, w.rBits, all);
    assert VkBitsAt(k.sig, u2, w.issuerVk);
    ReadBitsHold(Assignment([], []), u3, all, k.sig.vkBits(|u2|), BytesToBits(w.issuerVk));
    assert all[..|u2|] == u2 && all[..|u3|] == u3;
  }

  lemma MessageWritten(aux: seq<Option<int>>, w: AgeWitness, all: seq<Option<int>>)
    requires WellSized(w) && MessageAux(aux, Some(w)) <= all
    ensures MessageRead(all, MessageVectorsAt(|aux|), w)
  {
    hide BitValues, BitVars, ReadBits, Known, BitsLe, BytesToBits, BeBytes;
    var s5, s6, s7 := BitsLe(w.v, 8), BytesToBits(w.kid), BytesToBits(w.c);
    var s8, s9, s10 := BytesToBits(BeBytes(w.iat, 8)), BytesToBits(BeBytes(w.exp, 8)), BytesToBits(w.schema);
    var u5 := aux + BitValues(8, Some(s5));
    var u6 := u5 + BitValues(112, Some(s6));
    var u7 := u6 + BitValues(256, Some(s7));
    var u8 := u7 + BitValues(64, Some(s8));
    var u9 := u8 + BitValues(64, Some(s9));
    ReadLater(aux, s5, all);
    ReadLater(u5, s6, all);
    ReadLater(u6, s7, all);
    ReadLater(u7, s8, all);
    ReadLater(u8, s9, all);
    ReadLater(u9, s10, all);
  }

  lemma AllWritten(aux0: seq<Option<int>>, k: Kit, spec: SigSpec, p: int, pub: AgePublic, w: AgeWitness,
                   all: seq<Option<int>>)
    requires WellSized(w) && SigCorrect(k.sig, spec, p) && WitnessAux(k, PublicAux(aux0, pub), Some(w)) <= all
    ensures Written(all, k, LayoutAt(k, |aux0|), pub, w)
  {
    hide PublicAux, SecretAux, MessageAux, ReadBits, BitsLe, BytesToBits, BitVars;
    var u := PublicAux(aux0, pub);
    PublicReads(aux0, pub, all);
    SecretWritten(u, k, spec, p, w, all);
    MessageWritten(SecretAux(k, u, Some(w)), w, all);
  }

  // ------------------------------------------------------ stage by stage

  lemma ReadHeld(asg: Assignment, aux: seq<Option<int>>, bs: seq<Boolean>, s: seq<bool>)
    requires ReadBits(aux, bs) == Known(s) && Agrees(asg, aux)
    ensures AllBits(asg, bs) && Vals(asg, bs) == s && |bs| == |s|
  {
    ReadBitsHold(asg, aux, aux, bs, s);
  }

  lemma HeldFromWritten(asg: Assignment, all: seq<Option<int>>, k: Kit, l: Layout, pub: AgePublic, w: AgeWitness)
    requires |w.sig| == 64 && Written(all, k, l, pub, w) && Agrees(asg, all)
    ensures PublicHeld(asg, l.pub, pub) && WitnessHeld(asg, l)
    ensures AllBits(asg, k.sig.vkBits(l.sec.vkAt)) && Vals(asg, k.sig.vkBits(l.sec.vkAt)) == BytesToBits(w.issuerVk)
    ensures Vals(asg, l.sec.dob) == BitsLe(BiasForCircuit(w.dobDays), 32) && Vals(asg, l.sec.r) == w.rBits
    ensures Vals(asg, l.msg.v) == BitsLe(w.v, 8) && Vals(asg, l.msg.kid) == BytesToBits(w.kid)
    ensures Vals(asg, l.msg.c) == BytesToBits(w.c) && Vals(asg, l.msg.schema) == BytesToBits(w.schema)
    ensures Vals(asg, l.msg.iat) == BytesToBits(BeBytes(w.iat, 8))
    ensures Vals(asg, l.msg.exp) == BytesToBits(BeBytes(w.exp, 8))
  {
    hide ReadBits, Known, BitsLe, BytesToBits, BiasForCircuit, BeBytes, AllBits, Vals, Agrees, Allotted;
    ReadHeld(asg, all, l.pub.dir, BitsLe(DirectionWord(pub.over), 32));
    ReadHeld(asg, all, l.pub.cutoff, BitsLe(BiasForCircuit(pub.cutoffDays), 32));
    ReadHeld(asg, all, l.pub.rp, BytesToBits(pub.rpHash));
    ReadHeld(asg, all, l.pub.vk, BytesToBits(pub.issuerVk));
    ReadHeld(asg, all, l.pub.nul, BytesToBits(pub.credNullifier));
    ReadHeld(asg, all, l.sec.dob, BitsLe(BiasForCircuit(w.dobDays), 32));
    ReadHeld(asg, all, l.sec.r, w.rBits);
    ReadHeld(asg, all, k.sig.vkBits(l.sec.vkAt), BytesToBits(w.issuerVk));
    ReadHeld(asg, all, l.msg.v, BitsLe(w.v, 8));
    ReadHeld(asg, all, l.msg.kid, BytesToBits(w.kid));
    ReadHeld(asg, all, l.msg.c, BytesToBits(w.c));
    ReadHeld(asg, all, l.msg.iat, BytesToBits(BeBytes(w.iat, 8)));
    ReadHeld(asg, all, l.msg.exp, BytesToBits(BeBytes(w.exp, 8)));
    ReadHeld(asg, all, l.msg.schema, BytesToBits(w.schema));
  }

  lemma PublicComplete(p: int, asg: Assignment, n0: nat, i0: nat, pub: AgePublic)
    requires IsPrime(p) && p > Pow2(CAPACITY) && InField(p, asg)
    requires PublicHeld(asg, PublicVectorsAt(n0), pub) && InputsAre(asg, i0, Elements(pub))
    ensures SatAll(p, asg, PublicBitCons(n0)) && SatAll(p, asg, PublicPackCons(n0, i0))
  {
    hide SatAll, BoolCons, PackCons, BitVars, AllBits, Vals, InputsAre, Pack, BitsLe, BytesToBits, Pow2, InField;
    hide BiasForCircuit;
    SatFive(p, asg, BoolCons(n0, 32), BoolCons(n0 + 32, 32), BoolCons(n0 + 64, 256),
            BoolCons(n0 + 320, 256), BoolCons(n0 + 576, 256));
    SatFive(p, asg, PackCons(BitVars(n0, 32), i0), PackCons(BitVars(n0 + 32, 32), i0 + 1),
            PackCons(BitVars(n0 + 64, 256), i0 + 2), PackCons(BitVars(n0 + 320, 256), i0 + 4),
            PackCons(BitVars(n0 + 576, 256), i0 + 6));
    InputBlocks(asg, i0, pub);
    BitsMeaning(p, asg, n0, 32);
    BitsMeaning(p, asg, n0 + 32, 32);
    BitsMeaning(p, asg, n0 + 64, 256);
    BitsMeaning(p, asg, n0 + 320, 256);
    BitsMeaning(p, asg, n0 + 576, 256);
    PackMeaning(p, asg, BitVars(n0, 32), i0);
    PackMeaning(p, asg, BitVars(n0 + 32, 32), i0 + 1);
    PackMeaning(p, asg, BitVars(n0 + 64, 256), i0 + 2);
    PackMeaning(p, asg, BitVars(n0 + 320, 256), i0 + 4);
    PackMeaning(p, asg, BitVars(n0 + 576, 256), i0 + 6);
  }

  /** Of the witness constraints, only those of the key and signature encodings remain to be seen. */
  lemma WitnessComplete(p: int, asg: Assignment, k: Kit, n0: nat)
    requires IsPrime(p) && InField(p, asg) && WitnessHeld(asg, LayoutAt(k, n0))
    ensures SatAll(p, asg, WitnessCons(k, n0 + 832)) <==>
      && SatAll(p, asg, k.sig.vkCons(LayoutAt(k, n0).sec.vkAt))
      && SatAll(p, asg, k.sig.sigCons(LayoutAt(k, n0).sec.sigAt))
  {
    hide SatAll, BoolCons, BitVars, AllBits, InField;
    var n, m := n0 + 832, MessageAt(k, n0);
    SatConcat(p, asg, SecretCons(k, n), MessageCons(m));
    SatConcat(p, asg, BoolCons(n, 32) + BoolCons(n + 32, 128) + k.sig.vkCons(n + 160),
              k.sig.sigCons(n + 160 + k.sig.vkSize));
    SatConcat(p, asg, BoolCons(n, 32) + BoolCons(n + 32, 128), k.sig.vkCons(n + 160));
    SatConcat(p, asg, BoolCons(n, 32), BoolCons(n + 32, 128));
    SatConcat(p, asg, BoolCons(m, 8) + BoolCons(m + 8, 112) + BoolCons(m + 120, 256) + BoolCons(m + 376, 64)
              + BoolCons(m + 440, 64), BoolCons(m + 504, 96));
    SatFive(p, asg, BoolCons(m, 8), BoolCons(m + 8, 112), BoolCons(m + 120, 256), BoolCons(m + 376, 64),
            BoolCons(m + 440, 64));
    BitsMeaning(p, asg, n, 32);
    BitsMeaning(p, asg, n + 32, 128);
    BitsMeaning(p, asg, m, 8);
    BitsMeaning(p, asg, m + 8, 112);
    BitsMeaning(p, asg, m + 120, 256);
    BitsMeaning(p, asg, m + 376, 64);
    BitsMeaning(p, asg, m + 440, 64);
    BitsMeaning(p, asg, m + 504, 96);
  }

  lemma UseHashComplete(g: HashGadget, spec: HashSpec, p: int, aux: seq<Option<int>>, ins: seq<Boolean>,
                        s: seq<bool>, asg: Assignment)
    requires HashCorrect(g, spec, p) && InField(p, asg) && ReadBits(aux, ins) == Known(s)
    requires spec(s).Some? && Agrees(asg, HashAux(g, aux, ins))
    ensures SatAll(p, asg, g.cons(|aux|, ins))
    ensures ReadBits(HashAux(g, aux, ins), g.out(|aux|, ins)) == Known(spec(s).value)
    ensures |g.out(|aux|, ins)| == 256
    ensures AllBits(asg, g.out(|aux|, ins)) && Vals(asg, g.out(|aux|, ins)) == spec(s).value
  {
    assert HashCompleteAt(g, spec, p, aux, ins, s, asg);
    ReadHeld(asg, HashAux(g, aux, ins), g.out(|aux|, ins), spec(s).value);
  }

  lemma ReadConst(aux: seq<Option<int>>, bytes: seq<byte>)
    ensures ReadBits(aux, ConstBits(bytes)) == Known(BytesToBits(bytes))
  {
  }

  lemma BindingComplete(p: int, asg: Assignment, k: Kit, h: Hashes, spec: SigSpec, aux: seq<Option<int>>, n0: nat,
                        pub: AgePublic, w: AgeWitness)
    requires InField(p, asg) && WellSized(w) && |aux| == LayoutAt(k, n0).statementAt
    requires Written(aux, k, LayoutAt(k, n0), pub, w) && Agrees(asg, BindingAux(k, LayoutAt(k, n0), aux))
    requires Setting(p, k, h, spec)
    ensures Ready(k, LayoutAt(k, n0))
    ensures SatAll(p, asg, BindingCons(k, LayoutAt(k, n0))) <==>
      && w.issuerVk == pub.issuerVk
      && pub.credNullifier == Nullifier(h, w.c)
      && w.c == Commitment(h, w.dobDays, w.rBits)
  {
    hide SatAll, AllBits, EqualCons, BytesToBits, ConstBits, InField, BiasForCircuit, ReadBits, Known, BitsLe;
    hide HashAux, HashCorrect, Agrees, SigCorrect, Allotted, Setting, IsPrime, Pow2;
    SettingParts(p, k, h, spec);
    var l := LayoutAt(k, n0);
    LayoutReady(k, n0);
    var at := PlacesOf(k, l);
    var vkBits, nulIns, comIns := k.sig.vkBits(l.sec.vkAt), NullifierIns(l), CommitIns(l);
    var u1 := HashAux(k.nullHash, aux, nulIns);
    var u2 := HashAux(k.commitHash, u1, comIns);
    var nulOut, comOut := k.nullHash.out(|aux|, nulIns), k.commitHash.out(|u1|, comIns);
    AgreesPrefix(asg, u1, u2);
    AgreesPrefix(asg, aux, u1);
    HeldFromWritten(asg, aux, k, l, pub, w);
    ReadConst(aux, NULLIFIER_DST);
    ReadConcat(aux, ConstBits(NULLIFIER_DST), l.msg.c, BytesToBits(NULLIFIER_DST), BytesToBits(w.c));
    UseHashComplete(k.nullHash, PedersenSpec(h, MerkleTree(0)), p, aux, nulIns, NullifierBits(w.c), asg);
    ReadConcat(aux, l.sec.dob, l.sec.r, BitsLe(BiasForCircuit(w.dobDays), 32), w.rBits);
    ReadBitsHold(asg, aux, u1, comIns, CommitBits(w.dobDays, w.rBits));
    UseHashComplete(k.commitHash, PedersenSpec(h, NoteCommitment), p, u1, comIns, CommitBits(w.dobDays, w.rBits), asg);
    SatFive(p, asg, EqualCons(vkBits, l.pub.vk), k.nullHash.cons(|aux|, nulIns), EqualCons(nulOut, l.pub.nul),
            k.commitHash.cons(|u1|, comIns), EqualCons(comOut, l.msg.c));
    EqualMeaning(p, asg, vkBits, l.pub.vk);
    EqualMeaning(p, asg, nulOut, l.pub.nul);
    EqualMeaning(p, asg, comOut, l.msg.c);
    SameBytes(w.issuerVk, pub.issuerVk);
    SameBytes(Nullifier(h, w.c), pub.credNullifier);
    SameBytes(Commitment(h, w.dobDays, w.rBits), w.c);
  }

  lemma SameBytes(a: seq<byte>, b: seq<byte>)
    ensures BytesToBits(a) == BytesToBits(b) <==> a == b
  {
    if BytesToBits(a) == BytesToBits(b) { BytesToBitsInjective(a, b); }
  }

  /** Swap and comparison together: satisfied by the run exactly when the selected values compare. */
  lemma CompareSelected(p: int, asg: Assignment, aux: seq<Option<int>>, dir: Boolean, a: seq<Boolean>, b: seq<Boolean>,
                        d: bool, x: seq<bool>, y: seq<bool>)
    requires IsPrime(p) && p > 3 && InField(p, asg) && |a| == |b| == |x| == |y| && ReadBit(aux, dir) == Some(d)
    requires ReadBits(aux, a) == Known(x) && ReadBits(aux, b) == Known(y)
    requires Agrees(asg, GeAux(SwapAux(aux, dir, a, b, |a|), SwapLeft(|aux|, |a|), SwapRight(|aux|, |a|)))
    ensures SatAll(p, asg, SwapCons(|aux|, dir, a, b, |a|)
                           + GeCons(|aux| + 2 * |a|, SwapLeft(|aux|, |a|), SwapRight(|aux|, |a|))) <==>
            ValueOf(Select(d, x, y)) >= ValueOf(Select(d, y, x))
  {
    hide *;
    var left, right := SwapLeft(|aux|, |a|), SwapRight(|aux|, |a|);
    var u := SwapAux(aux, dir, a, b, |a|);
    AgreesPrefix(asg, u, GeAux(u, left, right));
    AgreesPrefix(asg, aux, u);
    ReadHeld(asg, aux, a, x);
    ReadHeld(asg, aux, b, y);
    ReadBitHolds(asg, aux, aux, dir);
    SelectLength(d, x, y);
    SwapComplete(aux, dir, a, b, d, x, y);
    ReadHeld(asg, u, left, Select(d, x, y));
    ReadHeld(asg, u, right, Select(d, y, x));
    SwapMeaning(p, asg, |aux|, dir, a, b);
    GeComplete(p, asg, u, left, right, Select(d, x, y), Select(d, y, x));
    SatConcat(p, asg, SwapCons(|aux|, dir, a, b, |a|), GeCons(|u|, left, right));
  }

  /** What step 5 emits and computes, with the operands' own length. */
  lemma AgeCheckIs(k: Kit, l: Layout, aux: seq<Option<int>>)
    requires Ready(k, l) && |aux| == PlacesOf(k, l).swapAt
    ensures |l.pub.dir| == |l.pub.cutoff| == |l.sec.dob| == 32
    ensures var n := |l.pub.cutoff|;
      && AgeCheckCons(k, l) == SwapCons(|aux|, l.pub.dir[0], l.pub.cutoff, l.sec.dob, n)
                               + GeCons(|aux| + 2 * n, SwapLeft(|aux|, n), SwapRight(|aux|, n))
      && AgeCheckAux(l, aux) == GeAux(SwapAux(aux, l.pub.dir[0], l.pub.cutoff, l.sec.dob, n), SwapLeft(|aux|, n),
                                      SwapRight(|aux|, n))
  {
    hide SwapCons, GeCons, SwapLeft, SwapRight, SwapAux, GeAux;
  }

  lemma AgeCheckRead(aux: seq<Option<int>>, k: Kit, n0: nat, pub: AgePublic, w: AgeWitness)
    requires WellSized(w) && Written(aux, k, LayoutAt(k, n0), pub, w)
    ensures var l := LayoutAt(k, n0);
      && |l.pub.dir| == 32 && ReadBit(aux, l.pub.dir[0]) == Some(pub.over)
      && ReadBits(aux, l.pub.cutoff) == Known(BitsLe(BiasForCircuit(pub.cutoffDays), 32))
      && ReadBits(aux, l.sec.dob) == Known(BitsLe(BiasForCircuit(w.dobDays), 32))
  {
    hide ReadBits, Known, BitsLe, BiasForCircuit, Allotted, BytesToBits, ReadBit;
    DirectionBit(pub.over);
    ReadAt(aux, aux, LayoutAt(k, n0).pub.dir, BitsLe(DirectionWord(pub.over), 32), 0);
  }

  /** Comparing the biased dates in the order the direction selects is comparing the dates. */
  lemma BiasedOrder(over: bool, cutoff: i32, dob: i32)
    ensures var x, y := BitsLe(BiasForCircuit(cutoff), 32), BitsLe(BiasForCircuit(dob), 32);
      ValueOf(Select(over, x, y)) >= ValueOf(Select(over, y, x)) <==> if over then dob <= cutoff else dob >= cutoff
  {
    hide ValueOf, BitsLe, BiasForCircuit;
    BiasValue(cutoff);
    BiasValue(dob);
  }

  lemma AgeCheckComplete(p: int, asg: Assignment, k: Kit, aux: seq<Option<int>>, n0: nat, pub: AgePublic, w: AgeWitness)
    requires IsPrime(p) && p > Pow2(CAPACITY) && KitReady(k) && InField(p, asg) && WellSized(w)
    requires |aux| == PlacesOf(k, LayoutAt(k, n0)).swapAt
    requires Written(aux, k, LayoutAt(k, n0), pub, w) && Agrees(asg, AgeCheckAux(LayoutAt(k, n0), aux))
    ensures SatAll(p, asg, AgeCheckCons(k, LayoutAt(k, n0))) <==>
      if pub.over then w.dobDays <= pub.cutoffDays else w.dobDays >= pub.cutoffDays
  {
    hide *;
    var l := LayoutAt(k, n0);
    var x, y := BitsLe(BiasForCircuit(pub.cutoffDays), 32), BitsLe(BiasForCircuit(w.dobDays), 32);
    BigPrime(p);
    LayoutReady(k, n0);
    AgeCheckIs(k, l, aux);
    AgeCheckRead(aux, k, n0, pub, w);
    CompareSelected(p, asg, aux, l.pub.dir[0], l.pub.cutoff, l.sec.dob, pub.over, x, y);
    BiasedOrder(pub.over, pub.cutoffDays, w.dobDays);
  }

  /** The circuit's transcript bits read as the host's transcript of the message. */
  lemma TranscriptRead(aux: seq<Option<int>>, l: Layout, w: AgeWitness)
    requires WellSized(w) && MessageRead(aux, l.msg, w) && PrehashReady(l)
    requires |l.msg.kid| == 112 && |l.msg.schema| == 96
    ensures ReadBits(aux, PrehashIns(l)) == Known(BytesToBits(Encode(Message(w))))
  {
    hide ReadBits, Known, BytesToBits, BeBytes, ConstBits, Encode, BitsLe;
    var m := l.msg;
    var iat, exp := BytesToBits(BeBytes(w.iat, 8)), BytesToBits(BeBytes(w.exp, 8));
    var kidLen, schLen := ConstBits([ByteLen(m.kid)]), ConstBits([ByteLen(m.schema)]);
    ReadConst(aux, CRED_DST);
    ReadConst(aux, [ByteLen(m.kid)]);
    ReadConst(aux, [ByteLen(m.schema)]);
    var t8 := BytesToBits(w.schema);
    ReadConcat(aux, schLen, m.schema, BytesToBits([|w.schema|]), t8);
    var t7 := BytesToBits([|w.schema|]) + t8;
    ReadConcat(aux, m.exp, schLen + m.schema, exp, t7);
    var t6 := exp + t7;
    ReadConcat(aux, m.iat, m.exp + (schLen + m.schema), iat, t6);
    var t5 := iat + t6;
    ReadConcat(aux, m.c, m.iat + (m.exp + (schLen + m.schema)), BytesToBits(w.c), t5);
    var t4 := BytesToBits(w.c) + t5;
    ReadConcat(aux, m.kid, m.c + (m.iat + (m.exp + (schLen + m.schema))), BytesToBits(w.kid), t4);
    var t3 := BytesToBits(w.kid) + t4;
    ReadConcat(aux, kidLen, m.kid + (m.c + (m.iat + (m.exp + (schLen + m.schema)))), BytesToBits([|w.kid|]), t3);
    var t2 := BytesToBits([|w.kid|]) + t3;
    OneByteBits(w.v);
    ReadConcat(aux, m.v, kidLen + (m.kid + (m.c + (m.iat + (m.exp + (schLen + m.schema))))), BytesToBits([w.v]), t2);
    ReadConcat(aux, ConstBits(CRED_DST),
               m.v + (kidLen + (m.kid + (m.c + (m.iat + (m.exp + (schLen + m.schema)))))),
               BytesToBits(CRED_DST), BytesToBits([w.v]) + t2);
    EncodeBits(Message(w));
  }

  lemma OneByteBits(b: byte)
    ensures BytesToBits([b]) == BitsLe(b, 8)
  {
    assert BytesToBits([b]) == BitsLe(b, 8) + BytesToBits([]);
  }

  lemma AllottedLater(g: SigGadget, aux: seq<Option<int>>, more: seq<Option<int>>, vk: nat, sig: nat,
                      vkBytes: Bytes32, sigBytes: Bytes64)
    requires aux <= more && Allotted(g, aux, vk, sig, vkBytes, sigBytes)
    ensures Allotted(g, more, vk, sig, vkBytes, sigBytes)
  {
    assert more[..vk] == aux[..vk] && more[..sig] == aux[..sig];
  }

  lemma SignatureComplete(p: int, asg: Assignment, k: Kit, h: Hashes, spec: SigSpec, aux: seq<Option<int>>, n0: nat,
                          pub: AgePublic, w: AgeWitness)
    requires Setting(p, k, h, spec) && InField(p, asg) && Accepted(spec, Some(w))
    requires PrehashReady(LayoutAt(k, n0)) && |aux| == PlacesOf(k, LayoutAt(k, n0)).blakeAt
    requires Written(aux, k, LayoutAt(k, n0), pub, w) && Agrees(asg, SignatureAux(k, LayoutAt(k, n0), aux))
    ensures
      && SatAll(p, asg, k.sig.vkCons(LayoutAt(k, n0).sec.vkAt))
      && SatAll(p, asg, k.sig.sigCons(LayoutAt(k, n0).sec.sigAt))
      && SatAll(p, asg, SignatureCons(k, LayoutAt(k, n0))) <==>
      spec.accepts(w.issuerVk, w.sig, h.blake2s(Encode(Message(w))))
  {
    hide SatAll, BytesToBits, InField, ReadBits, Known, HashAux, HashCorrect, Agrees, Allotted, VerifyAux, Encode;
    hide PrehashBits, AllBits, BitsLe, BeBytes, BiasForCircuit, Setting, IsPrime, Pow2;
    SettingParts(p, k, h, spec);
    var l := LayoutAt(k, n0);
    LayoutReady(k, n0);
    var at := PlacesOf(k, l);
    var bytes := Encode(Message(w));
    var ins, hash := PrehashIns(l), k.blake.out(|aux|, PrehashIns(l));
    var u1 := HashAux(k.blake, aux, ins);
    AgreesPrefix(asg, u1, VerifyAux(k.sig, u1, l.sec.vkAt, l.sec.sigAt, hash));
    TranscriptRead(aux, l, w);
    BytesBitsBytes(bytes);
    EncodeShort(Message(w));
    UseHashComplete(k.blake, BlakeSpec(h), p, aux, ins, BytesToBits(bytes), asg);
    AllottedLater(k.sig, aux, u1, l.sec.vkAt, l.sec.sigAt, w.issuerVk, w.sig);
    SatConcat(p, asg, k.blake.cons(|aux|, ins), k.sig.verifyCons(l.sec.vkAt, l.sec.sigAt, |u1|, hash));
    assert SigCompleteAt(k.sig, spec, p, u1, l.sec.vkAt, l.sec.sigAt, hash, w.issuerVk, w.sig, h.blake2s(bytes), asg);
  }

  lemma WrittenLater(aux: seq<Option<int>>, more: seq<Option<int>>, k: Kit, l: Layout, pub: AgePublic, w: AgeWitness)
    requires |w.sig| == 64 && aux <= more && Written(aux, k, l, pub, w)
    ensures Written(more, k, l, pub, w)
  {
    hide ReadBits, Known, BitsLe, BytesToBits, BiasForCircuit, BeBytes, Allotted;
    var none := Assignment([], []);
    ReadBitsHold(none, aux, more, l.pub.dir, BitsLe(DirectionWord(pub.over), 32));
    ReadBitsHold(none, aux, more, l.pub.cutoff, BitsLe(BiasForCircuit(pub.cutoffDays), 32));
    ReadBitsHold(none, aux, more, l.pub.rp, BytesToBits(pub.rpHash));
    ReadBitsHold(none, aux, more, l.pub.vk, BytesToBits(pub.issuerVk));
    ReadBitsHold(none, aux, more, l.pub.nul, BytesToBits(pub.credNullifier));
    ReadBitsHold(none, aux, more, l.sec.dob, BitsLe(BiasForCircuit(w.dobDays), 32));
    ReadBitsHold(none, aux, more, l.sec.r, w.rBits);
    ReadBitsHold(none, aux, more, k.sig.vkBits(l.sec.vkAt), BytesToBits(w.issuerVk));
    ReadBitsHold(none, aux, more, l.msg.v, BitsLe(w.v, 8));
    ReadBitsHold(none, aux, more, l.msg.kid, BytesToBits(w.kid));
    ReadBitsHold(none, aux, more, l.msg.c, BytesToBits(w.c));
    ReadBitsHold(none, aux, more, l.msg.iat, BytesToBits(BeBytes(w.iat, 8)));
    ReadBitsHold(none, aux, more, l.msg.exp, BytesToBits(BeBytes(w.exp, 8)));
    ReadBitsHold(none, aux, more, l.msg.schema, BytesToBits(w.schema));
    AllottedLater(k.sig, aux, more, l.sec.vkAt, l.sec.sigAt, w.issuerVk, w.sig);
  }

  // ---------------------------------------------------------- the whole

  /**
   Completeness of the whole circuit: an assignment with the values of an
   accepted run and the host's inputs satisfies every constraint exactly when
   the statement holds of the witness.
   */
  lemma CircuitComplete(p: int, asg: Assignment, k: Kit, h: Hashes, spec: SigSpec, aux0: seq<Option<int>>, i0: nat,
                        pub: AgePublic, w: AgeWitness)
    requires Setting(p, k, h, spec) && InField(p, asg) && Accepted(spec, Some(w))
    requires Agrees(asg, AgeAux(k, aux0, pub, Some(w))) && InputsAre(asg, i0, Elements(pub))
    ensures SatAll(p, asg, AgeCons(k, |aux0|, i0)) <==> Statement(h, spec, pub, w)
  {
    hide SatAll, PublicBitCons, PublicPackCons, WitnessCons, BindingCons, AgeCheckCons, SignatureCons, AgeCons;
    hide PublicAux, WitnessAux, BindingAux, AgeCheckAux, SignatureAux, Agrees, InField, InputsAre, Elements, Pow2;
    hide Written, PublicHeld, WitnessHeld, Setting, IsPrime, SigCorrect, KitReady, Nullifier, Commitment;
    hide BiasForCircuit;
    SettingParts(p, k, h, spec);
    var n0 := |aux0|;
    var l := LayoutAt(k, n0);
    LayoutReady(k, n0);
    var u1 := WitnessAux(k, PublicAux(aux0, pub), Some(w));
    var u2 := BindingAux(k, l, u1);
    var u3 := AgeCheckAux(l, u2);
    var u4 := SignatureAux(k, l, u3);
    AgreesPrefix(asg, u3, u4);
    AgreesPrefix(asg, u2, u3);
    AgreesPrefix(asg, u1, u2);
    AllWritten(aux0, k, spec, p, pub, w, u1);
    WrittenLater(u1, u2, k, l, pub, w);
    WrittenLater(u2, u3, k, l, pub, w);
    HeldFromWritten(asg, u1, k, l, pub, w);
    AgeConsParts(p, asg, k, n0, i0);
    PublicComplete(p, asg, n0, i0, pub);
    WitnessComplete(p, asg, k, n0);
    BindingComplete(p, asg, k, h, spec, u1, n0, pub, w);
    AgeCheckComplete(p, asg, k, u2, n0, pub, w);
    SignatureComplete(p, asg, k, h, spec, u3, n0, pub, w);
  }

  // ---------------------------------------- the run's own assignment

  lemma BitsInRange(p: int, aux: seq<Option<int>>, n: nat, bits: Option<seq<bool>>)
    requires p > 1 && InRange(p, aux) && (bits.Some? ==> |bits.value| == n)
    ensures InRange(p, aux + BitValues(n, bits))
  {
  }

  lemma SigAuxInRange(g: SigGadget, spec: SigSpec, p: int, aux: seq<Option<int>>, vk: Option<Bytes32>,
                      sig: Option<Bytes64>, m: nat, n: nat, hash: seq<Boolean>)
    requires SigCorrect(g, spec, p) && InRange(p, aux)
    ensures InRange(p, VkAux(g, aux, vk)) && InRange(p, SigAux(g, aux, sig))
    ensures InRange(p, VerifyAux(g, aux, m, n, hash))
  {
    forall k: nat
      ensures Within(p, g.vkFill(aux, vk, k)) && Within(p, g.sigFill(aux, sig, k))
      ensures Within(p, g.verifyFill(aux, m, n, hash, k))
    {
      assert SigInRangeAt(g, p, k, vk, sig, aux, m, n, hash);
    }
  }

  lemma {:induction false} SwapInRange(p: int, aux: seq<Option<int>>, dir: Boolean, a: seq<Boolean>, b: seq<Boolean>,
                                       k: nat)
    requires p > 1 && k <= |a| == |b| && InRange(p, aux)
    ensures InRange(p, SwapAux(aux, dir, a, b, k))
  {
    if k > 0 { SwapInRange(p, aux, dir, a, b, k - 1); }
  }

  lemma {:induction false} ChainInRange(p: int, aux: seq<Option<int>>, a: seq<Boolean>, b: seq<Boolean>, k: nat)
    requires p > 1 && k <= |a| == |b| && InRange(p, aux)
    ensures InRange(p, ChainAux(aux, a, b, k))
  {
    if k > 0 { ChainInRange(p, aux, a, b, k - 1); }
  }

  lemma AndInRange(p: int, aux: seq<Option<int>>, a: Boolean, b: Boolean)
    requires p > 1 && InRange(p, aux)
    ensures InRange(p, AndAux(aux, a, b))
  {
  }

  lemma GeInRange(p: int, aux: seq<Option<int>>, a: seq<Boolean>, b: seq<Boolean>)
    requires p > 1 && |a| == |b| && InRange(p, aux)
    ensures InRange(p, GeAux(aux, a, b))
  {
    if a != [] {
      hide AndAux, InRange, AndOut, AndLen;
      var m := |a| - 1;
      var x, y, c := a[m], b[m], Borrow(|aux|, m);
      var u := ChainAux(aux, a, b, m);
      var l := LastGates(|u|, x, y, c);
      ChainInRange(p, aux, a, b, m);
      AndInRange(p, u, x.Negated(), y);
      var u1 := AndAux(u, x.Negated(), y);
      AndInRange(p, u1, x.Negated(), c);
      var u2 := AndAux(u1, x.Negated(), c);
      AndInRange(p, u2, y, c);
      var u3 := AndAux(u2, y, c);
      AndInRange(p, u3, l.notAAndB.Negated(), l.notAAndBorrow.Negated());
      var u4 := OrAux(u3, l.notAAndB, l.notAAndBorrow);
      AndInRange(p, u4, l.term1.Negated(), l.bAndBorrow.Negated());
    }
  }

  lemma WitnessInRange(p: int, k: Kit, spec: SigSpec, aux: seq<Option<int>>, w: AgeWitness)
    requires p > 1 && SigCorrect(k.sig, spec, p) && InRange(p, aux) && WellSized(w)
    ensures InRange(p, WitnessAux(k, aux, Some(w)))
  {
    hide InRange, BitValues, VkAux, SigAux, BitsLe, BytesToBits, BeBytes, BiasForCircuit, SigCorrect;
    var u1 := aux + BitValues(32, Some(BitsLe(BiasForCircuit(w.dobDays), 32)));
    var u2 := u1 + BitValues(128, Some(w.rBits));
    var u3 := VkAux(k.sig, u2, Some(w.issuerVk));
    var u4 := SigAux(k.sig, u3, Some(w.sig));
    BitsInRange(p, aux, 32, Some(BitsLe(BiasForCircuit(w.dobDays), 32)));
    BitsInRange(p, u1, 128, Some(w.rBits));
    SigAuxInRange(k.sig, spec, p, u2, Some(w.issuerVk), None, 0, 0, []);
    SigAuxInRange(k.sig, spec, p, u3, None, Some(w.sig), 0, 0, []);
    var u5 := u4 + BitValues(8, Some(BitsLe(w.v, 8)));
    var u6 := u5 + BitValues(112, Some(BytesToBits(w.kid)));
    var u7 := u6 + BitValues(256, Some(BytesToBits(w.c)));
    var u8 := u7 + BitValues(64, Some(BytesToBits(BeBytes(w.iat, 8))));
    var u9 := u8 + BitValues(64, Some(BytesToBits(BeBytes(w.exp, 8))));
    BitsInRange(p, u4, 8, Some(BitsLe(w.v, 8)));
    BitsInRange(p, u5, 112, Some(BytesToBits(w.kid)));
    BitsInRange(p, u6, 256, Some(BytesToBits(w.c)));
    BitsInRange(p, u7, 64, Some(BytesToBits(BeBytes(w.iat, 8))));
    BitsInRange(p, u8, 64, Some(BytesToBits(BeBytes(w.exp, 8))));
    BitsInRange(p, u9, 96, Some(BytesToBits(w.schema)));
  }

  lemma PublicInRange(p: int, pub: AgePublic)
    requires p > 1
    ensures InRange(p, PublicAux([], pub))
  {
    hide InRange, BitValues, BitsLe, BytesToBits, BiasForCircuit;
    var s1, s2 := BitsLe(DirectionWord(pub.over), 32), BitsLe(BiasForCircuit(pub.cutoffDays), 32);
    var s3, s4, s5 := BytesToBits(pub.rpHash), BytesToBits(pub.issuerVk), BytesToBits(pub.credNullifier);
    var u1 := [] + BitValues(32, Some(s1));
    var u2 := u1 + BitValues(32, Some(s2));
    var u3 := u2 + BitValues(256, Some(s3));
    var u4 := u3 + BitValues(256, Some(s4));
    assert InRange(p, []) by { EmptyInRange(p); }
    BitsInRange(p, [], 32, Some(s1));
    BitsInRange(p, u1, 32, Some(s2));
    BitsInRange(p, u2, 256, Some(s3));
    BitsInRange(p, u3, 256, Some(s4));
    BitsInRange(p, u4, 256, Some(s5));
  }

  lemma EmptyInRange(p: int)
    ensures InRange(p, [])
  {
  }

  /** Every value a run computes is a field element. */
  lemma RunInRange(p: int, k: Kit, h: Hashes, spec: SigSpec, pub: AgePublic, w: AgeWitness)
    requires Setting(p, k, h, spec) && Accepted(spec, Some(w))
    ensures InRange(p, AgeAux(k, [], pub, Some(w)))
  {
    hide InRange, PublicAux, WitnessAux, HashAux, GeAux, SwapAux, VerifyAux, HashCorrect, SigCorrect, Pow2;
    BigPrime(p);
    LayoutReady(k, 0);
    var l := LayoutAt(k, 0);
    var u0 := PublicAux([], pub);
    PublicInRange(p, pub);
    var u1 := WitnessAux(k, u0, Some(w));
    WitnessInRange(p, k, spec, u0, w);
    var v := HashAux(k.nullHash, u1, NullifierIns(l));
    HashAuxInRange(k.nullHash, PedersenSpec(h, MerkleTree(0)), p, u1, NullifierIns(l));
    HashAuxInRange(k.commitHash, PedersenSpec(h, NoteCommitment), p, v, CommitIns(l));
    var u2 := BindingAux(k, l, u1);
    SwapInRange(p, u2, l.pub.dir[0], l.pub.cutoff, l.sec.dob, 32);
    GeInRange(p, SwapAux(u2, l.pub.dir[0], l.pub.cutoff, l.sec.dob, 32), SwapLeft(|u2|, 32), SwapRight(|u2|, 32));
    var u3 := AgeCheckAux(l, u2);
    HashAuxInRange(k.blake, BlakeSpec(h), p, u3, PrehashIns(l));
    SigAuxInRange(k.sig, spec, p, HashAux(k.blake, u3, PrehashIns(l)), None, None, l.sec.vkAt, l.sec.sigAt,
                  k.blake.out(|u3|, PrehashIns(l)));
  }

  /** asg satisfies the circuit for pub. */
  ghost predicate Solves(p: int, k: Kit, pub: AgePublic, asg: Assignment)
    requires p > 0 && KitReady(k)
  {
    InField(p, asg) && InputsAre(asg, 0, Elements(pub)) && SatAll(p, asg, AgeCons(k, 0, 0))
  }

  ghost predicate Satisfiable(p: int, k: Kit, pub: AgePublic)
    requires p > 0 && KitReady(k)
  {
    exists asg :: Solves(p, k, pub, asg)
  }

  /** The run on a witness satisfies the circuit exactly when the statement holds. */
  lemma RunSatisfies(p: int, k: Kit, h: Hashes, spec: SigSpec, pub: AgePublic, w: AgeWitness)
    requires Setting(p, k, h, spec) && Accepted(spec, Some(w))
    ensures var asg := RunAssignment(Elements(pub), AgeAux(k, [], pub, Some(w)));
      && InField(p, asg) && InputsAre(asg, 0, Elements(pub))
      && (SatAll(p, asg, AgeCons(k, 0, 0)) <==> Statement(h, spec, pub, w))
  {
    hide AgeAux, AgeCons, Elements, SatAll, Statement, Pow2, KitCorrect;
    var aux := AgeAux(k, [], pub, Some(w));
    var asg := RunAssignment(Elements(pub), aux);
    BigPrime(p);
    RunInRange(p, k, h, spec, pub, w);
    ElementsLayout(pub);
    assert forall i :: 0 <= i < |asg.aux| ==> 0 <= asg.aux[i] < p;
    CircuitComplete(p, asg, k, h, spec, [], 0, pub, w);
  }

  /** Public values that can be satisfied have a witness for the statement. */
  lemma SatisfiableMeansStatement(p: int, k: Kit, h: Hashes, spec: SigSpec, pub: AgePublic)
    requires Setting(p, k, h, spec) && Satisfiable(p, k, pub)
    ensures exists w :: Statement(h, spec, pub, w)
  {
    hide AgeCons, Elements, SatAll, Pow2, KitCorrect, Extract, InField, InputsAre, Statement;
    var asg :| Solves(p, k, pub, asg);
    CircuitSound(p, asg, k, h, spec, 0, 0, pub);
  }

  ghost predicate ParsesAs(spec: SigSpec, vk: Bytes32, hash: Bytes32, sig: Bytes64) {
    spec.vkParses(vk) && spec.sigParses(sig) && spec.accepts(vk, sig, hash)
  }

  /** What the constraints accept has a form that also parses. */
  ghost predicate HasParsingForm(spec: SigSpec) {
    forall vk, sig, hash :: spec.accepts(vk, sig, hash) ==> exists t :: ParsesAs(spec, vk, hash, t)
  }

  /** A witness of the statement has one that a run does not refuse. */
  lemma ParsedWitness(h: Hashes, spec: SigSpec, pub: AgePublic, w: AgeWitness) returns (u: AgeWitness)
    requires HasParsingForm(spec) && Statement(h, spec, pub, w)
    ensures Accepted(spec, Some(u)) && Statement(h, spec, pub, u)
  {
    hide Encode;
    var t: Bytes64 :| ParsesAs(spec, w.issuerVk, h.blake2s(Encode(Message(w))), t);
    u := w.(sig := t);
    assert Message(u) == Message(w);
  }

  lemma StatementMeansSatisfiable(p: int, k: Kit, h: Hashes, spec: SigSpec, pub: AgePublic, w: AgeWitness)
    requires Setting(p, k, h, spec) && Accepted(spec, Some(w)) && Statement(h, spec, pub, w)
    ensures Satisfiable(p, k, pub)
  {
    hide AgeAux, AgeCons, Elements, SatAll, Pow2, KitCorrect, InField, InputsAre, Statement;
    RunSatisfies(p, k, h, spec, pub, w);
    assert Solves(p, k, pub, RunAssignment(Elements(pub), AgeAux(k, [], pub, Some(w))));
  }

  /**
   The relation the circuit decides: the public values have a satisfying
   assignment if and only if there is a witness for the statement.
   */
  lemma CircuitRelation(p: int, k: Kit, h: Hashes, spec: SigSpec, pub: AgePublic)
    requires Setting(p, k, h, spec) && HasParsingForm(spec)
    ensures Satisfiable(p, k, pub) <==> exists w :: Statement(h, spec, pub, w)
  {
    hide AgeAux, AgeCons, Elements, SatAll, Pow2, KitCorrect, Encode, InField, InputsAre, Statement, Accepted;
    hide HasParsingForm, IsPrime;
    if Satisfiable(p, k, pub) {
      SatisfiableMeansStatement(p, k, h, spec, pub);
    }
    if exists w :: Statement(h, spec, pub, w) {
      var w :| Statement(h, spec, pub, w);
      var u := ParsedWitness(h, spec, pub, w);
      StatementMeansSatisfiable(p, k, h, spec, pub, u);
    }
  }

  // ------------------------------------------------------------- shape

  /**
   The number of variables and of constraints depends on the sub-gadgets only:
   not on the public values, not on the witness, and not on whether there is one.
   */
  lemma ShapeIndependent(k: Kit, aux: seq<Option<int>>, pub: AgePublic, w: Option<AgeWitness>, i0: nat)
    requires KitReady(k) && (w.Some? ==> WellSized(w.value))
    ensures var l := LayoutAt(k, |aux|);
      var at := PlacesOf(k, l);
      && Ready(k, l)
      && |AgeAux(k, aux, pub, w)| == at.verifyAt + k.sig.verifySize(l.sec.vkAt, l.sec.sigAt,
                                                                    k.blake.out(at.blakeAt, PrehashIns(l)))
      && at.blakeAt == at.swapAt + 64 + 67
      && |AgeCons(k, |aux|, i0)| == 832 + 8 + 760 + 768 + 128 + 99
         + |k.sig.vkCons(l.sec.vkAt)| + |k.sig.sigCons(l.sec.sigAt)|
         + |k.nullHash.cons(l.statementAt, NullifierIns(l))| + |k.commitHash.cons(at.commitAt, CommitIns(l))|
         + |k.blake.cons(at.blakeAt, PrehashIns(l))|
         + |k.sig.verifyCons(l.sec.vkAt, l.sec.sigAt, at.verifyAt, k.blake.out(at.blakeAt, PrehashIns(l)))|
  {
    hide PublicBitCons, PublicPackCons, WitnessCons, BindingCons, AgeCheckCons, SignatureCons, PlacesOf;
    hide PublicAux, WitnessAux, BindingAux, AgeCheckAux, HashAux, VerifyAux;
    LayoutReady(k, |aux|);
    PublicCount(|aux|, i0);
    WitnessCount(k, |aux|);
    StatementCount(k, LayoutAt(k, |aux|));
    RunLength(k, aux, pub, w);
  }

  lemma PublicCount(n0: nat, i0: nat)
    ensures |PublicBitCons(n0)| == 832 && |PublicPackCons(n0, i0)| == 8
  {
    hide PackCons;
    PackConsCount(BitVars(n0, 32), i0);
    PackConsCount(BitVars(n0 + 32, 32), i0 + 1);
    PackConsCount(BitVars(n0 + 64, 256), i0 + 2);
    PackConsCount(BitVars(n0 + 320, 256), i0 + 4);
    PackConsCount(BitVars(n0 + 576, 256), i0 + 6);
  }

  lemma WitnessCount(k: Kit, n0: nat)
    ensures |WitnessCons(k, n0 + 832)| == 760 + |k.sig.vkCons(LayoutAt(k, n0).sec.vkAt)|
                                              + |k.sig.sigCons(LayoutAt(k, n0).sec.sigAt)|
  {
    hide BoolCons;
  }

  lemma StatementCount(k: Kit, l: Layout)
    requires Ready(k, l)
    ensures var at := PlacesOf(k, l);
      && at.blakeAt == at.swapAt + 64 + 67
      && |BindingCons(k, l)| == 768 + |k.nullHash.cons(l.statementAt, NullifierIns(l))|
                                    + |k.commitHash.cons(at.commitAt, CommitIns(l))|
      && |AgeCheckCons(k, l)| == 128 + 99
      && |SignatureCons(k, l)| == |k.blake.cons(at.blakeAt, PrehashIns(l))|
         + |k.sig.verifyCons(l.sec.vkAt, l.sec.sigAt, at.verifyAt, k.blake.out(at.blakeAt, PrehashIns(l)))|
  {
    hide GeCons, SwapCons, EqualCons, SwapLeft, SwapRight, GeLen;
    var at := PlacesOf(k, l);
    GeCount(at.geAt, SwapLeft(at.swapAt, 32), SwapRight(at.swapAt, 32));
  }

  lemma RunLength(k: Kit, aux: seq<Option<int>>, pub: AgePublic, w: Option<AgeWitness>)
    requires KitReady(k) && (w.Some? ==> WellSized(w.value))
    ensures var l := LayoutAt(k, |aux|);
      var at := PlacesOf(k, l);
      && PrehashReady(l)
      && |AgeAux(k, aux, pub, w)| == at.verifyAt + k.sig.verifySize(l.sec.vkAt, l.sec.sigAt,
                                                                    k.blake.out(at.blakeAt, PrehashIns(l)))
  {
    hide PublicAux, WitnessAux, HashAux, VerifyAux, GeAux, SwapAux, SwapLeft, SwapRight, GeLen;
    LayoutReady(k, |aux|);
  }

  lemma {:induction false} PackConsCount(bs: seq<Boolean>, i0: nat)
    ensures |PackCons(bs, i0)| == (|bs| + 253) / 254
    decreases |bs|
  {
    if bs != [] { PackConsCount(bs[ChunkLen(bs)..], i0 + 1); }
  }
}
