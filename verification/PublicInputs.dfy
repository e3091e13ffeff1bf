/** The host's assembly of the eight public inputs (crypto-public-inputs/src/lib.rs). */
module PublicInputs {
  import opened Wrappers
  import opened Bits
  import opened Constants
  import opened Multipack

  type Bytes32 = s: seq<byte> | |s| == 32 witness seq(32, _ => 0)
  type Bytes64 = s: seq<byte> | |s| == 64 witness seq(64, _ => 0)

  const PUBLIC_INPUTS_LEN: nat := 8

  datatype PublicInputError = WrongCount(expected: nat, got: nat)

  /** The public values of a proof. */
  datatype AgePublic = AgePublic(over: bool, cutoffDays: i32, rpHash: Bytes32,
                                 issuerVk: Bytes32, credNullifier: Bytes32)

  method BitsLeFromBytes(bytes: seq<byte>) returns (out: seq<bool>)
    ensures out == BytesToBits(bytes)
  {
    out := [];
    for k := 0 to |bytes|
      invariant out == BytesToBits(bytes[..k])
    {
      ghost var before := out;
      for i := 0 to 8
        invariant out == before + BitsLe(bytes[k], i)
      {
        BitsLeSnoc(bytes[k], i);
        out := out + [BitAt(bytes[k], i)];
      }
      BytesToBitsSnoc(bytes[..k], bytes[k]);
      assert bytes[..k + 1] == bytes[..k] + [bytes[k]];
    }
    assert bytes[..|bytes|] == bytes;
  }

  function DirectionWord(over: bool): u32 { if over then 1 else 0 }

  /** The five packed blocks, in order. */
  function Elements(pub: AgePublic): seq<int> {
    Pack(BitsLe(DirectionWord(pub.over), 32)) + Pack(BitsLe(BiasForCircuit(pub.cutoffDays), 32))
    + Pack(BytesToBits(pub.rpHash)) + Pack(BytesToBits(pub.issuerVk)) + Pack(BytesToBits(pub.credNullifier))
  }

  method AssemblePublicInputsManual(p: int, pub: AgePublic) returns (r: Result<seq<int>, PublicInputError>)
    requires p > Pow2(CAPACITY)
    ensures r == Ok(Elements(pub))
  {
    var dirBits := BitsLeFromBytes(LeBytes(DirectionWord(pub.over), 4));
    var dirPacked := ComputeMultipacking(p, dirBits);
    var out := dirPacked;
    var cutoffBiased := BiasForCircuit(pub.cutoffDays);
    var cutoffBits := BitsLeFromBytes(LeBytes(cutoffBiased, 4));
    var cutoffPacked := ComputeMultipacking(p, cutoffBits);
    out := out + cutoffPacked;
    LeBytesBits(DirectionWord(pub.over), 4);
    LeBytesBits(cutoffBiased, 4);
    var rpBits := BitsLeFromBytes(pub.rpHash);
    var rpPacked := ComputeMultipacking(p, rpBits);
    out := out + rpPacked;
    var issuerBits := BitsLeFromBytes(pub.issuerVk);
    var issuerPacked := ComputeMultipacking(p, issuerBits);
    out := out + issuerPacked;
    var nullBits := BitsLeFromBytes(pub.credNullifier);
    var nullPacked := ComputeMultipacking(p, nullBits);
    out := out + nullPacked;
    r := if |out| == PUBLIC_INPUTS_LEN then Ok(out) else Err(WrongCount(PUBLIC_INPUTS_LEN, |out|));
    ElementsLayout(pub);
  }

  method AssemblePublicInputsCanonical(p: int, pub: AgePublic) returns (r: Result<seq<int>, PublicInputError>)
    requires p > Pow2(CAPACITY)
    ensures r == Ok(Elements(pub))
  {
    r := AssemblePublicInputsManual(p, pub);
  }

  /** Exactly eight elements, the blocks at fixed places, every one in range. */
  lemma ElementsLayout(pub: AgePublic)
    ensures |Elements(pub)| == PUBLIC_INPUTS_LEN == 8
    ensures Elements(pub)[0] == DirectionWord(pub.over)
    ensures Elements(pub)[1] == BiasForCircuit(pub.cutoffDays)
    ensures Elements(pub)[2..4] == Pack(BytesToBits(pub.rpHash))
    ensures Elements(pub)[4..6] == Pack(BytesToBits(pub.issuerVk))
    ensures Elements(pub)[6..8] == Pack(BytesToBits(pub.credNullifier))
    ensures forall i :: 0 <= i < 8 ==> 0 <= Elements(pub)[i] < Pow2(CAPACITY)
  {
    hide Pack, BytesToBits, BitsLe, Pow2, ValueOf, BiasForCircuit;
    WordBlock(DirectionWord(pub.over));
    WordBlock(BiasForCircuit(pub.cutoffDays));
    BytesBlock(pub.rpHash);
    BytesBlock(pub.issuerVk);
    BytesBlock(pub.credNullifier);
    FiveBlocks([DirectionWord(pub.over) as int], [BiasForCircuit(pub.cutoffDays) as int],
               Pack(BytesToBits(pub.rpHash)), Pack(BytesToBits(pub.issuerVk)),
               Pack(BytesToBits(pub.credNullifier)));
  }

  lemma WordBlock(w: u32)
    ensures Pack(BitsLe(w, 32)) == [w as int] && w < Pow2(CAPACITY)
  {
    Pow2Words();
    PackShort(BitsLe(w, 32));
    ValueOfBits(w, 32);
    Pow2Mono(32, CAPACITY);
  }

  lemma BytesBlock(b: Bytes32)
    ensures |Pack(BytesToBits(b))| == 2
    ensures forall i :: 0 <= i < 2 ==> 0 <= Pack(BytesToBits(b))[i] < Pow2(CAPACITY)
  {
    PackTwo(BytesToBits(b));
    PackRange(BytesToBits(b));
  }

  lemma FiveBlocks(a: seq<int>, b: seq<int>, c: seq<int>, d: seq<int>, e: seq<int>)
    requires |a| == |b| == 1 && |c| == |d| == |e| == 2
    ensures var r := a + b + c + d + e;
      |r| == 8 && [r[0]] == a && [r[1]] == b && r[2..4] == c && r[4..6] == d && r[6..8] == e
      && forall i :: 0 <= i < 8 ==> r[i] == (if i == 0 then a[0] else if i == 1 then b[0]
         else if i < 4 then c[i - 2] else if i < 6 then d[i - 4] else e[i - 6])
  {
  }

  /** Different public values give different vectors. */
  lemma ElementsInjective(u: AgePublic, v: AgePublic)
    requires Elements(u) == Elements(v)
    ensures u == v
  {
    ElementsLayout(u);
    ElementsLayout(v);
    PackInjective(BytesToBits(u.rpHash), BytesToBits(v.rpHash));
    PackInjective(BytesToBits(u.issuerVk), BytesToBits(v.issuerVk));
    PackInjective(BytesToBits(u.credNullifier), BytesToBits(v.credNullifier));
    BytesToBitsInjective(u.rpHash, v.rpHash);
    BytesToBitsInjective(u.issuerVk, v.issuerVk);
    BytesToBitsInjective(u.credNullifier, v.credNullifier);
    BiasMeaning(u.cutoffDays);
    BiasMeaning(v.cutoffDays);
  }
}
