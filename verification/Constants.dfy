/** Domain separation tags and the sign bias (crypto-commons/src/constants.rs). */
module Constants {
  import opened Bits

  function Ascii(s: string): (r: seq<byte>)
    requires forall i :: 0 <= i < |s| ==> s[i] < 128 as char
    ensures |r| == |s|
  {
    seq(|s|, i requires 0 <= i < |s| => s[i] as int)
  }

  const CRED_DST: seq<byte> := Ascii("provii.cred.v0")
  const NULLIFIER_DST: seq<byte> := Ascii("provii.nullifier.pedersen.v0")
  const ISSUANCE_CONSENT_DST: seq<byte> := Ascii("provii:issuance-consent:v0")
  const DOB_ATTESTATION_DST: seq<byte> := Ascii("provii.attestation.dob.v0")
  const REDJUBJUB_PERSONALIZATION: seq<byte> := Ascii("ProviiRJ")
  const REDJUBJUB_NONCE_TAG: seq<byte> := Ascii("ProviiRJ/nonce")

  const SIGN_BIAS: u32 := 0x8000_0000

  /** `from_ne_bytes(to_ne_bytes)`: the two's complement bit pattern. */
  function ReinterpretAsU32(x: i32): u32 { if x < 0 then x + 0x1_0000_0000 else x }
  function ReinterpretAsI32(x: u32): i32 { if x < 0x8000_0000 then x else x - 0x1_0000_0000 }

  function XorBits(s: seq<bool>, t: seq<bool>): (r: seq<bool>)
    requires |s| == |t|
    ensures |r| == |s| && forall i :: 0 <= i < |s| ==> r[i] == (s[i] != t[i])
  {
    seq(|s|, i requires 0 <= i < |s| => s[i] != t[i])
  }

  function Xor32(x: u32, y: u32): u32 {
    var r := XorBits(BitsLe(x, 32), BitsLe(y, 32));
    ValueBound(r);
    Pow2Words();
    ValueOf(r)
  }

  function BiasForCircuit(days: i32): u32 { Xor32(ReinterpretAsU32(days), SIGN_BIAS) }

  function UnbiasFromCircuit(biased: u32): i32 { ReinterpretAsI32(Xor32(biased, SIGN_BIAS)) }

  lemma {:induction false} BitsOfPow2(n: nat)
    ensures BitsLe(Pow2(n), n + 1) == seq(n, _ => false) + [true]
  {
    if n == 0 {
      assert BitsLe(1, 1) == [true] + BitsLe(0, 0);
    } else {
      BitsOfPow2(n - 1);
      assert BitsLe(Pow2(n), n + 1) == [false] + BitsLe(Pow2(n - 1), n);
    }
  }

  /** Only the top bit changes. */
  lemma XorTop(x: u32)
    ensures Xor32(x, SIGN_BIAS) == ValueOf(BitsLe(x, 31) + [!BitAt(x, 31)])
  {
    hide ValueOf, BitsLe, BitAt;
    Pow2Words();
    var low, top := BitsLe(x, 31), BitAt(x, 31);
    BitsLeSnoc(x, 31);
    BitsOfPow2(31);
    assert XorBits(BitsLe(x, 32), BitsLe(SIGN_BIAS, 32)) == low + [!top];
  }

  lemma BitIs(b: bool)
    ensures Bit(b) == if b then 1 else 0
  {
  }

  /** Flipping the sign bit moves a word by half the range. */
  lemma XorSignBit(x: u32)
    ensures Xor32(x, SIGN_BIAS) == if x < 0x8000_0000 then x + 0x8000_0000 else x - 0x8000_0000
  {
    hide *;
    Pow2Words();
    var low, top := BitsLe(x, 31), BitAt(x, 31);
    XorTop(x);
    ValueSnoc(low, top);
    ValueSnoc(low, !top);
    ValueBound(low);
    BitsLeSnoc(x, 31);
    ValueOfBits(x, 32);
    BitIs(top);
    BitIs(!top);
  }

  /** The bias adds 2^31. */
  lemma BiasMeaning(days: i32)
    ensures BiasForCircuit(days) == days + 0x8000_0000
  {
    XorSignBit(ReinterpretAsU32(days));
  }

  lemma UnbiasMeaning(biased: u32)
    ensures UnbiasFromCircuit(biased) == biased - 0x8000_0000
  {
    XorSignBit(biased);
  }

  /** An order isomorphism from i32 onto u32, undone by `unbias_from_circuit`. */
  lemma BiasIsOrderIsomorphism(x: i32, y: i32, u: u32)
    ensures x <= y <==> BiasForCircuit(x) <= BiasForCircuit(y)
    ensures UnbiasFromCircuit(BiasForCircuit(x)) == x
    ensures BiasForCircuit(UnbiasFromCircuit(u)) == u
  {
    BiasMeaning(x);
    BiasMeaning(y);
    UnbiasMeaning(BiasForCircuit(x));
    UnbiasMeaning(u);
    BiasMeaning(UnbiasFromCircuit(u));
  }
}
