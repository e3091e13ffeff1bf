/**
 Commitment and nullifier on the host (crypto-commit/src/lib.rs). The Pedersen
 and Blake2s hashes are parameters; what is modelled is the bits they receive.
 */
module Commit {
  import opened Wrappers
  import opened Bits
  import opened Constants
  import opened PublicInputs
  import opened Randomness

  datatype Personalization = NoteCommitment | MerkleTree(depth: nat)

  /** The hash functions of the libraries; a Pedersen hash is the compressed point. */
  datatype Hashes = Hashes(pedersen: (Personalization, seq<bool>) -> Bytes32,
                           blake2s: seq<byte> -> Bytes32)

  const MIN_PEDERSEN_RANDOMNESS_BITS: nat := 128
  const MAX_PEDERSEN_RANDOMNESS_BITS: nat := 1096

  /** The Pedersen input for a date of birth. */
  function CommitBits(dobDays: i32, rBits: seq<bool>): seq<bool> {
    BitsLe(BiasForCircuit(dobDays), 32) + rBits
  }

  function Commitment(h: Hashes, dobDays: i32, rBits: seq<bool>): Bytes32 {
    h.pedersen(NoteCommitment, CommitBits(dobDays, rBits))
  }

  /** The Pedersen input for a nullifier. */
  function NullifierBits(c: seq<byte>): seq<bool> {
    BytesToBits(NULLIFIER_DST) + BytesToBits(c)
  }

  function Nullifier(h: Hashes, c: Bytes32): Bytes32 {
    h.pedersen(MerkleTree(0), NullifierBits(c))
  }

  /** The 32 low bits of a word, by shifting it down. */
  method ShiftOutBits(biased: u32) returns (out: seq<bool>)
    ensures out == BitsLe(biased, 32)
  {
    out := [];
    var value: nat := biased;
    for i := 0 to 32
      invariant out == BitsLe(biased, i) && value == Shr(biased, i)
    {
      BitsLeSnoc(biased, i);
      ShrShr(biased, i, 1);
      out := out + [value % 2 != 0];
      value := value / 2;
    }
  }

  method PedersenCommitDobValidated(h: Hashes, dobDays: i32, rBits: seq<bool>) returns (r: Result<Bytes32, Error>)
    ensures r == if 128 <= |rBits| <= 1096 && |Values(PackBytes(rBits))| >= 8
                 then Ok(Commitment(h, dobDays, rBits)) else Err(InvalidInput)
  {
    var valid := ValidateCommitmentRandomness(rBits);
    if valid.Err? {
      return Err(valid.error);
    }
    if |rBits| < MIN_PEDERSEN_RANDOMNESS_BITS {
      return Err(InvalidInput);
    }
    if |rBits| > MAX_PEDERSEN_RANDOMNESS_BITS {
      return Err(InvalidInput);
    }
    var dobBits := ShiftOutBits(BiasForCircuit(dobDays));
    r := Ok(h.pedersen(NoteCommitment, dobBits + rBits));
  }

  method PedersenNullifier(h: Hashes, c: Bytes32) returns (r: Bytes32)
    ensures r == Nullifier(h, c)
  {
    var tag := BitsLeFromBytes(NULLIFIER_DST);
    var bits := BitsLeFromBytes(c);
    r := h.pedersen(MerkleTree(0), tag + bits);
  }

  /** The first 32 bits are the date moved by 2^31, least significant first; the rest is the randomness. */
  lemma CommitBitsMeaning(d: i32, r: seq<bool>)
    ensures |CommitBits(d, r)| == 32 + |r|
    ensures ValueOf(CommitBits(d, r)[..32]) == d + 0x8000_0000 && CommitBits(d, r)[32..] == r
  {
    var x := CommitBits(d, r);
    assert x[..32] == BitsLe(BiasForCircuit(d), 32) && x[32..] == r;
    Pow2Words();
    ValueOfBits(BiasForCircuit(d), 32);
    BiasMeaning(d);
  }

  /** The bits of the nullifier's input are those of the tag's bytes followed by the commitment's. */
  lemma NullifierBitsMeaning(c: seq<byte>)
    ensures |NullifierBits(c)| == 8 * (28 + |c|) && BitsToBytes(NullifierBits(c)) == NULLIFIER_DST + c
  {
    BytesToBitsConcat(NULLIFIER_DST, c);
    BytesBitsBytes(NULLIFIER_DST + c);
  }

  /** Different arguments reach the hash as different inputs. */
  lemma CommitBitsInjective(d: i32, r: seq<bool>, e: i32, s: seq<bool>)
    requires CommitBits(d, r) == CommitBits(e, s)
    ensures d == e && r == s
  {
    hide CommitBits;
    CommitBitsMeaning(d, r);
    CommitBitsMeaning(e, s);
  }
}
