/**
 Entropy checks on commitment randomness and nonces, and the generator
 (crypto-commit/src/lib.rs, crypto-protocol/src/nonce.rs).
 */
module Randomness {
  import opened Wrappers
  import opened Bits
  import opened PublicInputs

  /** The values that occur in a byte string. */
  function Values(bs: seq<byte>): set<byte> { set b | b in bs }

  lemma ValuesSnoc(bs: seq<byte>, i: nat)
    requires i < |bs|
    ensures Values(bs[..i + 1]) == Values(bs[..i]) + {bs[i]}
    ensures |Values(bs[..i + 1])| == |Values(bs[..i])| + if bs[i] in Values(bs[..i]) then 0 else 1
  {
    assert bs[..i + 1] == bs[..i] + [bs[i]];
    if bs[i] in Values(bs[..i]) {
      assert Values(bs[..i + 1]) == Values(bs[..i]);
    }
  }

  /** Counts distinct values with a table of the ones already seen. */
  method CountDistinct(bs: seq<byte>) returns (unique: nat)
    ensures unique == |Values(bs)|
  {
    var seen := new bool[256](_ => false);
    unique := 0;
    assert Values(bs[..0]) == {};
    for i := 0 to |bs|
      invariant forall v: byte :: seen[v] <==> v in Values(bs[..i])
      invariant unique == |Values(bs[..i])|
    {
      ValuesSnoc(bs, i);
      if !seen[bs[i]] {
        seen[bs[i]] := true;
        unique := unique + 1;
      }
    }
    assert bs[..|bs|] == bs;
  }

  /** `has_sufficient_entropy` */
  method HasSufficientEntropy(nonce: Bytes32) returns (ok: bool)
    ensures ok <==> |Values(nonce)| >= 8
  {
    var uniq := CountDistinct(nonce);
    ok := uniq >= 8;
  }

  /** The non-zero test is implied by the entropy test: only the latter decides. */
  method ValidateNonce(nonce: Bytes32) returns (ok: bool)
    ensures ok <==> |Values(nonce)| >= 8
  {
    var nonZero := false;
    for i := 0 to |nonce|
      invariant nonZero <==> exists j :: 0 <= j < i && nonce[j] != 0
    {
      nonZero := nonZero || nonce[i] != 0;
    }
    var entropy := HasSufficientEntropy(nonce);
    ok := nonZero && entropy;
    if !nonZero {
      ZerosHaveOneValue(nonce);
    }
  }

  lemma ZerosHaveOneValue(bs: seq<byte>)
    requires forall j :: 0 <= j < |bs| ==> bs[j] == 0
    ensures |Values(bs)| <= 1
  {
    SubsetCard(Values(bs), {0});
  }

  lemma SubsetCard<T>(a: set<T>, b: set<T>)
    requires a <= b
    ensures |a| <= |b|
  {
    assert b == a + (b - a);
  }

  // --------------------------------------------- bits packed into bytes

  function ChunkEnd(bits: seq<bool>): (n: nat)
    ensures n <= |bits| && (bits != [] ==> 0 < n <= 8)
  {
    if |bits| < 8 then |bits| else 8
  }

  /** Eight bits to a byte, least significant first; the last byte may be short. */
  function PackBytes(bits: seq<bool>): (r: seq<byte>)
  {
    if bits == [] then [] else
      var m := ChunkEnd(bits);
      ChunkIsByte(bits[..m]);
      [ValueOf(bits[..m])] + PackBytes(bits[m..])
  }

  lemma ChunkIsByte(chunk: seq<bool>)
    requires |chunk| <= 8
    ensures ValueOf(chunk) < 256
  {
    ValueBound(chunk);
    Pow2Mono(|chunk|, 8);
    Pow2Byte();
  }

  /** `byte | (1 << i)` */
  function OrBit(v: nat, i: nat): nat { if BitAt(v, i) then v else v + Pow2(i) }

  method PackChunk(chunk: seq<bool>) returns (v: byte)
    requires |chunk| <= 8
    ensures v == ValueOf(chunk)
  {
    var acc: nat := 0;
    for i := 0 to |chunk|
      invariant acc == ValueOf(chunk[..i])
    {
      assert chunk[..i + 1] == chunk[..i] + [chunk[i]];
      ValueSnoc(chunk[..i], chunk[i]);
      HighBitClear(chunk[..i]);
      if chunk[i] {
        acc := OrBit(acc, i);
      }
    }
    assert chunk[..|chunk|] == chunk;
    ChunkIsByte(chunk);
    v := acc;
  }

  lemma {:induction false} HighBitClear(s: seq<bool>)
    ensures !BitAt(ValueOf(s), |s|)
  {
    if s == [] {
    } else {
      HighBitClear(s[1..]);
      assert ValueOf(s) / 2 == ValueOf(s[1..]);
    }
  }

  /** Accepts exactly when there are at least 32 bits and 8 distinct packed bytes. */
  method ValidateCommitmentRandomness(rBits: seq<bool>) returns (r: Result<(), Error>)
    ensures r == if SufficientRandomness(rBits) then Ok(()) else Err(InvalidInput)
  {
    if |rBits| < 32 {
      return Err(InvalidInput);
    }
    var bytes: seq<byte> := [];
    var rest := rBits;
    while rest != []
      invariant bytes + PackBytes(rest) == PackBytes(rBits)
      decreases |rest|
    {
      var m := ChunkEnd(rest);
      var b := PackChunk(rest[..m]);
      AppendAssoc(bytes, [b], PackBytes(rest[m..]));
      bytes := bytes + [b];
      rest := rest[m..];
    }
    assert bytes == bytes + PackBytes([]) == PackBytes(rBits);
    var unique := CountDistinct(bytes);
    r := if unique >= 8 then Ok(()) else Err(InvalidInput);
  }

  predicate SufficientRandomness(rBits: seq<bool>) {
    |rBits| >= 32 && |Values(PackBytes(rBits))| >= 8
  }

  /** The generator's bits, for the bytes the random source delivered. */
  method GenerateCommitmentRandomness(buf: seq<byte>, numBits: nat) returns (bits: seq<bool>)
    requires |buf| == (numBits + 7) / 8
    ensures bits == BytesToBits(buf)[..numBits]
  {
    bits := [];
    for i := 0 to numBits
      invariant bits == BytesToBits(buf)[..i]
    {
      ByteBitAt(buf, i);
      bits := bits + [BitAt(buf[i / 8], i % 8)];
    }
  }

  lemma {:induction false} ByteBitAt(bs: seq<byte>, i: nat)
    requires i < 8 * |bs|
    ensures BytesToBits(bs)[i] == BitAt(bs[i / 8], i % 8)
  {
    if i < 8 {
      BitsLeAt(bs[0], 8, i);
    } else {
      ByteBitAt(bs[1..], i - 8);
    }
  }

  /**
   Packing the generated bits again gives back the random bytes, the last one
   cut to the bits that were used.
   */
  lemma {:induction false} RepackRandomness(buf: seq<byte>, numBits: nat)
    requires |buf| == (numBits + 7) / 8
    ensures var m := |buf| - 1;
      PackBytes(BytesToBits(buf)[..numBits]) ==
      if numBits == 0 then [] else buf[..m] + [buf[m] % Pow2(numBits - 8 * m)]
    decreases numBits
  {
    hide PackBytes, BitsLe, Pow2;
    var s := BytesToBits(buf)[..numBits];
    if numBits == 0 {
      assert s == [] && PackBytes([]) == [] by { NothingPacked(); }
    } else if numBits <= 8 {
      assert s == BitsLe(buf[0], 8)[..numBits];
      LastByte(buf[0], numBits, s);
    } else {
      var tail := buf[1..];
      RepackRandomness(tail, numBits - 8);
      assert s[..8] == BitsLe(buf[0], 8) && s[8..] == BytesToBits(tail)[..numBits - 8];
      WholeByte(buf[0], s);
      var m := |tail| - 1;
      assert [buf[0]] + (tail[..m] + [tail[m] % Pow2(numBits - 8 - 8 * m)])
          == buf[..m + 1] + [buf[m + 1] % Pow2(numBits - 8 - 8 * m)];
    }
  }

  lemma NothingPacked()
    ensures PackBytes([]) == []
  {
  }

  lemma LastByte(b: byte, n: nat, s: seq<bool>)
    requires 0 < n <= 8 && s == BitsLe(b, 8)[..n]
    ensures PackBytes(s) == [b % Pow2(n)]
  {
    BitsLeSplit(b, n, 8 - n);
    assert s == BitsLe(b, n);
    BitsLeMod(b, n);
    ValueOfBits(b % Pow2(n), n);
    assert s[..n] == s && s[n..] == [];
  }

  lemma WholeByte(b: byte, s: seq<bool>)
    requires |s| > 8 && s[..8] == BitsLe(b, 8)
    ensures PackBytes(s) == [b] + PackBytes(s[8..])
  {
    Pow2Byte();
    ValueOfBits(b, 8);
  }
}
