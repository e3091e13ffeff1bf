/**
 The Schnorr-style scheme of crypto-sig-redjubjub: signing and verification of
 credentials in the prime-order subgroup of a curve whose points have canonical
 32-byte encodings. The hash functions are parameters.
 */
module RedJubjub {
  import opened Wrappers
  import opened Bits
  import opened PrimeField
  import opened Groups
  import opened Constants
  import opened PublicInputs
  import opened Transcript

  datatype SigError = InvalidSignatureBytes | InvalidVerificationKeyBytes | InvalidSigningKeyBytes
                    | VerificationFailed | FieldTooLong | InvalidNonce

  /**
   All points of the curve with their encoding, a generator of the subgroup of
   prime order, and plain and personalised Blake2s.
   */
  datatype Scheme<!P> = Scheme(group: Group<P>, generator: P, order: nat,
                               encode: P -> Bytes32, decode: Bytes32 -> Option<P>,
                               blake2s: seq<byte> -> Bytes32, personalBlake2s: (seq<byte>, seq<byte>) -> Bytes32)

  ghost predicate IsMultiple<P>(c: Scheme<P>, x: P) {
    exists k: nat :: x == Times(c.group, k, c.generator)
  }

  /** The test for the subgroup: the order times the point is neutral. */
  predicate InSubgroup<P(==)>(c: Scheme<P>, x: P) { Times(c.group, c.order, x) == c.group.zero }

  ghost predicate Proper<P(!new)>(c: Scheme<P>) {
    && Abelian(c.group) && IsPrime(c.order) && 2 < c.order < Pow2(256)
    && HasOrder(c.group, c.generator, c.order)
    && (forall x :: InSubgroup(c, x) ==> IsMultiple(c, x))
    && (forall x :: c.decode(c.encode(x)) == Some(x))
    && (forall b: Bytes32 :: c.decode(b).Some? ==> c.encode(c.decode(b).value) == b)
  }

  lemma MultipleInSubgroup<P(!new)>(c: Scheme<P>, k: nat)
    requires Proper(c)
    ensures InSubgroup(c, Times(c.group, k, c.generator))
  {
    hide Abelian, HasOrder, Times, IsPrime;
    TimesMul(c.group, c.order, k, c.generator);
    MultipleDivides(c.order, k);
    OrderAt(c.group, c.generator, c.order, c.order * k);
  }

  datatype Signature<!P> = Signature(r: P, s: nat)

  // ------------------------------------------------------------ scalars

  /** A canonical scalar; anything from the order up is refused. */
  function ScalarFromBytes(order: nat, b: Bytes32): Option<nat> {
    if FromLe(b) < order then Some(FromLe(b)) else None
  }

  /** 64 little-endian bytes reduced modulo the order; the source pads a digest with zeros. */
  function ScalarFromDigest(order: nat, digest: Bytes32): nat
    requires order > 0
  {
    FromLe(digest + seq(32, _ => 0)) % order
  }

  lemma ScalarRoundTrip(order: nat, s: nat)
    requires s < order < Pow2(256)
    ensures ScalarFromBytes(order, LeBytes(s, 32)) == Some(s)
  {
    FromLeOf(s, 32);
  }

  lemma ScalarCanonical(order: nat, b: Bytes32)
    ensures ScalarFromBytes(order, b).Some? ==> LeBytes(ScalarFromBytes(order, b).value, 32) == b
  {
    LeOfFrom(b);
  }

  // ------------------------------------------------- keys and signatures

  function SigningKeyFromBytes<P>(c: Scheme<P>, b: Bytes32): Result<nat, SigError> {
    match ScalarFromBytes(c.order, b)
    case None => Err(InvalidSigningKeyBytes)
    case Some(k) => if k == 0 then Err(InvalidSigningKeyBytes) else Ok(k)
  }

  function VerificationKey<P>(c: Scheme<P>, sk: nat): P { Times(c.group, sk, c.generator) }

  /** A point of the subgroup. */
  function SubgroupFromBytes<P(==)>(c: Scheme<P>, b: Bytes32): Option<P> {
    match c.decode(b)
    case None => None
    case Some(x) => if InSubgroup(c, x) then Some(x) else None
  }

  function VerificationKeyFromBytes<P(==)>(c: Scheme<P>, b: Bytes32): Result<P, SigError> {
    match SubgroupFromBytes(c, b)
    case None => Err(InvalidVerificationKeyBytes)
    case Some(x) => if x == c.group.zero then Err(InvalidVerificationKeyBytes) else Ok(x)
  }

  function SignatureToBytes<P>(c: Scheme<P>, sig: Signature<P>): Bytes64 {
    c.encode(sig.r) + LeBytes(sig.s, 32)
  }

  function SignatureFromBytes<P(==)>(c: Scheme<P>, b: Bytes64): Result<Signature<P>, SigError> {
    match SubgroupFromBytes(c, b[..32])
    case None => Err(InvalidSignatureBytes)
    case Some(r) =>
      if r == c.group.zero then Err(InvalidSignatureBytes)
      else match ScalarFromBytes(c.order, b[32..])
        case None => Err(InvalidSignatureBytes)
        case Some(s) => if s == 0 then Err(InvalidSignatureBytes) else Ok(Signature(r, s))
  }

  // ------------------------------------------------- sign and verify a hash

  function NonceFrom<P>(c: Scheme<P>, sk: nat, hash: Bytes32): nat
    requires c.order > 0
  {
    ScalarFromDigest(c.order, c.blake2s(REDJUBJUB_NONCE_TAG + LeBytes(sk, 32) + hash))
  }

  function HashChallenge<P>(c: Scheme<P>, r: Bytes32, vk: Bytes32, hash: Bytes32): nat
    requires c.order > 0
  {
    ScalarFromDigest(c.order, c.personalBlake2s(REDJUBJUB_PERSONALIZATION, r + vk + hash))
  }

  function SignHash<P>(c: Scheme<P>, hash: Bytes32, sk: nat): Result<Signature<P>, SigError>
    requires c.order > 0
  {
    var nonce := NonceFrom(c, sk, hash);
    if nonce == 0 then Err(InvalidNonce)
    else
      var r := Times(c.group, nonce, c.generator);
      var vk := Times(c.group, sk, c.generator);
      var e := HashChallenge(c, c.encode(r), c.encode(vk), hash);
      Ok(Signature(r, (nonce + e * sk) % c.order))
  }

  // What the two hashes read: with a hash function that returns one part of its
  // input, or that recognises its tag, the scalar is that part.

  /** The 32 bytes that start k from the end. */
  function FromEnd(b: seq<byte>, k: nat): Bytes32
    requires k >= 32
  {
    if |b| >= k then b[|b| - k..|b| - k + 32] else seq(32, _ => 0)
  }

  function Flag(b: bool): Bytes32 { LeBytes(if b then 1 else 0, 32) }

  lemma ScalarOfDigest(order: nat, digest: Bytes32)
    requires order > 0
    ensures ScalarFromDigest(order, digest) == FromLe(digest) % order
  {
    FromLePadded(digest, 32);
  }

  lemma FlagValue(b: bool)
    ensures FromLe(Flag(b)) == if b then 1 else 0
  {
    Pow2Byte();
    Pow2Mono(8, 256);
    FromLeOf(if b then 1 else 0, 32);
  }

  /** The nonce is made of the tag, the key and the hash of the message, in this order and of nothing else. */
  lemma NonceReads<P>(c: Scheme<P>, sk: nat, hash: Bytes32)
    requires c.order > 0 && sk < Pow2(256)
    ensures NonceFrom(c.(blake2s := b => FromEnd(b, 32)), sk, hash) == FromLe(hash) % c.order
    ensures NonceFrom(c.(blake2s := b => FromEnd(b, 64)), sk, hash) == sk % c.order
    ensures NonceFrom(c.(blake2s := b => Flag(|b| == |REDJUBJUB_NONCE_TAG| + 64 && REDJUBJUB_NONCE_TAG <= b)), sk, hash)
            == 1 % c.order
  {
    hide FromLe, LeBytes, Pow2, ScalarFromDigest, Flag;
    var key, b := LeBytes(sk, 32), REDJUBJUB_NONCE_TAG + LeBytes(sk, 32) + hash;
    assert FromEnd(b, 32) == hash && FromEnd(b, 64) == key;
    FromLeOf(sk, 32);
    ScalarOfDigest(c.order, hash);
    ScalarOfDigest(c.order, key);
    ScalarOfDigest(c.order, Flag(true));
    FlagValue(true);
  }

  /** The challenge is made of R, the key and the hash of the message, under the personalisation. */
  lemma ChallengeReads<P>(c: Scheme<P>, r: Bytes32, vk: Bytes32, hash: Bytes32)
    requires c.order > 0
    ensures HashChallenge(c.(personalBlake2s := (t, b) => FromEnd(b, 32)), r, vk, hash) == FromLe(hash) % c.order
    ensures HashChallenge(c.(personalBlake2s := (t, b) => FromEnd(b, 64)), r, vk, hash) == FromLe(vk) % c.order
    ensures HashChallenge(c.(personalBlake2s := (t, b) => FromEnd(b, 96)), r, vk, hash) == FromLe(r) % c.order
    ensures HashChallenge(c.(personalBlake2s := (t, b) => Flag(|b| == 96 && t == REDJUBJUB_PERSONALIZATION)), r, vk,
                          hash)
            == 1 % c.order
  {
    hide FromLe, LeBytes, Pow2, ScalarFromDigest, Flag;
    var b := r + vk + hash;
    assert FromEnd(b, 32) == hash && FromEnd(b, 64) == vk && FromEnd(b, 96) == r;
    ScalarOfDigest(c.order, hash);
    ScalarOfDigest(c.order, vk);
    ScalarOfDigest(c.order, r);
    ScalarOfDigest(c.order, Flag(true));
    FlagValue(true);
  }

  /** The group equation s * G == R + e * VK, compared by encodings as the source does. */
  predicate VerifyHash<P>(c: Scheme<P>, hash: Bytes32, sig: Signature<P>, vk: P)
    requires c.order > 0
  {
    var e := HashChallenge(c, c.encode(sig.r), c.encode(vk), hash);
    c.encode(Times(c.group, sig.s, c.generator)) == c.encode(c.group.add(sig.r, Times(c.group, e, vk)))
  }

  /** What the verifier decides about a key, a signature and a message hash. */
  predicate HostAccepts<P(==)>(c: Scheme<P>, vk: Bytes32, sig: Bytes64, hash: Bytes32)
    requires c.order > 0
  {
    var v, s := VerificationKeyFromBytes(c, vk), SignatureFromBytes(c, sig);
    v.Ok? && s.Ok? && VerifyHash(c, hash, s.value, v.value)
  }

  // ------------------------------------------------------- credentials

  method SignCredV2<P>(c: Scheme<P>, m: CredMsg, signingKey: Bytes32) returns (r: Result<Bytes64, SigError>)
    requires c.order > 0
    ensures r == Signed(c, m, signingKey)
    ensures r == Err(InvalidSigningKeyBytes) <==> !(0 < FromLe(signingKey) < c.order)
    ensures r == Err(SigError.FieldTooLong) <==> 0 < FromLe(signingKey) < c.order && !Fits(m)
    ensures r == Err(InvalidNonce) <==>
            0 < FromLe(signingKey) < c.order && Fits(m) && NonceFrom(c, FromLe(signingKey), c.blake2s(Encode(m))) == 0
    ensures r.Ok? ==>
      var sk, hash := FromLe(signingKey), c.blake2s(Encode(m));
      var nonce := NonceFrom(c, sk, hash);
      var e := HashChallenge(c, r.value[..32], c.encode(VerificationKey(c, sk)), hash);
      && 0 < nonce && r.value[..32] == c.encode(Times(c.group, nonce, c.generator))
      && r.value[32..] == LeBytes((nonce + e * sk) % c.order, 32)
  {
    hide FromLe, Encode, NonceFrom, HashChallenge, Times, LeBytes, Pow2;
    var key := SigningKeyFromBytes(c, signingKey);
    if key.Err? { return Err(key.error); }
    var prehash := CredV2PrehashBytes(m);
    if prehash.Err? { return Err(SigError.FieldTooLong); }
    var hash := c.blake2s(prehash.value);
    var sig := SignHash(c, hash, key.value);
    if sig.Err? { return Err(sig.error); }
    r := Ok(SignatureToBytes(c, sig.value));
  }

  function Signed<P>(c: Scheme<P>, m: CredMsg, signingKey: Bytes32): Result<Bytes64, SigError>
    requires c.order > 0
  {
    var key := SigningKeyFromBytes(c, signingKey);
    if key.Err? then Err(key.error)
    else if !Fits(m) then Err(SigError.FieldTooLong)
    else
      var sig := SignHash(c, c.blake2s(Encode(m)), key.value);
      if sig.Err? then Err(sig.error) else Ok(SignatureToBytes(c, sig.value))
  }

  method VerifyCredV2<P(==)>(c: Scheme<P>, m: CredMsg, signature: Bytes64, verificationKey: Bytes32)
    returns (r: Result<(), SigError>)
    requires c.order > 0
    ensures r == Verified(c, m, signature, verificationKey)
    ensures r.Ok? <==> Fits(m) && HostAccepts(c, verificationKey, signature, c.blake2s(Encode(m)))
    ensures r == Err(InvalidVerificationKeyBytes) <==> VerificationKeyFromBytes(c, verificationKey).Err?
    ensures r == Err(InvalidSignatureBytes) <==>
            VerificationKeyFromBytes(c, verificationKey).Ok? && SignatureFromBytes(c, signature).Err?
    ensures r == Err(SigError.FieldTooLong) <==>
            VerificationKeyFromBytes(c, verificationKey).Ok? && SignatureFromBytes(c, signature).Ok? && !Fits(m)
    ensures r == Err(VerificationFailed) ==>
            Fits(m) && !HostAccepts(c, verificationKey, signature, c.blake2s(Encode(m)))
  {
    var vk := VerificationKeyFromBytes(c, verificationKey);
    if vk.Err? { return Err(vk.error); }
    var sig := SignatureFromBytes(c, signature);
    if sig.Err? { return Err(sig.error); }
    var prehash := CredV2PrehashBytes(m);
    if prehash.Err? { return Err(SigError.FieldTooLong); }
    var hash := c.blake2s(prehash.value);
    r := if VerifyHash(c, hash, sig.value, vk.value) then Ok(()) else Err(VerificationFailed);
  }

  function Verified<P(==)>(c: Scheme<P>, m: CredMsg, signature: Bytes64, verificationKey: Bytes32): Result<(), SigError>
    requires c.order > 0
  {
    var vk := VerificationKeyFromBytes(c, verificationKey);
    var sig := SignatureFromBytes(c, signature);
    if vk.Err? then Err(vk.error)
    else if sig.Err? then Err(sig.error)
    else if !Fits(m) then Err(SigError.FieldTooLong)
    else if VerifyHash(c, c.blake2s(Encode(m)), sig.value, vk.value) then Ok(()) else Err(VerificationFailed)
  }

  // -------------------------------------------------------------- proofs

  lemma EncodeEqual<P(!new)>(c: Scheme<P>, x: P, y: P)
    requires Proper(c)
    ensures c.encode(x) == c.encode(y) <==> x == y
  {
    assert c.decode(c.encode(x)) == Some(x) && c.decode(c.encode(y)) == Some(y);
  }

  /** Multiples of the generator satisfy the equation exactly when their factors do. */
  lemma EquationOnFactors<P(!new)>(c: Scheme<P>, s: nat, k: nat, e: nat, sk: nat)
    requires Proper(c)
    ensures
      Times(c.group, s, c.generator) ==
        c.group.add(Times(c.group, k, c.generator), Times(c.group, e, VerificationKey(c, sk)))
      <==> Congruent(c.order, s, k + e * sk)
  {
    hide Proper, Abelian, HasOrder, Times, IsPrime, Congruent;
    assert Times(c.group, e, VerificationKey(c, sk)) == Times(c.group, e * sk, c.generator) by {
      ProperGroup(c);
      TimesMul(c.group, e, sk, c.generator);
    }
    EquationOnSum(c, s, k, e * sk);
  }

  lemma EquationOnSum<P(!new)>(c: Scheme<P>, s: nat, k: nat, t: nat)
    requires Proper(c)
    ensures
      Times(c.group, s, c.generator) == c.group.add(Times(c.group, k, c.generator), Times(c.group, t, c.generator))
      <==> Congruent(c.order, s, k + t)
  {
    hide Proper;
    ProperGroup(c);
    hide Abelian, HasOrder;
    TimesAdd(c.group, k, t, c.generator);
    TimesEqual(c.group, c.generator, c.order, s, k + t);
  }

  lemma ProperGroup<P(!new)>(c: Scheme<P>)
    requires Proper(c)
    ensures Abelian(c.group) && HasOrder(c.group, c.generator, c.order) && IsPrime(c.order)
  {
  }

  /** The signature made by `SignHash` satisfies the equation under the derived key. */
  lemma SignedHashVerifies<P(!new)>(c: Scheme<P>, hash: Bytes32, sk: nat)
    requires Proper(c) && SignHash(c, hash, sk).Ok?
    ensures VerifyHash(c, hash, SignHash(c, hash, sk).value, VerificationKey(c, sk))
    ensures SignHash(c, hash, sk).value.s < c.order
    ensures SignHash(c, hash, sk).value.r != c.group.zero
  {
    hide Abelian, IsPrime, Pow2, Times, HashChallenge;
    var nonce, sig, vk := NonceFrom(c, sk, hash), SignHash(c, hash, sk).value, VerificationKey(c, sk);
    var e := HashChallenge(c, c.encode(sig.r), c.encode(vk), hash);
    ModCongruent(c.order, nonce + e * sk);
    EquationOnFactors(c, sig.s, nonce, e, sk);
    OrderAt(c.group, c.generator, c.order, nonce);
    if Divides(c.order, nonce) { SmallZero(c.order, nonce); }
  }

  /** The bytes of a parsed signature, and the parse of a signature's bytes. */
  lemma SignatureRoundTrip<P(!new)>(c: Scheme<P>, sig: Signature<P>)
    requires Proper(c) && sig.s < c.order && InSubgroup(c, sig.r)
    ensures SignatureFromBytes(c, SignatureToBytes(c, sig)) ==
            if sig.r == c.group.zero || sig.s == 0 then Err(InvalidSignatureBytes) else Ok(sig)
  {
    hide Abelian, IsPrime, HasOrder, Pow2, LeBytes;
    var b := SignatureToBytes(c, sig);
    assert b[..32] == c.encode(sig.r) && b[32..] == LeBytes(sig.s, 32);
    ScalarRoundTrip(c.order, sig.s);
  }

  /** Only one byte string parses as a given signature. */
  lemma SignatureCanonical<P(!new)>(c: Scheme<P>, b: Bytes64)
    requires Proper(c) && SignatureFromBytes(c, b).Ok?
    ensures SignatureToBytes(c, SignatureFromBytes(c, b).value) == b
  {
    hide Abelian, IsPrime, HasOrder, Pow2, LeBytes;
    ScalarCanonical(c.order, b[32..]);
    assert b == b[..32] + b[32..];
  }

  lemma DerivedKeyParses<P(!new)>(c: Scheme<P>, sk: nat)
    requires Proper(c) && 0 < sk < c.order
    ensures VerificationKeyFromBytes(c, c.encode(VerificationKey(c, sk))) == Ok(VerificationKey(c, sk))
  {
    hide Abelian, IsPrime, Pow2, Times;
    MultipleInSubgroup(c, sk);
    OrderAt(c.group, c.generator, c.order, sk);
    if Divides(c.order, sk) { SmallZero(c.order, sk); }
  }

  /**
   Signing, then verifying under the derived key. With a valid key and a
   message that fits, signing fails only with `InvalidNonce`, exactly when the
   derived nonce is zero; otherwise the 64 bytes are accepted exactly when the
   scalar they carry is not zero, and a zero scalar is refused as malformed.
   */
  lemma SignThenVerify<P(!new)>(c: Scheme<P>, m: CredMsg, signingKey: Bytes32)
    requires Proper(c) && SigningKeyFromBytes(c, signingKey).Ok? && Fits(m)
    ensures var sk := SigningKeyFromBytes(c, signingKey).value;
      var hash := c.blake2s(Encode(m));
      var vk := VerificationKey(c, sk);
      var nonce := NonceFrom(c, sk, hash);
      var e := HashChallenge(c, c.encode(Times(c.group, nonce, c.generator)), c.encode(vk), hash);
      var signed := Signed(c, m, signingKey);
      if nonce == 0 then signed == Err(InvalidNonce)
      else signed.Ok? && Verified(c, m, signed.value, c.encode(vk)) ==
           if (nonce + e * sk) % c.order == 0 then Err(InvalidSignatureBytes) else Ok(())
  {
    hide Abelian, IsPrime, HasOrder, Pow2, Times, HashChallenge, NonceFrom, Encode, VerifyHash;
    var sk := SigningKeyFromBytes(c, signingKey).value;
    var hash := c.blake2s(Encode(m));
    DerivedKeyParses(c, sk);
    if NonceFrom(c, sk, hash) != 0 {
      SignedHashVerifies(c, hash, sk);
      MultipleInSubgroup(c, NonceFrom(c, sk, hash));
      SignatureRoundTrip(c, SignHash(c, hash, sk).value);
    }
  }

  /** Which scalars satisfy the check, when R and the key are k and sk times the generator. */
  lemma AcceptedScalars<P(!new)>(c: Scheme<P>, hash: Bytes32, k: nat, sk: nat, s: nat)
    requires Proper(c)
    ensures var r, vk := Times(c.group, k, c.generator), VerificationKey(c, sk);
      VerifyHash(c, hash, Signature(r, s), vk) <==>
      Congruent(c.order, s, k + HashChallenge(c, c.encode(r), c.encode(vk), hash) * sk)
  {
    hide Proper, HashChallenge, Times, IsPrime, Abelian, HasOrder;
    ProperGroup(c);
    var r, vk := Times(c.group, k, c.generator), VerificationKey(c, sk);
    var e := HashChallenge(c, c.encode(r), c.encode(vk), hash);
    EncodeEqual(c, Times(c.group, s, c.generator), c.group.add(r, Times(c.group, e, vk)));
    EquationOnFactors(c, s, k, e, sk);
  }

  lemma Logarithm<P(!new)>(c: Scheme<P>, x: P) returns (k: nat)
    requires Proper(c) && InSubgroup(c, x)
    ensures x == Times(c.group, k, c.generator)
  {
    assert IsMultiple(c, x);
    k :| x == Times(c.group, k, c.generator);
  }

  /** The only scalar that satisfies the check for R, key and hash. */
  ghost predicate OnlyScalar<P(!new)>(c: Scheme<P>, hash: Bytes32, r: P, vk: P, s0: nat)
    requires c.order > 0
  {
    forall s: nat :: s < c.order ==> (VerifyHash(c, hash, Signature(r, s), vk) <==> s == s0)
  }

  /**
   For a fixed R, key and hash exactly one canonical scalar satisfies the
   check: a signature cannot be varied in its s.
   */
  lemma UniqueScalar<P(!new)>(c: Scheme<P>, hash: Bytes32, r: P, vk: P)
    requires Proper(c) && InSubgroup(c, r) && InSubgroup(c, vk)
    ensures exists s0: nat :: s0 < c.order && OnlyScalar(c, hash, r, vk, s0)
  {
    var t := AcceptedResidue(c, hash, r, vk);
    OneInRange(c, hash, r, vk, t);
  }

  lemma OneInRange<P(!new)>(c: Scheme<P>, hash: Bytes32, r: P, vk: P, t: int)
    requires c.order > 0 && forall s: nat :: VerifyHash(c, hash, Signature(r, s), vk) <==> Congruent(c.order, s, t)
    ensures exists s0: nat :: s0 < c.order && OnlyScalar(c, hash, r, vk, s0)
  {
    hide VerifyHash;
    ModCongruent(c.order, t);
    var s0: nat := t % c.order;
    forall s: nat | s < c.order
      ensures VerifyHash(c, hash, Signature(r, s), vk) <==> s == s0
    {
      if Congruent(c.order, s, t) {
        CongruentTransitive(c.order, s, t, s0);
        CongruentUnique(c.order, s, s0);
      }
    }
    assert OnlyScalar(c, hash, r, vk, s0);
  }

  /** The residue a scalar must have to be accepted. */
  lemma AcceptedResidue<P(!new)>(c: Scheme<P>, hash: Bytes32, r: P, vk: P) returns (t: int)
    requires Proper(c) && InSubgroup(c, r) && InSubgroup(c, vk)
    ensures c.order > 0
    ensures forall s: nat :: VerifyHash(c, hash, Signature(r, s), vk) <==> Congruent(c.order, s, t)
  {
    hide HashChallenge, VerifyHash, Times, Abelian, HasOrder, IsPrime, InSubgroup, IsMultiple, Pow2;
    var k := Logarithm(c, r);
    var sk := Logarithm(c, vk);
    t := k + HashChallenge(c, c.encode(r), c.encode(vk), hash) * sk;
    forall s: nat
      ensures VerifyHash(c, hash, Signature(r, s), vk) <==> Congruent(c.order, s, t)
    {
      AcceptedScalars(c, hash, k, sk, s);
    }
  }
}
