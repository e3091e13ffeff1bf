/**
 Issuer, host verifier and circuit together: the signature relation of the
 circuit's gadget (crypto-circuit-age/src/gadgets/redjubjub.rs) against that of
 crypto-sig-redjubjub, and the credentials an issuer makes against the circuit.
 */
module Issuance {
  import opened Wrappers
  import opened Bits
  import opened PrimeField
  import opened R1cs
  import opened Multipack
  import opened Groups
  import opened Constants
  import opened PublicInputs
  import opened Transcript
  import opened Commit
  import opened Gadgets
  import opened AgeCircuit
  import opened AgeStatement
  import opened AgeCompleteness
  import opened RedJubjub

  // -------------------------------------------------- the gadget's relation

  /** A curve point that three doublings do not bring to the neutral one, in the subgroup or not. */
  function GadgetPoint<P(==)>(c: Scheme<P>, b: Bytes32): Option<P> {
    match c.decode(b)
    case None => None
    case Some(x) => if Times(c.group, 8, x) == c.group.zero then None else Some(x)
  }

  /** The challenge as the 256-bit integer the gadget multiplies by, not reduced. */
  function GadgetChallenge<P>(c: Scheme<P>, r: Bytes32, vk: Bytes32, hash: Bytes32): nat {
    FromLe(c.personalBlake2s(REDJUBJUB_PERSONALIZATION, r + vk + hash))
  }

  /** s * G == R + e * VK on the whole curve. */
  predicate GadgetEquation<P(==)>(c: Scheme<P>, s: nat, r: P, e: nat, v: P) {
    Times(c.group, s, c.generator) == c.group.add(r, Times(c.group, e, v))
  }

  /** What the constraints force: the scalar is any 256-bit integer. */
  predicate GadgetAccepts<P(==)>(c: Scheme<P>, vk: Bytes32, sig: Bytes64, hash: Bytes32) {
    var r, v := GadgetPoint(c, sig[..32]), GadgetPoint(c, vk);
    && r.Some? && v.Some?
    && GadgetEquation(c, FromLe(sig[32..]), r.value, GadgetChallenge(c, sig[..32], vk, hash), v.value)
  }

  function GadgetSpec<P(==)>(c: Scheme<P>): SigSpec {
    SigSpec((vk: Bytes32) => GadgetPoint(c, vk).Some?,
            (sig: Bytes64) => GadgetPoint(c, sig[..32]).Some? && FromLe(sig[32..]) < c.order,
            (vk: Bytes32, sig: Bytes64, hash: Bytes32) => GadgetAccepts(c, vk, sig, hash))
  }

  // --------------------------------------------- subgroup and small order

  /** The facts about a proper scheme that the proofs below use one at a time. */
  lemma ProperParts<P(!new)>(c: Scheme<P>)
    requires Proper(c)
    ensures Abelian(c.group) && HasOrder(c.group, c.generator, c.order) && IsPrime(c.order) && c.order > 2
  {
  }

  /** On the subgroup a factor counts modulo the order only. */
  lemma ReducedFactor<P(!new)>(c: Scheme<P>, x: P, e: nat)
    requires Abelian(c.group) && c.order > 0 && InSubgroup(c, x)
    ensures Times(c.group, e % c.order, x) == Times(c.group, e, x)
  {
    hide Abelian, Times;
    var q, r := e / c.order, e % c.order;
    TimesMul(c.group, q, c.order, x);
    TimesZero(c.group, q);
    TimesAdd(c.group, r, q * c.order, x);
    Unit(c.group, Times(c.group, r, x));
  }

  /** Of the points of small order the subgroup has only the neutral one. */
  lemma SmallInSubgroup<P(!new)>(c: Scheme<P>, x: P)
    requires Proper(c) && InSubgroup(c, x)
    ensures Times(c.group, 8, x) == c.group.zero <==> x == c.group.zero
  {
    hide Times, Abelian, HasOrder, IsPrime, InSubgroup;
    var k := Logarithm(c, x);
    SmallMultiple(c.group, c.generator, c.order, k);
  }

  lemma SmallMultiple<P(!new)>(g: Group<P>, x: P, n: nat, k: nat)
    requires Abelian(g) && HasOrder(g, x, n) && IsPrime(n) && n > 2
    ensures Times(g, 8, Times(g, k, x)) == g.zero <==> Times(g, k, x) == g.zero
  {
    hide Times, Abelian, HasOrder, IsPrime;
    TimesMul(g, 8, k, x);
    OrderAt(g, x, n, 8 * k);
    OrderAt(g, x, n, k);
    TimesZero(g, 8);
    if Divides(n, 8 * k) {
      Euclid(n, 8, k);
      NotOfEight(n);
    }
  }

  lemma NotOfEight(n: nat)
    requires IsPrime(n) && n > 2
    ensures !Divides(n, 8)
  {
    hide IsPrime, Divides;
    PrimeAboveOne(n);
    if Divides(n, 8) {
      Euclid(n, 2, 4);
      if Divides(n, 4) { Euclid(n, 2, 2); }
      SmallZero(n, 2);
    }
  }

  /** The order kills every multiple of a point it kills. */
  lemma SubgroupMultiple<P(!new)>(c: Scheme<P>, e: nat, x: P)
    requires Abelian(c.group) && InSubgroup(c, x)
    ensures InSubgroup(c, Times(c.group, e, x))
  {
    hide Abelian, Times;
    TimesSwap(c.group, c.order, e, x);
    TimesZero(c.group, e);
  }

  /** With two of the three terms of x == y + z in the subgroup, the third is too. */
  lemma SubgroupTerm<P(!new)>(c: Scheme<P>, x: P, y: P, z: P)
    requires Abelian(c.group) && x == c.group.add(y, z) && InSubgroup(c, x) && InSubgroup(c, z)
    ensures InSubgroup(c, y)
  {
    hide Abelian, Times;
    TimesSum(c.group, c.order, y, z);
    Unit(c.group, Times(c.group, c.order, y));
  }

  // -------------------------------------------------- host against gadget

  ghost predicate KeyInSubgroup<P>(c: Scheme<P>, vk: Bytes32) {
    c.decode(vk).Some? && InSubgroup(c, c.decode(vk).value)
  }

  /** On the subgroup the host's equation, with its reduced challenge, is the gadget's. */
  lemma EquationsAgree<P(!new)>(c: Scheme<P>, hash: Bytes32, r: P, s: nat, v: P)
    requires Proper(c) && InSubgroup(c, v)
    ensures VerifyHash(c, hash, Signature(r, s), v) <==>
            GadgetEquation(c, s, r, GadgetChallenge(c, c.encode(r), c.encode(v), hash), v)
  {
    hide Abelian, HasOrder, Times, FromLe, IsPrime, IsMultiple, InSubgroup;
    var e, e' := GadgetChallenge(c, c.encode(r), c.encode(v), hash), HashChallenge(c, c.encode(r), c.encode(v), hash);
    FromLePadded(c.personalBlake2s(REDJUBJUB_PERSONALIZATION, c.encode(r) + c.encode(v) + hash), 32);
    assert e' == e % c.order;
    ReducedFactor(c, v, e);
    EncodeEqual(c, Times(c.group, s, c.generator), c.group.add(r, Times(c.group, e', v)));
  }

  /**
   Exactly what the host demands beyond the circuit: a scalar with
   0 < s < order and a key in the prime-order subgroup. That R lies in the
   subgroup then follows from the equation.
   */
  lemma VerifiersAgree<P(!new)>(c: Scheme<P>, vk: Bytes32, sig: Bytes64, hash: Bytes32)
    requires Proper(c)
    ensures HostAccepts(c, vk, sig, hash) <==>
            GadgetAccepts(c, vk, sig, hash) && 0 < FromLe(sig[32..]) < c.order && KeyInSubgroup(c, vk)
  {
    hide Abelian, HasOrder, Times, FromLe, HashChallenge, GadgetChallenge, IsPrime, IsMultiple, InSubgroup;
    hide VerifyHash, GadgetEquation;
    var r, v, s := c.decode(sig[..32]), c.decode(vk), FromLe(sig[32..]);
    if r.Some? && KeyInSubgroup(c, vk) {
      EquationsAgree(c, hash, r.value, s, v.value);
      SmallInSubgroup(c, v.value);
      if InSubgroup(c, r.value) { SmallInSubgroup(c, r.value); }
      if GadgetEquation(c, s, r.value, GadgetChallenge(c, sig[..32], vk, hash), v.value) {
        NoncePointInSubgroup(c, s, r.value, GadgetChallenge(c, sig[..32], vk, hash), v.value);
      }
    }
  }

  lemma NoncePointInSubgroup<P(!new)>(c: Scheme<P>, s: nat, r: P, e: nat, v: P)
    requires Proper(c) && InSubgroup(c, v) && GadgetEquation(c, s, r, e, v)
    ensures InSubgroup(c, r)
  {
    hide Proper, Abelian, HasOrder, Times, IsPrime, InSubgroup;
    ProperParts(c);
    MultipleInSubgroup(c, s);
    SubgroupMultiple(c, e, v);
    SubgroupTerm(c, Times(c.group, s, c.generator), r, Times(c.group, e, v));
  }

  /**
   The gadget's equation at any key and R, each split into its part in the
   subgroup and its part t or u of small order: the subgroup parts must satisfy
   the equation and the small parts must cancel.
   */
  lemma EquationOnParts<P(!new)>(c: Scheme<P>, s: nat, k: nat, u: P, e: nat, sk: nat, t: P)
    requires Proper(c) && Times(c.group, 8, t) == c.group.zero && Times(c.group, 8, u) == c.group.zero
    ensures
      GadgetEquation(c, s, c.group.add(Times(c.group, k, c.generator), u), e,
                     c.group.add(VerificationKey(c, sk), t)) <==>
      Congruent(c.order, s, k + e * sk) && c.group.add(u, Times(c.group, e, t)) == c.group.zero
  {
    hide *;
    ProperParts(c);
    var m := Product(e, sk);
    EquationOnProduct(c, s, k, u, e, sk, t, m);
  }

  lemma Product(e: nat, sk: nat) returns (m: nat)
    ensures m == e * sk
  {
    m := e * sk;
  }

  /** The same with the product named. */
  lemma EquationOnProduct<P(!new)>(c: Scheme<P>, s: nat, k: nat, u: P, e: nat, sk: nat, t: P, m: nat)
    requires m == e * sk && Times(c.group, 8, t) == c.group.zero && Times(c.group, 8, u) == c.group.zero && Proper(c)
    ensures c.order > 0
    ensures GadgetEquation(c, s, c.group.add(Times(c.group, k, c.generator), u), e,
                           c.group.add(VerificationKey(c, sk), t)) <==>
            Congruent(c.order, s, k + m) && c.group.add(u, Times(c.group, e, t)) == c.group.zero
  {
    hide *;
    var kg, v, w := Times(c.group, k, c.generator), VerificationKey(c, sk), c.group.add(u, Times(c.group, e, t));
    EquationIs(c, s, c.group.add(kg, u), e, c.group.add(v, t));
    assert c.group.add(c.group.add(kg, u), Times(c.group, e, c.group.add(v, t))) ==
           c.group.add(Times(c.group, k + m, c.generator), w) by
    {
      ProperParts(c);
      RightSide(c, k, u, e, sk, t, m);
    }
    SmallParts(c, s, k + m, u, e, t);
  }

  lemma EquationIs<P>(c: Scheme<P>, s: nat, r: P, e: nat, v: P)
    ensures GadgetEquation(c, s, r, e, v) <==>
            Times(c.group, s, c.generator) == c.group.add(r, Times(c.group, e, v))
  {
  }

  /** The parts of R + e * VK. */
  lemma RightSide<P(!new)>(c: Scheme<P>, k: nat, u: P, e: nat, sk: nat, t: P, m: nat)
    requires Abelian(c.group) && m == e * sk
    ensures c.group.add(c.group.add(Times(c.group, k, c.generator), u),
                        Times(c.group, e, c.group.add(VerificationKey(c, sk), t))) ==
            c.group.add(Times(c.group, k + m, c.generator), c.group.add(u, Times(c.group, e, t)))
  {
    hide *;
    var g, v := c.group, VerificationKey(c, sk);
    TimesSum(g, e, v, t);
    assert Times(g, e, v) == Times(g, m, c.generator) by {
      KeyIs(c, sk);
      TimesMul(g, e, sk, c.generator);
    }
    TimesAdd(g, k, m, c.generator);
    Interchange(g, Times(g, k, c.generator), u, Times(g, e, v), Times(g, e, t));
  }

  lemma KeyIs<P>(c: Scheme<P>, sk: nat)
    ensures VerificationKey(c, sk) == Times(c.group, sk, c.generator)
  {
  }

  lemma SmallParts<P(!new)>(c: Scheme<P>, s: nat, n: nat, u: P, e: nat, t: P)
    requires Times(c.group, 8, t) == c.group.zero && Times(c.group, 8, u) == c.group.zero && Proper(c)
    ensures c.order > 0
    ensures var w := c.group.add(u, Times(c.group, e, t));
      Times(c.group, s, c.generator) == c.group.add(Times(c.group, n, c.generator), w) <==>
      Congruent(c.order, s, n) && w == c.group.zero
  {
    hide *;
    assert Times(c.group, 8, c.group.add(u, Times(c.group, e, t))) == c.group.zero by {
      ProperParts(c);
      SmallSum(c, u, e, t);
    }
    ComparedParts(c, s, n, c.group.add(u, Times(c.group, e, t)));
  }

  lemma ComparedParts<P(!new)>(c: Scheme<P>, s: nat, m: nat, w: P)
    requires Proper(c) && Times(c.group, 8, w) == c.group.zero
    ensures c.order > 0
    ensures Times(c.group, s, c.generator) == c.group.add(Times(c.group, m, c.generator), w) <==>
            Congruent(c.order, s, m) && w == c.group.zero
  {
    hide Proper, Abelian, HasOrder, Times, IsPrime, InSubgroup, Congruent;
    ProperParts(c);
    MultipleInSubgroup(c, s);
    MultipleInSubgroup(c, m);
    SmallPart(c, Times(c.group, s, c.generator), Times(c.group, m, c.generator), w);
    TimesEqual(c.group, c.generator, c.order, s, m);
  }

  /** A point of small order added to one of the subgroup keeps it there only when neutral. */
  lemma SmallPart<P(!new)>(c: Scheme<P>, y: P, x: P, w: P)
    requires Proper(c) && InSubgroup(c, y) && InSubgroup(c, x) && Times(c.group, 8, w) == c.group.zero
    ensures y == c.group.add(x, w) <==> y == x && w == c.group.zero
  {
    hide Proper, Abelian, HasOrder, Times, IsPrime, InSubgroup;
    ProperParts(c);
    if y == c.group.add(x, w) {
      Comm(c.group, x, w);
      SubgroupTerm(c, y, w, x);
      SmallInSubgroup(c, w);
    }
    Unit(c.group, x);
  }

  lemma SmallSum<P(!new)>(c: Scheme<P>, u: P, e: nat, t: P)
    requires Abelian(c.group) && Times(c.group, 8, t) == c.group.zero && Times(c.group, 8, u) == c.group.zero
    ensures Times(c.group, 8, c.group.add(u, Times(c.group, e, t))) == c.group.zero
  {
    hide Abelian, Times;
    TimesSum(c.group, 8, u, Times(c.group, e, t));
    TimesSwap(c.group, 8, e, t);
    TimesZero(c.group, e);
    Unit(c.group, c.group.zero);
  }

  /** sk * G + t with t of small order: neutral after three doublings exactly when sk * G is. */
  lemma MixedPoint<P(!new)>(c: Scheme<P>, sk: nat, t: P)
    requires Proper(c) && Times(c.group, 8, t) == c.group.zero
    ensures c.order > 0
    ensures var x := c.group.add(VerificationKey(c, sk), t);
      && (Times(c.group, 8, x) == c.group.zero <==> Divides(c.order, sk))
      && (InSubgroup(c, x) <==> t == c.group.zero)
  {
    hide *;
    ProperParts(c);
    KeyIs(c, sk);
    var y := VerificationKey(c, sk);
    MultipleInSubgroup(c, sk);
    TimesSum(c.group, 8, y, t);
    Unit(c.group, Times(c.group, 8, y));
    Unit(c.group, y);
    SmallInSubgroup(c, y);
    OrderAt(c.group, c.generator, c.order, sk);
    var x := c.group.add(y, t);
    if InSubgroup(c, x) {
      Comm(c.group, y, t);
      SubgroupTerm(c, x, t, y);
      SmallInSubgroup(c, t);
    }
  }

  /** The key sk * G + t, R = k * G + u and scalar s as bytes, and their challenge. */
  function MixedKey<P>(c: Scheme<P>, sk: nat, t: P): Bytes32 { c.encode(c.group.add(VerificationKey(c, sk), t)) }

  function MixedSignature<P>(c: Scheme<P>, k: nat, u: P, s: nat): Bytes64 { MixedKey(c, k, u) + LeBytes(s, 32) }

  function MixedChallenge<P>(c: Scheme<P>, sk: nat, t: P, k: nat, u: P, hash: Bytes32): nat {
    GadgetChallenge(c, MixedKey(c, k, u), MixedKey(c, sk, t), hash)
  }

  /**
   Both verifiers on any key and R, by their parts: the circuit lets small parts
   pass that cancel under the challenge, the host only a key without one.
   */
  lemma VerdictsOnParts<P(!new)>(c: Scheme<P>, sk: nat, t: P, k: nat, u: P, s: nat, hash: Bytes32)
    requires Proper(c) && Times(c.group, 8, t) == c.group.zero && Times(c.group, 8, u) == c.group.zero
    requires s < Pow2(256)
    ensures c.order > 0
    ensures var e := MixedChallenge(c, sk, t, k, u, hash);
      GadgetAccepts(c, MixedKey(c, sk, t), MixedSignature(c, k, u, s), hash) <==>
      && !Divides(c.order, sk) && !Divides(c.order, k)
      && Congruent(c.order, s, k + e * sk) && c.group.add(u, Times(c.group, e, t)) == c.group.zero
    ensures HostAccepts(c, MixedKey(c, sk, t), MixedSignature(c, k, u, s), hash) <==>
            && GadgetAccepts(c, MixedKey(c, sk, t), MixedSignature(c, k, u, s), hash)
            && 0 < s < c.order && t == c.group.zero
  {
    hide *;
    ProperParts(c);
    var vk, sig, e := MixedKey(c, sk, t), MixedSignature(c, k, u, s), MixedChallenge(c, sk, t, k, u, hash);
    MixedPoint(c, sk, t);
    MixedPoint(c, k, u);
    MixedDecodes(c, sk, t);
    MixedDecodes(c, k, u);
    MixedParts(c, k, u, s);
    AcceptsOnPoints(c, vk, sig, hash);
    MixedChallengeIs(c, sk, t, k, u, hash);
    KeyIs(c, k);
    EquationOnParts(c, s, k, u, e, sk, t);
    VerifiersAgree(c, vk, sig, hash);
    SubgroupKeyIs(c, vk);
  }

  lemma SubgroupKeyIs<P(!new)>(c: Scheme<P>, vk: Bytes32)
    requires c.decode(vk).Some?
    ensures KeyInSubgroup(c, vk) <==> InSubgroup(c, c.decode(vk).value)
  {
  }

  lemma MixedChallengeIs<P(!new)>(c: Scheme<P>, sk: nat, t: P, k: nat, u: P, hash: Bytes32)
    ensures MixedChallenge(c, sk, t, k, u, hash) == GadgetChallenge(c, MixedKey(c, k, u), MixedKey(c, sk, t), hash)
  {
  }

  lemma MixedDecodes<P(!new)>(c: Scheme<P>, sk: nat, t: P)
    requires Proper(c)
    ensures c.decode(MixedKey(c, sk, t)) == Some(c.group.add(VerificationKey(c, sk), t))
  {
    hide Abelian, HasOrder, Times, IsPrime, InSubgroup, IsMultiple;
  }

  lemma MixedParts<P(!new)>(c: Scheme<P>, k: nat, u: P, s: nat)
    requires s < Pow2(256)
    ensures MixedSignature(c, k, u, s)[..32] == MixedKey(c, k, u) && FromLe(MixedSignature(c, k, u, s)[32..]) == s
  {
    hide FromLe, LeBytes, Pow2;
    FromLeOf(s, 32);
    assert MixedSignature(c, k, u, s)[32..] == LeBytes(s, 32);
  }

  lemma AcceptsOnPoints<P(!new)>(c: Scheme<P>, vk: Bytes32, sig: Bytes64, hash: Bytes32)
    requires c.decode(vk).Some? && c.decode(sig[..32]).Some?
    ensures var v, r := c.decode(vk).value, c.decode(sig[..32]).value;
      GadgetAccepts(c, vk, sig, hash) <==>
      && Times(c.group, 8, v) != c.group.zero && Times(c.group, 8, r) != c.group.zero
      && GadgetEquation(c, FromLe(sig[32..]), r, GadgetChallenge(c, sig[..32], vk, hash), v)
  {
    hide Times, GadgetEquation, GadgetChallenge, FromLe;
  }

  /**
   A key of mixed order: with R = k * G in the subgroup and a challenge that
   takes the small part t to the neutral point, the circuit accepts what the host refuses.
   */
  lemma MixedOrderKey<P(!new)>(c: Scheme<P>, sk: nat, t: P, k: nat, s: nat, hash: Bytes32)
    requires Proper(c) && 0 < sk < c.order && 0 < k < c.order && 0 < s < c.order
    requires t != c.group.zero && Times(c.group, 8, t) == c.group.zero
    requires var e := MixedChallenge(c, sk, t, k, c.group.zero, hash);
      Times(c.group, e, t) == c.group.zero && Congruent(c.order, s, k + e * sk)
    ensures GadgetAccepts(c, MixedKey(c, sk, t), MixedSignature(c, k, c.group.zero, s), hash)
    ensures !HostAccepts(c, MixedKey(c, sk, t), MixedSignature(c, k, c.group.zero, s), hash)
    ensures !KeyInSubgroup(c, MixedKey(c, sk, t))
  {
    hide *;
    ProperParts(c);
    OrderFits(c);
    TimesZero(c.group, 8);
    Unit(c.group, c.group.zero);
    if Divides(c.order, sk) { SmallZero(c.order, sk); }
    if Divides(c.order, k) { SmallZero(c.order, k); }
    VerdictsOnParts(c, sk, t, k, c.group.zero, s, hash);
    MixedPoint(c, sk, t);
    MixedDecodes(c, sk, t);
    SubgroupKeyIs(c, MixedKey(c, sk, t));
  }

  // ------------------------------------------------- scalars out of range

  /** The gadget's verdict depends on the scalar modulo the order only. */
  lemma SameScalar<P(!new)>(c: Scheme<P>, vk: Bytes32, sig: Bytes64, hash: Bytes32, t: Bytes64)
    requires Proper(c) && t[..32] == sig[..32] && Congruent(c.order, FromLe(t[32..]), FromLe(sig[32..]))
    ensures GadgetAccepts(c, vk, t, hash) <==> GadgetAccepts(c, vk, sig, hash)
  {
    hide Abelian, HasOrder, Times, FromLe, GadgetChallenge, IsPrime, IsMultiple, InSubgroup;
    TimesEqual(c.group, c.generator, c.order, FromLe(t[32..]), FromLe(sig[32..]));
  }

  /** Whatever the gadget accepts it also accepts with the order added to s, which the host refuses. */
  lemma OtherScalar<P(!new)>(c: Scheme<P>, vk: Bytes32, sig: Bytes64, hash: Bytes32)
    requires Proper(c) && GadgetAccepts(c, vk, sig, hash) && FromLe(sig[32..]) + c.order < Pow2(256)
    ensures var t: Bytes64 := sig[..32] + LeBytes(FromLe(sig[32..]) + c.order, 32);
      t != sig && GadgetAccepts(c, vk, t, hash) && !HostAccepts(c, vk, t, hash)
  {
    hide Proper, Abelian, HasOrder, Times, FromLe, IsPrime, InSubgroup, LeBytes, GadgetAccepts, HostAccepts;
    ProperParts(c);
    var s := FromLe(sig[32..]);
    var t: Bytes64 := sig[..32] + LeBytes(s + c.order, 32);
    assert t[..32] == sig[..32] && t[32..] == LeBytes(s + c.order, 32);
    FromLeOf(s + c.order, 32);
    assert Congruent(c.order, s + c.order, s) by { MultipleDivides(c.order, 1); }
    SameScalar(c, vk, sig, hash, t);
    VerifiersAgree(c, vk, t, hash);
  }

  /** Reducing the scalar keeps the circuit's verdict, and the result parses. */
  lemma ParsingForm<P(!new)>(c: Scheme<P>)
    requires Proper(c)
    ensures HasParsingForm(GadgetSpec(c))
  {
    var spec := GadgetSpec(c);
    forall vk, sig, hash | spec.accepts(vk, sig, hash) ensures exists t :: ParsesAs(spec, vk, hash, t) {
      var s := FromLe(sig[32..]);
      var t: Bytes64 := sig[..32] + LeBytes(s % c.order, 32);
      ReducedScalar(c, vk, sig, hash, t);
      assert ParsesAs(spec, vk, hash, t);
    }
  }

  lemma ReducedScalar<P(!new)>(c: Scheme<P>, vk: Bytes32, sig: Bytes64, hash: Bytes32, t: Bytes64)
    requires Proper(c) && GadgetAccepts(c, vk, sig, hash)
    requires t == sig[..32] + LeBytes(FromLe(sig[32..]) % c.order, 32)
    ensures GadgetAccepts(c, vk, t, hash) && FromLe(t[32..]) < c.order && t[..32] == sig[..32]
  {
    hide Proper, Abelian, HasOrder, Times, FromLe, IsPrime, InSubgroup, LeBytes, GadgetAccepts;
    ProperParts(c);
    var s := FromLe(sig[32..]);
    assert s % c.order < Pow2(256) by { OrderFits(c); }
    FromLeOf(s % c.order, 32);
    assert t[..32] == sig[..32] && t[32..] == LeBytes(s % c.order, 32);
    ModCongruent(c.order, s);
    SameScalar(c, vk, sig, hash, t);
  }

  lemma OrderFits<P(!new)>(c: Scheme<P>)
    requires Proper(c)
    ensures c.order < Pow2(256)
  {
  }

  // ------------------------------------------------ an issued credential

  /** The issuer signed the message of w, whose commitment opens to its date of birth. */
  predicate Issued<P(==)>(c: Scheme<P>, h: Hashes, signingKey: Bytes32, w: AgeWitness)
    requires c.order > 0 && WellSized(w)
  {
    && SigningKeyFromBytes(c, signingKey).Ok?
    && w.issuerVk == c.encode(VerificationKey(c, SigningKeyFromBytes(c, signingKey).value))
    && Signed(c, Message(w), signingKey) == Ok(w.sig)
    && w.c == Commitment(h, w.dobDays, w.rBits)
  }

  /** The public values a holder of w presents. */
  predicate Presents(h: Hashes, w: AgeWitness, pub: AgePublic) {
    pub.issuerVk == w.issuerVk && pub.credNullifier == Nullifier(h, w.c)
  }

  lemma IssuedSignatureAccepted<P(!new)>(c: Scheme<P>, h: Hashes, signingKey: Bytes32, w: AgeWitness)
    requires Proper(c) && WellSized(w) && Issued(c, h, signingKey, w)
    ensures GadgetSpec(c).vkParses(w.issuerVk) && GadgetSpec(c).sigParses(w.sig)
    ensures GadgetAccepts(c, w.issuerVk, w.sig, c.blake2s(Encode(Message(w))))
  {
    hide Abelian, HasOrder, Times, FromLe, HashChallenge, GadgetChallenge, IsPrime, IsMultiple, LeBytes, Encode;
    hide InSubgroup, VerifyHash, GadgetEquation;
    var sk := SigningKeyFromBytes(c, signingKey).value;
    var hash := c.blake2s(Encode(Message(w)));
    var sig, v := SignHash(c, hash, sk).value, VerificationKey(c, sk);
    SignedHashVerifies(c, hash, sk);
    DerivedKeyParses(c, sk);
    MultipleInSubgroup(c, NonceFrom(c, sk, hash));
    SmallInSubgroup(c, sig.r);
    SmallInSubgroup(c, v);
    FromLeOf(sig.s, 32);
    assert w.sig[..32] == c.encode(sig.r) && w.sig[32..] == LeBytes(sig.s, 32);
    EquationsAgree(c, hash, sig.r, sig.s, v);
  }

  /**
   From issuing to proving: the run of the circuit on an issued credential,
   with the public values its holder presents, satisfies every constraint
   exactly when the date of birth is on the right side of the cutoff.
   */
  lemma IssuedCredentialProves<P(!new)>(c: Scheme<P>, p: int, k: Kit, h: Hashes, signingKey: Bytes32,
                                        w: AgeWitness, pub: AgePublic)
    requires Proper(c) && h.blake2s == c.blake2s && Setting(p, k, h, GadgetSpec(c))
    requires WellSized(w) && Issued(c, h, signingKey, w) && Presents(h, w, pub)
    ensures var asg := RunAssignment(Elements(pub), AgeAux(k, [], pub, Some(w)));
      && InField(p, asg) && InputsAre(asg, 0, Elements(pub))
      && (SatAll(p, asg, AgeCons(k, 0, 0)) <==>
          if pub.over then w.dobDays <= pub.cutoffDays else w.dobDays >= pub.cutoffDays)
  {
    hide AgeAux, AgeCons, Elements, SatAll, Setting, Proper, InField, InputsAre, GadgetAccepts, Encode, Signed;
    IssuedSignatureAccepted(c, h, signingKey, w);
    SettingParts(p, k, h, GadgetSpec(c));
    RunSatisfies(p, k, h, GadgetSpec(c), pub, w);
  }
}
