/** The signed bytes of a date-of-birth attestation (crypto-commons/src/attestation.rs). */
module Attestation {
  import opened Wrappers
  import opened Bits
  import opened Constants
  import opened PublicInputs
  import opened Parsing

  const ATTESTATION_CLOCK_SKEW_TOLERANCE_SECONDS: u64 := 60
  const ATTESTATION_MAX_AGE_SECONDS: u64 := 3600
  const U64_MAX: u64 := 0xFFFF_FFFF_FFFF_FFFF

  /** The signed fields; strings as their UTF-8 bytes. */
  datatype Fields = Fields(dobDays: i32, issuerId: seq<byte>, timestamp: u64, nonce: Bytes32,
                           sessionId: Option<seq<byte>>, clientId: Option<seq<byte>>)

  function OrEmpty(s: Option<seq<byte>>): seq<byte> { if s.Some? then s.value else [] }

  predicate Bound(f: Fields) { f.sessionId.Some? || f.clientId.Some? }

  predicate Fits(f: Fields) {
    && |f.issuerId| <= 255
    && |OrEmpty(f.sessionId)| <= 255 && |OrEmpty(f.clientId)| <= 255
  }

  function BaseBytes(f: Fields, rest: seq<byte>): seq<byte>
    requires Fits(f)
  {
    DOB_ATTESTATION_DST + (LeBytes(ReinterpretAsU32(f.dobDays), 4) + (Short(f.issuerId) +
      (LeBytes(f.timestamp, 8) + (f.nonce + rest))))
  }

  function BindingBytes(f: Fields): seq<byte>
    requires Fits(f)
  {
    if Bound(f) then Short(OrEmpty(f.sessionId)) + Short(OrEmpty(f.clientId)) else []
  }

  /** The bytes fed to the hasher. */
  function Preimage(f: Fields): seq<byte>
    requires Fits(f)
  {
    BaseBytes(f, BindingBytes(f))
  }

  /** The hash input is built by updates; a field too long stops it. */
  method ComputeMessageBytes(blake2s: seq<byte> -> Bytes32, f: Fields) returns (r: Result<Bytes32, Error>)
    ensures r == if Fits(f) then Ok(blake2s(Preimage(f))) else Err(FieldTooLong)
  {
    if |f.issuerId| > 255 {
      return Err(FieldTooLong);
    }
    hide LeBytes;
    var hashed := DOB_ATTESTATION_DST;
    hashed := hashed + LeBytes(ReinterpretAsU32(f.dobDays), 4);
    hashed := hashed + [|f.issuerId|];
    hashed := hashed + f.issuerId;
    hashed := hashed + LeBytes(f.timestamp, 8);
    hashed := hashed + f.nonce;
    ghost var base := hashed;
    if f.sessionId.Some? || f.clientId.Some? {
      var sid := OrEmpty(f.sessionId);
      if |sid| > 255 {
        return Err(FieldTooLong);
      }
      hashed := hashed + [|sid|];
      hashed := hashed + sid;
      var cid := OrEmpty(f.clientId);
      if |cid| > 255 {
        return Err(FieldTooLong);
      }
      hashed := hashed + [|cid|];
      hashed := hashed + cid;
    }
    var dob, iss, ts := LeBytes(ReinterpretAsU32(f.dobDays), 4), f.issuerId, LeBytes(f.timestamp, 8);
    assert hashed == base + BindingBytes(f);
    AppendAssoc(DOB_ATTESTATION_DST + dob, [|iss| as byte], iss);
    RightNest(DOB_ATTESTATION_DST, dob, Short(iss), ts, f.nonce, BindingBytes(f));
    r := Ok(blake2s(hashed));
  }

  lemma RightNest<T>(a: seq<T>, b: seq<T>, c: seq<T>, d: seq<T>, e: seq<T>, f: seq<T>)
    ensures a + b + c + d + e + f == a + (b + (c + (d + (e + f))))
  {
    AppendAssoc(a + b + c + d, e, f);
    AppendAssoc(a + b + c, d, e + f);
    AppendAssoc(a + b, c, d + (e + f));
    AppendAssoc(a, b, c + (d + (e + f)));
  }

  // ------------------------------------------------------------ parsing

  /** What the bytes determine: the base fields, and the binding pair if there is one. */
  datatype Parsed = Parsed(dobDays: i32, issuerId: seq<byte>, timestamp: u64, nonce: Bytes32,
                           binding: Option<(seq<byte>, seq<byte>)>)

  function ParseBinding(bs: seq<byte>): Option<Option<(seq<byte>, seq<byte>)>> {
    if bs == [] then Some(None) else
      var (sid, bs1) :- TakeShort(bs);
      var (cid, bs2) :- TakeShort(bs1);
      if bs2 == [] then Some(Some((sid, cid))) else None
  }

  function Parse(bs: seq<byte>): Option<Parsed> {
    var bs1 :- TakeTag(bs, DOB_ATTESTATION_DST);
    var (dob, bs2) :- Take(bs1, 4);
    var (issuer, bs3) :- TakeShort(bs2);
    var (ts, bs4) :- Take(bs3, 8);
    var (nonce, bs5) :- Take(bs4, 32);
    var binding :- ParseBinding(bs5);
    LeOfFrom(dob);
    LeOfFrom(ts);
    Pow2Words();
    Some(Parsed(ReinterpretAsI32(FromLe(dob)), issuer, FromLe(ts), nonce, binding))
  }

  /** The meaning of the fields: a missing binding field beside a present one is the empty string. */
  function Meaning(f: Fields): Parsed {
    Parsed(f.dobDays, f.issuerId, f.timestamp, f.nonce,
           if Bound(f) then Some((OrEmpty(f.sessionId), OrEmpty(f.clientId))) else None)
  }

  lemma ParseBindingBytes(f: Fields)
    requires Fits(f)
    ensures ParseBinding(BindingBytes(f)) == Some(Meaning(f).binding)
  {
    if Bound(f) {
      var sid, cid := OrEmpty(f.sessionId), OrEmpty(f.clientId);
      TakeShortOf(sid, Short(cid));
      TakeShortOf(cid, []);
      assert Short(cid) + [] == Short(cid);
    }
  }

  lemma ParsePreimage(f: Fields)
    requires Fits(f)
    ensures Parse(Preimage(f)) == Some(Meaning(f))
  {
    hide LeBytes, FromLe, Take, TakeTag, TakeShort, Short, ParseBinding, BindingBytes;
    var rest := BindingBytes(f);
    var t4 := f.nonce + rest;
    var t3 := LeBytes(f.timestamp, 8) + t4;
    var t2 := Short(f.issuerId) + t3;
    var dob := ReinterpretAsU32(f.dobDays);
    TakeTagOf(DOB_ATTESTATION_DST, LeBytes(dob, 4) + t2);
    TakeOf(LeBytes(dob, 4), t2);
    TakeShortOf(f.issuerId, t3);
    TakeOf(LeBytes(f.timestamp, 8), t4);
    TakeOf(f.nonce, rest);
    ParseBindingBytes(f);
    Pow2Words();
    FromLeOf(dob, 4);
    FromLeOf(f.timestamp, 8);
  }

  /**
   Two accepted field tuples are hashed as the same bytes exactly when their
   base fields agree and either both are unbound or both are bound and agree
   once a missing field is read as the empty string.
   */
  lemma PreimagesCollide(f: Fields, g: Fields)
    requires Fits(f) && Fits(g)
    ensures Preimage(f) == Preimage(g) <==>
      && f.dobDays == g.dobDays && f.issuerId == g.issuerId
      && f.timestamp == g.timestamp && f.nonce == g.nonce
      && Bound(f) == Bound(g)
      && OrEmpty(f.sessionId) == OrEmpty(g.sessionId) && OrEmpty(f.clientId) == OrEmpty(g.clientId)
  {
    ParsePreimage(f);
    ParsePreimage(g);
    if Preimage(f) == Preimage(g) {
      assert Meaning(f) == Meaning(g);
    }
  }

  /** An unbound attestation is hashed as the layout from before binding fields existed. */
  lemma UnboundIsLegacy(f: Fields)
    requires Fits(f) && !Bound(f)
    ensures Preimage(f) == DOB_ATTESTATION_DST + LeBytes(ReinterpretAsU32(f.dobDays), 4) + [|f.issuerId|]
                           + f.issuerId + LeBytes(f.timestamp, 8) + f.nonce
  {
    assert f.nonce + [] == f.nonce;
  }

  // ---------------------------------------------------------- freshness

  function SaturatingAdd(x: u64, y: u64): u64 { if x + y > U64_MAX then U64_MAX else x + y }
  function SaturatingSub(x: u64, y: u64): u64 { if x < y then 0 else x - y }

  /** A signed attestation, and the signature scheme it is signed with. */
  datatype DobAttestation = DobAttestation(fields: Fields, signature: Bytes64)

  datatype Ed25519<!Sk, !Vk> = Ed25519(sign: (Sk, Bytes32) -> Bytes64, verifyStrict: (Vk, Bytes32, Bytes64) -> bool)

  /** What `create` and `create_bound` make of the fields they pass on. */
  function Attested<Sk, Vk>(e: Ed25519<Sk, Vk>, blake2s: seq<byte> -> Bytes32, f: Fields, sk: Sk)
    : Result<DobAttestation, Error>
  {
    if Fits(f) then Ok(DobAttestation(f, e.sign(sk, blake2s(Preimage(f))))) else Err(FieldTooLong)
  }

  method Create<Sk, Vk>(e: Ed25519<Sk, Vk>, blake2s: seq<byte> -> Bytes32, dobDays: i32, issuerId: seq<byte>,
                        timestamp: u64, nonce: Bytes32, sk: Sk) returns (r: Result<DobAttestation, Error>)
    ensures r == Attested(e, blake2s, Fields(dobDays, issuerId, timestamp, nonce, None, None), sk)
    ensures r == Err(FieldTooLong) <==> |issuerId| > 255
    ensures r.Ok? ==> r.value.fields == Fields(dobDays, issuerId, timestamp, nonce, None, None)
  {
    var f := Fields(dobDays, issuerId, timestamp, nonce, None, None);
    var message := ComputeMessageBytes(blake2s, f);
    r := match message
      case Err(error) => Err(error)
      case Ok(bytes) => Ok(DobAttestation(f, e.sign(sk, bytes)));
  }

  method CreateBound<Sk, Vk>(e: Ed25519<Sk, Vk>, blake2s: seq<byte> -> Bytes32, dobDays: i32, issuerId: seq<byte>,
                             timestamp: u64, nonce: Bytes32, sessionId: seq<byte>, clientId: seq<byte>, sk: Sk)
    returns (r: Result<DobAttestation, Error>)
    ensures r == Attested(e, blake2s, Fields(dobDays, issuerId, timestamp, nonce, Some(sessionId), Some(clientId)), sk)
    ensures r == Err(FieldTooLong) <==> |issuerId| > 255 || |sessionId| > 255 || |clientId| > 255
    ensures r.Ok? ==> r.value.fields == Fields(dobDays, issuerId, timestamp, nonce, Some(sessionId), Some(clientId))
  {
    var f := Fields(dobDays, issuerId, timestamp, nonce, Some(sessionId), Some(clientId));
    var message := ComputeMessageBytes(blake2s, f);
    r := match message
      case Err(error) => Err(error)
      case Ok(bytes) => Ok(DobAttestation(f, e.sign(sk, bytes)));
  }

  /** The key verifies the signature on the hash of the fields. */
  predicate SignatureHolds<Sk, Vk>(e: Ed25519<Sk, Vk>, blake2s: seq<byte> -> Bytes32, a: DobAttestation, vk: Vk)
    requires Fits(a.fields)
  {
    e.verifyStrict(vk, blake2s(Preimage(a.fields)), a.signature)
  }

  /** Fresh at the given time, of fields that fit, and signed under vk. */
  predicate AcceptedAt<Sk, Vk>(e: Ed25519<Sk, Vk>, blake2s: seq<byte> -> Bytes32, a: DobAttestation, vk: Vk, now: u64) {
    now - 3600 <= a.fields.timestamp <= now + 60 && Fits(a.fields) && SignatureHolds(e, blake2s, a, vk)
  }

  method Verify<Sk, Vk>(e: Ed25519<Sk, Vk>, blake2s: seq<byte> -> Bytes32, a: DobAttestation, vk: Vk)
    returns (r: Result<(), Error>)
    ensures r == if !Fits(a.fields) then Err(FieldTooLong)
                 else if SignatureHolds(e, blake2s, a, vk) then Ok(()) else Err(InvalidSignature)
  {
    var message := ComputeMessageBytes(blake2s, a.fields);
    if message.Err? {
      return Err(message.error);
    }
    r := if e.verifyStrict(vk, message.value, a.signature) then Ok(()) else Err(InvalidSignature);
  }

  /** Neither saturation changes the window: it is the one over the integers. */
  method VerifyWithTimestamp<Sk, Vk>(e: Ed25519<Sk, Vk>, blake2s: seq<byte> -> Bytes32, a: DobAttestation, vk: Vk,
                                     now: u64)
    returns (r: Result<(), Error>)
    ensures r == Err(InvalidInput) <==> a.fields.timestamp > now + 60
    ensures r == Err(Expired) <==> a.fields.timestamp < now - 3600
    ensures r == Err(FieldTooLong) <==> now - 3600 <= a.fields.timestamp <= now + 60 && !Fits(a.fields)
    ensures r.Ok? <==> AcceptedAt(e, blake2s, a, vk, now)
  {
    if a.fields.timestamp > SaturatingAdd(now, ATTESTATION_CLOCK_SKEW_TOLERANCE_SECONDS) {
      return Err(InvalidInput);
    }
    if SaturatingSub(now, a.fields.timestamp) > ATTESTATION_MAX_AGE_SECONDS {
      return Err(Expired);
    }
    r := Verify(e, blake2s, a, vk);
  }

  /** sk and vk are a key pair: what one signs the other verifies. */
  ghost predicate KeyPair<Sk, Vk>(e: Ed25519<Sk, Vk>, sk: Sk, vk: Vk) {
    forall m :: e.verifyStrict(vk, m, e.sign(sk, m))
  }

  /**
   Creating, then verifying: under the other half of the key pair what was
   created holds of exactly the fields given, and is accepted at every time in
   the window. Creating fails exactly on fields that do not fit.
   */
  lemma CreatedVerifies<Sk, Vk>(e: Ed25519<Sk, Vk>, blake2s: seq<byte> -> Bytes32, f: Fields, sk: Sk, vk: Vk)
    requires KeyPair(e, sk, vk)
    ensures Attested(e, blake2s, f, sk).Ok? <==> Fits(f)
    ensures Fits(f) ==>
      var a := Attested(e, blake2s, f, sk).value;
      && a.fields == f && SignatureHolds(e, blake2s, a, vk)
      && forall now: u64 :: now - 3600 <= f.timestamp <= now + 60 ==> AcceptedAt(e, blake2s, a, vk, now)
  {
    hide Preimage;
  }

  /** A signature moved to other fields counts exactly as one on the same bytes when the fields mean the same. */
  lemma SignatureMoves<Sk, Vk>(e: Ed25519<Sk, Vk>, blake2s: seq<byte> -> Bytes32, f: Fields, g: Fields, sk: Sk, vk: Vk)
    requires Fits(f) && Fits(g) && Meaning(f) == Meaning(g)
    ensures var a := Attested(e, blake2s, f, sk).value;
      SignatureHolds(e, blake2s, a, vk) <==> SignatureHolds(e, blake2s, a.(fields := g), vk)
  {
    PreimagesCollide(f, g);
  }
}
