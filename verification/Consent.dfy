/** The bytes a wallet signs to consent to issuance (crypto-protocol/src/lib.rs). */
module Consent {
  import opened Wrappers
  import opened Bits
  import opened Constants
  import opened PublicInputs
  import opened Parsing

  type Nonce16 = s: seq<byte> | |s| == 16 witness seq(16, _ => 0)

  datatype ConsentFields = ConsentFields(sessionId: seq<byte>, issuerId: seq<byte>, issuerKid: seq<byte>,
                                         walletPubkey: Bytes32, consentTime: i64, termsVersion: u32,
                                         nonce: Option<Nonce16>)

  predicate Fits(f: ConsentFields) {
    |f.sessionId| < U32_SIZE && |f.issuerId| < U32_SIZE && |f.issuerKid| < U32_SIZE
  }

  function ReinterpretAsU64(x: i64): u64 { if x < 0 then x + 0x1_0000_0000_0000_0000 else x }
  function ReinterpretAsI64(x: u64): i64 { if x < 0x8000_0000_0000_0000 then x else x - 0x1_0000_0000_0000_0000 }

  function NonceBytes(n: Option<Nonce16>): seq<byte> {
    match n
    case Some(b) => [1] + b
    case None => [0]
  }

  function Preimage(f: ConsentFields): seq<byte>
    requires Fits(f)
  {
    ISSUANCE_CONSENT_DST + (Long(f.sessionId) + (Long(f.issuerId) + (Long(f.issuerKid) + (f.walletPubkey +
      (LeBytes(ReinterpretAsU64(f.consentTime), 8) + (LeBytes(f.termsVersion, 4) + NonceBytes(f.nonce)))))))
  }

  method WriteLengthPrefixed(hashed: seq<byte>, data: seq<byte>) returns (r: Result<seq<byte>, Error>)
    ensures r == if |data| < U32_SIZE then Ok(hashed + Long(data)) else Err(InvalidInput)
  {
    if |data| >= U32_SIZE {
      return Err(InvalidInput);
    }
    var h := hashed + LeBytes(|data|, 4);
    AppendAssoc(hashed, LeBytes(|data|, 4), data);
    r := Ok(h + data);
  }

  method BuildIssuanceConsentMessage(sha256: seq<byte> -> Bytes32, f: ConsentFields) returns (r: Result<Bytes32, Error>)
    ensures r == if Fits(f) then Ok(sha256(Preimage(f))) else Err(InvalidInput)
  {
    hide Long, LeBytes;
    var h1 := WriteLengthPrefixed(ISSUANCE_CONSENT_DST, f.sessionId);
    if h1.Err? { return Err(h1.error); }
    var h2 := WriteLengthPrefixed(h1.value, f.issuerId);
    if h2.Err? { return Err(h2.error); }
    var h3 := WriteLengthPrefixed(h2.value, f.issuerKid);
    if h3.Err? { return Err(h3.error); }
    var h := h3.value + f.walletPubkey;
    h := h + LeBytes(ReinterpretAsU64(f.consentTime), 8);
    h := h + LeBytes(f.termsVersion, 4);
    match f.nonce {
      case Some(n) =>
        h := h + [1];
        h := h + n;
      case None =>
        h := h + [0];
    }
    RightNest(ISSUANCE_CONSENT_DST, Long(f.sessionId), Long(f.issuerId), Long(f.issuerKid), f.walletPubkey,
              LeBytes(ReinterpretAsU64(f.consentTime), 8), LeBytes(f.termsVersion, 4), NonceBytes(f.nonce));
    assert h == ISSUANCE_CONSENT_DST + Long(f.sessionId) + Long(f.issuerId) + Long(f.issuerKid) + f.walletPubkey
      + LeBytes(ReinterpretAsU64(f.consentTime), 8) + LeBytes(f.termsVersion, 4) + NonceBytes(f.nonce);
    r := Ok(sha256(h));
  }

  lemma RightNest<T>(a: seq<T>, b: seq<T>, c: seq<T>, d: seq<T>, e: seq<T>, f: seq<T>, g: seq<T>, h: seq<T>)
    ensures a + b + c + d + e + f + g + h == a + (b + (c + (d + (e + (f + (g + h))))))
  {
    AppendAssoc(a + b + c + d + e + f, g, h);
    AppendAssoc(a + b + c + d + e, f, g + h);
    AppendAssoc(a + b + c + d, e, f + (g + h));
    AppendAssoc(a + b + c, d, e + (f + (g + h)));
    AppendAssoc(a + b, c, d + (e + (f + (g + h))));
    AppendAssoc(a, b, c + (d + (e + (f + (g + h)))));
  }

  function ParseNonce(bs: seq<byte>): Option<Option<Nonce16>> {
    if bs == [0] then Some(None)
    else if |bs| == 17 && bs[0] == 1 then Some(Some(bs[1..]))
    else None
  }

  function Parse(bs: seq<byte>): Option<ConsentFields> {
    var bs1 :- TakeTag(bs, ISSUANCE_CONSENT_DST);
    var (sid, bs2) :- TakeLong(bs1);
    var (issuer, bs3) :- TakeLong(bs2);
    var (kid, bs4) :- TakeLong(bs3);
    var (wallet, bs5) :- Take(bs4, 32);
    var (time, bs6) :- Take(bs5, 8);
    var (terms, bs7) :- Take(bs6, 4);
    var nonce :- ParseNonce(bs7);
    Some(ConsentFields(sid, issuer, kid, wallet, ReinterpretAsI64(FromLeU64(time)), FromLeU32(terms), nonce))
  }

  function FromLeU64(b: seq<byte>): u64
    requires |b| == 8
  {
    LeOfFrom(b);
    Pow2Words();
    FromLe(b)
  }

  function FromLeU32(b: seq<byte>): u32
    requires |b| == 4
  {
    LeOfFrom(b);
    Pow2Words();
    FromLe(b)
  }

  /** All seven fields come back from the bytes, for any lengths the code accepts. */
  lemma ParsePreimage(f: ConsentFields)
    requires Fits(f)
    ensures Parse(Preimage(f)) == Some(f)
  {
    hide LeBytes, FromLe, Take, TakeTag, TakeLong, Long, NonceBytes, ParseNonce;
    var t7 := NonceBytes(f.nonce);
    var t6 := LeBytes(f.termsVersion, 4) + t7;
    var t5 := LeBytes(ReinterpretAsU64(f.consentTime), 8) + t6;
    var t4 := f.walletPubkey + t5;
    var t3 := Long(f.issuerKid) + t4;
    var t2 := Long(f.issuerId) + t3;
    TakeTagOf(ISSUANCE_CONSENT_DST, Long(f.sessionId) + t2);
    TakeLongOf(f.sessionId, t2);
    TakeLongOf(f.issuerId, t3);
    TakeLongOf(f.issuerKid, t4);
    TakeOf(f.walletPubkey, t5);
    TakeOf(LeBytes(ReinterpretAsU64(f.consentTime), 8), t6);
    TakeOf(LeBytes(f.termsVersion, 4), t7);
    ParseNonceBytes(f.nonce);
    Pow2Words();
    FromLeOf(ReinterpretAsU64(f.consentTime), 8);
    FromLeOf(f.termsVersion, 4);
  }

  lemma ParseNonceBytes(n: Option<Nonce16>)
    ensures ParseNonce(NonceBytes(n)) == Some(n)
  {
  }

  /** Hence different arguments are hashed as different bytes, nonce presence included. */
  lemma PreimageInjective(f: ConsentFields, g: ConsentFields)
    requires Fits(f) && Fits(g) && Preimage(f) == Preimage(g)
    ensures f == g
  {
    ParsePreimage(f);
    ParsePreimage(g);
  }
}
