/**
 The inputs of the byte hashes carry tags (crypto-commons/src/constants.rs):
 what is hashed for one purpose is never what is hashed for another.
 */
module Domains {
  import opened Bits
  import opened Constants
  import opened PublicInputs
  import opened Parsing
  import Transcript
  import Attestation
  import Consent

  lemma TagBytes()
    ensures |CRED_DST| == 14 && |DOB_ATTESTATION_DST| == 25 && |ISSUANCE_CONSENT_DST| == 26
            && |REDJUBJUB_NONCE_TAG| == 14
    ensures CRED_DST[0] == DOB_ATTESTATION_DST[0] == ISSUANCE_CONSENT_DST[0] != REDJUBJUB_NONCE_TAG[0]
    ensures CRED_DST[6] == DOB_ATTESTATION_DST[6] != ISSUANCE_CONSENT_DST[6]
    ensures CRED_DST[7] != DOB_ATTESTATION_DST[7]
  {
  }

  /** Credential, attestation, consent and nonce never hash the same bytes, whatever their fields. */
  lemma HashInputsApart(m: Transcript.CredMsg, f: Attestation.Fields, g: Consent.ConsentFields, sk: Bytes32,
                        hash: Bytes32)
    requires Transcript.Fits(m) && Attestation.Fits(f) && Consent.Fits(g)
    ensures var nonce := REDJUBJUB_NONCE_TAG + sk + hash;
      var cred, att, con := Transcript.Encode(m), Attestation.Preimage(f), Consent.Preimage(g);
      cred != att && cred != con && cred != nonce && att != con && att != nonce && con != nonce
  {
    hide Short, Long, BeBytes, LeBytes, Attestation.BindingBytes, Consent.NonceBytes;
    TagBytes();
    var nonce := REDJUBJUB_NONCE_TAG + sk + hash;
    var cred, att, con := Transcript.Encode(m), Attestation.Preimage(f), Consent.Preimage(g);
    assert cred[0] == CRED_DST[0] && cred[6] == CRED_DST[6] && cred[7] == CRED_DST[7];
    assert att[0] == DOB_ATTESTATION_DST[0] && att[6] == DOB_ATTESTATION_DST[6] && att[7] == DOB_ATTESTATION_DST[7];
    assert con[0] == ISSUANCE_CONSENT_DST[0] && con[6] == ISSUANCE_CONSENT_DST[6];
    assert nonce[0] == REDJUBJUB_NONCE_TAG[0];
  }
}
