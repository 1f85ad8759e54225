/** src/payloads/auth_payloads.rs: the client's identity proof. */
module AuthPayloads {
  import opened Wrappers
  import opened Bytes
  import opened Sizes
  import opened Common

  datatype AuthResponse = AuthResponse(publicKey: VerifyingKey, signature: Signature, attestation: bytes)

  const FIXED: int := ML_DSA_65_VK_SIZE + ML_DSA_65_SIG_SIZE

  function EncodeAuthResponse(v: AuthResponse): Result<bytes, PayloadError> {
    match EncodeSizedBytes(v.attestation)
    case Err(e) => Err(e)
    case Ok(att) => Ok(v.publicKey + v.signature + att)
  }

  function DecodeAuthResponse(b: bytes): Result<AuthResponse, PayloadError> {
    if |b| < FIXED + 4 then Err(InvalidData)
    else match DecodeSizedBytes(b[FIXED..])
      case Err(e) => Err(e)
      case Ok((att, consumed)) =>
        if !FullyConsumed(b, FIXED + consumed) then Err(InvalidData)
        else Ok(AuthResponse(b[..ML_DSA_65_VK_SIZE], b[ML_DSA_65_VK_SIZE..FIXED], att))
  }

  method WriteAuthResponse(v: AuthResponse) returns (r: Result<bytes, PayloadError>)
    ensures r == EncodeAuthResponse(v)
  {
    var att := AppendSizedBytes(v.attestation);
    if att.Err? {
      return Err(att.error);
    }
    var out := v.publicKey;
    out := out + v.signature;
    out := out + att.value;
    return Ok(out);
  }

  lemma AuthResponseRoundTrip(v: AuthResponse)
    ensures EncodeAuthResponse(v).Ok? <==> |v.attestation| <= U32_MAX
    ensures EncodeAuthResponse(v).Ok? ==> DecodeAuthResponse(EncodeAuthResponse(v).value) == Ok(v)
  {
    if |v.attestation| <= U32_MAX {
      BytesRoundTrip(v.attestation, []);
      var att := EncodeSizedBytes(v.attestation).value;
      var b := v.publicKey + v.signature + att;
      assert b[FIXED..] == att + [];
      assert b[..ML_DSA_65_VK_SIZE] == v.publicKey && b[ML_DSA_65_VK_SIZE..FIXED] == v.signature;
    }
  }

  lemma AuthResponseCanonical(b: bytes)
    requires DecodeAuthResponse(b).Ok?
    ensures EncodeAuthResponse(DecodeAuthResponse(b).value) == Ok(b)
  {
    BytesCanonical(b[FIXED..]);
    assert b[FIXED..][..|b[FIXED..]|] == b[FIXED..];
    assert b == b[..ML_DSA_65_VK_SIZE] + b[ML_DSA_65_VK_SIZE..FIXED] + b[FIXED..];
  }

  lemma AuthResponseUnambiguous(v1: AuthResponse, r1: bytes, v2: AuthResponse, r2: bytes)
    requires EncodeAuthResponse(v1).Ok? && EncodeAuthResponse(v2).Ok?
    requires EncodeAuthResponse(v1).value + r1 == EncodeAuthResponse(v2).value + r2
    ensures v1 == v2 && r1 == r2
  {
    var a1, a2 := EncodeSizedBytes(v1.attestation).value, EncodeSizedBytes(v2.attestation).value;
    assert v1.publicKey + v1.signature + a1 + r1 == v1.publicKey + (v1.signature + (a1 + r1));
    assert v2.publicKey + v2.signature + a2 + r2 == v2.publicKey + (v2.signature + (a2 + r2));
    CancelPrefix(v1.publicKey, v1.signature + (a1 + r1), v2.publicKey, v2.signature + (a2 + r2));
    CancelPrefix(v1.signature, a1 + r1, v2.signature, a2 + r2);
    BytesUnambiguous(v1.attestation, r1, v2.attestation, r2);
  }
}
