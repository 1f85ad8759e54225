/** src/payloads/e2e_key_payloads.rs: publishing and fetching a key bundle. */
module E2eKeyPayloads {
  import opened Wrappers
  import opened Bytes
  import opened Sizes
  import opened Common

  datatype E2ePublicKey = E2ePublicKey(x25519: Bytes32, mlKemEk: EncapsKey, dsaVerifyingKey: VerifyingKey)

  datatype E2eKeyResponse = E2eKeyResponse(username: Str, key: Option<E2ePublicKey>)

  const E2E_PUBLIC_KEY_SIZE: int := 32 + ML_KEM_768_EK_SIZE + ML_DSA_65_VK_SIZE

  /** The three fixed-size fields, one after another. */
  function KeyBytes(k: E2ePublicKey): (b: bytes)
    ensures |b| == E2E_PUBLIC_KEY_SIZE
  {
    k.x25519 + k.mlKemEk + k.dsaVerifyingKey
  }

  function DecodeKey(b: bytes): Result<E2ePublicKey, PayloadError> {
    if |b| < E2E_PUBLIC_KEY_SIZE then Err(InvalidData)
    else
      var kemEnd := 32 + ML_KEM_768_EK_SIZE;
      Ok(E2ePublicKey(b[..32], b[32..kemEnd], b[kemEnd..E2E_PUBLIC_KEY_SIZE]))
  }

  /** Appends a key bundle to `out`. */
  method AppendKey(k: E2ePublicKey, out: bytes) returns (out': bytes)
    ensures out' == out + KeyBytes(k)
  {
    out' := out + k.x25519;
    out' := out' + k.mlKemEk;
    out' := out' + k.dsaVerifyingKey;
  }

  function EncodePublish(k: E2ePublicKey): bytes {
    KeyBytes(k)
  }

  function DecodePublish(b: bytes): Result<E2ePublicKey, PayloadError> {
    match DecodeKey(b)
    case Err(e) => Err(e)
    case Ok(k) => if FullyConsumed(b, E2E_PUBLIC_KEY_SIZE) then Ok(k) else Err(InvalidData)
  }

  function EncodeKeyResponse(v: E2eKeyResponse): Result<bytes, PayloadError> {
    match EncodeSizedString(v.username)
    case Err(e) => Err(e)
    case Ok(name) =>
      match v.key
      case Some(k) => Ok(name + [0] + KeyBytes(k))
      case None => Ok(name + [1])
  }

  function DecodeKeyResponse(b: bytes): Result<E2eKeyResponse, PayloadError> {
    match DecodeSizedString(b)
    case Err(e) => Err(e)
    case Ok((username, consumed)) =>
      var rest := b[consumed..];
      if |rest| == 0 then Err(InvalidData)
      else if rest[0] == 0 then
        match DecodeKey(rest[1..])
        case Err(e) => Err(e)
        case Ok(k) =>
          if FullyConsumed(b, consumed + 1 + E2E_PUBLIC_KEY_SIZE) then Ok(E2eKeyResponse(username, Some(k))) else Err(InvalidData)
      else if rest[0] == 1 then
        if FullyConsumed(b, consumed + 1) then Ok(E2eKeyResponse(username, None)) else Err(InvalidData)
      else Err(InvalidData)
  }

  method WriteKeyResponse(v: E2eKeyResponse) returns (r: Result<bytes, PayloadError>)
    ensures r == EncodeKeyResponse(v)
  {
    var name := AppendSizedString(v.username);
    if name.Err? {
      return Err(name.error);
    }
    var out := name.value;
    match v.key {
      case Some(k) =>
        out := out + [0];
        out := AppendKey(k, out);
      case None =>
        out := out + [1];
    }
    return Ok(out);
  }

  lemma KeyRoundTrip(k: E2ePublicKey, rest: bytes)
    ensures DecodeKey(KeyBytes(k) + rest) == Ok(k)
  {
    var b := KeyBytes(k) + rest;
    assert b[..32] == k.x25519 && b[32..1216] == k.mlKemEk && b[1216..3168] == k.dsaVerifyingKey;
  }

  lemma KeyCanonical(b: bytes)
    requires DecodeKey(b).Ok?
    ensures KeyBytes(DecodeKey(b).value) == b[..E2E_PUBLIC_KEY_SIZE]
  {
    assert b[..3168] == b[..32] + b[32..1216] + b[1216..3168];
  }

  lemma PublishBijective(k: E2ePublicKey, b: bytes)
    ensures DecodePublish(b) == Ok(k) <==> b == EncodePublish(k)
  {
    KeyRoundTrip(k, []);
    assert KeyBytes(k) + [] == KeyBytes(k);
    if DecodePublish(b).Ok? {
      KeyCanonical(b);
    }
  }

  lemma KeyResponseRoundTrip(v: E2eKeyResponse)
    ensures EncodeKeyResponse(v).Ok? <==> |v.username| <= U16_MAX
    ensures EncodeKeyResponse(v).Ok? ==> DecodeKeyResponse(EncodeKeyResponse(v).value) == Ok(v)
  {
    if |v.username| <= U16_MAX {
      var name := EncodeSizedString(v.username).value;
      match v.key {
        case Some(k) =>
          var rest := [0 as u8] + KeyBytes(k);
          assert name + [0] + KeyBytes(k) == name + rest;
          StringRoundTrip(v.username, rest);
          KeyRoundTrip(k, []);
          assert rest[1..] == KeyBytes(k) + [];
        case None =>
          StringRoundTrip(v.username, [1]);
      }
    }
  }

  lemma KeyResponseCanonical(b: bytes)
    requires DecodeKeyResponse(b).Ok?
    ensures EncodeKeyResponse(DecodeKeyResponse(b).value) == Ok(b)
  {
    StringCanonical(b);
    var n := DecodeSizedString(b).value.1;
    var rest := b[n..];
    assert rest == [rest[0]] + rest[1..];
    if rest[0] == 0 {
      KeyCanonical(rest[1..]);
      assert b == b[..n] + [0] + rest[1..][..E2E_PUBLIC_KEY_SIZE];
    } else {
      assert b == b[..n] + [1];
    }
  }

  /** What follows the name: the status byte, the key if there is one, and the rest. */
  function AfterName(v: E2eKeyResponse, rest: bytes): bytes {
    match v.key
    case Some(k) => [0] + (KeyBytes(k) + rest)
    case None => [1] + rest
  }

  lemma KeyResponseIsNamed(v: E2eKeyResponse, rest: bytes)
    requires EncodeKeyResponse(v).Ok?
    ensures EncodeSizedString(v.username).Ok?
    ensures EncodeKeyResponse(v).value + rest == EncodeSizedString(v.username).value + AfterName(v, rest)
  {
    var name := EncodeSizedString(v.username).value;
    if v.key.Some? {
      assert name + [0] + KeyBytes(v.key.value) + rest == name + ([0] + (KeyBytes(v.key.value) + rest));
    } else {
      assert name + [1] + rest == name + ([1] + rest);
    }
  }

  lemma KeyResponseUnambiguous(v1: E2eKeyResponse, r1: bytes, v2: E2eKeyResponse, r2: bytes)
    requires EncodeKeyResponse(v1).Ok? && EncodeKeyResponse(v2).Ok?
    requires EncodeKeyResponse(v1).value + r1 == EncodeKeyResponse(v2).value + r2
    ensures v1 == v2 && r1 == r2
  {
    KeyResponseIsNamed(v1, r1);
    KeyResponseIsNamed(v2, r2);
    var t1, t2 := AfterName(v1, r1), AfterName(v2, r2);
    StringUnambiguous(v1.username, t1, v2.username, t2);
    assert t1[0] == t2[0] && t1[1..] == t2[1..];
    if v1.key.Some? {
      assert t1[1..] == KeyBytes(v1.key.value) + r1 && t2[1..] == KeyBytes(v2.key.value) + r2;
      CancelPrefix(KeyBytes(v1.key.value), r1, KeyBytes(v2.key.value), r2);
      KeyRoundTrip(v1.key.value, []);
      KeyRoundTrip(v2.key.value, []);
    } else {
      assert t1[1..] == r1 && t2[1..] == r2;
    }
  }
}
