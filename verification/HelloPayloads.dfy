/** src/payloads/hello_payloads.rs: the two hello messages. */
module HelloPayloads {
  import opened Wrappers
  import opened Bytes
  import opened Sizes
  import opened Common

  datatype ClientHello = ClientHello(clientId: Str, x25519: Bytes32, mlKemEk: EncapsKey)

  datatype ServerHello = ServerHello(serverId: Str, x25519: Bytes32, mlKemCt: KemCiphertext, signature: Signature)

  function EncodeClientHello(v: ClientHello): Result<bytes, PayloadError> {
    match EncodeSizedString(v.clientId)
    case Err(e) => Err(e)
    case Ok(id) => Ok(id + v.x25519 + v.mlKemEk)
  }

  function DecodeClientHello(b: bytes): Result<ClientHello, PayloadError> {
    match DecodeSizedString(b)
    case Err(e) => Err(e)
    case Ok((clientId, consumed)) =>
      var afterId := b[consumed..];
      if |afterId| < 32 + ML_KEM_768_EK_SIZE then Err(InvalidData)
      else if !FullyConsumed(b, consumed + 32 + ML_KEM_768_EK_SIZE) then Err(InvalidData)
      else Ok(ClientHello(clientId, afterId[..32], afterId[32..32 + ML_KEM_768_EK_SIZE]))
  }

  function EncodeServerHello(v: ServerHello): Result<bytes, PayloadError> {
    match EncodeSizedString(v.serverId)
    case Err(e) => Err(e)
    case Ok(id) => Ok(id + v.x25519 + v.mlKemCt + v.signature)
  }

  function DecodeServerHello(b: bytes): Result<ServerHello, PayloadError> {
    match DecodeSizedString(b)
    case Err(e) => Err(e)
    case Ok((serverId, consumed)) =>
      var afterId := b[consumed..];
      var kemEnd := 32 + ML_KEM_768_CT_SIZE;
      var fixedLen := 32 + ML_KEM_768_CT_SIZE + ML_DSA_65_SIG_SIZE;
      if |afterId| < fixedLen then Err(InvalidData)
      else if !FullyConsumed(b, consumed + fixedLen) then Err(InvalidData)
      else Ok(ServerHello(serverId, afterId[..32], afterId[32..kemEnd], afterId[kemEnd..fixedLen]))
  }

  method WriteClientHello(v: ClientHello) returns (r: Result<bytes, PayloadError>)
    ensures r == EncodeClientHello(v)
  {
    var id := AppendSizedString(v.clientId);
    if id.Err? {
      return Err(id.error);
    }
    var out := id.value;
    out := out + v.x25519;
    out := out + v.mlKemEk;
    return Ok(out);
  }

  method WriteServerHello(v: ServerHello) returns (r: Result<bytes, PayloadError>)
    ensures r == EncodeServerHello(v)
  {
    var id := AppendSizedString(v.serverId);
    if id.Err? {
      return Err(id.error);
    }
    var out := id.value;
    out := out + v.x25519;
    out := out + v.mlKemCt;
    out := out + v.signature;
    return Ok(out);
  }

  lemma ClientHelloRoundTrip(v: ClientHello)
    ensures EncodeClientHello(v).Ok? <==> |v.clientId| <= U16_MAX
    ensures EncodeClientHello(v).Ok? ==> DecodeClientHello(EncodeClientHello(v).value) == Ok(v)
  {
    if |v.clientId| <= U16_MAX {
      var id := EncodeSizedString(v.clientId).value;
      assert id + v.x25519 + v.mlKemEk == id + (v.x25519 + v.mlKemEk);
      StringRoundTrip(v.clientId, v.x25519 + v.mlKemEk);
      assert (v.x25519 + v.mlKemEk)[..32] == v.x25519 && (v.x25519 + v.mlKemEk)[32..1216] == v.mlKemEk;
    }
  }

  lemma ClientHelloCanonical(b: bytes)
    requires DecodeClientHello(b).Ok?
    ensures EncodeClientHello(DecodeClientHello(b).value) == Ok(b)
  {
    StringCanonical(b);
    var n := DecodeSizedString(b).value.1;
    assert b == b[..n] + b[n..][..32] + b[n..][32..1216];
  }

  lemma ClientHelloUnambiguous(v1: ClientHello, r1: bytes, v2: ClientHello, r2: bytes)
    requires EncodeClientHello(v1).Ok? && EncodeClientHello(v2).Ok?
    requires EncodeClientHello(v1).value + r1 == EncodeClientHello(v2).value + r2
    ensures v1 == v2 && r1 == r2
  {
    var id1, id2 := EncodeSizedString(v1.clientId).value, EncodeSizedString(v2.clientId).value;
    assert id1 + v1.x25519 + v1.mlKemEk + r1 == id1 + (v1.x25519 + (v1.mlKemEk + r1));
    assert id2 + v2.x25519 + v2.mlKemEk + r2 == id2 + (v2.x25519 + (v2.mlKemEk + r2));
    StringUnambiguous(v1.clientId, v1.x25519 + (v1.mlKemEk + r1), v2.clientId, v2.x25519 + (v2.mlKemEk + r2));
    CancelPrefix(v1.x25519, v1.mlKemEk + r1, v2.x25519, v2.mlKemEk + r2);
    CancelPrefix(v1.mlKemEk, r1, v2.mlKemEk, r2);
  }

  lemma ServerHelloRoundTrip(v: ServerHello)
    ensures EncodeServerHello(v).Ok? <==> |v.serverId| <= U16_MAX
    ensures EncodeServerHello(v).Ok? ==> DecodeServerHello(EncodeServerHello(v).value) == Ok(v)
  {
    if |v.serverId| <= U16_MAX {
      var id := EncodeSizedString(v.serverId).value;
      var fixed := v.x25519 + v.mlKemCt + v.signature;
      assert id + v.x25519 + v.mlKemCt + v.signature == id + fixed;
      StringRoundTrip(v.serverId, fixed);
      assert fixed[..32] == v.x25519 && fixed[32..1120] == v.mlKemCt && fixed[1120..4429] == v.signature;
    }
  }

  lemma ServerHelloCanonical(b: bytes)
    requires DecodeServerHello(b).Ok?
    ensures EncodeServerHello(DecodeServerHello(b).value) == Ok(b)
  {
    StringCanonical(b);
    var n := DecodeSizedString(b).value.1;
    var fixed := b[n..];
    assert b == b[..n] + fixed[..32] + fixed[32..1120] + fixed[1120..4429];
  }

  lemma ServerHelloUnambiguous(v1: ServerHello, r1: bytes, v2: ServerHello, r2: bytes)
    requires EncodeServerHello(v1).Ok? && EncodeServerHello(v2).Ok?
    requires EncodeServerHello(v1).value + r1 == EncodeServerHello(v2).value + r2
    ensures v1 == v2 && r1 == r2
  {
    var id1, id2 := EncodeSizedString(v1.serverId).value, EncodeSizedString(v2.serverId).value;
    var t1, t2 := v1.mlKemCt + (v1.signature + r1), v2.mlKemCt + (v2.signature + r2);
    assert id1 + v1.x25519 + v1.mlKemCt + v1.signature + r1 == id1 + (v1.x25519 + t1);
    assert id2 + v2.x25519 + v2.mlKemCt + v2.signature + r2 == id2 + (v2.x25519 + t2);
    StringUnambiguous(v1.serverId, v1.x25519 + t1, v2.serverId, v2.x25519 + t2);
    CancelPrefix(v1.x25519, t1, v2.x25519, t2);
    CancelPrefix(v1.mlKemCt, v1.signature + r1, v2.mlKemCt, v2.signature + r2);
    CancelPrefix(v1.signature, r1, v2.signature, r2);
  }
}
