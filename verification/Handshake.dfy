/** src/crypto/session.rs: hybrid key agreement, run through the wire form of the two hello messages. */
module Handshake {
  import opened Wrappers
  import opened Bytes
  import opened Sizes
  import opened Primitives
  import opened KeyDerivation
  import opened Common
  import opened HelloPayloads
  import C = Codec
  import D = Duplex

  datatype SessionKeys = SessionKeys(clientToServer: Key, serverToClient: Key)

  function DeriveKeys(s: Suite, dhShared: Bytes32, kemShared: Bytes32, context: bytes): SessionKeys {
    SessionKeys(Derive(s, dhShared, kemShared, context, ClientToServer),
                Derive(s, dhShared, kemShared, context, ServerToClient))
  }

  /** The session keys are the two derivations from the same secrets and public material, one a direction. */
  predicate AreSessionKeys(s: Suite, k: SessionKeys, dhShared: Bytes32, kemShared: Bytes32, client: Bytes32, server: Bytes32, ct: KemCiphertext) {
    && k.clientToServer == KeyOf(s, Derivation(dhShared, kemShared, client, server, ct, ClientToServer))
    && k.serverToClient == KeyOf(s, Derivation(dhShared, kemShared, client, server, ct, ServerToClient))
  }

  lemma DerivedAreSessionKeys(s: Suite, dhShared: Bytes32, kemShared: Bytes32, client: Bytes32, server: Bytes32, ct: KemCiphertext)
    ensures AreSessionKeys(s, DeriveKeys(s, dhShared, kemShared, Context(client, server, ct)), dhShared, kemShared, client, server, ct)
  {
    DeriveIs(s, Derivation(dhShared, kemShared, client, server, ct, ClientToServer));
    DeriveIs(s, Derivation(dhShared, kemShared, client, server, ct, ServerToClient));
  }

  /** The two directions never share a key, unless HKDF collides on their two inputs. */
  lemma SessionKeysDiffer(s: Suite, k: SessionKeys, dhShared: Bytes32, kemShared: Bytes32, client: Bytes32, server: Bytes32, ct: KemCiphertext)
    requires AreSessionKeys(s, k, dhShared, kemShared, client, server, ct)
    requires NoCollision(s, Derivation(dhShared, kemShared, client, server, ct, ClientToServer),
                         Derivation(dhShared, kemShared, client, server, ct, ServerToClient))
    ensures k.clientToServer != k.serverToClient
  {
    DerivationsSeparate(s, Derivation(dhShared, kemShared, client, server, ct, ClientToServer),
                        Derivation(dhShared, kemShared, client, server, ct, ServerToClient));
  }

  /** The client's ephemeral secrets; deriving the keys uses up the decapsulation key. */
  class ClientHandshakeState {
    const x25519Secret: Bytes32
    const x25519Public: Bytes32
    const mlKemEk: EncapsKey
    var mlKemDk: Option<Seed64>

    constructor (s: Suite, secret: Bytes32, seed: Seed64)
      ensures x25519Secret == secret && mlKemDk == Some(seed)
      ensures x25519Public == s.dhPublic(secret) && mlKemEk == s.kemKey(seed)
    {
      x25519Secret := secret;
      x25519Public := s.dhPublic(secret);
      mlKemEk := s.kemKey(seed);
      mlKemDk := Some(seed);
    }

    method DeriveSessionKeys(s: Suite, serverX25519: Bytes32, ct: KemCiphertext) returns (r: Result<SessionKeys, ProtocolError>)
      modifies this
      ensures mlKemDk == None
      ensures r == if old(mlKemDk).None? then Err(CryptoError)
                   else Ok(ClientKeys(s, x25519Secret, x25519Public, old(mlKemDk).value, serverX25519, ct))
      ensures r.Ok? ==> AreSessionKeys(s, r.value, s.dh(x25519Secret, serverX25519), s.decapsulate(old(mlKemDk).value, ct),
                                       x25519Public, serverX25519, ct)
    {
      var shared := s.dh(x25519Secret, serverX25519);
      var dk := mlKemDk;
      mlKemDk := None;
      if dk.None? {
        return Err(CryptoError);
      }
      var kemShared := s.decapsulate(dk.value, ct);
      var ctx := x25519Public + serverX25519 + ct;
      DerivedAreSessionKeys(s, shared, kemShared, x25519Public, serverX25519, ct);
      return Ok(DeriveKeys(s, shared, kemShared, ctx));
    }
  }

  function ClientKeys(s: Suite, secret: Bytes32, public: Bytes32, dk: Seed64, serverX25519: Bytes32, ct: KemCiphertext): SessionKeys {
    DeriveKeys(s, s.dh(secret, serverX25519), s.decapsulate(dk, ct), Context(public, serverX25519, ct))
  }

  datatype ServerHandshake = ServerHandshake(x25519Public: Bytes32, mlKemCt: KemCiphertext, keys: SessionKeys)

  /** The server's response, given its ephemeral secret and the encapsulation's randomness. */
  function Respond(s: Suite, secret: Bytes32, randomness: Bytes32, clientX25519: Bytes32, clientEk: EncapsKey)
    : Result<ServerHandshake, ProtocolError>
  {
    var public := s.dhPublic(secret);
    var dhShared := s.dh(secret, clientX25519);
    match s.encapsulate(clientEk, randomness)
    case None => Err(CryptoError)
    case Some((ct, kemShared)) =>
      Ok(ServerHandshake(public, ct, DeriveKeys(s, dhShared, kemShared, Context(clientX25519, public, ct))))
  }

  /** The server's answer: its own public key, the ciphertext, and the session keys from its own two secrets. */
  lemma RespondIs(s: Suite, secret: Bytes32, randomness: Bytes32, clientX25519: Bytes32, clientEk: EncapsKey)
    ensures var r := Respond(s, secret, randomness, clientX25519, clientEk);
            var e := s.encapsulate(clientEk, randomness);
            if e.None? then r == Err(CryptoError)
            else r.Ok? && r.value.x25519Public == s.dhPublic(secret) && r.value.mlKemCt == e.value.0
                 && AreSessionKeys(s, r.value.keys, s.dh(secret, clientX25519), e.value.1, clientX25519, s.dhPublic(secret), e.value.0)
  {
    var e := s.encapsulate(clientEk, randomness);
    if e.Some? {
      DerivedAreSessionKeys(s, s.dh(secret, clientX25519), e.value.1, clientX25519, s.dhPublic(secret), e.value.0);
    }
  }

  /** The client's and the server's secrets for one connection. */
  datatype Secrets = Secrets(clientX25519: Bytes32, clientSeed: Seed64, serverX25519: Bytes32, randomness: Bytes32)

  /** Bytes the client sends first. */
  function HelloBytes(s: Suite, x: Secrets, clientId: Str): Result<bytes, PayloadError> {
    EncodeClientHello(ClientHello(clientId, s.dhPublic(x.clientX25519), s.kemKey(x.clientSeed)))
  }

  /** What the server does with the bytes of a ClientHello: its keys and the bytes it answers. */
  function ServerSide(s: Suite, x: Secrets, serverId: Str, signature: Signature, hello: bytes): Option<(SessionKeys, bytes)> {
    match DecodeClientHello(hello)
    case Err(_) => None
    case Ok(ch) =>
      match Respond(s, x.serverX25519, x.randomness, ch.x25519, ch.mlKemEk)
      case Err(_) => None
      case Ok(r) =>
        match EncodeServerHello(ServerHello(serverId, r.x25519Public, r.mlKemCt, signature))
        case Err(_) => None
        case Ok(answer) => Some((r.keys, answer))
  }

  /** What the client does with the bytes of a ServerHello. */
  function ClientSide(s: Suite, x: Secrets, answer: bytes): Option<SessionKeys> {
    match DecodeServerHello(answer)
    case Err(_) => None
    case Ok(sh) => Some(ClientKeys(s, x.clientX25519, s.dhPublic(x.clientX25519), x.clientSeed, sh.x25519, sh.mlKemCt))
  }

  /** Through the wire form of both hellos, the two sides arrive at the same pair of keys. */
  lemma HandshakeAgrees(s: Suite, x: Secrets, clientId: Str, serverId: Str, signature: Signature)
    requires DhAgrees(s) && KemAgrees(s) && |clientId| <= U16_MAX && |serverId| <= U16_MAX
    ensures var hello := HelloBytes(s, x, clientId);
            && hello.Ok?
            && var server := ServerSide(s, x, serverId, signature, hello.value);
            && server.Some? && ClientSide(s, x, server.value.1) == Some(server.value.0)
  {
    var ch := ClientHello(clientId, s.dhPublic(x.clientX25519), s.kemKey(x.clientSeed));
    ClientHelloRoundTrip(ch);
    var e := s.encapsulate(s.kemKey(x.clientSeed), x.randomness);
    assert e.Some? && s.decapsulate(x.clientSeed, e.value.0) == e.value.1;
    ServerHelloRoundTrip(ServerHello(serverId, s.dhPublic(x.serverX25519), e.value.0, signature));
    assert s.dh(x.clientX25519, s.dhPublic(x.serverX25519)) == s.dh(x.serverX25519, s.dhPublic(x.clientX25519));
  }

  /** Keys assigned to a codec by role, as src/codec.rs:18-21 prescribes. */
  function ClientCodec(c: C.Codec, k: SessionKeys): C.Codec {
    C.Establish(c, k.clientToServer, k.serverToClient)
  }

  function ServerCodec(c: C.Codec, k: SessionKeys): C.Codec {
    C.Establish(c, k.serverToClient, k.clientToServer)
  }

  /** Traffic between two codecs that start with nothing in flight: two queues, and nothing lost either way. */
  ghost predicate DeliversTraffic(aead: Aead, left: C.Codec, right: C.Codec, acts: seq<D.Act>) {
    var link := D.Link(left, right, [], []);
    var queues := D.Queues(true, left.nextSendSeq, right.nextSendSeq, [], []);
    && D.LinkRun(aead, link, acts).1 == D.QueueRun(queues, acts).1
    && D.ReadAt(aead, link, acts, D.Right) <= D.SentBy(aead, link, acts, D.Left)
    && D.ReadAt(aead, link, acts, D.Left) <= D.SentBy(aead, link, acts, D.Right)
  }

  /** The client sends under the client-to-server key and the server under the other; nothing else changes. */
  lemma RoleKeys(k: SessionKeys, client: C.Codec, server: C.Codec)
    ensures ClientCodec(client, k) == client.(session := Some(C.Session(k.clientToServer, k.serverToClient)))
    ensures ServerCodec(server, k) == server.(session := Some(C.Session(k.serverToClient, k.clientToServer)))
  {
  }

  /** Keys assigned by role pair the two codecs, whatever the keys are. */
  lemma {:induction false} RoleKeysDeliver(aead: Aead, k: SessionKeys, client: C.Codec, server: C.Codec, acts: seq<D.Act>)
    requires Correct(aead)
    requires C.Above(server.lastRecvSeq, client.nextSendSeq) && C.Above(client.lastRecvSeq, server.nextSendSeq)
    requires forall i :: 0 <= i < |acts| ==> D.MayAct(true, acts[i])
    ensures DeliversTraffic(aead, ClientCodec(client, k), ServerCodec(server, k), acts)
  {
    var left, right := ClientCodec(client, k), ServerCodec(server, k);
    var link, queues := D.Link(left, right, [], []), D.Queues(true, left.nextSendSeq, right.nextSendSeq, [], []);
    D.StartsEmpty(aead.seal, left, right);
    D.RunRefines(aead, link, queues, acts);
    D.NothingLost(aead, link, queues, acts, D.Right);
    D.NothingLost(aead, link, queues, acts, D.Left);
  }

  /**
   After an honest handshake, each side with the keys it derived itself, every interleaving of
   packets in both directions is delivered as from two queues: each side reads a prefix of what
   the other sent.
   */
  lemma {:induction false} HandshakeThenTraffic(
    s: Suite, x: Secrets, clientId: Str, serverId: Str, signature: Signature,
    client: C.Codec, server: C.Codec, acts: seq<D.Act>)
    requires Lawful(s) && |clientId| <= U16_MAX && |serverId| <= U16_MAX
    requires C.Above(server.lastRecvSeq, client.nextSendSeq) && C.Above(client.lastRecvSeq, server.nextSendSeq)
    requires forall i :: 0 <= i < |acts| ==> D.MayAct(true, acts[i])
    ensures var answered := ServerSide(s, x, serverId, signature, HelloBytes(s, x, clientId).value);
            && answered.Some? && ClientSide(s, x, answered.value.1).Some?
            && DeliversTraffic(s.aead, ClientCodec(client, ClientSide(s, x, answered.value.1).value),
                               ServerCodec(server, answered.value.0), acts)
  {
    HandshakeAgrees(s, x, clientId, serverId, signature);
    var keys := ServerSide(s, x, serverId, signature, HelloBytes(s, x, clientId).value).value.0;
    RoleKeysDeliver(s.aead, keys, client, server, acts);
  }
}
