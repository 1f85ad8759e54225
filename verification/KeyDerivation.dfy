/** The HKDF info strings of src/crypto/session.rs and src/crypto/e2e.rs: a context of public material, then a purpose label. */
module KeyDerivation {
  import opened Bytes
  import opened Sizes
  import opened Primitives

  function Ascii(s: string): (b: bytes)
    requires forall i :: 0 <= i < |s| ==> s[i] < 128 as char
    ensures |b| == |s|
  {
    seq(|s|, i requires 0 <= i < |s| => s[i] as u8)
  }

  /** What a key is derived for. */
  datatype Purpose = ClientToServer | ServerToClient | E2eContent

  function LabelText(p: Purpose): string {
    match p
    case ClientToServer => "chatix-c2s-v1"
    case ServerToClient => "chatix-s2c-v1"
    case E2eContent => "chatix-e2e-content-v1"
  }

  function Label(p: Purpose): bytes {
    Ascii(LabelText(p))
  }

  /** `handshake_context` and `e2e_context`: initiator's key, responder's key, KEM ciphertext. */
  function Context(initiator: Bytes32, responder: Bytes32, ct: KemCiphertext): bytes {
    initiator + responder + ct
  }

  function Derive(s: Suite, dhShared: Bytes32, kemShared: Bytes32, context: bytes, p: Purpose): Key {
    s.hkdf(dhShared + kemShared, context + Label(p))
  }

  /** One derivation: everything that goes into it. */
  datatype Derivation = Derivation(
    dhShared: Bytes32, kemShared: Bytes32, initiator: Bytes32, responder: Bytes32, ct: KemCiphertext, purpose: Purpose)

  function Ikm(d: Derivation): bytes {
    d.dhShared + d.kemShared
  }

  /** The bytes of "chatix-c2s-v1", "chatix-s2c-v1" and "chatix-e2e-content-v1". */
  function LabelBytes(p: Purpose): bytes {
    match p
    case ClientToServer => [0x63, 0x68, 0x61, 0x74, 0x69, 0x78, 0x2d, 0x63, 0x32, 0x73, 0x2d, 0x76, 0x31]
    case ServerToClient => [0x63, 0x68, 0x61, 0x74, 0x69, 0x78, 0x2d, 0x73, 0x32, 0x63, 0x2d, 0x76, 0x31]
    case E2eContent => [0x63, 0x68, 0x61, 0x74, 0x69, 0x78, 0x2d, 0x65, 0x32, 0x65, 0x2d,
                        0x63, 0x6f, 0x6e, 0x74, 0x65, 0x6e, 0x74, 0x2d, 0x76, 0x31]
  }

  function Info(d: Derivation): bytes {
    d.initiator + d.responder + d.ct + LabelBytes(d.purpose)
  }

  /** The key of a derivation: HKDF of both secrets, then of both public keys, the ciphertext and the label. */
  function KeyOf(s: Suite, d: Derivation): Key {
    s.hkdf(Ikm(d), Info(d))
  }

  /** What the code derives is the key of the derivation, label spelled out. */
  lemma DeriveIs(s: Suite, d: Derivation)
    ensures Derive(s, d.dhShared, d.kemShared, Context(d.initiator, d.responder, d.ct), d.purpose) == KeyOf(s, d)
  {
    match d.purpose
    case ClientToServer => assert Label(ClientToServer) == LabelBytes(ClientToServer);
    case ServerToClient => assert Label(ServerToClient) == LabelBytes(ServerToClient);
    case E2eContent => assert Label(E2eContent) == LabelBytes(E2eContent);
  }

  lemma LabelsDiffer(p: Purpose, q: Purpose)
    requires LabelBytes(p) == LabelBytes(q)
    ensures p == q
  {
    assert |LabelBytes(p)| == |LabelBytes(q)| && LabelBytes(p)[7] == LabelBytes(q)[7];
  }

  /** The info string determines both public keys, the ciphertext and the purpose. */
  lemma InfoInjective(a: Derivation, b: Derivation)
    requires Info(a) == Info(b)
    ensures a.initiator == b.initiator && a.responder == b.responder && a.ct == b.ct && a.purpose == b.purpose
  {
    var ca, cb := a.initiator + a.responder + a.ct, b.initiator + b.responder + b.ct;
    CancelPrefix(ca, LabelBytes(a.purpose), cb, LabelBytes(b.purpose));
    LabelsDiffer(a.purpose, b.purpose);
    assert ca == a.initiator + (a.responder + a.ct) && cb == b.initiator + (b.responder + b.ct);
    CancelPrefix(a.initiator, a.responder + a.ct, b.initiator, b.responder + b.ct);
    CancelPrefix(a.responder, a.ct, b.responder, b.ct);
  }

  /** HKDF does not collide on the inputs of these two derivations. */
  predicate NoCollision(s: Suite, a: Derivation, b: Derivation) {
    KeyOf(s, a) == KeyOf(s, b) ==> Ikm(a) == Ikm(b) && Info(a) == Info(b)
  }

  /** Two derivations, of either layer, yield one key only if they are one derivation or HKDF collides on them. */
  lemma DerivationsSeparate(s: Suite, a: Derivation, b: Derivation)
    requires NoCollision(s, a, b)
    ensures KeyOf(s, a) == KeyOf(s, b) <==> a == b
  {
    if KeyOf(s, a) == KeyOf(s, b) {
      CancelPrefix(a.dhShared, a.kemShared, b.dhShared, b.kemShared);
      InfoInjective(a, b);
    }
  }
}
