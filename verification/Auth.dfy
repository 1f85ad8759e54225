/** src/crypto/auth.rs: what each side signs, and what an accepted signature says about the session. */
module Auth {
  import opened Wrappers
  import opened Bytes
  import opened Sizes
  import opened Primitives
  import opened HelloPayloads

  /** A streaming hash: updates append, and the digest is of everything absorbed. */
  class Hasher {
    var absorbed: bytes

    constructor ()
      ensures absorbed == []
    {
      absorbed := [];
    }

    method Update(b: bytes)
      modifies this
      ensures absorbed == old(absorbed) + b
    {
      absorbed := absorbed + b;
    }

    method Finalize(s: Suite) returns (digest: Bytes32)
      ensures digest == s.sha256(absorbed)
    {
      digest := s.sha256(absorbed);
    }
  }

  function Transcript(s: Suite, clientHello: bytes, serverHello: bytes): Bytes32 {
    s.sha256(clientHello + serverHello)
  }

  method ComputeHandshakeTranscript(s: Suite, clientHello: bytes, serverHello: bytes) returns (t: Bytes32)
    ensures t == Transcript(s, clientHello, serverHello)
  {
    var hasher := new Hasher();
    hasher.Update(clientHello);
    hasher.Update(serverHello);
    assert [] + clientHello + serverHello == clientHello + serverHello;
    t := hasher.Finalize(s);
  }

  function AuthMessage(transcript: Bytes32, nonce: Bytes32): bytes {
    transcript + nonce
  }

  function SignAuthResponse(s: Suite, transcript: Bytes32, nonce: Bytes32, seed: Bytes32): Signature {
    s.sign(seed, AuthMessage(transcript, nonce))
  }

  function VerifyAuthResponse(s: Suite, transcript: Bytes32, nonce: Bytes32, key: VerifyingKey, sig: Signature): Result<(), ProtocolError> {
    if s.verify(key, AuthMessage(transcript, nonce), sig) then Ok(()) else Err(CryptoError)
  }

  function ServerHelloMessage(s: Suite, clientHello: bytes, x25519: Bytes32, ct: KemCiphertext): bytes {
    s.sha256(clientHello) + x25519 + ct
  }

  function SignServerHello(s: Suite, clientHello: bytes, x25519: Bytes32, ct: KemCiphertext, seed: Bytes32): Signature {
    s.sign(seed, ServerHelloMessage(s, clientHello, x25519, ct))
  }

  function VerifyServerHello(s: Suite, clientHello: bytes, x25519: Bytes32, ct: KemCiphertext, key: VerifyingKey, sig: Signature)
    : Result<(), ProtocolError>
  {
    if s.verify(key, ServerHelloMessage(s, clientHello, x25519, ct), sig) then Ok(()) else Err(CryptoError)
  }

  /** The unseparated concatenation that is hashed determines both hello messages. */
  lemma TranscriptUnambiguous(ch1: bytes, sh1: bytes, ch2: bytes, sh2: bytes)
    requires DecodeClientHello(ch1).Ok? && DecodeClientHello(ch2).Ok?
    requires ch1 + sh1 == ch2 + sh2
    ensures ch1 == ch2 && sh1 == sh2
  {
    ClientHelloCanonical(ch1);
    ClientHelloCanonical(ch2);
    ClientHelloUnambiguous(DecodeClientHello(ch1).value, sh1, DecodeClientHello(ch2).value, sh2);
  }

  /** SHA-256 does not collide on these two inputs. */
  predicate NoCollision(s: Suite, a: bytes, b: bytes) {
    s.sha256(a) == s.sha256(b) ==> a == b
  }

  /** The hello bytes one side saw, and the nonce it was asked to sign or issued. */
  datatype Session = Session(clientHello: bytes, serverHello: bytes, nonce: Bytes32)

  function SessionMessage(s: Suite, x: Session): bytes {
    AuthMessage(Transcript(s, x.clientHello, x.serverHello), x.nonce)
  }

  /** Equal signed messages come from equal sessions, unless SHA-256 collides on the two transcripts. */
  lemma SignedMessageBindsSession(s: Suite, x: Session, y: Session)
    requires DecodeClientHello(x.clientHello).Ok? && DecodeClientHello(y.clientHello).Ok?
    requires NoCollision(s, x.clientHello + x.serverHello, y.clientHello + y.serverHello)
    ensures SessionMessage(s, x) == SessionMessage(s, y) <==> x == y
  {
    if SessionMessage(s, x) == SessionMessage(s, y) {
      CancelPrefix(Transcript(s, x.clientHello, x.serverHello), x.nonce, Transcript(s, y.clientHello, y.serverHello), y.nonce);
      TranscriptUnambiguous(x.clientHello, x.serverHello, y.clientHello, y.serverHello);
    }
  }

  /** The signature presented is no forgery: if it verifies, its message is one the key's owner signed. */
  ghost predicate NotForged(s: Suite, key: VerifyingKey, message: bytes, sig: Signature, signed: seq<Session>) {
    s.verify(key, message, sig) ==> exists i :: 0 <= i < |signed| && message == SessionMessage(s, signed[i])
  }

  /**
   A server accepts an auth response for its own view of a session only if the client signed
   in that very session: the same hello bytes both ways, and the same nonce.
   */
  lemma AcceptedResponseIsForThisSession(s: Suite, key: VerifyingKey, sig: Signature, mine: Session, signed: seq<Session>)
    requires NotForged(s, key, SessionMessage(s, mine), sig, signed)
    requires DecodeClientHello(mine.clientHello).Ok?
    requires forall i :: 0 <= i < |signed| ==>
      && DecodeClientHello(signed[i].clientHello).Ok?
      && NoCollision(s, signed[i].clientHello + signed[i].serverHello, mine.clientHello + mine.serverHello)
    requires VerifyAuthResponse(s, Transcript(s, mine.clientHello, mine.serverHello), mine.nonce, key, sig).Ok?
    ensures mine in signed
  {
    var i :| 0 <= i < |signed| && SessionMessage(s, mine) == SessionMessage(s, signed[i]);
    SignedMessageBindsSession(s, signed[i], mine);
  }

  /** The server's signed message binds its key material to this client's hello. */
  lemma ServerHelloMessageBinds(s: Suite, ch1: bytes, x1: Bytes32, ct1: KemCiphertext, ch2: bytes, x2: Bytes32, ct2: KemCiphertext)
    requires NoCollision(s, ch1, ch2)
    ensures ServerHelloMessage(s, ch1, x1, ct1) == ServerHelloMessage(s, ch2, x2, ct2) <==> ch1 == ch2 && x1 == x2 && ct1 == ct2
  {
    if ServerHelloMessage(s, ch1, x1, ct1) == ServerHelloMessage(s, ch2, x2, ct2) {
      assert s.sha256(ch1) + x1 + ct1 == s.sha256(ch1) + (x1 + ct1);
      assert s.sha256(ch2) + x2 + ct2 == s.sha256(ch2) + (x2 + ct2);
      CancelPrefix(s.sha256(ch1), x1 + ct1, s.sha256(ch2), x2 + ct2);
      CancelPrefix(x1, ct1, x2, ct2);
    }
  }

  /** One ServerHello as the key's owner signed it. */
  datatype Offer = Offer(clientHello: bytes, x25519: Bytes32, ct: KemCiphertext)

  function OfferMessage(s: Suite, o: Offer): bytes {
    ServerHelloMessage(s, o.clientHello, o.x25519, o.ct)
  }

  /** The signature presented is no forgery: if it verifies, its message is one the pinned key's owner signed. */
  ghost predicate OfferNotForged(s: Suite, pinned: VerifyingKey, message: bytes, sig: Signature, signed: seq<Offer>) {
    s.verify(pinned, message, sig) ==> exists i :: 0 <= i < |signed| && message == OfferMessage(s, signed[i])
  }

  /**
   A client accepts a ServerHello only if the pinned key's owner signed this very client hello,
   X25519 key and ciphertext.
   */
  lemma AcceptedServerHelloIsForThisHello(s: Suite, pinned: VerifyingKey, sig: Signature, mine: Offer, signed: seq<Offer>)
    requires OfferNotForged(s, pinned, OfferMessage(s, mine), sig, signed)
    requires forall i :: 0 <= i < |signed| ==> NoCollision(s, signed[i].clientHello, mine.clientHello)
    requires VerifyServerHello(s, mine.clientHello, mine.x25519, mine.ct, pinned, sig).Ok?
    ensures mine in signed
  {
    var i :| 0 <= i < |signed| && OfferMessage(s, mine) == OfferMessage(s, signed[i]);
    ServerHelloMessageBinds(s, signed[i].clientHello, signed[i].x25519, signed[i].ct, mine.clientHello, mine.x25519, mine.ct);
  }

  /** Each side accepts exactly the signatures that verify on the message spelled out here, and answers CryptoError to others. */
  lemma VerificationIsExact(s: Suite, key: VerifyingKey, sig: Signature, x: Session, x25519: Bytes32, ct: KemCiphertext)
    ensures VerifyAuthResponse(s, Transcript(s, x.clientHello, x.serverHello), x.nonce, key, sig)
         == if s.verify(key, s.sha256(x.clientHello + x.serverHello) + x.nonce, sig) then Ok(()) else Err(CryptoError)
    ensures VerifyServerHello(s, x.clientHello, x25519, ct, key, sig)
         == if s.verify(key, s.sha256(x.clientHello) + x25519 + ct, sig) then Ok(()) else Err(CryptoError)
  {
  }

  /** The signed message is the transcript digest and then the nonce, 32 bytes each. */
  lemma MessageLayout(s: Suite, x: Session)
    ensures var m := SessionMessage(s, x);
            |m| == 64 && m[..32] == s.sha256(x.clientHello + x.serverHello) && m[32..] == x.nonce
  {
  }

  /** Honest signatures on both sides verify. */
  lemma HonestSignaturesVerify(s: Suite, x: Session, seed: Bytes32, x25519: Bytes32, ct: KemCiphertext)
    requires SignaturesVerify(s)
    ensures var t := Transcript(s, x.clientHello, x.serverHello);
            VerifyAuthResponse(s, t, x.nonce, s.verifyingKey(seed), SignAuthResponse(s, t, x.nonce, seed)).Ok?
    ensures VerifyServerHello(s, x.clientHello, x25519, ct, s.verifyingKey(seed),
                              SignServerHello(s, x.clientHello, x25519, ct, seed)).Ok?
  {
  }
}
