/** src/crypto/e2e.rs: end-to-end encryption of message content. */
module E2e {
  import opened Wrappers
  import opened Bytes
  import opened Sizes
  import opened Primitives
  import opened KeyDerivation

  const SENDER_X25519_END: int := 32
  const ML_KEM_CT_END: int := SENDER_X25519_END + ML_KEM_768_CT_SIZE
  const AES_NONCE_END: int := ML_KEM_CT_END + NONCE_LEN
  const MIN_BLOB_LEN: int := AES_NONCE_END + GCM_TAG_LEN + ML_DSA_65_SIG_SIZE

  /** The parts of a content blob. */
  datatype Parts = Parts(senderX25519: Bytes32, mlKemCt: KemCiphertext, nonce: Nonce, text: bytes, signature: Signature)

  function Unsigned(p: Parts): bytes {
    p.senderX25519 + p.mlKemCt + p.nonce + p.text
  }

  function Assemble(p: Parts): bytes {
    Unsigned(p) + p.signature
  }

  /** Slices a blob at the fixed offsets. */
  function Slice(blob: bytes): Parts
    requires |blob| >= MIN_BLOB_LEN
  {
    var signedPart, sig := blob[..|blob| - ML_DSA_65_SIG_SIZE], blob[|blob| - ML_DSA_65_SIG_SIZE..];
    Parts(signedPart[..SENDER_X25519_END], signedPart[SENDER_X25519_END..ML_KEM_CT_END],
          signedPart[ML_KEM_CT_END..AES_NONCE_END], signedPart[AES_NONCE_END..], sig)
  }

  /** Slicing and assembling undo each other, and the length of the text is what is not fixed. */
  lemma BlobLayout(p: Parts, blob: bytes)
    ensures |Assemble(p)| == AES_NONCE_END + |p.text| + ML_DSA_65_SIG_SIZE
    ensures |p.text| >= GCM_TAG_LEN ==> Slice(Assemble(p)) == p
    ensures |blob| >= MIN_BLOB_LEN ==>
              && Assemble(Slice(blob)) == blob
              && Unsigned(Slice(blob)) == blob[..|blob| - ML_DSA_65_SIG_SIZE]
  {
    var u := Unsigned(p);
    assert u[..32] == p.senderX25519 && u[32..1120] == p.mlKemCt && u[1120..1132] == p.nonce && u[1132..] == p.text;
    SplitConcat(u, p.signature);
    if |blob| >= MIN_BLOB_LEN {
      var s := blob[..|blob| - ML_DSA_65_SIG_SIZE];
      assert s == s[..32] + s[32..1120] + s[1120..1132] + s[1132..];
      assert blob == s + blob[|blob| - ML_DSA_65_SIG_SIZE..];
    }
  }

  function ContentKey(s: Suite, dhShared: Bytes32, kemShared: Bytes32, context: bytes): Key {
    Derive(s, dhShared, kemShared, context, E2eContent)
  }

  /** The random values one encryption draws. */
  datatype Draws = Draws(ephemeral: Bytes32, encapsulation: Bytes32, nonce: Nonce)

  function Encrypted(s: Suite, plaintext: bytes, recipientX25519: Bytes32, recipientEk: EncapsKey, signingSeed: Bytes32, d: Draws)
    : Result<bytes, ProtocolError>
  {
    var senderX25519 := s.dhPublic(d.ephemeral);
    var dhShared := s.dh(d.ephemeral, recipientX25519);
    match s.encapsulate(recipientEk, d.encapsulation)
    case None => Err(CryptoError)
    case Some((ct, kemShared)) =>
      var key := ContentKey(s, dhShared, kemShared, Context(senderX25519, recipientX25519, ct));
      match s.aead.seal(key, d.nonce, [], plaintext)
      case None => Err(CryptoError)
      case Some(text) =>
        var p := Parts(senderX25519, ct, d.nonce, text, Zeros(3309));
        Ok(Assemble(p.(signature := s.sign(signingSeed, Unsigned(p)))))
  }

  function Decrypted(s: Suite, blob: bytes, recipientSecret: Bytes32, recipientSeed: Seed64, senderKey: VerifyingKey)
    : Result<bytes, ProtocolError>
  {
    if |blob| < MIN_BLOB_LEN then Err(CryptoError)
    else
      var p := Slice(blob);
      if !s.verify(senderKey, blob[..|blob| - ML_DSA_65_SIG_SIZE], p.signature) then Err(CryptoError)
      else
        var dhShared := s.dh(recipientSecret, p.senderX25519);
        var kemShared := s.decapsulate(recipientSeed, p.mlKemCt);
        var key := ContentKey(s, dhShared, kemShared, Context(p.senderX25519, s.dhPublic(recipientSecret), p.mlKemCt));
        match s.aead.open(key, p.nonce, [], p.text)
        case None => Err(CryptoError)
        case Some(plaintext) => Ok(plaintext)
  }

  /** The derivation of one message's content key. */
  function ContentDerivation(dhShared: Bytes32, kemShared: Bytes32, sender: Bytes32, recipient: Bytes32, ct: KemCiphertext): Derivation {
    Derivation(dhShared, kemShared, sender, recipient, ct, E2eContent)
  }

  /**
   The blob, field by field: the plaintext sealed with the drawn nonce and no associated data,
   under the key of both shared secrets and of the public material, and a signature on all of it.
   */
  ghost predicate IsBlob(s: Suite, blob: bytes, plaintext: bytes, recipientX25519: Bytes32, recipientEk: EncapsKey, signingSeed: Bytes32, d: Draws) {
    var e := s.encapsulate(recipientEk, d.encapsulation);
    var sender := s.dhPublic(d.ephemeral);
    e.Some? &&
    var key := KeyOf(s, ContentDerivation(s.dh(d.ephemeral, recipientX25519), e.value.1, sender, recipientX25519, e.value.0));
    var text := s.aead.seal(key, d.nonce, [], plaintext);
    text.Some? &&
    var unsigned := sender + e.value.0 + d.nonce + text.value;
    blob == unsigned + s.sign(signingSeed, unsigned)
  }

  lemma EncryptedIsBlob(s: Suite, plaintext: bytes, recipientX25519: Bytes32, recipientEk: EncapsKey, signingSeed: Bytes32, d: Draws)
    ensures var r := Encrypted(s, plaintext, recipientX25519, recipientEk, signingSeed, d);
            if r.Ok? then IsBlob(s, r.value, plaintext, recipientX25519, recipientEk, signingSeed, d)
            else r.error == CryptoError
  {
    var e := s.encapsulate(recipientEk, d.encapsulation);
    if e.Some? {
      DeriveIs(s, ContentDerivation(s.dh(d.ephemeral, recipientX25519), e.value.1, s.dhPublic(d.ephemeral), recipientX25519, e.value.0));
    }
  }

  /**
   When a blob decrypts, and to what, in terms of its bytes: long enough, a verifying signature on
   all but the last 3309, and a text that opens under the key of the secrets it was made with.
   */
  ghost predicate Opens(s: Suite, blob: bytes, secret: Bytes32, seed: Seed64, senderKey: VerifyingKey, plaintext: bytes) {
    |blob| >= 4457 &&
    var sender, ct, nonce: Nonce := blob[..32], blob[32..1120], blob[1120..1132];
    && s.verify(senderKey, blob[..|blob| - 3309], blob[|blob| - 3309..])
    && s.aead.open(KeyOf(s, ContentDerivation(s.dh(secret, sender), s.decapsulate(seed, ct), sender, s.dhPublic(secret), ct)),
                   nonce, [], blob[1132..|blob| - 3309]) == Some(plaintext)
  }

  lemma DecryptedExactly(s: Suite, blob: bytes, secret: Bytes32, seed: Seed64, senderKey: VerifyingKey, plaintext: bytes)
    ensures Decrypted(s, blob, secret, seed, senderKey) == Ok(plaintext) <==> Opens(s, blob, secret, seed, senderKey, plaintext)
    ensures Decrypted(s, blob, secret, seed, senderKey).Err? ==> Decrypted(s, blob, secret, seed, senderKey).error == CryptoError
  {
    if |blob| >= MIN_BLOB_LEN {
      SliceBytes(blob);
      var p := Slice(blob);
      DeriveIs(s, ContentDerivation(s.dh(secret, p.senderX25519), s.decapsulate(seed, p.mlKemCt), p.senderX25519, s.dhPublic(secret), p.mlKemCt));
    }
  }

  lemma SliceBytes(blob: bytes)
    requires |blob| >= MIN_BLOB_LEN
    ensures Slice(blob) == Parts(blob[..32], blob[32..1120], blob[1120..1132], blob[1132..|blob| - 3309], blob[|blob| - 3309..])
  {
    var signedPart := blob[..|blob| - 3309];
    assert signedPart[..32] == blob[..32] && signedPart[32..1120] == blob[32..1120];
    assert signedPart[1120..1132] == blob[1120..1132] && signedPart[1132..] == blob[1132..|blob| - 3309];
  }

  /**
   Content keys separate: another pair of secrets, other public material or another ciphertext
   gives another key, and no content key is a session key, unless HKDF collides on the two inputs.
   */
  lemma ContentKeysSeparate(s: Suite, a: Derivation, b: Derivation)
    requires a.purpose == E2eContent && NoCollision(s, a, b)
    ensures var key := ContentKey(s, a.dhShared, a.kemShared, Context(a.initiator, a.responder, a.ct));
            && (b.purpose == E2eContent ==>
                 (key == ContentKey(s, b.dhShared, b.kemShared, Context(b.initiator, b.responder, b.ct)) <==> a == b))
            && (b.purpose != E2eContent ==>
                 key != Derive(s, b.dhShared, b.kemShared, Context(b.initiator, b.responder, b.ct), b.purpose))
  {
    DeriveIs(s, a);
    DeriveIs(s, b);
    DerivationsSeparate(s, a, b);
  }

  method EncryptAndSign(s: Suite, plaintext: bytes, recipientX25519: Bytes32, recipientEk: EncapsKey, signingSeed: Bytes32, d: Draws)
    returns (r: Result<bytes, ProtocolError>)
    ensures r == Encrypted(s, plaintext, recipientX25519, recipientEk, signingSeed, d)
    ensures if r.Ok? then IsBlob(s, r.value, plaintext, recipientX25519, recipientEk, signingSeed, d) else r.error == CryptoError
  {
    EncryptedIsBlob(s, plaintext, recipientX25519, recipientEk, signingSeed, d);
    var senderX25519 := s.dhPublic(d.ephemeral);
    var shared := s.dh(d.ephemeral, recipientX25519);
    var encapsulated := s.encapsulate(recipientEk, d.encapsulation);
    if encapsulated.None? {
      return Err(CryptoError);
    }
    var (ct, kemShared) := encapsulated.value;
    var context := senderX25519;
    context := context + recipientX25519;
    context := context + ct;
    var key := ContentKey(s, shared, kemShared, context);
    var ciphertext := s.aead.seal(key, d.nonce, [], plaintext);
    if ciphertext.None? {
      return Err(CryptoError);
    }
    var blob := senderX25519;
    blob := blob + ct;
    blob := blob + d.nonce;
    blob := blob + ciphertext.value;
    var signature := s.sign(signingSeed, blob);
    blob := blob + signature;
    return Ok(blob);
  }

  method VerifyAndDecrypt(s: Suite, blob: bytes, recipientSecret: Bytes32, recipientSeed: Seed64, senderKey: VerifyingKey)
    returns (r: Result<bytes, ProtocolError>)
    ensures r == Decrypted(s, blob, recipientSecret, recipientSeed, senderKey)
    ensures if r.Ok? then Opens(s, blob, recipientSecret, recipientSeed, senderKey, r.value) else r.error == CryptoError
  {
    DecryptedExactly(s, blob, recipientSecret, recipientSeed, senderKey,
                     if Decrypted(s, blob, recipientSecret, recipientSeed, senderKey).Ok?
                     then Decrypted(s, blob, recipientSecret, recipientSeed, senderKey).value else []);
    if |blob| < MIN_BLOB_LEN {
      return Err(CryptoError);
    }
    var split := |blob| - ML_DSA_65_SIG_SIZE;
    var signedPart, sig := blob[..split], blob[split..];
    if !s.verify(senderKey, signedPart, sig) {
      return Err(CryptoError);
    }
    var senderX25519 := signedPart[..SENDER_X25519_END];
    var ct := signedPart[SENDER_X25519_END..ML_KEM_CT_END];
    var nonce := signedPart[ML_KEM_CT_END..AES_NONCE_END];
    var buf := signedPart[AES_NONCE_END..];
    var shared := s.dh(recipientSecret, senderX25519);
    var kemShared := s.decapsulate(recipientSeed, ct);
    var key := ContentKey(s, shared, kemShared, Context(senderX25519, s.dhPublic(recipientSecret), ct));
    var plaintext := s.aead.open(key, nonce, [], buf);
    if plaintext.None? {
      return Err(CryptoError);
    }
    buf := plaintext.value;
    return Ok(buf);
  }

  /** The recipient recovers every plaintext, from a blob of exactly the fixed overhead more. */
  lemma E2eRoundTrip(s: Suite, plaintext: bytes, recipientSecret: Bytes32, recipientSeed: Seed64, signingSeed: Bytes32, d: Draws)
    requires Lawful(s) && |plaintext| <= GCM_MAX_PLAINTEXT
    ensures var blob := Encrypted(s, plaintext, s.dhPublic(recipientSecret), s.kemKey(recipientSeed), signingSeed, d);
            && blob.Ok? && |blob.value| == MIN_BLOB_LEN + |plaintext|
            && Decrypted(s, blob.value, recipientSecret, recipientSeed, s.verifyingKey(signingSeed)) == Ok(plaintext)
  {
    var e := s.encapsulate(s.kemKey(recipientSeed), d.encapsulation);
    assert e.Some? && s.decapsulate(recipientSeed, e.value.0) == e.value.1;
    var sender := s.dhPublic(d.ephemeral);
    assert s.dh(d.ephemeral, s.dhPublic(recipientSecret)) == s.dh(recipientSecret, sender);
    var key := ContentKey(s, s.dh(recipientSecret, sender), e.value.1, Context(sender, s.dhPublic(recipientSecret), e.value.0));
    var text := s.aead.seal(key, d.nonce, [], plaintext).value;
    var p := Parts(sender, e.value.0, d.nonce, text, Zeros(3309));
    var signed := p.(signature := s.sign(signingSeed, Unsigned(p)));
    BlobLayout(signed, []);
    BlobLayout(signed, Assemble(signed));
    assert Unsigned(signed) == Unsigned(p);
  }

  /** A blob that decrypts carries a signature on all the rest of it, and a plaintext of the length its own implies. */
  lemma DecryptedShape(s: Suite, blob: bytes, recipientSecret: Bytes32, recipientSeed: Seed64, senderKey: VerifyingKey)
    requires Tagged(s.aead.open)
    requires Decrypted(s, blob, recipientSecret, recipientSeed, senderKey).Ok?
    ensures |blob| == MIN_BLOB_LEN + |Decrypted(s, blob, recipientSecret, recipientSeed, senderKey).value|
    ensures exists p: Parts :: blob == Assemble(p) && s.verify(senderKey, Unsigned(p), p.signature)
  {
    BlobLayout(Slice(blob), blob);
  }
}
