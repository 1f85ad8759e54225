/**
 The foreign cryptographic libraries, as functions. Nothing is assumed of them globally:
 a lemma that needs a law takes the law as a hypothesis, and `ToyIsLawful` shows the laws
 can be met together.
 */
module Primitives {
  import opened Wrappers
  import opened Bytes
  import opened Sizes

  type Sealer = (Key, Nonce, bytes, bytes) -> Option<bytes>
  type Opener = (Key, Nonce, bytes, bytes) -> Option<bytes>

  /** AES-256-GCM: arguments are key, nonce, associated data and text. */
  datatype Aead = Aead(seal: Sealer, open: Opener)

  /** Longest plaintext of section 5.2.1.1 of NIST SP 800-38D, in bytes. */
  const GCM_MAX_PLAINTEXT: int := 0xF_FFFF_FFE0

  ghost predicate Correct(a: Aead) {
    forall k: Key, n: Nonce, ad: bytes, p: bytes :: |p| <= GCM_MAX_PLAINTEXT ==>
      var c := a.seal(k, n, ad, p);
      c.Some? && |c.value| == |p| + GCM_TAG_LEN && a.open(k, n, ad, c.value) == Some(p)
  }

  /** A text that opens is its plaintext and a tag. */
  ghost predicate Tagged(open: Opener) {
    forall k: Key, n: Nonce, ad: bytes, c: bytes :: open(k, n, ad, c).Some? ==>
      |c| == |open(k, n, ad, c).value| + GCM_TAG_LEN
  }

  /** Key agreement, derivation, signatures and hashing. */
  datatype Suite = Suite(
    aead: Aead,
    dhPublic: Bytes32 -> Bytes32,
    dh: (Bytes32, Bytes32) -> Bytes32,
    kemKey: Seed64 -> EncapsKey,
    encapsulate: (EncapsKey, Bytes32) -> Option<(KemCiphertext, Bytes32)>,
    decapsulate: (Seed64, KemCiphertext) -> Bytes32,
    hkdf: (bytes, bytes) -> Key,
    verifyingKey: Bytes32 -> VerifyingKey,
    sign: (Bytes32, bytes) -> Signature,
    verify: (VerifyingKey, bytes, Signature) -> bool,
    sha256: bytes -> Bytes32)

  /** Section 6.1 of RFC 7748: both sides compute the same shared secret. */
  ghost predicate DhAgrees(s: Suite) {
    forall a: Bytes32, b: Bytes32 :: s.dh(a, s.dhPublic(b)) == s.dh(b, s.dhPublic(a))
  }

  /** FIPS 203: a genuine key encapsulates, and decapsulation recovers the secret. */
  ghost predicate KemAgrees(s: Suite) {
    forall seed: Seed64, r: Bytes32 ::
      var e := s.encapsulate(s.kemKey(seed), r);
      e.Some? && s.decapsulate(seed, e.value.0) == e.value.1
  }

  /** FIPS 204: verification accepts what signing produced. */
  ghost predicate SignaturesVerify(s: Suite) {
    forall seed: Bytes32, m: bytes :: s.verify(s.verifyingKey(seed), m, s.sign(seed, m))
  }

  ghost predicate Lawful(s: Suite) {
    Correct(s.aead) && Tagged(s.aead.open) && DhAgrees(s) && KemAgrees(s) && SignaturesVerify(s)
  }

  function Zeros(n: nat): (z: bytes)
    ensures |z| == n
  {
    seq(n, _ => 0)
  }

  function ToyAead(): Aead {
    Aead((k, n, ad, p) => Some(p + Zeros(16)),
         (k, n, ad, c) => if |c| >= 16 then Some(c[..|c| - 16]) else None)
  }

  function ToySuite(): Suite {
    Suite(
      ToyAead(),
      (a: Bytes32) => a,
      (a: Bytes32, b: Bytes32) => seq(32, i requires 0 <= i < 32 => ((a[i] as int + b[i] as int) % 256) as u8),
      (seed: Seed64) => seed + Zeros(1120),
      (ek: EncapsKey, r: Bytes32) => Some((Zeros(1088), ek[..32])),
      (seed: Seed64, c: KemCiphertext) => seed[..32],
      (ikm, info) => Zeros(32),
      (seed: Bytes32) => seed + Zeros(1920),
      (seed: Bytes32, m) => Zeros(3309),
      (vk: VerifyingKey, m, sig: Signature) => true,
      m => Zeros(32))
  }

  /** The laws are satisfiable together. */
  lemma ToyIsLawful()
    ensures Lawful(ToySuite())
  {
    var s := ToySuite();
    forall p: bytes ensures (p + Zeros(16))[..|p + Zeros(16)| - 16] == p {}
    forall seed: Seed64 ensures (seed + Zeros(1120))[..32] == seed[..32] {}
    forall a: Bytes32, b: Bytes32 ensures s.dh(a, s.dhPublic(b)) == s.dh(b, s.dhPublic(a)) {
      assert forall i | 0 <= i < 32 :: s.dh(a, b)[i] == s.dh(b, a)[i];
    }
  }
}
