/** src/crypto/safety_number.rs: the number two users compare. */
module SafetyNumber {
  import opened Wrappers
  import opened Bytes
  import opened Sizes
  import opened Common
  import opened E2eKeyPayloads

  type Hash = bytes -> Bytes32

  const ITERATIONS: nat := 5200
  const DIGIT_SOURCE_LEN: nat := 30

  /** `n` rounds on top of `digest`, each re-hashing it with the identifier and the key. */
  function Iterate(hash: Hash, digest: Bytes32, suffix: bytes, n: nat): Bytes32 {
    if n == 0 then digest else hash(Iterate(hash, digest, suffix, n - 1) + suffix)
  }

  function Fingerprint(hash: Hash, id: Str, key: E2ePublicKey): Bytes32 {
    var suffix := id + KeyBytes(key);
    Iterate(hash, hash(suffix), suffix, ITERATIONS)
  }

  method ComputeFingerprint(hash: Hash, id: Str, key: E2ePublicKey) returns (digest: Bytes32)
    ensures digest == Fingerprint(hash, id, key)
  {
    var keyBytes := AppendKey(key, []);
    assert keyBytes == KeyBytes(key);
    digest := hash(id + keyBytes);
    for i := 0 to ITERATIONS
      invariant digest == Iterate(hash, hash(id + keyBytes), id + keyBytes, i)
    {
      assert digest + id + keyBytes == digest + (id + keyBytes);
      digest := hash(digest + id + keyBytes);
    }
  }

  /** A chain of digests: the first of the identifier and the key, each next of the one before and the same bytes. */
  predicate IsChain(hash: Hash, id: Str, key: E2ePublicKey, chain: seq<Bytes32>) {
    && |chain| > 0
    && chain[0] == hash(id + key.x25519 + key.mlKemEk + key.dsaVerifyingKey)
    && forall i :: 0 < i < |chain| ==> chain[i] == hash(chain[i - 1] + id + key.x25519 + key.mlKemEk + key.dsaVerifyingKey)
  }

  lemma {:induction false} ChainIterates(hash: Hash, id: Str, key: E2ePublicKey, chain: seq<Bytes32>, n: nat)
    requires IsChain(hash, id, key, chain) && n < |chain|
    ensures var suffix := id + KeyBytes(key); chain[n] == Iterate(hash, hash(suffix), suffix, n)
  {
    var suffix := id + KeyBytes(key);
    assert suffix == id + key.x25519 + key.mlKemEk + key.dsaVerifyingKey;
    if n > 0 {
      ChainIterates(hash, id, key, chain, n - 1);
      assert chain[n - 1] + suffix == chain[n - 1] + id + key.x25519 + key.mlKemEk + key.dsaVerifyingKey;
    }
  }

  lemma {:induction false} ChainExists(hash: Hash, id: Str, key: E2ePublicKey, n: nat) returns (chain: seq<Bytes32>)
    ensures IsChain(hash, id, key, chain) && |chain| == n + 1
  {
    if n == 0 {
      chain := [hash(id + key.x25519 + key.mlKemEk + key.dsaVerifyingKey)];
    } else {
      var before := ChainExists(hash, id, key, n - 1);
      chain := before + [hash(before[n - 1] + id + key.x25519 + key.mlKemEk + key.dsaVerifyingKey)];
    }
  }

  /** The fingerprint is the last of a chain of 5201 digests, and of every such chain. */
  lemma FingerprintIsChainEnd(hash: Hash, id: Str, key: E2ePublicKey, digest: Bytes32)
    ensures digest == Fingerprint(hash, id, key) <==>
            exists chain: seq<Bytes32> :: IsChain(hash, id, key, chain) && |chain| == 5201 && digest == chain[5200]
  {
    var chain := ChainExists(hash, id, key, 5200);
    ChainIterates(hash, id, key, chain, 5200);
    forall other: seq<Bytes32> | IsChain(hash, id, key, other) && |other| == 5201
      ensures other[5200] == Fingerprint(hash, id, key)
    {
      ChainIterates(hash, id, key, other, 5200);
    }
  }

  /** What one round hashes determines the digest, the identifier and the key. */
  lemma RoundInputInjective(d1: Bytes32, id1: Str, k1: E2ePublicKey, d2: Bytes32, id2: Str, k2: E2ePublicKey)
    requires d1 + (id1 + KeyBytes(k1)) == d2 + (id2 + KeyBytes(k2))
    ensures d1 == d2 && id1 == id2 && k1 == k2
  {
    CancelPrefix(d1, id1 + KeyBytes(k1), d2, id2 + KeyBytes(k2));
    CancelPrefix(id1, KeyBytes(k1), id2, KeyBytes(k2));
    KeyRoundTrip(k1, []);
    KeyRoundTrip(k2, []);
  }

  function Digit(n: nat): char
    requires n < 10
  {
    '0' + n as char
  }

  function DigitValue(c: char): (n: nat)
    requires '0' <= c <= '9'
  {
    (c - '0') as nat
  }

  /** Five decimal digits, zero-padded. */
  function FiveDigits(v: nat): (s: string)
    requires v < 100000
    ensures |s| == 5 && forall i :: 0 <= i < 5 ==> '0' <= s[i] <= '9'
  {
    [Digit(v / 10000), Digit(v / 1000 % 10), Digit(v / 100 % 10), Digit(v / 10 % 10), Digit(v % 10)]
  }

  /** The number a group of five digits reads as. */
  function GroupValue(s: string): nat
    requires |s| == 5 && forall i :: 0 <= i < 5 ==> '0' <= s[i] <= '9'
  {
    DigitValue(s[0]) * 10000 + DigitValue(s[1]) * 1000 + DigitValue(s[2]) * 100 + DigitValue(s[3]) * 10 + DigitValue(s[4])
  }

  /** The i-th five bytes as a big-endian 40-bit integer, reduced to five digits. */
  function ChunkValue(fp: Bytes32, i: nat): (v: nat)
    requires i < 6
    ensures v < 100000
  {
    FromBE(fp[5 * i..5 * i + 5]) % 100000
  }

  /** One group of digits for each five bytes of the first thirty. */
  function DigitGroups(fp: Bytes32): (g: seq<string>)
    ensures |g| == 6 && forall i :: 0 <= i < 6 ==> g[i] == FiveDigits(ChunkValue(fp, i))
  {
    seq(6, i requires 0 <= i < 6 => FiveDigits(ChunkValue(fp, i)))
  }

  /** The groups with a space between neighbours. */
  function Join(groups: seq<string>): string {
    if |groups| == 0 then ""
    else if |groups| == 1 then groups[0]
    else groups[0] + " " + Join(groups[1..])
  }

  /** Lexicographic order of bytes: Rust's `<=` on strings. */
  predicate AtMost(a: bytes, b: bytes) {
    |a| == 0 || (|b| > 0 && (a[0] < b[0] || (a[0] == b[0] && AtMost(a[1..], b[1..]))))
  }

  function AllGroups(hash: Hash, localId: Str, localKey: E2ePublicKey, remoteId: Str, remoteKey: E2ePublicKey): (g: seq<string>)
    ensures |g| == 12
  {
    var local, remote := Fingerprint(hash, localId, localKey), Fingerprint(hash, remoteId, remoteKey);
    if AtMost(localId, remoteId) then DigitGroups(local) + DigitGroups(remote) else DigitGroups(remote) + DigitGroups(local)
  }

  function Number(hash: Hash, localId: Str, localKey: E2ePublicKey, remoteId: Str, remoteKey: E2ePublicKey): string {
    Join(AllGroups(hash, localId, localKey, remoteId, remoteKey))
  }

  lemma {:induction false} AtMostTotalAndAntisymmetric(a: bytes, b: bytes)
    ensures AtMost(a, b) || AtMost(b, a)
    ensures AtMost(a, b) && AtMost(b, a) <==> a == b
    decreases |a|
  {
    if |a| > 0 && |b| > 0 {
      AtMostTotalAndAntisymmetric(a[1..], b[1..]);
      assert a == [a[0]] + a[1..] && b == [b[0]] + b[1..];
    }
  }

  /** The two agree up to `k`, where `a` has the smaller byte. */
  predicate LessAt(a: bytes, b: bytes, k: nat) {
    k < |a| && k < |b| && a[..k] == b[..k] && a[k] < b[k]
  }

  lemma LessAtShifts(a: bytes, b: bytes, k: nat)
    requires |a| > 0 && |b| > 0
    ensures LessAt(a, b, k + 1) <==> a[0] == b[0] && LessAt(a[1..], b[1..], k)
  {
    if k < |a| - 1 && k < |b| - 1 {
      assert a[..k + 1] == [a[0]] + a[1..][..k] && b[..k + 1] == [b[0]] + b[1..][..k];
      assert ([a[0]] + a[1..][..k])[1..] == a[1..][..k] && ([b[0]] + b[1..][..k])[1..] == b[1..][..k];
      assert ([a[0]] + a[1..][..k])[0] == a[0] && ([b[0]] + b[1..][..k])[0] == b[0];
    }
  }

  /** `AtMost` is the dictionary order: a prefix comes first, else the first differing byte decides. */
  lemma {:induction false} AtMostIsLexicographic(a: bytes, b: bytes)
    ensures AtMost(a, b) <==> a <= b || exists k: nat :: LessAt(a, b, k)
    decreases |a|
  {
    if |a| > 0 && |b| > 0 {
      AtMostIsLexicographic(a[1..], b[1..]);
      assert a <= b <==> a[0] == b[0] && a[1..] <= b[1..] by {
        assert a == [a[0]] + a[1..] && b == [b[0]] + b[1..];
      }
      forall k: nat ensures LessAt(a, b, k + 1) <==> a[0] == b[0] && LessAt(a[1..], b[1..], k) {
        LessAtShifts(a, b, k);
      }
      assert LessAt(a, b, 0) <==> a[0] < b[0];
      forall k: nat | LessAt(a, b, k) ensures AtMost(a, b) {
        if k > 0 {
          LessAtShifts(a, b, k - 1);
        }
      }
      if a[0] == b[0] && (exists k: nat :: LessAt(a[1..], b[1..], k)) {
        var k: nat :| LessAt(a[1..], b[1..], k);
        assert LessAt(a, b, k + 1);
      }
    }
  }

  predicate IsGroup(s: string) {
    |s| == 5 && forall i :: 0 <= i < 5 ==> '0' <= s[i] <= '9'
  }

  predicate AreGroups(groups: seq<string>) {
    forall i :: 0 <= i < |groups| ==> IsGroup(groups[i])
  }

  /** Five digits read back as the value printed. */
  lemma {:induction false} FiveDigitsRoundTrip(v: nat)
    requires v < 100000
    ensures IsGroup(FiveDigits(v)) && GroupValue(FiveDigits(v)) == v
  {
    var a, b, c, d := v / 10, v / 100, v / 1000, v / 10000;
    assert b == a / 10 && c == b / 10 && d == c / 10;
    assert v == 10 * a + v % 10 && a == 10 * b + a % 10 && b == 10 * c + b % 10 && c == 10 * d + c % 10;
    DigitInverse(d);
    DigitInverse(c % 10);
    DigitInverse(b % 10);
    DigitInverse(a % 10);
    DigitInverse(v % 10);
  }

  lemma DigitInverse(n: nat)
    requires n < 10
    ensures '0' <= Digit(n) <= '9' && DigitValue(Digit(n)) == n
  {
  }

  /** A group and a space put in front move everything up by six. */
  lemma ShiftSix(front: string, later: string, k: nat)
    requires |front| == 6 && k + 5 <= |later|
    ensures (front + later)[k + 6..k + 11] == later[k..k + 5]
    ensures k + 5 < |later| ==> (front + later)[k + 11] == later[k + 5]
  {
  }

  /** Every group of the joined text is found at its place, with spaces between. */
  lemma {:induction false} JoinLayout(groups: seq<string>, i: nat)
    requires AreGroups(groups) && i < |groups|
    ensures |Join(groups)| == 6 * |groups| - 1
    ensures Join(groups)[6 * i..6 * i + 5] == groups[i]
    ensures i + 1 < |groups| ==> Join(groups)[6 * i + 5] == ' '
    decreases |groups|
  {
    if |groups| == 1 {
      assert Join(groups) == groups[0];
    } else {
      var front, later := groups[0] + " ", groups[1..];
      JoinLayout(later, if i == 0 then 0 else i - 1);
      assert Join(groups) == front + Join(later);
      if i == 0 {
        assert (front + Join(later))[0..5] == groups[0];
      } else {
        ShiftSix(front, Join(later), 6 * (i - 1));
      }
    }
  }

  /** The value of the i-th group of a safety number's text. */
  function ParsedGroup(text: string, i: nat): Option<nat> {
    if 6 * i + 5 <= |text| && IsGroup(text[6 * i..6 * i + 5]) then Some(GroupValue(text[6 * i..6 * i + 5])) else None
  }

  /** Which fingerprint the i-th group shows, and which chunk of it. */
  function Shown(first: Bytes32, second: Bytes32, i: nat): nat
    requires i < 12
  {
    if i < 6 then FromBE(first[5 * i..5 * i + 5]) % 100000 else FromBE(second[5 * i - 30..5 * i - 25]) % 100000
  }

  /** The text is 71 characters long and reads back as the twelve chunk values, first party's first. */
  lemma {:induction false} TextReadsBack(hash: Hash, localId: Str, localKey: E2ePublicKey, remoteId: Str, remoteKey: E2ePublicKey, i: nat)
    requires i < 12
    ensures var text := Number(hash, localId, localKey, remoteId, remoteKey);
            var local, remote := Fingerprint(hash, localId, localKey), Fingerprint(hash, remoteId, remoteKey);
            && |text| == 71
            && ParsedGroup(text, i) == Some(if AtMost(localId, remoteId) then Shown(local, remote, i) else Shown(remote, local, i))
            && (i < 11 ==> text[6 * i + 5] == ' ')
  {
    var local, remote := Fingerprint(hash, localId, localKey), Fingerprint(hash, remoteId, remoteKey);
    var groups := AllGroups(hash, localId, localKey, remoteId, remoteKey);
    var v := if AtMost(localId, remoteId) then Shown(local, remote, i) else Shown(remote, local, i);
    assert groups[i] == FiveDigits(v);
    FiveDigitsRoundTrip(v);
    JoinLayout(groups, i);
  }

  /** Equal texts show equal groups. */
  lemma {:induction false} JoinInjective(a: seq<string>, b: seq<string>)
    requires AreGroups(a) && AreGroups(b) && |a| == |b|
    ensures Join(a) == Join(b) <==> a == b
  {
    if Join(a) == Join(b) {
      forall i | 0 <= i < |a| ensures a[i] == b[i] {
        JoinLayout(a, i);
        JoinLayout(b, i);
      }
    }
  }

  /**
   Both users see the same number, whichever of them is local, exactly when the identifiers
   differ or the two keys happen to show the same digits.
   */
  lemma {:induction false} SymmetricExactly(hash: Hash, id1: Str, key1: E2ePublicKey, id2: Str, key2: E2ePublicKey)
    ensures Number(hash, id1, key1, id2, key2) == Number(hash, id2, key2, id1, key1)
       <==> id1 != id2 || DigitGroups(Fingerprint(hash, id1, key1)) == DigitGroups(Fingerprint(hash, id2, key2))
  {
    AtMostTotalAndAntisymmetric(id1, id2);
    if id1 == id2 {
      var g1, g2 := DigitGroups(Fingerprint(hash, id1, key1)), DigitGroups(Fingerprint(hash, id2, key2));
      JoinInjective(g1 + g2, g2 + g1);
      if g1 + g2 == g2 + g1 {
        CancelPrefix(g1, g2, g2, g1);
      }
    }
  }

  /** A hash that repeats the last byte of its input. */
  function LastByte(b: bytes): Bytes32 {
    seq(32, _ => if |b| == 0 then 0 else b[|b| - 1])
  }

  lemma {:induction false} LastByteIterates(suffix: bytes, n: nat)
    requires |suffix| > 0
    ensures Iterate(LastByte, LastByte(suffix), suffix, n) == LastByte(suffix)
  {
    if n > 0 {
      LastByteIterates(suffix, n - 1);
      assert (LastByte(suffix) + suffix)[31 + |suffix|] == suffix[|suffix| - 1];
    }
  }

  function KeyEndingIn(b: u8): E2ePublicKey {
    E2ePublicKey(seq(32, _ => 0), seq(1184, _ => 0), seq(1952, _ => b))
  }

  lemma LastByteFingerprint(id: Str, key: E2ePublicKey, b: u8)
    requires key == KeyEndingIn(b)
    ensures Fingerprint(LastByte, id, key) == seq(32, _ => b)
    ensures ChunkValue(Fingerprint(LastByte, id, key), 0) == b as int * 0x1_0101_0101 % 100000
  {
    var suffix := id + KeyBytes(key);
    LastByteIterates(suffix, ITERATIONS);
    assert suffix[|suffix| - 1] == b;
    RepeatedByte(b);
    assert Fingerprint(LastByte, id, key)[0..5] == [b, b, b, b, b];
  }

  /** With one identifier on both sides the number can depend on who is local: two keys for which it does. */
  lemma {:induction false} SameIdentifierIsNotSymmetric(id: Str, key0: E2ePublicKey, key1: E2ePublicKey)
    requires key0 == KeyEndingIn(0) && key1 == KeyEndingIn(1)
    ensures Number(LastByte, id, key0, id, key1) != Number(LastByte, id, key1, id, key0)
  {
    LastByteFingerprint(id, key0, 0);
    LastByteFingerprint(id, key1, 1);
    var f0, f1 := Fingerprint(LastByte, id, key0), Fingerprint(LastByte, id, key1);
    FiveDigitsRoundTrip(ChunkValue(f0, 0));
    FiveDigitsRoundTrip(ChunkValue(f1, 0));
    assert DigitGroups(f0)[0] != DigitGroups(f1)[0];
    SymmetricExactly(LastByte, id, key0, id, key1);
  }

  lemma RepeatedByte(b: u8)
    ensures FromBE([b, b, b, b, b]) == b as int * 0x1_0101_0101
  {
    assert [b, b, b, b, b][..4] == [b, b, b, b];
    assert [b, b, b, b][..3] == [b, b, b];
    assert [b, b, b][..2] == [b, b];
    assert [b, b][..1] == [b];
    assert FromBE([b]) == b as int;
    assert FromBE([b, b]) == b as int * 0x101;
    assert FromBE([b, b, b]) == b as int * 0x1_0101;
    assert FromBE([b, b, b, b]) == b as int * 0x101_0101;
  }
}
