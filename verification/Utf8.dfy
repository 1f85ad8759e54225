/** A Rust `String` is its UTF-8 bytes; validity is the ABNF of section 4 of RFC 3629. */
module Utf8 {
  import opened Bytes

  predicate Tail(b: u8) { 0x80 <= b <= 0xBF }

  /** Length of the UTF8-char at the front of `s`, or 0 when there is none. */
  function CharLen(s: bytes): (n: nat)
    ensures n <= |s| && n <= 4
  {
    if |s| >= 1 && s[0] <= 0x7F then 1
    else if |s| >= 2 && 0xC2 <= s[0] <= 0xDF && Tail(s[1]) then 2
    else if |s| >= 3 && Tail(s[2])
      && (|| (s[0] == 0xE0 && 0xA0 <= s[1] <= 0xBF)
          || (0xE1 <= s[0] <= 0xEC && Tail(s[1]))
          || (s[0] == 0xED && 0x80 <= s[1] <= 0x9F)
          || (0xEE <= s[0] <= 0xEF && Tail(s[1]))) then 3
    else if |s| >= 4 && Tail(s[2]) && Tail(s[3])
      && (|| (s[0] == 0xF0 && 0x90 <= s[1] <= 0xBF)
          || (0xF1 <= s[0] <= 0xF3 && Tail(s[1]))
          || (s[0] == 0xF4 && 0x80 <= s[1] <= 0x8F)) then 4
    else 0
  }

  predicate Valid(s: bytes)
    decreases |s|
  {
    |s| == 0 || (CharLen(s) > 0 && Valid(s[CharLen(s)..]))
  }

  type Str = s: bytes | Valid(s)

  /** A Unicode scalar value: a code point that is not a surrogate. */
  type Scalar = c: nat | c < 0xD800 || 0xE000 <= c < 0x11_0000

  /** The octet sequence of one character, as section 3 of RFC 3629 lays out its bits. */
  function Encode(c: Scalar): (s: bytes)
    ensures 1 <= |s| <= 4
  {
    if c < 0x80 then [c as u8]
    else if c < 0x800 then [(0xC0 + c / 64) as u8, (0x80 + c % 64) as u8]
    else if c < 0x1_0000 then [(0xE0 + c / 4096) as u8, (0x80 + c / 64 % 64) as u8, (0x80 + c % 64) as u8]
    else [(0xF0 + c / 262144) as u8, (0x80 + c / 4096 % 64) as u8, (0x80 + c / 64 % 64) as u8, (0x80 + c % 64) as u8]
  }

  function EncodeAll(cs: seq<Scalar>): bytes {
    if |cs| == 0 then [] else Encode(cs[0]) + EncodeAll(cs[1..])
  }

  /** The value that the bits of the first `n` octets spell. */
  function Bits(s: bytes, n: nat): nat
    requires 1 <= n <= 4 && n == CharLen(s)
  {
    match n
    case 1 => s[0] as nat
    case 2 => (s[0] as nat - 0xC0) * 64 + (s[1] as nat - 0x80)
    case 3 => (s[0] as nat - 0xE0) * 4096 + (s[1] as nat - 0x80) * 64 + (s[2] as nat - 0x80)
    case _ => (s[0] as nat - 0xF0) * 262144 + (s[1] as nat - 0x80) * 4096 + (s[2] as nat - 0x80) * 64 + (s[3] as nat - 0x80)
  }

  lemma EncodedLen(c: Scalar, rest: bytes)
    ensures CharLen(Encode(c) + rest) == |Encode(c)|
  {
    var s := Encode(c) + rest;
    if 0x800 <= c < 0x1_0000 {
      assert c / 64 == c / 4096 * 64 + c / 64 % 64;
    } else if c >= 0x1_0000 {
      assert c / 4096 == c / 262144 * 64 + c / 4096 % 64;
    }
  }

  /** Digits in base 64, and what division recovers of them. */
  lemma Base64Digits(a: nat, b: nat, c: nat, d: nat)
    requires b < 64 && c < 64 && d < 64
    ensures var v := a * 262144 + b * 4096 + c * 64 + d;
            && v / 64 == a * 4096 + b * 64 + c && v / 4096 == a * 64 + b && v / 262144 == a
            && v % 64 == d && v / 64 % 64 == c && v / 4096 % 64 == b
  {
  }

  lemma ShortDecodes(s: bytes)
    requires 0 < CharLen(s) <= 2
    ensures var c := Bits(s, CharLen(s)); c < 0x800 && Encode(c) == s[..CharLen(s)]
  {
    if CharLen(s) == 2 {
      Base64Digits(0, 0, s[0] as nat - 0xC0, s[1] as nat - 0x80);
    }
  }

  lemma ThreeDecodes(s: bytes)
    requires CharLen(s) == 3
    ensures var c := Bits(s, 3); (c < 0xD800 || 0xE000 <= c < 0x1_0000) && Encode(c) == s[..3]
  {
    Base64Digits(0, s[0] as nat - 0xE0, s[1] as nat - 0x80, s[2] as nat - 0x80);
  }

  lemma FourDecodes(s: bytes)
    requires CharLen(s) == 4
    ensures var c := Bits(s, 4); 0x1_0000 <= c < 0x11_0000 && Encode(c) == s[..4]
  {
    Base64Digits(s[0] as nat - 0xF0, s[1] as nat - 0x80, s[2] as nat - 0x80, s[3] as nat - 0x80);
  }

  lemma {:induction false} LenDecodes(s: bytes)
    requires CharLen(s) > 0
    ensures var c := Bits(s, CharLen(s));
            (c < 0xD800 || 0xE000 <= c < 0x11_0000) && Encode(c) == s[..CharLen(s)]
  {
    var n := CharLen(s);
    if n <= 2 {
      ShortDecodes(s);
    } else if n == 3 {
      ThreeDecodes(s);
    } else {
      FourDecodes(s);
    }
  }

  lemma {:induction false} EncodedIsValid(cs: seq<Scalar>)
    ensures Valid(EncodeAll(cs))
  {
    if |cs| > 0 {
      EncodedIsValid(cs[1..]);
      EncodedLen(cs[0], EncodeAll(cs[1..]));
      SplitConcat(Encode(cs[0]), EncodeAll(cs[1..]));
    }
  }

  lemma {:induction false} ValidDecodes(s: bytes) returns (cs: seq<Scalar>)
    requires Valid(s)
    ensures EncodeAll(cs) == s
    decreases |s|
  {
    if |s| == 0 {
      cs := [];
    } else {
      var n := CharLen(s);
      LenDecodes(s);
      var later := ValidDecodes(s[n..]);
      cs := [Bits(s, n)] + later;
      assert cs[1..] == later;
      assert s == s[..n] + s[n..];
    }
  }

  /** A byte string is valid exactly when it encodes some sequence of scalar values. */
  lemma ValidExactly(s: bytes)
    ensures Valid(s) <==> exists cs: seq<Scalar> :: EncodeAll(cs) == s
  {
    if Valid(s) {
      var cs := ValidDecodes(s);
    }
    forall cs: seq<Scalar> | EncodeAll(cs) == s ensures Valid(s) {
      EncodedIsValid(cs);
    }
  }
}
