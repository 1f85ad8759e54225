/** src/payloads/common.rs: the length-prefixed fields that payloads are built from. */
module Common {
  import opened Wrappers
  import opened Bytes
  import Utf8

  type Str = Utf8.Str

  function EncodeSizedString(value: Str): Result<bytes, PayloadError> {
    if |value| > U16_MAX then Err(InvalidInput) else Ok(ToBE(|value|, 2) + value)
  }

  function DecodeSizedString(b: bytes): Result<(Str, nat), PayloadError> {
    if |b| < 2 then Err(InvalidData)
    else
      var end := 2 + FromBE(b[..2]);
      if |b| < end then Err(InvalidData)
      else if !Utf8.Valid(b[2..end]) then Err(InvalidData)
      else Ok((b[2..end], end))
  }

  function EncodeSizedBytes(value: bytes): Result<bytes, PayloadError> {
    if |value| > U32_MAX then Err(InvalidInput) else Ok(ToBE(|value|, 4) + value)
  }

  function DecodeSizedBytes(b: bytes): Result<(bytes, nat), PayloadError> {
    if |b| < 4 then Err(InvalidData)
    else
      var end := 4 + FromBE(b[..4]);
      if |b| < end then Err(InvalidData) else Ok((b[4..end], end))
  }

  predicate FullyConsumed(b: bytes, consumed: nat) {
    |b| == consumed
  }

  method AppendSizedString(value: Str) returns (r: Result<bytes, PayloadError>)
    ensures r == EncodeSizedString(value)
  {
    if |value| > U16_MAX {
      return Err(InvalidInput);
    }
    var out := ToBE(|value|, 2);
    out := out + value;
    return Ok(out);
  }

  method AppendSizedBytes(value: bytes) returns (r: Result<bytes, PayloadError>)
    ensures r == EncodeSizedBytes(value)
  {
    if |value| > U32_MAX {
      return Err(InvalidInput);
    }
    var out := ToBE(|value|, 4);
    out := out + value;
    return Ok(out);
  }

  /** A sized string is read back whole from the front of any input. */
  lemma StringRoundTrip(value: Str, rest: bytes)
    requires |value| <= U16_MAX
    ensures var e := EncodeSizedString(value).value;
            && |e| == 2 + |value|
            && DecodeSizedString(e + rest) == Ok((value, |e|))
            && (e + rest)[|e|..] == rest
  {
    var b := EncodeSizedString(value).value + rest;
    Pow256Values();
    FromToBE(|value|, 2);
    assert b[..2] == ToBE(|value|, 2);
    assert b[2..2 + |value|] == value;
  }

  /** What is read as a sized string is what that string prints. */
  lemma StringCanonical(b: bytes)
    requires DecodeSizedString(b).Ok?
    ensures var (value, n) := DecodeSizedString(b).value;
            n <= |b| && EncodeSizedString(value) == Ok(b[..n]) && b == b[..n] + b[n..]
  {
    ToFromBE(b[..2]);
    Pow256Values();
    var (value, n) := DecodeSizedString(b).value;
    assert b[..n] == b[..2] + value;
  }

  lemma StringUnambiguous(v1: Str, r1: bytes, v2: Str, r2: bytes)
    requires EncodeSizedString(v1).Ok? && EncodeSizedString(v2).Ok?
    requires EncodeSizedString(v1).value + r1 == EncodeSizedString(v2).value + r2
    ensures v1 == v2 && r1 == r2
  {
    StringRoundTrip(v1, r1);
    StringRoundTrip(v2, r2);
  }

  lemma BytesRoundTrip(value: bytes, rest: bytes)
    requires |value| <= U32_MAX
    ensures var e := EncodeSizedBytes(value).value;
            && |e| == 4 + |value|
            && DecodeSizedBytes(e + rest) == Ok((value, |e|))
            && (e + rest)[|e|..] == rest
  {
    var b := EncodeSizedBytes(value).value + rest;
    Pow256Values();
    FromToBE(|value|, 4);
    assert b[..4] == ToBE(|value|, 4);
    assert b[4..4 + |value|] == value;
  }

  lemma BytesCanonical(b: bytes)
    requires DecodeSizedBytes(b).Ok?
    ensures var (value, n) := DecodeSizedBytes(b).value;
            n <= |b| && EncodeSizedBytes(value) == Ok(b[..n]) && b == b[..n] + b[n..]
  {
    ToFromBE(b[..4]);
    Pow256Values();
    var (value, n) := DecodeSizedBytes(b).value;
    assert b[..n] == b[..4] + value;
  }

  lemma BytesUnambiguous(v1: bytes, r1: bytes, v2: bytes, r2: bytes)
    requires EncodeSizedBytes(v1).Ok? && EncodeSizedBytes(v2).Ok?
    requires EncodeSizedBytes(v1).value + r1 == EncodeSizedBytes(v2).value + r2
    ensures v1 == v2 && r1 == r2
  {
    BytesRoundTrip(v1, r1);
    BytesRoundTrip(v2, r2);
  }
}
