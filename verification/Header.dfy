/** src/header.rs: the fixed 24-byte packet header. */
module Header {
  import opened Wrappers
  import opened Bytes

  const HEADER_SIZE: nat := 24
  const MAX_PAYLOAD_LEN: int := 1024 * 1024
  const MAGIC: Bytes4 := [0x43, 0x48, 0x54, 0x58]
  const VERSION: u8 := 1

  type HeaderBytes = s: bytes | |s| == HEADER_SIZE witness seq(HEADER_SIZE, _ => 0)

  datatype Header = Header(
    magic: Bytes4, version: u8, packetType: u8, flags: u8, headerLen: u8,
    payloadLen: u32, sequence: u64, reserved: u32)

  function New(packetType: u8, flags: u8, payloadLen: u32, sequence: u64): Header {
    Header(MAGIC, VERSION, packetType, flags, 24, payloadLen, sequence, 0)
  }

  /** The wire image of a header, field after field. */
  function Print(h: Header): HeaderBytes {
    h.magic + [h.version, h.packetType, h.flags, h.headerLen]
    + ToBE(h.payloadLen, 4) + ToBE(h.sequence, 8) + ToBE(h.reserved, 4)
  }

  function FromBytes(b: HeaderBytes): Header {
    assert FromBE(b[8..12]) < Pow256(4) && FromBE(b[12..20]) < Pow256(8) && FromBE(b[20..24]) < Pow256(4) by {
      ToFromBE(b[8..12]);
      ToFromBE(b[12..20]);
      ToFromBE(b[20..24]);
    }
    Pow256Values();
    Header(b[0..4], b[4], b[5], b[6], b[7], FromBE(b[8..12]), FromBE(b[12..20]), FromBE(b[20..24]))
  }

  /** Writes the fields into their byte ranges of a zeroed buffer. */
  method ToBytes(h: Header) returns (out: array<u8>)
    ensures fresh(out) && out[..] == Print(h)
  {
    out := new u8[24](_ => 0);
    forall i | 0 <= i < 4 { out[i] := h.magic[i]; }
    out[4] := h.version;
    out[5] := h.packetType;
    out[6] := h.flags;
    out[7] := h.headerLen;
    var len := ToBE(h.payloadLen, 4);
    forall i | 8 <= i < 12 { out[i] := len[i - 8]; }
    var sequence := ToBE(h.sequence, 8);
    forall i | 12 <= i < 20 { out[i] := sequence[i - 12]; }
    var reserved := ToBE(h.reserved, 4);
    forall i | 20 <= i < 24 { out[i] := reserved[i - 20]; }
  }

  function Validate(h: Header): (r: Result<(), ProtocolError>) {
    if h.magic != MAGIC then Err(InvalidMagic)
    else if h.version != VERSION then Err(UnsupportedVersion(h.version as int))
    else if h.headerLen != 24 then Err(InvalidHeaderLength)
    else if h.payloadLen > MAX_PAYLOAD_LEN then Err(PayloadTooLarge(h.payloadLen, MAX_PAYLOAD_LEN))
    else if h.reserved != 0 then Err(ReservedFieldNonZero)
    else Ok(())
  }

  /** Bit 0 of the flags byte. */
  predicate IsEncrypted(flags: u8) {
    flags % 2 == 1
  }

  function SetEncrypted(flags: u8): (r: u8)
    ensures IsEncrypted(r) && r / 2 == flags / 2
  {
    if IsEncrypted(flags) then flags else flags + 1
  }

  lemma PrintFields(h: Header)
    ensures var b := Print(h);
            && b[0..4] == h.magic && b[4..8] == [h.version, h.packetType, h.flags, h.headerLen]
            && b[8..12] == ToBE(h.payloadLen, 4)
            && b[12..20] == ToBE(h.sequence, 8) && b[20..24] == ToBE(h.reserved, 4)
  {
  }

  lemma FromPrint(h: Header)
    ensures FromBytes(Print(h)) == h
  {
    PrintFields(h);
    Pow256Values();
    FromToBE(h.payloadLen, 4);
    FromToBE(h.sequence, 8);
    FromToBE(h.reserved, 4);
    var b := Print(h);
    assert b[4..8][0] == b[4] && b[4..8][1] == b[5] && b[4..8][2] == b[6] && b[4..8][3] == b[7];
  }

  lemma PrintFrom(b: HeaderBytes)
    ensures Print(FromBytes(b)) == b
  {
    ToFromBE(b[8..12]);
    ToFromBE(b[12..20]);
    ToFromBE(b[20..24]);
    PrintFields(FromBytes(b));
  }

  /** A header buffer passes validation exactly when `New` printed it with a length of at most 1 MiB. */
  lemma ValidIffNew(b: HeaderBytes)
    ensures Validate(FromBytes(b)).Ok? <==>
            exists t: u8, f: u8, n: u32, q: u64 :: n <= 1048576 && b == Print(New(t, f, n, q))
  {
    var h := FromBytes(b);
    PrintFrom(b);
    if Validate(h).Ok? {
      assert b == Print(New(h.packetType, h.flags, h.payloadLen, h.sequence));
    }
    forall t: u8, f: u8, n: u32, q: u64 | n <= 1048576 && b == Print(New(t, f, n, q))
      ensures Validate(h).Ok?
    {
      FromPrint(New(t, f, n, q));
    }
  }
}
