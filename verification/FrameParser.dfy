/** `read_packet` against a printer of frames: exactly which inputs are accepted, and what a call consumes. */
module FrameParser {
  import opened Wrappers
  import opened Bytes
  import opened Sizes
  import opened Primitives
  import opened Codec
  import PT = PacketType
  import H = Header

  /** The header at the front of a frame is the one that was printed, and its body follows. */
  lemma FrameHead(packetType: u8, flags: u8, wire: bytes, q: u64, rest: bytes)
    ensures var input := Frame(packetType, flags, wire, q) + rest;
            && |input| >= H.HEADER_SIZE
            && H.FromBytes(input[..H.HEADER_SIZE]) == H.New(packetType, flags, AsU32(|wire|), q)
            && input[H.HEADER_SIZE..] == wire + rest
  {
    var h := H.New(packetType, flags, AsU32(|wire|), q);
    var input := Frame(packetType, flags, wire, q) + rest;
    assert input == H.Print(h) + (wire + rest);
    SplitConcat(H.Print(h), wire + rest);
    H.FromPrint(h);
  }

  /** `p` is what a receiver in session `s` should make of a type-`t` frame that carries `wire`. */
  ghost predicate Genuine(open: Opener, s: Option<Session>, t: PT.PacketType, wire: bytes, p: RawPacket) {
    var h := p.header;
    && h == H.New(PT.AsU8(t), h.flags, AsU32(|p.payload|), h.sequence)
    && |wire| <= MaxWire(t, h.flags)
    && (s.Some? <==> H.IsEncrypted(h.flags))
    && if s.None? then p.payload == wire
       else open(s.value.inboundKey, SeqNonce(h.sequence), [PT.AsU8(t), h.flags], wire) == Some(p.payload)
  }

  ghost predicate Delivers(open: Opener, c: Codec, t: PT.PacketType, wire: bytes, p: RawPacket) {
    Genuine(open, c.session, t, wire, p) && Above(c.lastRecvSeq, p.header.sequence)
  }

  /** The input starts with a frame that delivers `p`, and `rest` is what follows that frame. */
  ghost predicate StartsWithDelivery(open: Opener, c: Codec, input: bytes, p: RawPacket, rest: bytes) {
    exists t: PT.PacketType, wire: bytes ::
      Delivers(open, c, t, wire, p) && input == Frame(PT.AsU8(t), p.header.flags, wire, p.header.sequence) + rest
  }

  /** A frame with a header that fails a check costs its header and changes nothing. */
  lemma ReadRefused(open: Opener, c: Codec, input: bytes, h: H.Header, e: ProtocolError)
    requires |input| >= H.HEADER_SIZE && H.FromBytes(input[..H.HEADER_SIZE]) == h && CheckHeader(c, h) == Err(e)
    ensures Read(open, c, input) == ReadResult(c, Err(e), input[H.HEADER_SIZE..])
  {
  }

  /** The header of a deliverable frame passes every check. */
  lemma HeaderPasses(open: Opener, c: Codec, t: PT.PacketType, wire: bytes, p: RawPacket)
    requires Delivers(open, c, t, wire, p)
    ensures CheckHeader(c, H.New(PT.AsU8(t), p.header.flags, AsU32(|wire|), p.header.sequence)) == Ok(())
  {
    PT.CodeOfType(t);
  }

  /** A frame whose header passes and whose payload is all there costs both, whatever the payload unwraps to. */
  lemma ReadPassed(open: Opener, c: Codec, input: bytes, h: H.Header, wire: bytes, rest: bytes)
    requires |input| >= H.HEADER_SIZE && H.FromBytes(input[..H.HEADER_SIZE]) == h && CheckHeader(c, h).Ok?
    requires input[H.HEADER_SIZE..] == wire + rest && |wire| == h.payloadLen
    ensures Read(open, c, input) == ReadResult(c.(lastRecvSeq := Some(h.sequence)), Unwrap(open, c.session, h, wire), rest)
  {
    SplitConcat(wire, rest);
  }

  lemma UnwrapOfGenuine(open: Opener, s: Option<Session>, t: PT.PacketType, wire: bytes, p: RawPacket)
    requires Genuine(open, s, t, wire, p)
    ensures Unwrap(open, s, H.New(PT.AsU8(t), p.header.flags, AsU32(|wire|), p.header.sequence), wire) == Ok(p)
  {
  }

  /** A printed frame that delivers `p` is read as `p`, to its last byte and no further. */
  lemma ReadOfFrame(open: Opener, c: Codec, t: PT.PacketType, wire: bytes, p: RawPacket, rest: bytes)
    requires Delivers(open, c, t, wire, p)
    ensures Read(open, c, Frame(PT.AsU8(t), p.header.flags, wire, p.header.sequence) + rest)
         == ReadResult(c.(lastRecvSeq := Some(p.header.sequence)), Ok(p), rest)
  {
    var input := Frame(PT.AsU8(t), p.header.flags, wire, p.header.sequence) + rest;
    var h := H.New(PT.AsU8(t), p.header.flags, AsU32(|wire|), p.header.sequence);
    FrameHead(PT.AsU8(t), p.header.flags, wire, p.header.sequence, rest);
    HeaderPasses(open, c, t, wire, p);
    UnwrapOfGenuine(open, c.session, t, wire, p);
    ReadPassed(open, c, input, h, wire, rest);
  }

  /** A genuine frame whose number is not above the watermark is refused, and changes nothing. */
  lemma ReadOfStale(open: Opener, c: Codec, t: PT.PacketType, wire: bytes, p: RawPacket, rest: bytes)
    requires Genuine(open, c.session, t, wire, p) && !Above(c.lastRecvSeq, p.header.sequence)
    ensures Read(open, c, Frame(PT.AsU8(t), p.header.flags, wire, p.header.sequence) + rest)
         == ReadResult(c, Err(SequenceViolation(p.header.sequence, c.lastRecvSeq.value)), wire + rest)
  {
    FrameHead(PT.AsU8(t), p.header.flags, wire, p.header.sequence, rest);
    PT.CodeOfType(t);
    ReadRefused(open, c, Frame(PT.AsU8(t), p.header.flags, wire, p.header.sequence) + rest,
                H.New(PT.AsU8(t), p.header.flags, AsU32(|wire|), p.header.sequence),
                SequenceViolation(p.header.sequence, c.lastRecvSeq.value));
  }

  lemma HeaderTooLarge(c: Codec, t: PT.PacketType, flags: u8, n: u32, q: u64)
    requires MaxWire(t, flags) < n && (c.session.Some? ==> H.IsEncrypted(flags))
    ensures var r := CheckHeader(c, H.New(PT.AsU8(t), flags, n, q));
            r.Err? && r.error.PayloadTooLarge? && r.error.size == n
  {
    PT.CodeOfType(t);
  }

  /** A frame too long for its type is refused as too large, whatever the receiver's watermark. */
  lemma ReadOfOversize(open: Opener, c: Codec, t: PT.PacketType, flags: u8, wire: bytes, q: u64)
    requires MaxWire(t, flags) < |wire| <= U32_MAX && (c.session.Some? ==> H.IsEncrypted(flags))
    ensures var r := Read(open, c, Frame(PT.AsU8(t), flags, wire, q));
            r.codec == c && r.outcome.Err? && r.outcome.error.PayloadTooLarge? && r.outcome.error.size == |wire|
  {
    assert Frame(PT.AsU8(t), flags, wire, q) + [] == Frame(PT.AsU8(t), flags, wire, q);
    FrameHead(PT.AsU8(t), flags, wire, q, []);
    HeaderTooLarge(c, t, flags, |wire|, q);
    var h := H.New(PT.AsU8(t), flags, |wire|, q);
    ReadRefused(open, c, Frame(PT.AsU8(t), flags, wire, q), h, CheckHeader(c, h).error);
  }

  /** A payload that unwraps under a checked header is one that header's frame delivers. */
  lemma UnwrapDelivers(open: Opener, c: Codec, h: H.Header, wire: bytes)
    requires CheckHeader(c, h).Ok? && |wire| == h.payloadLen && Unwrap(open, c.session, h, wire).Ok?
    ensures var t, p := PT.FromU8(h.packetType), Unwrap(open, c.session, h, wire).value;
            && t.Ok? && Delivers(open, c, t.value, wire, p)
            && p.header.flags == h.flags && p.header.sequence == h.sequence
            && h == H.New(PT.AsU8(t.value), h.flags, AsU32(|wire|), h.sequence)
  {
    PT.TypeOfCode(h.packetType);
  }

  /** An accepted input starts with a frame that delivers the packet returned. */
  lemma FrameOfRead(open: Opener, c: Codec, input: bytes)
    requires Read(open, c, input).outcome.Ok?
    ensures var r := Read(open, c, input);
            && StartsWithDelivery(open, c, input, r.outcome.value, r.rest)
            && r.codec == c.(lastRecvSeq := Some(r.outcome.value.header.sequence))
  {
    var r := Read(open, c, input);
    var h := H.FromBytes(input[..H.HEADER_SIZE]);
    var body := input[H.HEADER_SIZE..];
    var wire := body[..h.payloadLen];
    UnwrapDelivers(open, c, h, wire);
    H.PrintFrom(input[..H.HEADER_SIZE]);
    var t := PT.FromU8(h.packetType).value;
    assert input == Frame(PT.AsU8(t), h.flags, wire, h.sequence) + r.rest;
  }

  /** `read_packet` accepts exactly the inputs that start with a deliverable frame. */
  lemma ReadAcceptsExactly(open: Opener, c: Codec, input: bytes, c': Codec, p: RawPacket, rest: bytes)
    ensures Read(open, c, input) == ReadResult(c', Ok(p), rest)
       <==> StartsWithDelivery(open, c, input, p, rest) && c' == c.(lastRecvSeq := Some(p.header.sequence))
  {
    if Read(open, c, input) == ReadResult(c', Ok(p), rest) {
      FrameOfRead(open, c, input);
    }
    if StartsWithDelivery(open, c, input, p, rest) {
      var t, wire :| Delivers(open, c, t, wire, p) && input == Frame(PT.AsU8(t), p.header.flags, wire, p.header.sequence) + rest;
      ReadOfFrame(open, c, t, wire, p, rest);
    }
  }

  /** The lengths of a deliverable frame, for an AEAD whose texts are a plaintext and a tag. */
  lemma DeliveredLengths(open: Opener, c: Codec, t: PT.PacketType, wire: bytes, p: RawPacket)
    requires Tagged(open) && Delivers(open, c, t, wire, p)
    ensures |wire| == |p.payload| + (if c.session.Some? then GCM_TAG_LEN else 0)
    ensures p.header.payloadLen == |p.payload| <= PT.MaxPayloadSize(t)
  {
  }

  /** The shape of every packet returned: known type, true length within the type's ceiling, encrypted iff in session. */
  lemma DeliveredShape(open: Opener, c: Codec, input: bytes)
    requires Tagged(open) && Read(open, c, input).outcome.Ok?
    ensures var r := Read(open, c, input);
            var p := r.outcome.value;
            && PT.FromU8(p.header.packetType).Ok?
            && p.header.payloadLen == |p.payload| <= PT.MaxPayloadSize(PT.FromU8(p.header.packetType).value)
            && (H.IsEncrypted(p.header.flags) <==> c.session.Some?)
            && Above(c.lastRecvSeq, p.header.sequence)
            && |input| == H.HEADER_SIZE + |p.payload| + (if c.session.Some? then GCM_TAG_LEN else 0) + |r.rest|
  {
    FrameOfRead(open, c, input);
    ShapeOfDelivery(open, c, input, Read(open, c, input).outcome.value, Read(open, c, input).rest);
  }

  lemma ShapeOfDelivery(open: Opener, c: Codec, input: bytes, p: RawPacket, rest: bytes)
    requires Tagged(open) && StartsWithDelivery(open, c, input, p, rest)
    ensures && PT.FromU8(p.header.packetType).Ok?
            && p.header.payloadLen == |p.payload| <= PT.MaxPayloadSize(PT.FromU8(p.header.packetType).value)
            && (H.IsEncrypted(p.header.flags) <==> c.session.Some?)
            && Above(c.lastRecvSeq, p.header.sequence)
            && |input| == H.HEADER_SIZE + |p.payload| + (if c.session.Some? then GCM_TAG_LEN else 0) + |rest|
  {
    var t, wire :| Delivers(open, c, t, wire, p) && input == Frame(PT.AsU8(t), p.header.flags, wire, p.header.sequence) + rest;
    DeliveredLengths(open, c, t, wire, p);
    PT.CodeOfType(t);
  }

  ghost predicate KnownCode(code: u8) {
    exists t: PT.PacketType :: PT.AsU8(t) == code
  }

  /** A length field that the type's ceiling allows, with a tag's room when the frame is encrypted. */
  ghost predicate WithinCeiling(code: u8, encrypted: bool, len: nat) {
    exists t: PT.PacketType :: PT.AsU8(t) == code && len <= PT.MaxPayloadSize(t) + if encrypted then 16 else 0
  }

  /** The 24 header bytes that move the receive watermark, named byte by byte. */
  ghost predicate Moves(c: Codec, b: H.HeaderBytes) {
    && b[0..4] == [0x43, 0x48, 0x54, 0x58] && b[4] == 1 && b[7] == 24
    && FromBE(b[8..12]) <= 1048576 && FromBE(b[20..24]) == 0
    && (c.session.Some? ==> b[6] % 2 == 1)
    && WithinCeiling(b[5], b[6] % 2 == 1, FromBE(b[8..12]))
    && (c.lastRecvSeq.Some? ==> c.lastRecvSeq.value < FromBE(b[12..20]))
  }

  lemma CeilingOfCode(code: u8, encrypted: bool, len: nat)
    ensures KnownCode(code) <==> PT.FromU8(code).Ok?
    ensures WithinCeiling(code, encrypted, len) <==>
            PT.FromU8(code).Ok? && len <= PT.MaxPayloadSize(PT.FromU8(code).value) + if encrypted then 16 else 0
  {
    PT.TypeOfCode(code);
    forall t: PT.PacketType | PT.AsU8(t) == code ensures PT.FromU8(code) == Ok(t) {
      PT.CodeOfType(t);
    }
  }

  /** The checks pass for exactly those header bytes. */
  lemma ChecksAreOnBytes(c: Codec, b: H.HeaderBytes)
    ensures CheckHeader(c, H.FromBytes(b)).Ok? <==> Moves(c, b)
  {
    CeilingOfCode(b[5], b[6] % 2 == 1, FromBE(b[8..12]));
  }

  /**
   What any call, accepting or not, does to the codec and to the input. The watermark moves exactly
   on the header bytes above, whatever becomes of the payload, and to the number they carry; then
   the whole payload is taken, or all there is. Otherwise only the header is taken.
   */
  lemma ReadFrames(open: Opener, c: Codec, input: bytes)
    ensures var r := Read(open, c, input);
            var moves := |input| >= 24 && Moves(c, input[..24]);
            && (r.codec != c <==> moves)
            && r.codec == c.(lastRecvSeq := r.codec.lastRecvSeq)
            && (moves ==> r.codec.lastRecvSeq.Some? && r.codec.lastRecvSeq.value == FromBE(input[12..20]))
            && (r.outcome == Err(Io) <==> |input| < 24 || (moves && |input| < 24 + FromBE(input[8..12])))
            && (moves && r.outcome != Err(Io) ==> r.rest == input[24 + FromBE(input[8..12])..])
            && (!moves && r.outcome != Err(Io) ==> r.rest == input[24..])
            && (r.outcome == Err(Io) ==> r.rest == [])
  {
    if |input| >= 24 {
      HeaderSlices(input);
      ChecksAreOnBytes(c, input[..24]);
      var n := FromBE(input[8..12]);
      if n <= |input[24..]| {
        assert input[24..][n..] == input[24 + n..];
      }
    }
  }

  /** Every call: the watermark never falls, and anything but an I/O error takes at least a header. */
  lemma ReadKeeps(open: Opener, c: Codec, input: bytes)
    ensures var r := Read(open, c, input);
            && r.codec == c.(lastRecvSeq := r.codec.lastRecvSeq)
            && (c.lastRecvSeq.Some? ==> r.codec.lastRecvSeq.Some? && c.lastRecvSeq.value <= r.codec.lastRecvSeq.value)
            && (r.outcome != Err(Io) ==> |r.rest| + H.HEADER_SIZE <= |input|)
  {
  }

  lemma HeaderSlices(input: bytes)
    requires |input| >= 24
    ensures input[..24][0..4] == input[0..4] && input[..24][8..12] == input[8..12]
    ensures input[..24][12..20] == input[12..20] && input[..24][20..24] == input[20..24]
  {
  }

  /** The nonce of a received number is four zero bytes and the header's sequence field. */
  lemma NonceOfHeader(b: H.HeaderBytes)
    ensures SeqNonce(H.FromBytes(b).sequence) == [0, 0, 0, 0] + b[12..20]
  {
    ToFromBE(b[12..20]);
  }

  /** What a call that took a whole payload returns: the payload itself, what it opens to, or CryptoError. */
  lemma ReadOutcome(open: Opener, c: Codec, input: bytes)
    requires |input| >= 24 && Moves(c, input[..24]) && |input| >= 24 + FromBE(input[8..12])
    ensures var out := Read(open, c, input).outcome;
            var wire := input[24..24 + FromBE(input[8..12])];
            if input[6] % 2 == 0 then out.Ok? && out.value.payload == wire
            else if c.session.None? then out == Err(CryptoError)
            else
              var nonce: Nonce := [0, 0, 0, 0] + input[12..20];
              var plain := open(c.session.value.inboundKey, nonce, [input[5], input[6]], wire);
              if plain.None? then out == Err(CryptoError) else out.Ok? && out.value.payload == plain.value
  {
    HeaderSlices(input);
    ChecksAreOnBytes(c, input[..24]);
    NonceOfHeader(input[..24]);
    var n := FromBE(input[8..12]);
    assert input[24..][..n] == input[24..24 + n];
  }

  /** Which error a header is refused with: the first of these that applies, read off its bytes. */
  lemma RefusalReason(open: Opener, c: Codec, input: bytes)
    requires |input| >= 24
    ensures var out := Read(open, c, input).outcome;
            var len, q := FromBE(input[8..12]), FromBE(input[12..20]);
            if input[0..4] != [0x43, 0x48, 0x54, 0x58] then out == Err(InvalidMagic)
            else if input[4] != 1 then out == Err(UnsupportedVersion(input[4] as int))
            else if input[7] != 24 then out == Err(InvalidHeaderLength)
            else if len > 1048576 then out == Err(PayloadTooLarge(len, 1048576))
            else if FromBE(input[20..24]) != 0 then out == Err(ReservedFieldNonZero)
            else if c.session.Some? && input[6] % 2 == 0 then out == Err(EncryptionRequired)
            else if !KnownCode(input[5]) then out == Err(UnknownPacketType(input[5] as int))
            else if !WithinCeiling(input[5], input[6] % 2 == 1, len) then out.Err? && out.error.PayloadTooLarge? && out.error.size == len
            else if c.lastRecvSeq.Some? && q <= c.lastRecvSeq.value then out == Err(SequenceViolation(q, c.lastRecvSeq.value))
            else out.Ok? || out.error.Io? || out.error.CryptoError?
  {
    HeaderSlices(input);
    CeilingOfCode(input[5], input[6] % 2 == 1, FromBE(input[8..12]));
    PT.UnknownCode(input[5]);
  }

  /** Reads until the input runs out; every other outcome keeps the loop going. */
  function Drain(open: Opener, c: Codec, input: bytes): seq<Result<RawPacket, ProtocolError>>
    decreases |input|
  {
    var r := Read(open, c, input);
    if r.outcome == Err(Io) then []
    else
      assert |r.rest| < |input| by { ReadKeeps(open, c, input); }
      [r.outcome] + Drain(open, r.codec, r.rest)
  }

  /** The sequence numbers of the packets among the outcomes. */
  function Sequences(outcomes: seq<Result<RawPacket, ProtocolError>>): seq<u64> {
    if |outcomes| == 0 then []
    else (if outcomes[0].Ok? then [outcomes[0].value.header.sequence] else []) + Sequences(outcomes[1..])
  }

  /** Strictly increasing, and all above `last`. */
  ghost predicate Ascending(last: Option<u64>, s: seq<u64>) {
    && (forall i :: 0 <= i < |s| ==> Above(last, s[i]))
    && (forall i, j :: 0 <= i < j < |s| ==> s[i] < s[j])
  }

  lemma AscendingCons(last: Option<u64>, q: u64, s: seq<u64>)
    requires Above(last, q) && Ascending(Some(q), s)
    ensures Ascending(last, [q] + s)
  {
  }

  /** Draining any bytes at all takes at least 24 of them for every outcome. */
  lemma {:induction false} DrainEnds(open: Opener, c: Codec, input: bytes)
    ensures |Drain(open, c, input)| * H.HEADER_SIZE <= |input|
    decreases |input|
  {
    var r := Read(open, c, input);
    if r.outcome != Err(Io) {
      ReadKeeps(open, c, input);
      DrainEnds(open, r.codec, r.rest);
    }
  }

  /** The packets drained from any bytes at all have strictly increasing sequence numbers. */
  lemma {:induction false} DrainAscends(open: Opener, c: Codec, input: bytes)
    ensures Ascending(c.lastRecvSeq, Sequences(Drain(open, c, input)))
    decreases |input|
  {
    var r := Read(open, c, input);
    if r.outcome != Err(Io) {
      ReadKeeps(open, c, input);
      DrainAscends(open, r.codec, r.rest);
      var later := Drain(open, r.codec, r.rest);
      assert ([r.outcome] + later)[1..] == later;
      if r.outcome.Ok? {
        FrameOfRead(open, c, input);
        AscendingCons(c.lastRecvSeq, r.outcome.value.header.sequence, Sequences(later));
      } else {
        assert [] + Sequences(later) == Sequences(later);
      }
    }
  }
}
