/** A list of packets written into one buffer and read back, with rekeying at any points. */
module Stream {
  import opened Wrappers
  import opened Bytes
  import opened Sizes
  import opened Primitives
  import opened Codec
  import opened FrameParser
  import PT = PacketType
  import H = Header

  /** One call on the sender; the receiver makes the matching one. Keys are named from the sender's side. */
  datatype Op =
    | Rekey(outbound: Key, inbound: Key)
    | Send(packetType: PT.PacketType, flags: u8, payload: bytes)

  /** The packet a receiver should return for this write. */
  function Expected(s: Codec, t: PT.PacketType, flags: u8, payload: bytes): RawPacket {
    var f := if s.session.Some? then H.SetEncrypted(flags) else flags;
    RawPacket(H.New(PT.AsU8(t), f, AsU32(|payload|), s.nextSendSeq), payload)
  }

  /** What a caller can check before writing. */
  predicate Fits(s: Codec, t: PT.PacketType, flags: u8, payload: bytes) {
    |payload| <= PT.MaxPayloadSize(t) && (s.session.None? ==> !H.IsEncrypted(flags))
  }

  /** The receiver opens what the sender seals. */
  predicate Paired(s: Codec, r: Codec) {
    if s.session.None? then r.session.None?
    else r.session.Some? && s.session.value.outboundKey == r.session.value.inboundKey
  }

  /** A write succeeds, within the AEAD's limit, until the counter is exhausted. */
  lemma WriteSucceeds(aead: Aead, s: Codec, t: PT.PacketType, flags: u8, payload: bytes)
    requires Correct(aead) && s.nextSendSeq < U64_MAX && |payload| <= GCM_MAX_PLAINTEXT
    ensures var w := Write(aead.seal, s, t, flags, payload);
            w.outcome.Ok? && w.codec == s.(nextSendSeq := s.nextSendSeq + 1)
  {
  }

  /** The frame of a write: its wire bytes, and that they open to the payload. */
  lemma FrameOfWrite(aead: Aead, s: Codec, t: PT.PacketType, flags: u8, payload: bytes) returns (wire: bytes)
    requires Correct(aead) && s.nextSendSeq < U64_MAX && |payload| <= GCM_MAX_PLAINTEXT
    ensures var w := Write(aead.seal, s, t, flags, payload);
            var h := Expected(s, t, flags, payload).header;
            && w.outcome == Ok(Frame(PT.AsU8(t), h.flags, wire, s.nextSendSeq))
            && |wire| == |payload| + (if s.session.Some? then GCM_TAG_LEN else 0)
            && (if s.session.None? then wire == payload
                else aead.open(s.session.value.outboundKey, SeqNonce(s.nextSendSeq), [PT.AsU8(t), h.flags], wire) == Some(payload))
  {
    if s.session.None? {
      wire := payload;
    } else {
      wire := aead.seal(s.session.value.outboundKey, SeqNonce(s.nextSendSeq),
                        HeaderAad(PT.AsU8(t), H.SetEncrypted(flags)), payload).value;
    }
  }

  /** A written frame that fits is read back as written, whatever follows it. */
  lemma FrameRoundTrip(aead: Aead, s: Codec, r: Codec, t: PT.PacketType, flags: u8, payload: bytes, rest: bytes)
    requires Correct(aead) && s.nextSendSeq < U64_MAX
    requires Paired(s, r) && Above(r.lastRecvSeq, s.nextSendSeq) && Fits(s, t, flags, payload)
    ensures var w := Write(aead.seal, s, t, flags, payload);
            && w.outcome.Ok?
            && Read(aead.open, r, w.outcome.value + rest)
               == ReadResult(r.(lastRecvSeq := Some(s.nextSendSeq)), Ok(Expected(s, t, flags, payload)), rest)
  {
    var wire := FrameOfWrite(aead, s, t, flags, payload);
    ReadOfFrame(aead.open, r, t, wire, Expected(s, t, flags, payload), rest);
  }

  /** A written frame that does not fit is never read back as written. */
  lemma {:induction false} MisfitIsLost(aead: Aead, s: Codec, r: Codec, t: PT.PacketType, flags: u8, payload: bytes, rest: bytes)
    requires Correct(aead) && Tagged(aead.open) && s.nextSendSeq < U64_MAX && |payload| <= GCM_MAX_PLAINTEXT
    requires Paired(s, r) && !Fits(s, t, flags, payload)
    ensures var w := Write(aead.seal, s, t, flags, payload);
            && w.outcome.Ok?
            && Read(aead.open, r, w.outcome.value + rest).outcome != Ok(Expected(s, t, flags, payload))
  {
    var wire := FrameOfWrite(aead, s, t, flags, payload);
    var p := Expected(s, t, flags, payload);
    var input := Frame(PT.AsU8(t), p.header.flags, wire, s.nextSendSeq) + rest;
    if Read(aead.open, r, input).outcome == Ok(p) {
      DeliveredShape(aead.open, r, input);
      PT.CodeOfType(t);
    }
  }

  /** Every write of `ops` in turn: the sender's last state and the bytes in the buffer. */
  function WriteAll(seal: Sealer, s: Codec, ops: seq<Op>): (Codec, bytes)
    decreases |ops|
  {
    if |ops| == 0 then (s, [])
    else match ops[0]
      case Rekey(o, i) => WriteAll(seal, Establish(s, o, i), ops[1..])
      case Send(t, flags, payload) =>
        var w := Write(seal, s, t, flags, payload);
        var (s', later) := WriteAll(seal, w.codec, ops[1..]);
        (s', (if w.outcome.Ok? then w.outcome.value else []) + later)
  }

  /** One `read_packet` for each write, rekeying at the same points. */
  function ReadAll(open: Opener, r: Codec, ops: seq<Op>, input: bytes): (seq<Result<RawPacket, ProtocolError>>, bytes)
    decreases |ops|
  {
    if |ops| == 0 then ([], input)
    else match ops[0]
      case Rekey(o, i) => ReadAll(open, Establish(r, i, o), ops[1..], input)
      case Send(_, _, _) =>
        var one := Read(open, r, input);
        var (later, rest) := ReadAll(open, one.codec, ops[1..], one.rest);
        ([one.outcome] + later, rest)
  }

  function Sends(ops: seq<Op>): nat {
    if |ops| == 0 then 0 else (if ops[0].Send? then 1 else 0) + Sends(ops[1..])
  }

  function ExpectedAll(s: Codec, ops: seq<Op>): seq<Result<RawPacket, ProtocolError>>
    requires s.nextSendSeq + Sends(ops) <= U64_MAX
    decreases |ops|
  {
    if |ops| == 0 then []
    else match ops[0]
      case Rekey(o, i) => ExpectedAll(Establish(s, o, i), ops[1..])
      case Send(t, flags, payload) =>
        [Ok(Expected(s, t, flags, payload))] + ExpectedAll(s.(nextSendSeq := s.nextSendSeq + 1), ops[1..])
  }

  predicate FitsAll(s: Codec, ops: seq<Op>)
    decreases |ops|
  {
    |ops| == 0 ||
    match ops[0]
    case Rekey(o, i) => FitsAll(Establish(s, o, i), ops[1..])
    case Send(t, flags, payload) => Fits(s, t, flags, payload) && FitsAll(s, ops[1..])
  }

  predicate Sealable(ops: seq<Op>) {
    forall i :: 0 <= i < |ops| && ops[i].Send? ==> |ops[i].payload| <= GCM_MAX_PLAINTEXT
  }

  /** `Fits` does not depend on the counter. */
  lemma {:induction false} FitsAllAdvances(s: Codec, ops: seq<Op>, q: u64)
    ensures FitsAll(s.(nextSendSeq := q), ops) == FitsAll(s, ops)
    decreases |ops|
  {
    if |ops| > 0 {
      match ops[0]
      case Rekey(o, i) => FitsAllAdvances(Establish(s, o, i), ops[1..], q);
      case Send(t, flags, payload) => FitsAllAdvances(s, ops[1..], q);
    }
  }

  lemma FitsAllSend(s: Codec, ops: seq<Op>)
    requires |ops| > 0 && ops[0].Send? && s.nextSendSeq < U64_MAX
    ensures FitsAll(s, ops)
       <==> Fits(s, ops[0].packetType, ops[0].flags, ops[0].payload)
            && FitsAll(s.(nextSendSeq := s.nextSendSeq + 1), ops[1..])
  {
    FitsAllAdvances(s, ops[1..], s.nextSendSeq + 1);
  }

  /** Reading the buffer back gives exactly the packets written, with nothing left over. */
  predicate RoundTrips(aead: Aead, s: Codec, r: Codec, ops: seq<Op>)
    requires s.nextSendSeq + Sends(ops) <= U64_MAX
  {
    ReadAll(aead.open, r, ops, WriteAll(aead.seal, s, ops).1) == (ExpectedAll(s, ops), [])
  }

  lemma RekeyFirst(aead: Aead, s: Codec, r: Codec, ops: seq<Op>)
    requires |ops| > 0 && ops[0].Rekey? && s.nextSendSeq + Sends(ops) <= U64_MAX
    ensures RoundTrips(aead, s, r, ops)
        <==> RoundTrips(aead, Establish(s, ops[0].outbound, ops[0].inbound),
                        Establish(r, ops[0].inbound, ops[0].outbound), ops[1..])
  {
  }

  lemma WriteAllStep(seal: Sealer, s: Codec, ops: seq<Op>, frame: bytes, s': Codec)
    requires |ops| > 0 && ops[0].Send?
    requires Write(seal, s, ops[0].packetType, ops[0].flags, ops[0].payload) == WriteResult(s', Ok(frame))
    ensures WriteAll(seal, s, ops).1 == frame + WriteAll(seal, s', ops[1..]).1
  {
  }

  lemma ReadAllStep(open: Opener, r: Codec, ops: seq<Op>, input: bytes, one: ReadResult)
    requires |ops| > 0 && ops[0].Send? && one == Read(open, r, input)
    ensures var later := ReadAll(open, one.codec, ops[1..], one.rest);
            ReadAll(open, r, ops, input) == ([one.outcome] + later.0, later.1)
  {
  }

  /** The list read back is right exactly when its head and its tail are. */
  lemma HeadDecides(aead: Aead, s: Codec, r: Codec, ops: seq<Op>, frame: bytes, s': Codec, one: ReadResult)
    requires |ops| > 0 && ops[0].Send? && s.nextSendSeq + Sends(ops) <= U64_MAX
    requires s' == s.(nextSendSeq := s.nextSendSeq + 1)
    requires Write(aead.seal, s, ops[0].packetType, ops[0].flags, ops[0].payload) == WriteResult(s', Ok(frame))
    requires one == Read(aead.open, r, frame + WriteAll(aead.seal, s', ops[1..]).1)
    ensures RoundTrips(aead, s, r, ops)
       <==> one.outcome == Ok(Expected(s, ops[0].packetType, ops[0].flags, ops[0].payload))
            && ReadAll(aead.open, one.codec, ops[1..], one.rest) == (ExpectedAll(s', ops[1..]), [])
  {
    var input := frame + WriteAll(aead.seal, s', ops[1..]).1;
    WriteAllStep(aead.seal, s, ops, frame, s');
    ReadAllStep(aead.open, r, ops, input, one);
    var e := Ok(Expected(s, ops[0].packetType, ops[0].flags, ops[0].payload));
    ConsEqual(one.outcome, ReadAll(aead.open, one.codec, ops[1..], one.rest).0, e, ExpectedAll(s', ops[1..]));
  }

  lemma ConsEqual<T>(x: T, a: seq<T>, y: T, b: seq<T>)
    ensures [x] + a == [y] + b <==> x == y && a == b
  {
    assert ([x] + a)[1..] == a && ([y] + b)[1..] == b;
    assert ([x] + a)[0] == x && ([y] + b)[0] == y;
  }

  lemma {:induction false} SendFirst(aead: Aead, s: Codec, r: Codec, ops: seq<Op>)
    requires Correct(aead) && Tagged(aead.open) && Sealable(ops)
    requires |ops| > 0 && ops[0].Send? && s.nextSendSeq + Sends(ops) <= U64_MAX
    requires Paired(s, r) && Above(r.lastRecvSeq, s.nextSendSeq)
    ensures RoundTrips(aead, s, r, ops)
        <==> Fits(s, ops[0].packetType, ops[0].flags, ops[0].payload)
             && RoundTrips(aead, s.(nextSendSeq := s.nextSendSeq + 1), r.(lastRecvSeq := Some(s.nextSendSeq)), ops[1..])
  {
    var Send(t, flags, payload) := ops[0];
    var s' := s.(nextSendSeq := s.nextSendSeq + 1);
    WriteSucceeds(aead, s, t, flags, payload);
    var frame := Write(aead.seal, s, t, flags, payload).outcome.value;
    var later := WriteAll(aead.seal, s', ops[1..]).1;
    HeadDecides(aead, s, r, ops, frame, s', Read(aead.open, r, frame + later));
    if Fits(s, t, flags, payload) {
      FrameRoundTrip(aead, s, r, t, flags, payload, later);
    } else {
      MisfitIsLost(aead, s, r, t, flags, payload, later);
    }
  }

  /**
   Reading the buffer back gives exactly the packets written, with nothing left over, if and
   only if every payload fits its type and no caller set ENCRYPTED before a session.
   */
  lemma {:induction false} StreamRoundTrip(aead: Aead, s: Codec, r: Codec, ops: seq<Op>)
    requires Correct(aead) && Tagged(aead.open) && Sealable(ops)
    requires s.nextSendSeq + Sends(ops) <= U64_MAX
    requires Paired(s, r) && Above(r.lastRecvSeq, s.nextSendSeq)
    ensures RoundTrips(aead, s, r, ops) <==> FitsAll(s, ops)
    decreases |ops|
  {
    if |ops| == 0 {
    } else if ops[0].Rekey? {
      var s', r' := Establish(s, ops[0].outbound, ops[0].inbound), Establish(r, ops[0].inbound, ops[0].outbound);
      RekeyFirst(aead, s, r, ops);
      StreamRoundTrip(aead, s', r', ops[1..]);
    } else {
      var s' := s.(nextSendSeq := s.nextSendSeq + 1);
      SendFirst(aead, s, r, ops);
      FitsAllSend(s, ops);
      StreamRoundTrip(aead, s', r.(lastRecvSeq := Some(s.nextSendSeq)), ops[1..]);
    }
  }
}
