/** Genuine frames that arrive in any order, with losses and repeats, each in its own reader. */
module Reorder {
  import opened Wrappers
  import opened Bytes
  import opened Sizes
  import opened Primitives
  import opened Codec
  import opened FrameParser
  import Stream
  import PT = PacketType

  /** A frame on the wire and the packet it stands for. */
  datatype Arrival = Arrival(packetType: PT.PacketType, wire: bytes, packet: RawPacket)

  function FrameOf(a: Arrival): bytes {
    Frame(PT.AsU8(a.packetType), a.packet.header.flags, a.wire, a.packet.header.sequence)
  }

  ghost predicate AllGenuine(open: Opener, c: Codec, arrivals: seq<Arrival>) {
    forall i :: 0 <= i < |arrivals| ==>
      Genuine(open, c.session, arrivals[i].packetType, arrivals[i].wire, arrivals[i].packet)
  }

  /** The receiver after reading every arrival in turn. */
  function After(open: Opener, c: Codec, arrivals: seq<Arrival>): Codec {
    if |arrivals| == 0 then c
    else
      var n := |arrivals| - 1;
      Read(open, After(open, c, arrivals[..n]), FrameOf(arrivals[n])).codec
  }

  /** What the receiver returns for the i-th arrival. */
  function OutcomeOf(open: Opener, c: Codec, arrivals: seq<Arrival>, i: nat): Result<RawPacket, ProtocolError>
    requires i < |arrivals|
  {
    Read(open, After(open, c, arrivals[..i]), FrameOf(arrivals[i])).outcome
  }

  lemma ReadOne(open: Opener, c: Codec, a: Arrival)
    requires Genuine(open, c.session, a.packetType, a.wire, a.packet)
    ensures var q := a.packet.header.sequence;
            var r := Read(open, c, FrameOf(a));
            if Above(c.lastRecvSeq, q) then r.outcome == Ok(a.packet) && r.codec == c.(lastRecvSeq := Some(q))
            else r.outcome == Err(SequenceViolation(q, c.lastRecvSeq.value)) && r.codec == c
  {
    assert FrameOf(a) + [] == FrameOf(a);
    if Above(c.lastRecvSeq, a.packet.header.sequence) {
      ReadOfFrame(open, c, a.packetType, a.wire, a.packet, []);
    } else {
      ReadOfStale(open, c, a.packetType, a.wire, a.packet, []);
    }
  }

  /** Where genuine arrivals leave a watermark. */
  function Watermark(last: Option<u64>, arrivals: seq<Arrival>): Option<u64> {
    if |arrivals| == 0 then last
    else
      var n := |arrivals| - 1;
      var q := arrivals[n].packet.header.sequence;
      var before := Watermark(last, arrivals[..n]);
      if Above(before, q) then Some(q) else before
  }

  /** The watermark is the greatest number seen: a number is above it iff it is above all of them. */
  lemma {:induction false} WatermarkIsMaximum(last: Option<u64>, arrivals: seq<Arrival>, q: u64)
    ensures Above(Watermark(last, arrivals), q)
       <==> Above(last, q) && forall j :: 0 <= j < |arrivals| ==> arrivals[j].packet.header.sequence < q
  {
    if |arrivals| > 0 {
      var n := |arrivals| - 1;
      WatermarkIsMaximum(last, arrivals[..n], q);
      WatermarkIsMaximum(last, arrivals[..n], arrivals[n].packet.header.sequence);
      assert forall j :: 0 <= j < n ==> arrivals[..n][j] == arrivals[j];
    }
  }

  lemma {:induction false} AfterIsWatermark(open: Opener, c: Codec, arrivals: seq<Arrival>)
    requires AllGenuine(open, c, arrivals)
    ensures After(open, c, arrivals) == c.(lastRecvSeq := Watermark(c.lastRecvSeq, arrivals))
  {
    if |arrivals| > 0 {
      var n := |arrivals| - 1;
      AfterIsWatermark(open, c, arrivals[..n]);
      ReadOne(open, After(open, c, arrivals[..n]), arrivals[n]);
    }
  }

  /** The accepted arrivals are exactly the strict left-to-right maxima, returned intact. */
  lemma {:induction false} AcceptedAreRecords(open: Opener, c: Codec, arrivals: seq<Arrival>, i: nat)
    requires AllGenuine(open, c, arrivals) && i < |arrivals|
    ensures var q := arrivals[i].packet.header.sequence;
            var isRecord := Above(c.lastRecvSeq, q) && forall j :: 0 <= j < i ==> arrivals[j].packet.header.sequence < q;
            && (isRecord ==> OutcomeOf(open, c, arrivals, i) == Ok(arrivals[i].packet))
            && (!isRecord ==> OutcomeOf(open, c, arrivals, i).Err?
                              && OutcomeOf(open, c, arrivals, i).error.SequenceViolation?)
  {
    var q := arrivals[i].packet.header.sequence;
    AfterIsWatermark(open, c, arrivals[..i]);
    WatermarkIsMaximum(c.lastRecvSeq, arrivals[..i], q);
    assert forall j :: 0 <= j < i ==> arrivals[..i][j] == arrivals[j];
    ReadOne(open, After(open, c, arrivals[..i]), arrivals[i]);
  }

  /** Frames a paired sender writes are genuine. */
  lemma WrittenIsGenuine(aead: Aead, s: Codec, r: Codec, t: PT.PacketType, flags: u8, payload: bytes) returns (a: Arrival)
    requires Correct(aead) && s.nextSendSeq < U64_MAX
    requires Stream.Paired(s, r) && Stream.Fits(s, t, flags, payload)
    ensures Write(aead.seal, s, t, flags, payload).outcome == Ok(FrameOf(a))
    ensures a.packet == Stream.Expected(s, t, flags, payload)
    ensures Genuine(aead.open, r.session, a.packetType, a.wire, a.packet)
  {
    var wire := Stream.FrameOfWrite(aead, s, t, flags, payload);
    a := Arrival(t, wire, Stream.Expected(s, t, flags, payload));
  }
}
