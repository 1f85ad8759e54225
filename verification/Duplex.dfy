/**
 Two codecs joined by two byte streams. Whatever the interleaving of writes and reads at both
 ends, the bytes behave as two queues of packets.
 */
module Duplex {
  import opened Wrappers
  import opened Bytes
  import opened Sizes
  import opened Primitives
  import opened Codec
  import opened FrameParser
  import opened Stream
  import PT = PacketType
  import H = Header

  datatype Side = Left | Right

  datatype Act =
    | Sends(side: Side, packetType: PT.PacketType, flags: u8, payload: bytes)
    | Receives(side: Side)

  type Outcome = Result<RawPacket, ProtocolError>

  /** The system as it is: two codecs and the unread bytes in each direction. */
  datatype Link = Link(left: Codec, right: Codec, toRight: bytes, toLeft: bytes)

  function Push(seal: Sealer, s: Codec, wire: bytes, act: Act): (Codec, bytes)
    requires act.Sends?
  {
    var w := Write(seal, s, act.packetType, act.flags, act.payload);
    (w.codec, wire + if w.outcome.Ok? then w.outcome.value else [])
  }

  function LinkStep(aead: Aead, l: Link, act: Act): (Link, seq<Outcome>) {
    match act
    case Sends(Left, _, _, _) =>
      var (c, wire) := Push(aead.seal, l.left, l.toRight, act);
      (l.(left := c, toRight := wire), [])
    case Sends(Right, _, _, _) =>
      var (c, wire) := Push(aead.seal, l.right, l.toLeft, act);
      (l.(right := c, toLeft := wire), [])
    case Receives(Right) =>
      var r := Read(aead.open, l.right, l.toRight);
      (l.(right := r.codec, toRight := r.rest), [r.outcome])
    case Receives(Left) =>
      var r := Read(aead.open, l.left, l.toLeft);
      (l.(left := r.codec, toLeft := r.rest), [r.outcome])
  }

  function LinkRun(aead: Aead, l: Link, acts: seq<Act>): (Link, seq<Outcome>) {
    if |acts| == 0 then (l, [])
    else
      var (before, outcomes) := LinkRun(aead, l, acts[..|acts| - 1]);
      var (after, more) := LinkStep(aead, before, acts[|acts| - 1]);
      (after, outcomes + more)
  }

  /** A packet written and not yet read. */
  datatype Pending = Pending(packetType: PT.PacketType, flags: u8, payload: bytes, seqNo: u64)

  /** The system as its users see it: a counter and a queue of packets in each direction. */
  datatype Queues = Queues(encrypted: bool, nextLeft: u64, nextRight: u64, toRight: seq<Pending>, toLeft: seq<Pending>)

  function PacketOf(encrypted: bool, e: Pending): RawPacket {
    var f := if encrypted then H.SetEncrypted(e.flags) else e.flags;
    RawPacket(H.New(PT.AsU8(e.packetType), f, AsU32(|e.payload|), e.seqNo), e.payload)
  }

  function Take(encrypted: bool, q: seq<Pending>): (seq<Pending>, Outcome) {
    if |q| == 0 then (q, Err(Io)) else (q[1..], Ok(PacketOf(encrypted, q[0])))
  }

  function Put(next: u64, q: seq<Pending>, act: Act): (u64, seq<Pending>)
    requires act.Sends?
  {
    if next == U64_MAX then (next, q)
    else (next + 1, q + [Pending(act.packetType, act.flags, act.payload, next)])
  }

  function QueueStep(u: Queues, act: Act): (Queues, seq<Outcome>) {
    match act
    case Sends(Left, _, _, _) =>
      var (next, q) := Put(u.nextLeft, u.toRight, act);
      (u.(nextLeft := next, toRight := q), [])
    case Sends(Right, _, _, _) =>
      var (next, q) := Put(u.nextRight, u.toLeft, act);
      (u.(nextRight := next, toLeft := q), [])
    case Receives(Right) =>
      var (q, outcome) := Take(u.encrypted, u.toRight);
      (u.(toRight := q), [outcome])
    case Receives(Left) =>
      var (q, outcome) := Take(u.encrypted, u.toLeft);
      (u.(toLeft := q), [outcome])
  }

  function QueueRun(u: Queues, acts: seq<Act>): (Queues, seq<Outcome>) {
    if |acts| == 0 then (u, [])
    else
      var (before, outcomes) := QueueRun(u, acts[..|acts| - 1]);
      var (after, more) := QueueStep(before, acts[|acts| - 1]);
      (after, outcomes + more)
  }

  /** The state in which a packet was written, as far as its frame depends on it. */
  function WriterOf(session: Option<Session>, e: Pending): Codec {
    Codec(None, e.seqNo, session)
  }

  function FrameOf(seal: Sealer, session: Option<Session>, e: Pending): bytes {
    var w := Write(seal, WriterOf(session, e), e.packetType, e.flags, e.payload);
    if w.outcome.Ok? then w.outcome.value else []
  }

  /** The bytes a queue of packets occupies. */
  function Image(seal: Sealer, session: Option<Session>, q: seq<Pending>): bytes {
    if |q| == 0 then [] else FrameOf(seal, session, q[0]) + Image(seal, session, q[1..])
  }

  lemma {:induction false} ImageAppend(seal: Sealer, session: Option<Session>, q: seq<Pending>, e: Pending)
    ensures Image(seal, session, q + [e]) == Image(seal, session, q) + FrameOf(seal, session, e)
  {
    if |q| == 0 {
      assert q + [e] == [e];
      assert [e][1..] == [];
    } else {
      assert (q + [e])[1..] == q[1..] + [e];
      ImageAppend(seal, session, q[1..], e);
    }
  }

  /** One direction: the bytes are the image of the queue, whose packets fit and are numbered in order. */
  ghost predicate Half(seal: Sealer, s: Codec, r: Codec, wire: bytes, next: u64, q: seq<Pending>) {
    && Paired(s, r) && next == s.nextSendSeq
    && wire == Image(seal, s.session, q)
    && Above(r.lastRecvSeq, next)
    && (forall i :: 0 <= i < |q| ==> q[i].seqNo < next && Above(r.lastRecvSeq, q[i].seqNo))
    && (forall i :: 0 <= i < |q| ==> Fits(s, q[i].packetType, q[i].flags, q[i].payload))
    && (forall i, j :: 0 <= i < j < |q| ==> q[i].seqNo < q[j].seqNo)
  }

  predicate MayAct(encrypted: bool, act: Act) {
    act.Sends? ==> |act.payload| <= PT.MaxPayloadSize(act.packetType) && (encrypted || !H.IsEncrypted(act.flags))
  }

  lemma PushKeepsHalf(aead: Aead, s: Codec, r: Codec, wire: bytes, q: seq<Pending>, act: Act)
    requires Correct(aead) && act.Sends? && MayAct(s.session.Some?, act)
    requires Half(aead.seal, s, r, wire, s.nextSendSeq, q)
    ensures var (s', wire') := Push(aead.seal, s, wire, act);
            var (next', q') := Put(s.nextSendSeq, q, act);
            && Half(aead.seal, s', r, wire', next', q')
            && s' == s.(nextSendSeq := next')
  {
    var (s', wire') := Push(aead.seal, s, wire, act);
    if s.nextSendSeq < U64_MAX {
      var e := Pending(act.packetType, act.flags, act.payload, s.nextSendSeq);
      WriteSucceeds(aead, s, act.packetType, act.flags, act.payload);
      assert FrameOf(aead.seal, s.session, e) == Write(aead.seal, s, act.packetType, act.flags, act.payload).outcome.value;
      ImageAppend(aead.seal, s.session, q, e);
    } else {
      assert wire + [] == wire;
    }
  }

  lemma {:induction false} PullKeepsHalf(aead: Aead, s: Codec, r: Codec, wire: bytes, q: seq<Pending>)
    requires Correct(aead) && Half(aead.seal, s, r, wire, s.nextSendSeq, q)
    ensures var one := Read(aead.open, r, wire);
            var (q', outcome) := Take(s.session.Some?, q);
            && one.outcome == outcome
            && Half(aead.seal, s, one.codec, one.rest, s.nextSendSeq, q')
            && one.codec == r.(lastRecvSeq := one.codec.lastRecvSeq)
  {
    if |q| > 0 {
      var e := q[0];
      var w := WriterOf(s.session, e);
      FrameRoundTrip(aead, w, r, e.packetType, e.flags, e.payload, Image(aead.seal, s.session, q[1..]));
      assert Expected(w, e.packetType, e.flags, e.payload) == PacketOf(s.session.Some?, e);
    }
  }

  /** The bytes and the queues agree in both directions. */
  ghost predicate Refines(seal: Sealer, l: Link, u: Queues) {
    && u.encrypted == l.left.session.Some?
    && Half(seal, l.left, l.right, l.toRight, u.nextLeft, u.toRight)
    && Half(seal, l.right, l.left, l.toLeft, u.nextRight, u.toLeft)
  }

  lemma {:induction false} SendRefines(aead: Aead, l: Link, u: Queues, act: Act)
    requires Correct(aead) && Refines(aead.seal, l, u) && MayAct(u.encrypted, act) && act.Sends?
    ensures LinkStep(aead, l, act).1 == QueueStep(u, act).1
    ensures Refines(aead.seal, LinkStep(aead, l, act).0, QueueStep(u, act).0)
  {
    match act.side
    case Left => PushKeepsHalf(aead, l.left, l.right, l.toRight, u.toRight, act);
    case Right => PushKeepsHalf(aead, l.right, l.left, l.toLeft, u.toLeft, act);
  }

  lemma {:induction false} ReceiveRefines(aead: Aead, l: Link, u: Queues, act: Act)
    requires Correct(aead) && Refines(aead.seal, l, u) && act.Receives?
    ensures LinkStep(aead, l, act).1 == QueueStep(u, act).1
    ensures Refines(aead.seal, LinkStep(aead, l, act).0, QueueStep(u, act).0)
  {
    match act.side
    case Right => PullKeepsHalf(aead, l.left, l.right, l.toRight, u.toRight);
    case Left => PullKeepsHalf(aead, l.right, l.left, l.toLeft, u.toLeft);
  }

  lemma {:induction false} StepRefines(aead: Aead, l: Link, u: Queues, act: Act)
    requires Correct(aead) && Refines(aead.seal, l, u) && MayAct(u.encrypted, act)
    ensures LinkStep(aead, l, act).1 == QueueStep(u, act).1
    ensures Refines(aead.seal, LinkStep(aead, l, act).0, QueueStep(u, act).0)
    ensures QueueStep(u, act).0.encrypted == u.encrypted
  {
    if act.Sends? {
      SendRefines(aead, l, u, act);
    } else {
      ReceiveRefines(aead, l, u, act);
    }
  }

  /** Every interleaving gives each reader exactly what the queues would: the peer's packets, whole and in order. */
  lemma {:induction false} RunRefines(aead: Aead, l: Link, u: Queues, acts: seq<Act>)
    requires Correct(aead) && Refines(aead.seal, l, u)
    requires forall i :: 0 <= i < |acts| ==> MayAct(u.encrypted, acts[i])
    ensures LinkRun(aead, l, acts).1 == QueueRun(u, acts).1
    ensures Refines(aead.seal, LinkRun(aead, l, acts).0, QueueRun(u, acts).0)
    ensures QueueRun(u, acts).0.encrypted == u.encrypted
  {
    if |acts| > 0 {
      var n := |acts| - 1;
      RunRefines(aead, l, u, acts[..n]);
      StepRefines(aead, LinkRun(aead, l, acts[..n]).0, QueueRun(u, acts[..n]).0, acts[n]);
    }
  }

  /** Two codecs with paired sessions and nothing in flight start as two empty queues. */
  lemma StartsEmpty(seal: Sealer, left: Codec, right: Codec)
    requires Paired(left, right) && Paired(right, left)
    requires Above(right.lastRecvSeq, left.nextSendSeq) && Above(left.lastRecvSeq, right.nextSendSeq)
    ensures Refines(seal, Link(left, right, [], []),
                    Queues(left.session.Some?, left.nextSendSeq, right.nextSendSeq, [], []))
  {
  }

  function CodecAt(l: Link, side: Side): Codec {
    match side case Left => l.left case Right => l.right
  }

  /** The packet, if any, that a step returned at `side`. */
  function Got(act: Act, out: seq<Outcome>, side: Side): seq<RawPacket> {
    if act.Receives? && act.side == side && |out| == 1 && out[0].Ok? then [out[0].value] else []
  }

  /** The packet, if any, that a step puts on the wire from `side`, whose codec is `c`. */
  function WrittenBy(act: Act, c: Codec, side: Side): seq<RawPacket> {
    if act.Sends? && act.side == side && c.nextSendSeq < U64_MAX
    then [Expected(c, act.packetType, act.flags, act.payload)] else []
  }

  /** The packets `side` has put on the wire in a run of the real system, in order. */
  function SentBy(aead: Aead, l: Link, acts: seq<Act>, side: Side): seq<RawPacket> {
    if |acts| == 0 then []
    else
      var n := |acts| - 1;
      SentBy(aead, l, acts[..n], side) + WrittenBy(acts[n], CodecAt(LinkRun(aead, l, acts[..n]).0, side), side)
  }

  /** The packets `read_packet` has returned at `side` in a run of the real system, in order. */
  function ReadAt(aead: Aead, l: Link, acts: seq<Act>, side: Side): seq<RawPacket> {
    if |acts| == 0 then []
    else
      var n := |acts| - 1;
      ReadAt(aead, l, acts[..n], side) + Got(acts[n], LinkStep(aead, LinkRun(aead, l, acts[..n]).0, acts[n]).1, side)
  }

  function Packets(encrypted: bool, q: seq<Pending>): (ps: seq<RawPacket>)
    ensures |ps| == |q|
  {
    seq(|q|, i requires 0 <= i < |q| => PacketOf(encrypted, q[i]))
  }

  function QueueTo(u: Queues, side: Side): seq<Pending> {
    match side case Left => u.toLeft case Right => u.toRight
  }

  function Other(side: Side): Side {
    match side case Left => Right case Right => Left
  }

  lemma QueueConserves(u: Queues, act: Act, side: Side, c: Codec)
    requires c.session.Some? == u.encrypted && c.nextSendSeq == (if side.Left? then u.nextRight else u.nextLeft)
    ensures var (u', out) := QueueStep(u, act);
            Got(act, out, side) + Packets(u.encrypted, QueueTo(u', side))
            == Packets(u.encrypted, QueueTo(u, side)) + WrittenBy(act, c, Other(side))
  {
    var before, after := QueueTo(u, side), QueueTo(QueueStep(u, act).0, side);
    if act.Receives? && act.side == side && |before| > 0 {
      assert before == [before[0]] + after;
    }
  }

  /** One step moves a packet from the queue to the reader, or from the writer to the queue. */
  lemma {:induction false} StepConserves(aead: Aead, l: Link, u: Queues, act: Act, side: Side)
    requires Correct(aead) && Refines(aead.seal, l, u) && MayAct(u.encrypted, act)
    ensures Got(act, LinkStep(aead, l, act).1, side) + Packets(u.encrypted, QueueTo(QueueStep(u, act).0, side))
         == Packets(u.encrypted, QueueTo(u, side)) + WrittenBy(act, CodecAt(l, Other(side)), Other(side))
  {
    StepRefines(aead, l, u, act);
    QueueConserves(u, act, side, CodecAt(l, Other(side)));
  }

  lemma Rebalance<T>(read: seq<T>, got: seq<T>, before: seq<T>, after: seq<T>, put: seq<T>, sent: seq<T>)
    requires read + before == sent && got + after == before + put
    ensures read + got + after == sent + put
  {
    assert read + got + after == read + (got + after);
    assert read + (before + put) == read + before + put;
  }

  /** Nothing is lost, repeated, reordered or invented: what was sent is what was read and then what is still queued. */
  lemma {:induction false} NothingLost(aead: Aead, l: Link, u: Queues, acts: seq<Act>, side: Side)
    requires Correct(aead) && Refines(aead.seal, l, u) && QueueTo(u, side) == []
    requires forall i :: 0 <= i < |acts| ==> MayAct(u.encrypted, acts[i])
    ensures ReadAt(aead, l, acts, side) + Packets(u.encrypted, QueueTo(QueueRun(u, acts).0, side))
         == SentBy(aead, l, acts, Other(side))
  {
    if |acts| > 0 {
      var n := |acts| - 1;
      NothingLost(aead, l, u, acts[..n], side);
      RunRefines(aead, l, u, acts[..n]);
      var l0, u0 := LinkRun(aead, l, acts[..n]).0, QueueRun(u, acts[..n]).0;
      StepConserves(aead, l0, u0, acts[n], side);
      Rebalance(ReadAt(aead, l, acts[..n], side), Got(acts[n], LinkStep(aead, l0, acts[n]).1, side),
                Packets(u.encrypted, QueueTo(u0, side)), Packets(u.encrypted, QueueTo(QueueStep(u0, acts[n]).0, side)),
                WrittenBy(acts[n], CodecAt(l0, Other(side)), Other(side)), SentBy(aead, l, acts[..n], Other(side)));
    }
  }
}
