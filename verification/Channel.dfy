/**
 The secure channel: an honest sender, a network that feeds the receiver any bytes it likes,
 and an ideal AEAD that opens exactly what has been sealed so far.
 */
module Channel {
  import opened Wrappers
  import opened Bytes
  import opened Sizes
  import opened Primitives
  import opened Codec
  import opened FrameParser
  import Stream
  import PT = PacketType
  import H = Header

  /** One successful seal. */
  datatype Sealed = Sealed(key: Key, nonce: Nonce, ad: bytes, plaintext: bytes, text: bytes)

  ghost predicate InLog(log: seq<Sealed>, k: Key, n: Nonce, ad: bytes, p: bytes, c: bytes) {
    Sealed(k, n, ad, p, c) in log
  }

  /** The ideal AEAD: a text opens if and only if it was sealed under the same key, nonce and data. */
  ghost function IdealOpen(log: seq<Sealed>, k: Key, n: Nonce, ad: bytes, c: bytes): (r: Option<bytes>)
    ensures r.Some? <==> exists p: bytes :: InLog(log, k, n, ad, p, c)
    ensures r.Some? ==> InLog(log, k, n, ad, r.value, c)
  {
    if exists p: bytes :: InLog(log, k, n, ad, p, c)
    then var p: bytes :| InLog(log, k, n, ad, p, c); Some(p)
    else None
  }

  ghost function IdealOpener(log: seq<Sealed>): Opener {
    (k: Key, n: Nonce, ad: bytes, c: bytes) => IdealOpen(log, k, n, ad, c)
  }

  /** A seal that returns `text`. */
  function Yields(text: Option<bytes>): Sealer {
    (k: Key, n: Nonce, ad: bytes, p: bytes) => text
  }

  /** `log` is everything sealed by anyone; `sent` what the sender sealed; `delivered` what the receiver returned in session. */
  datatype System = System(
    shared: set<Key>, sender: Codec, receiver: Codec,
    log: seq<Sealed>, sent: seq<RawPacket>, delivered: seq<RawPacket>)

  /** `text` is whatever the AEAD's seal returns; `None` is a failing seal. */
  datatype Event =
    | SenderRekeys(outbound: Key, inbound: Key)
    | SenderWrites(packetType: PT.PacketType, flags: u8, payload: bytes, text: Option<bytes>)
    | ReceiverRekeys(outbound: Key, inbound: Key)
    | ReceiverReads(input: bytes)
    | OtherSeals(entry: Sealed)

  /** The shared keys are the ones only the sender seals under, and the ones the receiver opens with. */
  ghost predicate Allowed(s: System, e: Event) {
    match e
    case ReceiverRekeys(_, inbound) => inbound in s.shared
    case OtherSeals(entry) => entry.key !in s.shared
    case _ => true
  }

  ghost function Step(s: System, e: Event): System {
    match e
    case SenderRekeys(outbound, inbound) => s.(sender := Establish(s.sender, outbound, inbound))
    case SenderWrites(t, flags, payload, text) =>
      var w := Write(Yields(text), s.sender, t, flags, payload);
      if w.outcome.Ok? && s.sender.session.Some? then
        var p := Stream.Expected(s.sender, t, flags, payload);
        var entry := Sealed(s.sender.session.value.outboundKey, SeqNonce(s.sender.nextSendSeq),
                            HeaderAad(p.header.packetType, p.header.flags), payload, text.value);
        s.(sender := w.codec, log := s.log + [entry], sent := s.sent + [p])
      else s.(sender := w.codec)
    case ReceiverRekeys(outbound, inbound) => s.(receiver := Establish(s.receiver, outbound, inbound))
    case ReceiverReads(input) =>
      var r := Read(IdealOpener(s.log), s.receiver, input);
      s.(receiver := r.codec,
         delivered := if r.outcome.Ok? && s.receiver.session.Some? then s.delivered + [r.outcome.value] else s.delivered)
    case OtherSeals(entry) => s.(log := s.log + [entry])
  }

  ghost function Initial(shared: set<Key>): System {
    System(shared, FRESH, FRESH, [], [], [])
  }

  ghost function Run(shared: set<Key>, events: seq<Event>): System {
    if |events| == 0 then Initial(shared)
    else Step(Run(shared, events[..|events| - 1]), events[|events| - 1])
  }

  ghost predicate AllowedRun(shared: set<Key>, events: seq<Event>) {
    forall i :: 0 <= i < |events| ==> Allowed(Run(shared, events[..i]), events[i])
  }

  /** A log entry under a shared key was made for the packet `p`. */
  ghost predicate MadeFor(e: Sealed, p: RawPacket) {
    && e.nonce == SeqNonce(p.header.sequence)
    && e.ad == HeaderAad(p.header.packetType, p.header.flags)
    && e.plaintext == p.payload
    && p.header == H.New(p.header.packetType, p.header.flags, AsU32(|p.payload|), p.header.sequence)
  }

  ghost predicate Recorded(s: System) {
    forall e :: e in s.log && e.key in s.shared ==> exists p :: p in s.sent && MadeFor(e, p)
  }

  ghost predicate Increasing(ps: seq<RawPacket>) {
    forall i, j :: 0 <= i < j < |ps| ==> ps[i].header.sequence < ps[j].header.sequence
  }

  ghost predicate SentInOrder(s: System) {
    && Increasing(s.sent)
    && forall p :: p in s.sent ==> p.header.sequence < s.sender.nextSendSeq && H.IsEncrypted(p.header.flags)
  }

  ghost predicate DeliveredInOrder(s: System) {
    && Increasing(s.delivered)
    && forall p :: p in s.delivered ==>
         p in s.sent && s.receiver.lastRecvSeq.Some? && p.header.sequence <= s.receiver.lastRecvSeq.value
  }

  ghost predicate Inv(s: System) {
    && Recorded(s) && SentInOrder(s) && DeliveredInOrder(s)
    && (s.receiver.session.Some? ==> s.receiver.session.value.inboundKey in s.shared)
  }

  lemma WriteKeepsInv(s: System, e: Event)
    requires Inv(s) && e.SenderWrites?
    ensures Inv(Step(s, e))
  {
    var s' := Step(s, e);
    if s'.log != s.log {
      var p := s'.sent[|s.sent|];
      var entry := s'.log[|s.log|];
      assert MadeFor(entry, p);
      assert p in s'.sent;
      forall x | x in s'.log && x.key in s.shared ensures exists y :: y in s'.sent && MadeFor(x, y) {
        if x in s.log {
          var y :| y in s.sent && MadeFor(x, y);
          assert y in s'.sent;
        }
      }
    }
  }

  /** Whatever the bytes, a packet delivered in session is one the sender sealed, in every field. */
  lemma DeliveredWasSent(s: System, input: bytes)
    requires Inv(s) && s.receiver.session.Some?
    requires Read(IdealOpener(s.log), s.receiver, input).outcome.Ok?
    ensures var r := Read(IdealOpener(s.log), s.receiver, input);
            r.outcome.value in s.sent
  {
    var open := IdealOpener(s.log);
    var r := Read(open, s.receiver, input);
    var p := r.outcome.value;
    FrameOfRead(open, s.receiver, input);
    var t, wire :| Delivers(open, s.receiver, t, wire, p) && input == Frame(PT.AsU8(t), p.header.flags, wire, p.header.sequence) + r.rest;
    var key := s.receiver.session.value.inboundKey;
    var entry := Sealed(key, SeqNonce(p.header.sequence), [PT.AsU8(t), p.header.flags], p.payload, wire);
    assert InLog(s.log, key, entry.nonce, entry.ad, p.payload, wire);
    var q :| q in s.sent && MadeFor(entry, q);
    SeqNonceInjective(p.header.sequence, q.header.sequence);
    assert entry.ad[0] == q.header.packetType && entry.ad[1] == q.header.flags;
    assert q == p;
  }

  lemma {:induction false} ReadKeepsInv(s: System, e: Event)
    requires Inv(s) && e.ReceiverReads?
    ensures Inv(Step(s, e))
  {
    var open := IdealOpener(s.log);
    var r := Read(open, s.receiver, e.input);
    ReadKeeps(open, s.receiver, e.input);
    if r.outcome.Ok? && s.receiver.session.Some? {
      DeliveredWasSent(s, e.input);
      FrameOfRead(open, s.receiver, e.input);
    }
  }

  lemma {:induction false} StepKeepsInv(s: System, e: Event)
    requires Inv(s) && Allowed(s, e)
    ensures Inv(Step(s, e)) && Step(s, e).shared == s.shared
  {
    match e
    case SenderWrites(_, _, _, _) => WriteKeepsInv(s, e);
    case ReceiverReads(_) => ReadKeepsInv(s, e);
    case SenderRekeys(_, _) =>
    case ReceiverRekeys(_, _) =>
    case OtherSeals(_) =>
  }

  lemma {:induction false} RunKeepsInv(shared: set<Key>, events: seq<Event>)
    requires AllowedRun(shared, events)
    ensures Inv(Run(shared, events)) && Run(shared, events).shared == shared
  {
    if |events| > 0 {
      var n := |events| - 1;
      assert forall i :: 0 <= i < n ==> events[..n][..i] == events[..i];
      RunKeepsInv(shared, events[..n]);
      StepKeepsInv(Run(shared, events[..n]), events[n]);
    }
  }

  /** `a` is `b` with some elements left out: `at` says where each element of `a` comes from. */
  ghost predicate Embeds(a: seq<RawPacket>, b: seq<RawPacket>, at: seq<nat>) {
    && |at| == |a|
    && (forall i :: 0 <= i < |a| ==> at[i] < |b| && a[i] == b[at[i]])
    && (forall i, j :: 0 <= i < j < |at| ==> at[i] < at[j])
  }

  lemma IncreasingEmbeds(a: seq<RawPacket>, b: seq<RawPacket>)
    requires Increasing(a) && Increasing(b) && forall p :: p in a ==> p in b
    ensures exists at :: Embeds(a, b, at)
  {
    var at := Places(a, b);
    forall i, j | 0 <= i < j < |at| ensures at[i] < at[j] {
      assert a[i].header.sequence < a[j].header.sequence;
    }
    assert Embeds(a, b, at);
  }

  ghost function Places(a: seq<RawPacket>, b: seq<RawPacket>): (at: seq<nat>)
    requires forall p :: p in a ==> p in b
    ensures |at| == |a| && forall i :: 0 <= i < |a| ==> at[i] < |b| && b[at[i]] == a[i]
  {
    if |a| == 0 then []
    else
      assert a[|a| - 1] in b;
      var k: nat :| k < |b| && b[k] == a[|a| - 1];
      Places(a[..|a| - 1], b) + [k]
  }

  /**
   Channel safety. In every run, at every moment, the packets the receiver has returned in
   session are the packets the sender has sealed with some left out: same order, none twice,
   none altered in type, flags, sequence number or plaintext.
   */
  lemma {:induction false} ChannelSafety(shared: set<Key>, events: seq<Event>)
    requires AllowedRun(shared, events)
    ensures var s := Run(shared, events);
            && (exists at :: Embeds(s.delivered, s.sent, at))
            && (forall p :: p in s.delivered ==> H.IsEncrypted(p.header.flags))
  {
    RunKeepsInv(shared, events);
    var s := Run(shared, events);
    IncreasingEmbeds(s.delivered, s.sent);
  }

  /** In a reachable state a text sealed for a sent packet opens to that packet's plaintext and no other. */
  lemma SealedOpens(s: System, entry: Sealed, p: RawPacket)
    requires Inv(s) && entry in s.log && entry.key in s.shared && p in s.sent && MadeFor(entry, p)
    ensures IdealOpen(s.log, entry.key, entry.nonce, entry.ad, entry.text) == Some(p.payload)
  {
    assert InLog(s.log, entry.key, entry.nonce, entry.ad, p.payload, entry.text);
    var x := IdealOpen(s.log, entry.key, entry.nonce, entry.ad, entry.text).value;
    var found := Sealed(entry.key, entry.nonce, entry.ad, x, entry.text);
    assert found in s.log;
    var q :| q in s.sent && MadeFor(found, q);
    SeqNonceInjective(q.header.sequence, p.header.sequence);
    var i :| 0 <= i < |s.sent| && s.sent[i] == p;
    var j :| 0 <= j < |s.sent| && s.sent[j] == q;
    assert i == j;
  }

  /** What the sender's write adds to the state, and the frame it puts on the wire. */
  lemma WriteInSession(s: System, e: Event)
    requires Inv(s) && e.SenderWrites? && s.sender.nextSendSeq < U64_MAX && s.sender.session.Some? && e.text.Some?
    ensures var p := Stream.Expected(s.sender, e.packetType, e.flags, e.payload);
            var entry := Sealed(s.sender.session.value.outboundKey, SeqNonce(s.sender.nextSendSeq),
                                [PT.AsU8(e.packetType), p.header.flags], e.payload, e.text.value);
            && Step(s, e).sent == s.sent + [p] && Step(s, e).log == s.log + [entry] && MadeFor(entry, p)
            && Write(Yields(e.text), s.sender, e.packetType, e.flags, e.payload).outcome
               == Ok(Frame(PT.AsU8(e.packetType), p.header.flags, e.text.value, s.sender.nextSendSeq))
  {
  }

  /** The guarantee is not empty: what the sender writes in session and the network passes on is delivered. */
  lemma {:induction false} HonestDelivery(s: System, e: Event)
    requires Inv(s) && e.SenderWrites? && s.sender.nextSendSeq < U64_MAX && s.sender.session.Some?
    requires e.text.Some? && |e.text.value| == |e.payload| + GCM_TAG_LEN
    requires Stream.Fits(s.sender, e.packetType, e.flags, e.payload)
    requires Stream.Paired(s.sender, s.receiver) && Above(s.receiver.lastRecvSeq, s.sender.nextSendSeq)
    requires s.sender.session.value.outboundKey in s.shared
    ensures var s1 := Step(s, e);
            var frame := Write(Yields(e.text), s.sender, e.packetType, e.flags, e.payload).outcome.value;
            Step(s1, ReceiverReads(frame)).delivered == s.delivered + [s1.sent[|s.sent|]]
  {
    var s1 := Step(s, e);
    var p := Stream.Expected(s.sender, e.packetType, e.flags, e.payload);
    WriteInSession(s, e);
    WriteKeepsInv(s, e);
    SealedOpens(s1, s1.log[|s.log|], p);
    PassedOnIsDelivered(s1, e.packetType, e.text.value, p);
  }

  /** A frame that opens to `p` is delivered as `p`. */
  lemma PassedOnIsDelivered(s: System, t: PT.PacketType, text: bytes, p: RawPacket)
    requires s.receiver.session.Some? && Delivers(IdealOpener(s.log), s.receiver, t, text, p)
    ensures var frame := Frame(PT.AsU8(t), p.header.flags, text, p.header.sequence);
            Step(s, ReceiverReads(frame)).delivered == s.delivered + [p]
  {
    ReadOfFrame(IdealOpener(s.log), s.receiver, t, text, p, []);
    var frame := Frame(PT.AsU8(t), p.header.flags, text, p.header.sequence);
    assert frame + [] == frame;
  }
}
