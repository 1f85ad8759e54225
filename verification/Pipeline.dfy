/**
 One message from end to end: encrypted for the recipient, sent to the server in a SendMessage,
 copied by the server into a QueuedMessageDelivery, and decrypted by the recipient.
 */
module Pipeline {
  import opened Wrappers
  import opened Bytes
  import opened Sizes
  import opened Primitives
  import opened Codec
  import opened FrameParser
  import opened Common
  import opened MessagePayloads
  import E = E2e
  import Stream
  import PT = PacketType
  import H = Header

  datatype Failure = Protocol(error: ProtocolError) | Payload(kind: PayloadError)

  /** One packet from `s` to `r`, with the frame alone in the reader. */
  function Hop(aead: Aead, s: Codec, r: Codec, t: PT.PacketType, payload: bytes): Result<RawPacket, ProtocolError> {
    match Write(aead.seal, s, t, 0, payload).outcome
    case Err(e) => Err(e)
    case Ok(frame) => Read(aead.open, r, frame).outcome
  }

  /** The two connections: sending client to server, and server to receiving client. */
  datatype Connections = Connections(client: Codec, serverIn: Codec, serverOut: Codec, recipient: Codec)

  predicate Ready(c: Connections) {
    && c.client.nextSendSeq < U64_MAX && c.serverOut.nextSendSeq < U64_MAX
    && Stream.Paired(c.client, c.serverIn) && Above(c.serverIn.lastRecvSeq, c.client.nextSendSeq)
    && Stream.Paired(c.serverOut, c.recipient) && Above(c.recipient.lastRecvSeq, c.serverOut.nextSendSeq)
  }

  /** Who is talking: the recipient's secrets and the sender's signing seed. */
  datatype Parties = Parties(recipientX25519: Bytes32, recipientSeed: Seed64, signingSeed: Bytes32)

  datatype Message = Message(messageId: u64, queueId: u64, recipientId: Str, senderId: Str)

  /** From the client to the server: what the server decodes. */
  function Upload(s: Suite, c: Connections, m: Message, blob: bytes): Result<SendMessage, Failure> {
    match EncodeSendMessage(SendMessage(m.messageId, m.recipientId, blob))
    case Err(e) => Err(Payload(e))
    case Ok(payload) =>
      match Hop(s.aead, c.client, c.serverIn, PT.SendMessage, payload)
      case Err(e) => Err(Protocol(e))
      case Ok(packet) =>
        match DecodeSendMessage(packet.payload)
        case Err(e) => Err(Payload(e))
        case Ok(v) => Ok(v)
  }

  /** From the server to the recipient: what the recipient decodes. */
  function Download(s: Suite, c: Connections, m: Message, received: SendMessage): Result<QueuedMessageDelivery, Failure> {
    match EncodeQueued(QueuedMessageDelivery(m.queueId, received.messageId, m.senderId, received.content))
    case Err(e) => Err(Payload(e))
    case Ok(payload) =>
      match Hop(s.aead, c.serverOut, c.recipient, PT.QueuedMessageDelivery, payload)
      case Err(e) => Err(Protocol(e))
      case Ok(packet) =>
        match DecodeQueued(packet.payload)
        case Err(e) => Err(Payload(e))
        case Ok(v) => Ok(v)
  }

  function Deliver(s: Suite, c: Connections, p: Parties, m: Message, d: E.Draws, plaintext: bytes): Result<bytes, Failure> {
    match E.Encrypted(s, plaintext, s.dhPublic(p.recipientX25519), s.kemKey(p.recipientSeed), p.signingSeed, d)
    case Err(e) => Err(Protocol(e))
    case Ok(blob) =>
      match Upload(s, c, m, blob)
      case Err(e) => Err(e)
      case Ok(received) =>
        match Download(s, c, m, received)
        case Err(e) => Err(e)
        case Ok(delivery) =>
          match E.Decrypted(s, delivery.content, p.recipientX25519, p.recipientSeed, s.verifyingKey(p.signingSeed))
          case Err(e) => Err(Protocol(e))
          case Ok(text) => Ok(text)
  }

  lemma HopDelivers(aead: Aead, s: Codec, r: Codec, t: PT.PacketType, payload: bytes)
    requires Correct(aead) && s.nextSendSeq < U64_MAX && |payload| <= PT.MaxPayloadSize(t)
    requires Stream.Paired(s, r) && Above(r.lastRecvSeq, s.nextSendSeq)
    ensures Hop(aead, s, r, t, payload) == Ok(Stream.Expected(s, t, 0, payload))
  {
    Stream.FrameRoundTrip(aead, s, r, t, 0, payload, []);
    var frame := Write(aead.seal, s, t, 0, payload).outcome.value;
    assert frame + [] == frame;
  }

  lemma HopRefuses(aead: Aead, s: Codec, r: Codec, t: PT.PacketType, payload: bytes)
    requires Correct(aead) && s.nextSendSeq < U64_MAX && PT.MaxPayloadSize(t) < |payload| <= U32_MAX - GCM_TAG_LEN
    requires Stream.Paired(s, r)
    ensures Hop(aead, s, r, t, payload).Err? && Hop(aead, s, r, t, payload).error.PayloadTooLarge?
  {
    var wire := Stream.FrameOfWrite(aead, s, t, 0, payload);
    var flags := Stream.Expected(s, t, 0, payload).header.flags;
    assert MaxWire(t, flags) < |wire| by {
      assert H.IsEncrypted(flags) <==> s.session.Some?;
    }
    ReadOfOversize(aead.open, r, t, flags, wire, s.nextSendSeq);
  }

  lemma {:induction false} UploadExactly(s: Suite, c: Connections, m: Message, blob: bytes)
    requires Lawful(s) && Ready(c) && |blob| <= 0x8000_0000
    ensures var size := 14 + |m.recipientId| + |blob|;
            var up := Upload(s, c, m, blob);
            && (size <= 65536 ==> up == Ok(SendMessage(m.messageId, m.recipientId, blob)))
            && (size > 65536 && |m.recipientId| <= U16_MAX ==> up.Err? && up.error.Protocol? && up.error.error.PayloadTooLarge?)
            && (up.Ok? ==> size <= 65536)
  {
    var v := SendMessage(m.messageId, m.recipientId, blob);
    SendMessageRoundTrip(v);
    if |m.recipientId| <= U16_MAX {
      var payload := EncodeSendMessage(v).value;
      if |payload| <= 65536 {
        HopDelivers(s.aead, c.client, c.serverIn, PT.SendMessage, payload);
      } else {
        HopRefuses(s.aead, c.client, c.serverIn, PT.SendMessage, payload);
      }
    }
  }

  lemma {:induction false} DownloadExactly(s: Suite, c: Connections, m: Message, received: SendMessage)
    requires Lawful(s) && Ready(c) && |received.content| <= 0x8000_0000
    ensures var size := 22 + |m.senderId| + |received.content|;
            var down := Download(s, c, m, received);
            && (size <= 65536 ==> down == Ok(QueuedMessageDelivery(m.queueId, received.messageId, m.senderId, received.content)))
            && (size > 65536 && |m.senderId| <= U16_MAX ==> down.Err? && down.error.Protocol? && down.error.error.PayloadTooLarge?)
            && (down.Ok? ==> size <= 65536)
  {
    var v := QueuedMessageDelivery(m.queueId, received.messageId, m.senderId, received.content);
    QueuedRoundTrip(v);
    if |m.senderId| <= U16_MAX {
      var payload := EncodeQueued(v).value;
      if |payload| <= 65536 {
        HopDelivers(s.aead, c.serverOut, c.recipient, PT.QueuedMessageDelivery, payload);
      } else {
        HopRefuses(s.aead, c.serverOut, c.recipient, PT.QueuedMessageDelivery, payload);
      }
    }
  }

  /** Both payloads fit: with a blob overhead of 4457 bytes and field overheads of 14 and 22. */
  predicate SizesFit(m: Message, n: nat) {
    n + |m.recipientId| <= 61065 && n + |m.senderId| <= 61057
  }

  /** What any hop returns is no longer than its type allows. */
  lemma HopIsShort(aead: Aead, s: Codec, r: Codec, t: PT.PacketType, payload: bytes)
    requires Correct(aead) && Tagged(aead.open) && Hop(aead, s, r, t, payload).Ok?
    ensures |Hop(aead, s, r, t, payload).value.payload| <= 65536
  {
    DeliveredShape(aead.open, r, Write(aead.seal, s, t, 0, payload).outcome.value);
  }

  /** Whatever was sent, a delivered plaintext is short. */
  lemma {:induction false} DeliveredIsShort(s: Suite, c: Connections, p: Parties, m: Message, d: E.Draws, plaintext: bytes)
    requires Lawful(s) && Deliver(s, c, p, m, d, plaintext).Ok?
    ensures |Deliver(s, c, p, m, d, plaintext).value| <= 65536
  {
    var blob := E.Encrypted(s, plaintext, s.dhPublic(p.recipientX25519), s.kemKey(p.recipientSeed), p.signingSeed, d).value;
    var received := Upload(s, c, m, blob).value;
    var delivery := Download(s, c, m, received).value;
    var sent := EncodeQueued(QueuedMessageDelivery(m.queueId, received.messageId, m.senderId, received.content)).value;
    var packet := Hop(s.aead, c.serverOut, c.recipient, PT.QueuedMessageDelivery, sent).value;
    HopIsShort(s.aead, c.serverOut, c.recipient, PT.QueuedMessageDelivery, sent);
    QueuedCanonical(packet.payload);
    QueuedRoundTrip(delivery);
    E.DecryptedShape(s, delivery.content, p.recipientX25519, p.recipientSeed, s.verifyingKey(p.signingSeed));
  }

  /** For plaintexts of any practical size: delivered if the sizes fit, PayloadTooLarge if they do not. */
  lemma {:induction false} DeliveredOrTooLarge(s: Suite, c: Connections, p: Parties, m: Message, d: E.Draws, plaintext: bytes)
    requires Lawful(s) && Ready(c) && |plaintext| <= 0x7000_0000
    ensures var out := Deliver(s, c, p, m, d, plaintext);
            && (SizesFit(m, |plaintext|) ==> out == Ok(plaintext))
            && (!SizesFit(m, |plaintext|) ==> out.Err?)
            && (!SizesFit(m, |plaintext|) && |m.recipientId| <= U16_MAX && |m.senderId| <= U16_MAX ==>
                  out.error.Protocol? && out.error.error.PayloadTooLarge?)
  {
    E.E2eRoundTrip(s, plaintext, p.recipientX25519, p.recipientSeed, p.signingSeed, d);
    var blob := E.Encrypted(s, plaintext, s.dhPublic(p.recipientX25519), s.kemKey(p.recipientSeed), p.signingSeed, d).value;
    UploadExactly(s, c, m, blob);
    DownloadExactly(s, c, m, SendMessage(m.messageId, m.recipientId, blob));
  }

  /** For every plaintext, the recipient gets it back exactly when both messages fit. */
  lemma {:induction false} DeliveredExactly(s: Suite, c: Connections, p: Parties, m: Message, d: E.Draws, plaintext: bytes)
    requires Lawful(s) && Ready(c)
    ensures Deliver(s, c, p, m, d, plaintext) == Ok(plaintext) <==> SizesFit(m, |plaintext|)
  {
    if |plaintext| <= 0x7000_0000 {
      DeliveredOrTooLarge(s, c, p, m, d, plaintext);
    } else if Deliver(s, c, p, m, d, plaintext).Ok? {
      DeliveredIsShort(s, c, p, m, d, plaintext);
    }
  }
}
