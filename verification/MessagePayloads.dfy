/** src/payloads/message_payloads.rs and src/payloads/queue_payloads.rs: messages on their way to a recipient. */
module MessagePayloads {
  import opened Wrappers
  import opened Bytes
  import opened Common

  datatype SendMessage = SendMessage(messageId: u64, recipientId: Str, content: bytes)

  datatype DeliverMessage = DeliverMessage(messageId: u64, senderId: Str, content: bytes)

  datatype QueuedMessageDelivery = QueuedMessageDelivery(queueId: u64, messageId: u64, senderId: Str, content: bytes)

  datatype MessageStatus = SentToServer | Delivered | Failed

  datatype MessageStatusUpdate = MessageStatusUpdate(messageId: u64, status: MessageStatus)

  function U64At(b: bytes, at: nat): (v: u64)
    requires at + 8 <= |b|
    ensures ToBE(v, 8) == b[at..at + 8]
  {
    ToFromBE(b[at..at + 8]);
    Pow256Values();
    FromBE(b[at..at + 8])
  }

  /** A sized string and then sized bytes: the common tail of the three messages. */
  function EncodeTail(id: Str, content: bytes): Result<bytes, PayloadError> {
    match EncodeSizedString(id)
    case Err(e) => Err(e)
    case Ok(idBytes) =>
      match EncodeSizedBytes(content)
      case Err(e) => Err(e)
      case Ok(contentBytes) => Ok(idBytes + contentBytes)
  }

  /** Decodes the tail that starts at `at`, which must end the payload. */
  function DecodeTail(b: bytes, at: nat): Result<(Str, bytes), PayloadError>
    requires at <= |b|
  {
    match DecodeSizedString(b[at..])
    case Err(e) => Err(e)
    case Ok((id, idConsumed)) =>
      match DecodeSizedBytes(b[at + idConsumed..])
      case Err(e) => Err(e)
      case Ok((content, contentConsumed)) =>
        if FullyConsumed(b, at + idConsumed + contentConsumed) then Ok((id, content)) else Err(InvalidData)
  }

  function EncodeSendMessage(v: SendMessage): Result<bytes, PayloadError> {
    match EncodeTail(v.recipientId, v.content)
    case Err(e) => Err(e)
    case Ok(tail) => Ok(ToBE(v.messageId, 8) + tail)
  }

  function DecodeSendMessage(b: bytes): Result<SendMessage, PayloadError> {
    if |b| < 8 then Err(InvalidData)
    else match DecodeTail(b, 8)
      case Err(e) => Err(e)
      case Ok((id, content)) => Ok(SendMessage(U64At(b, 0), id, content))
  }

  function EncodeDeliverMessage(v: DeliverMessage): Result<bytes, PayloadError> {
    match EncodeTail(v.senderId, v.content)
    case Err(e) => Err(e)
    case Ok(tail) => Ok(ToBE(v.messageId, 8) + tail)
  }

  function DecodeDeliverMessage(b: bytes): Result<DeliverMessage, PayloadError> {
    if |b| < 8 then Err(InvalidData)
    else match DecodeTail(b, 8)
      case Err(e) => Err(e)
      case Ok((id, content)) => Ok(DeliverMessage(U64At(b, 0), id, content))
  }

  function EncodeQueued(v: QueuedMessageDelivery): Result<bytes, PayloadError> {
    match EncodeTail(v.senderId, v.content)
    case Err(e) => Err(e)
    case Ok(tail) => Ok(ToBE(v.queueId, 8) + ToBE(v.messageId, 8) + tail)
  }

  function DecodeQueued(b: bytes): Result<QueuedMessageDelivery, PayloadError> {
    if |b| < 16 then Err(InvalidData)
    else match DecodeTail(b, 16)
      case Err(e) => Err(e)
      case Ok((id, content)) => Ok(QueuedMessageDelivery(U64At(b, 0), U64At(b, 8), id, content))
  }

  method WriteSendMessage(v: SendMessage) returns (r: Result<bytes, PayloadError>)
    ensures r == EncodeSendMessage(v)
  {
    var recipient := AppendSizedString(v.recipientId);
    if recipient.Err? {
      return Err(recipient.error);
    }
    var content := AppendSizedBytes(v.content);
    if content.Err? {
      return Err(content.error);
    }
    var out := ToBE(v.messageId, 8);
    out := out + recipient.value;
    out := out + content.value;
    assert out == ToBE(v.messageId, 8) + (recipient.value + content.value);
    return Ok(out);
  }

  method WriteDeliverMessage(v: DeliverMessage) returns (r: Result<bytes, PayloadError>)
    ensures r == EncodeDeliverMessage(v)
  {
    var sender := AppendSizedString(v.senderId);
    if sender.Err? {
      return Err(sender.error);
    }
    var content := AppendSizedBytes(v.content);
    if content.Err? {
      return Err(content.error);
    }
    var out := ToBE(v.messageId, 8);
    out := out + sender.value;
    out := out + content.value;
    assert out == ToBE(v.messageId, 8) + (sender.value + content.value);
    return Ok(out);
  }

  method WriteQueued(v: QueuedMessageDelivery) returns (r: Result<bytes, PayloadError>)
    ensures r == EncodeQueued(v)
  {
    var sender := AppendSizedString(v.senderId);
    if sender.Err? {
      return Err(sender.error);
    }
    var content := AppendSizedBytes(v.content);
    if content.Err? {
      return Err(content.error);
    }
    var out := ToBE(v.queueId, 8);
    out := out + ToBE(v.messageId, 8);
    out := out + sender.value;
    out := out + content.value;
    assert out == ToBE(v.queueId, 8) + ToBE(v.messageId, 8) + (sender.value + content.value);
    return Ok(out);
  }

  lemma TailRoundTrip(front: bytes, id: Str, content: bytes)
    ensures EncodeTail(id, content).Ok? <==> |id| <= U16_MAX && |content| <= U32_MAX
    ensures EncodeTail(id, content).Ok? ==>
              && |EncodeTail(id, content).value| == 6 + |id| + |content|
              && DecodeTail(front + EncodeTail(id, content).value, |front|) == Ok((id, content))
  {
    if |id| <= U16_MAX && |content| <= U32_MAX {
      var idBytes, contentBytes := EncodeSizedString(id).value, EncodeSizedBytes(content).value;
      var b := front + (idBytes + contentBytes);
      assert b[|front|..] == idBytes + contentBytes;
      StringRoundTrip(id, contentBytes);
      assert b[|front| + |idBytes|..] == contentBytes + [];
      BytesRoundTrip(content, []);
    }
  }

  lemma TailCanonical(b: bytes, at: nat)
    requires at <= |b| && DecodeTail(b, at).Ok?
    ensures var (id, content) := DecodeTail(b, at).value;
            EncodeTail(id, content) == Ok(b[at..])
  {
    var n := DecodeSizedString(b[at..]).value.1;
    StringCanonical(b[at..]);
    assert b[at..][n..] == b[at + n..];
    BytesCanonical(b[at + n..]);
    assert b[at + n..][..|b[at + n..]|] == b[at + n..];
    assert b[at..] == b[at..][..n] + b[at + n..];
  }

  lemma TailUnambiguous(id1: Str, c1: bytes, r1: bytes, id2: Str, c2: bytes, r2: bytes)
    requires EncodeTail(id1, c1).Ok? && EncodeTail(id2, c2).Ok?
    requires EncodeTail(id1, c1).value + r1 == EncodeTail(id2, c2).value + r2
    ensures id1 == id2 && c1 == c2 && r1 == r2
  {
    var i1, b1 := EncodeSizedString(id1).value, EncodeSizedBytes(c1).value;
    var i2, b2 := EncodeSizedString(id2).value, EncodeSizedBytes(c2).value;
    assert i1 + b1 + r1 == i1 + (b1 + r1) && i2 + b2 + r2 == i2 + (b2 + r2);
    StringUnambiguous(id1, b1 + r1, id2, b2 + r2);
    BytesUnambiguous(c1, r1, c2, r2);
  }

  lemma SendMessageRoundTrip(v: SendMessage)
    ensures EncodeSendMessage(v).Ok? <==> |v.recipientId| <= U16_MAX && |v.content| <= U32_MAX
    ensures EncodeSendMessage(v).Ok? ==>
              && |EncodeSendMessage(v).value| == 14 + |v.recipientId| + |v.content|
              && DecodeSendMessage(EncodeSendMessage(v).value) == Ok(v)
  {
    TailRoundTrip(ToBE(v.messageId, 8), v.recipientId, v.content);
    Pow256Values();
    FromToBE(v.messageId, 8);
    if EncodeSendMessage(v).Ok? {
      assert EncodeSendMessage(v).value[0..8] == ToBE(v.messageId, 8);
    }
  }

  lemma SendMessageCanonical(b: bytes)
    requires DecodeSendMessage(b).Ok?
    ensures EncodeSendMessage(DecodeSendMessage(b).value) == Ok(b)
  {
    TailCanonical(b, 8);
    assert b == b[0..8] + b[8..];
  }

  lemma SendIsNumberedTail(v: SendMessage, rest: bytes)
    requires EncodeSendMessage(v).Ok?
    ensures EncodeTail(v.recipientId, v.content).Ok?
    ensures EncodeSendMessage(v).value + rest
         == ToBE(v.messageId, 8) + (EncodeTail(v.recipientId, v.content).value + rest)
  {
  }

  lemma SendMessageUnambiguous(v1: SendMessage, r1: bytes, v2: SendMessage, r2: bytes)
    requires EncodeSendMessage(v1).Ok? && EncodeSendMessage(v2).Ok?
    requires EncodeSendMessage(v1).value + r1 == EncodeSendMessage(v2).value + r2
    ensures v1 == v2 && r1 == r2
  {
    Pow256Values();
    SendIsNumberedTail(v1, r1);
    SendIsNumberedTail(v2, r2);
    var t1, t2 := EncodeTail(v1.recipientId, v1.content).value, EncodeTail(v2.recipientId, v2.content).value;
    BEUnambiguous(v1.messageId, t1 + r1, v2.messageId, t2 + r2, 8);
    TailUnambiguous(v1.recipientId, v1.content, r1, v2.recipientId, v2.content, r2);
  }

  /** A DeliverMessage is laid out as a SendMessage that names the sender. */
  lemma DeliverIsSend(v: DeliverMessage, b: bytes)
    ensures EncodeDeliverMessage(v) == EncodeSendMessage(SendMessage(v.messageId, v.senderId, v.content))
    ensures DecodeDeliverMessage(b) == Ok(v) <==> DecodeSendMessage(b) == Ok(SendMessage(v.messageId, v.senderId, v.content))
  {
  }

  lemma DeliverMessageRoundTrip(v: DeliverMessage)
    ensures EncodeDeliverMessage(v).Ok? <==> |v.senderId| <= U16_MAX && |v.content| <= U32_MAX
    ensures EncodeDeliverMessage(v).Ok? ==> DecodeDeliverMessage(EncodeDeliverMessage(v).value) == Ok(v)
  {
    SendMessageRoundTrip(SendMessage(v.messageId, v.senderId, v.content));
  }

  lemma DeliverMessageCanonical(b: bytes)
    requires DecodeDeliverMessage(b).Ok?
    ensures EncodeDeliverMessage(DecodeDeliverMessage(b).value) == Ok(b)
  {
    SendMessageCanonical(b);
  }

  lemma DeliverMessageUnambiguous(v1: DeliverMessage, r1: bytes, v2: DeliverMessage, r2: bytes)
    requires EncodeDeliverMessage(v1).Ok? && EncodeDeliverMessage(v2).Ok?
    requires EncodeDeliverMessage(v1).value + r1 == EncodeDeliverMessage(v2).value + r2
    ensures v1 == v2 && r1 == r2
  {
    SendMessageUnambiguous(SendMessage(v1.messageId, v1.senderId, v1.content), r1,
                           SendMessage(v2.messageId, v2.senderId, v2.content), r2);
  }

  lemma QueuedRoundTrip(v: QueuedMessageDelivery)
    ensures EncodeQueued(v).Ok? <==> |v.senderId| <= U16_MAX && |v.content| <= U32_MAX
    ensures EncodeQueued(v).Ok? ==>
              && |EncodeQueued(v).value| == 22 + |v.senderId| + |v.content|
              && DecodeQueued(EncodeQueued(v).value) == Ok(v)
  {
    var front := ToBE(v.queueId, 8) + ToBE(v.messageId, 8);
    TailRoundTrip(front, v.senderId, v.content);
    Pow256Values();
    FromToBE(v.queueId, 8);
    FromToBE(v.messageId, 8);
    if EncodeQueued(v).Ok? {
      var b := EncodeQueued(v).value;
      assert b[0..8] == ToBE(v.queueId, 8) && b[8..16] == ToBE(v.messageId, 8);
    }
  }

  lemma QueuedCanonical(b: bytes)
    requires DecodeQueued(b).Ok?
    ensures EncodeQueued(DecodeQueued(b).value) == Ok(b)
  {
    TailCanonical(b, 16);
    assert b == b[0..8] + b[8..16] + b[16..];
  }

  /** A queued delivery is a queue id and then a SendMessage layout. */
  lemma QueuedIsNumberedSend(v: QueuedMessageDelivery, rest: bytes)
    requires EncodeQueued(v).Ok?
    ensures var send := EncodeSendMessage(SendMessage(v.messageId, v.senderId, v.content));
            send.Ok? && EncodeQueued(v).value + rest == ToBE(v.queueId, 8) + (send.value + rest)
  {
  }

  lemma QueuedUnambiguous(v1: QueuedMessageDelivery, r1: bytes, v2: QueuedMessageDelivery, r2: bytes)
    requires EncodeQueued(v1).Ok? && EncodeQueued(v2).Ok?
    requires EncodeQueued(v1).value + r1 == EncodeQueued(v2).value + r2
    ensures v1 == v2 && r1 == r2
  {
    Pow256Values();
    QueuedIsNumberedSend(v1, r1);
    QueuedIsNumberedSend(v2, r2);
    var s1, s2 := SendMessage(v1.messageId, v1.senderId, v1.content), SendMessage(v2.messageId, v2.senderId, v2.content);
    BEUnambiguous(v1.queueId, EncodeSendMessage(s1).value + r1, v2.queueId, EncodeSendMessage(s2).value + r2, 8);
    SendMessageUnambiguous(s1, r1, s2, r2);
  }

  function StatusCode(s: MessageStatus): u8 {
    match s case SentToServer => 0 case Delivered => 1 case Failed => 2
  }

  function StatusFromU8(v: u8): Result<MessageStatus, PayloadError> {
    match v case 0 => Ok(SentToServer) case 1 => Ok(Delivered) case 2 => Ok(Failed) case _ => Err(InvalidData)
  }

  function EncodeStatusUpdate(v: MessageStatusUpdate): bytes {
    ToBE(v.messageId, 8) + [StatusCode(v.status)]
  }

  function DecodeStatusUpdate(b: bytes): Result<MessageStatusUpdate, PayloadError> {
    if |b| != 9 then Err(InvalidData)
    else match StatusFromU8(b[8])
      case Err(e) => Err(e)
      case Ok(status) => Ok(MessageStatusUpdate(U64At(b, 0), status))
  }

  lemma StatusUpdateBijective(v: MessageStatusUpdate, b: bytes)
    ensures DecodeStatusUpdate(b) == Ok(v) <==> b == EncodeStatusUpdate(v)
  {
    Pow256Values();
    FromToBE(v.messageId, 8);
    var e := EncodeStatusUpdate(v);
    assert e[0..8] == ToBE(v.messageId, 8);
    if |b| == 9 {
      assert b == b[0..8] + [b[8]];
    }
  }
}
