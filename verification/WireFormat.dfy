/** The wire format in numbers: type codes, ceilings, and where each field of a payload stands. */
module WireFormat {
  import opened Wrappers
  import opened Bytes
  import opened PT = PacketType
  import opened Common
  import AuthPayloads
  import Codec
  import E2eKeyPayloads
  import HelloPayloads
  import H = Header
  import MessagePayloads

  /** Handshake and authentication. */
  lemma HandshakeCodes()
    ensures AsU8(ClientHello) == 1 && AsU8(ServerHello) == 2 && AsU8(ClientFinish) == 3 && AsU8(ServerAccept) == 4
    ensures AsU8(AuthChallenge) == 5 && AsU8(AuthResponse) == 6 && AsU8(AuthAccept) == 7 && AsU8(AuthReject) == 8
  {
  }

  /** Control, up to friends. */
  lemma ControlCodes()
    ensures AsU8(Ping) == 20 && AsU8(Pong) == 21 && AsU8(RegisterDevice) == 22 && AsU8(RegisterResponse) == 23
    ensures AsU8(QueryAccountStatus) == 24 && AsU8(AccountStatusResponse) == 25
    ensures AsU8(SendFriendRequest) == 26 && AsU8(FriendRequestResult) == 27
  {
  }

  lemma FriendCodes()
    ensures AsU8(IncomingFriendRequest) == 28 && AsU8(FriendRequestDecision) == 29
    ensures AsU8(RemoveFriend) == 30 && AsU8(RemoveFriendResult) == 31 && AsU8(FriendRemovedNotification) == 32
    ensures AsU8(FriendStatusUpdate) == 33 && AsU8(SendTypingIndicator) == 34
  {
  }

  /** Key publishing, messaging and teardown. */
  lemma MessagingCodes()
    ensures AsU8(PublishE2eKey) == 35 && AsU8(PublishE2eKeyResult) == 36
    ensures AsU8(FetchE2eKey) == 37 && AsU8(E2eKeyResponse) == 38
    ensures AsU8(SendMessage) == 40 && AsU8(DeliverMessage) == 41 && AsU8(FetchQueuedMessages) == 42
    ensures AsU8(QueuedMessageDelivery) == 43 && AsU8(AckQueuedMessage) == 44
  {
  }

  lemma LastCodes()
    ensures AsU8(MessageStatusUpdate) == 45 && AsU8(DeliveryReceipt) == 46
    ensures AsU8(Error) == 254 && AsU8(Close) == 255
  {
  }

  /** Ceilings of the payloads that are not modelled field by field: handshake, keepalive, teardown, empty. */
  lemma FixedCeilings()
    ensures MaxPayloadSize(ClientFinish) == 1 && MaxPayloadSize(ServerAccept) == 1 && MaxPayloadSize(AuthChallenge) == 32
    ensures MaxPayloadSize(AuthAccept) == 0 && MaxPayloadSize(AuthReject) == 0
    ensures MaxPayloadSize(Ping) == 8 && MaxPayloadSize(Pong) == 8
    ensures MaxPayloadSize(Error) == 1024 && MaxPayloadSize(Close) == 1024
  {
  }

  lemma AccountCeilings()
    ensures MaxPayloadSize(RegisterDevice) == 130 && MaxPayloadSize(RegisterResponse) == 259
    ensures MaxPayloadSize(QueryAccountStatus) == 0 && MaxPayloadSize(AccountStatusResponse) == 268
    ensures MaxPayloadSize(PublishE2eKeyResult) == 259 && MaxPayloadSize(FetchE2eKey) == 130
    ensures MaxPayloadSize(DeliveryReceipt) == 8 && MaxPayloadSize(FetchQueuedMessages) == 0 && MaxPayloadSize(AckQueuedMessage) == 8
  {
  }

  lemma FriendCeilings()
    ensures MaxPayloadSize(SendFriendRequest) == 130 && MaxPayloadSize(IncomingFriendRequest) == 130
    ensures MaxPayloadSize(FriendRequestResult) == 1 && MaxPayloadSize(FriendRequestDecision) == 131
    ensures MaxPayloadSize(RemoveFriend) == 130 && MaxPayloadSize(FriendRemovedNotification) == 130
    ensures MaxPayloadSize(SendTypingIndicator) == 130 && MaxPayloadSize(RemoveFriendResult) == 1
    ensures MaxPayloadSize(FriendStatusUpdate) == 139
  {
  }

  /** Which values fit their type's ceiling, by the length of what varies in them. */
  lemma HelloFits(c: HelloPayloads.ClientHello, s: HelloPayloads.ServerHello)
    requires HelloPayloads.EncodeClientHello(c).Ok? && HelloPayloads.EncodeServerHello(s).Ok?
    ensures |HelloPayloads.EncodeClientHello(c).value| <= MaxPayloadSize(ClientHello) <==> |c.clientId| <= 82
    ensures |HelloPayloads.EncodeServerHello(s).value| <= MaxPayloadSize(ServerHello) <==> |s.serverId| <= 78
  {
  }

  lemma AuthAndKeysFit(a: AuthPayloads.AuthResponse, k: E2eKeyPayloads.E2eKeyResponse, p: E2eKeyPayloads.E2ePublicKey)
    requires AuthPayloads.EncodeAuthResponse(a).Ok? && E2eKeyPayloads.EncodeKeyResponse(k).Ok?
    ensures |AuthPayloads.EncodeAuthResponse(a).value| <= MaxPayloadSize(AuthResponse) <==> |a.attestation| <= 4096
    ensures |E2eKeyPayloads.EncodeKeyResponse(k).value| <= MaxPayloadSize(E2eKeyResponse)
       <==> |k.username| <= if k.key.Some? then 128 else 3296
    ensures |E2eKeyPayloads.EncodePublish(p)| == MaxPayloadSize(PublishE2eKey)
  {
  }

  lemma SendMessageFits(v: MessagePayloads.SendMessage)
    requires MessagePayloads.EncodeSendMessage(v).Ok?
    ensures |MessagePayloads.EncodeSendMessage(v).value| <= MaxPayloadSize(SendMessage) <==> |v.recipientId| + |v.content| <= 65522
  {
    MessagePayloads.SendMessageRoundTrip(v);
  }

  lemma DeliverMessageFits(v: MessagePayloads.DeliverMessage)
    requires MessagePayloads.EncodeDeliverMessage(v).Ok?
    ensures |MessagePayloads.EncodeDeliverMessage(v).value| <= MaxPayloadSize(DeliverMessage) <==> |v.senderId| + |v.content| <= 65522
  {
    MessagePayloads.SendMessageRoundTrip(MessagePayloads.SendMessage(v.messageId, v.senderId, v.content));
  }

  lemma QueuedFits(v: MessagePayloads.QueuedMessageDelivery, u: MessagePayloads.MessageStatusUpdate)
    requires MessagePayloads.EncodeQueued(v).Ok?
    ensures |MessagePayloads.EncodeQueued(v).value| <= MaxPayloadSize(QueuedMessageDelivery) <==> |v.senderId| + |v.content| <= 65514
    ensures |MessagePayloads.EncodeStatusUpdate(u)| == MaxPayloadSize(MessageStatusUpdate)
  {
    MessagePayloads.QueuedRoundTrip(v);
  }

  /** Every frame: "CHTX", version 1, type, flags, header length 24, then the payload length and the number. */
  lemma FrameLayout(packetType: u8, flags: u8, wire: bytes, q: u64)
    ensures var f := Codec.Frame(packetType, flags, wire, q);
            && |f| == 24 + |wire|
            && f[..8] == [0x43, 0x48, 0x54, 0x58, 1, packetType, flags, 24]
            && FromBE(f[8..12]) == |wire| % 0x1_0000_0000 && FromBE(f[12..20]) == q
            && f[20..24] == [0, 0, 0, 0] && f[24..] == wire
  {
    var h := H.New(packetType, flags, AsU32(|wire|), q);
    var f := Codec.Frame(packetType, flags, wire, q);
    H.PrintFields(h);
    Pow256Values();
    FromToBE(|wire| % 0x1_0000_0000, 4);
    FromToBE(q, 8);
    assert f[..8] == H.Print(h)[0..4] + H.Print(h)[4..8];
    assert f[8..12] == H.Print(h)[8..12] && f[12..20] == H.Print(h)[12..20] && f[20..24] == H.Print(h)[20..24];
    assert ToBE(0, 4) == [0, 0, 0, 0] by { ZeroBytes(); }
  }

  lemma ZeroBytes()
    ensures ToBE(0, 4) == [0, 0, 0, 0]
  {
    assert ToBE(0, 1) == [0];
    assert ToBE(0, 2) == [0, 0];
    assert ToBE(0, 3) == [0, 0, 0];
  }

  /** A two-byte length and the string; a four-byte length and the bytes; refused as input when too long. */
  lemma SizedLayout(v: Str, b: bytes)
    ensures |v| > 65535 ==> EncodeSizedString(v) == Err(InvalidInput)
    ensures |v| <= 65535 ==> EncodeSizedString(v).Ok?
                             && FromBE(EncodeSizedString(v).value[..2]) == |v| && EncodeSizedString(v).value[2..] == v
    ensures |b| > 0xFFFF_FFFF ==> EncodeSizedBytes(b) == Err(InvalidInput)
    ensures |b| <= 0xFFFF_FFFF ==> EncodeSizedBytes(b).Ok?
                                   && FromBE(EncodeSizedBytes(b).value[..4]) == |b| && EncodeSizedBytes(b).value[4..] == b
  {
    Pow256Values();
    if |v| <= 65535 {
      FromToBE(|v|, 2);
      SplitConcat(ToBE(|v|, 2), v);
    }
    if |b| <= 0xFFFF_FFFF {
      FromToBE(|b|, 4);
      SplitConcat(ToBE(|b|, 4), b);
    }
  }

  lemma ClientHelloLayout(v: HelloPayloads.ClientHello)
    requires |v.clientId| <= 65535
    ensures var b, n := HelloPayloads.EncodeClientHello(v).value, 2 + |v.clientId|;
            && |b| == n + 1216 && b[..n] == ToBE(|v.clientId|, 2) + v.clientId
            && b[n..n + 32] == v.x25519 && b[n + 32..n + 1216] == v.mlKemEk
  {
  }

  lemma ServerHelloLayout(v: HelloPayloads.ServerHello)
    requires |v.serverId| <= 65535
    ensures var b, n := HelloPayloads.EncodeServerHello(v).value, 2 + |v.serverId|;
            && |b| == n + 4429 && b[..n] == ToBE(|v.serverId|, 2) + v.serverId
            && b[n..n + 32] == v.x25519 && b[n + 32..n + 1120] == v.mlKemCt && b[n + 1120..n + 4429] == v.signature
  {
  }

  lemma SendMessageLayout(v: MessagePayloads.SendMessage)
    requires |v.recipientId| <= 65535 && |v.content| <= 0xFFFF_FFFF
    ensures var b, n := MessagePayloads.EncodeSendMessage(v).value, 10 + |v.recipientId|;
            && |b| == n + 4 + |v.content| && FromBE(b[..8]) == v.messageId
            && b[8..n] == ToBE(|v.recipientId|, 2) + v.recipientId && b[n..] == ToBE(|v.content|, 4) + v.content
  {
    Pow256Values();
    FromToBE(v.messageId, 8);
    var id, content := ToBE(|v.recipientId|, 2) + v.recipientId, ToBE(|v.content|, 4) + v.content;
    var b := MessagePayloads.EncodeSendMessage(v).value;
    assert b == ToBE(v.messageId, 8) + (id + content);
    assert b[..8] == ToBE(v.messageId, 8) && b[8..10 + |v.recipientId|] == id && b[10 + |v.recipientId|..] == content;
  }

  lemma QueuedLayout(v: MessagePayloads.QueuedMessageDelivery)
    requires |v.senderId| <= 65535 && |v.content| <= 0xFFFF_FFFF
    ensures var b := MessagePayloads.EncodeQueued(v).value;
            && |b| >= 16 && FromBE(b[..8]) == v.queueId
            && Ok(b[8..]) == MessagePayloads.EncodeSendMessage(MessagePayloads.SendMessage(v.messageId, v.senderId, v.content))
  {
    Pow256Values();
    FromToBE(v.queueId, 8);
    MessagePayloads.QueuedIsNumberedSend(v, []);
    var b := MessagePayloads.EncodeQueued(v).value;
    var send := MessagePayloads.EncodeSendMessage(MessagePayloads.SendMessage(v.messageId, v.senderId, v.content)).value;
    assert b + [] == b && send + [] == send;
    SplitConcat(ToBE(v.queueId, 8), send);
  }

  lemma StatusUpdateLayout(v: MessagePayloads.MessageStatusUpdate)
    ensures var b := MessagePayloads.EncodeStatusUpdate(v);
            && |b| == 9 && FromBE(b[..8]) == v.messageId
            && b[8] == (match v.status case SentToServer => 0 case Delivered => 1 case Failed => 2)
  {
    Pow256Values();
    FromToBE(v.messageId, 8);
    assert MessagePayloads.EncodeStatusUpdate(v)[..8] == ToBE(v.messageId, 8);
  }

  lemma AuthResponseLayout(v: AuthPayloads.AuthResponse)
    requires |v.attestation| <= 0xFFFF_FFFF
    ensures var b := AuthPayloads.EncodeAuthResponse(v).value;
            && |b| == 5265 + |v.attestation| && b[..1952] == v.publicKey && b[1952..5261] == v.signature
            && b[5261..] == ToBE(|v.attestation|, 4) + v.attestation
  {
  }

  lemma KeyLayout(k: E2eKeyPayloads.E2ePublicKey)
    ensures var b := E2eKeyPayloads.EncodePublish(k);
            |b| == 3168 && b[..32] == k.x25519 && b[32..1216] == k.mlKemEk && b[1216..] == k.dsaVerifyingKey
  {
  }

  /** Status 0 and the bundle when the key is found; status 1 and nothing more when it is not. */
  lemma KeyResponseLayout(v: E2eKeyPayloads.E2eKeyResponse)
    requires |v.username| <= 65535
    ensures var b, n := E2eKeyPayloads.EncodeKeyResponse(v).value, 2 + |v.username|;
            && |b| > n && b[..n] == ToBE(|v.username|, 2) + v.username
            && match v.key
               case None => b[n..] == [1]
               case Some(k) => b[n] == 0 && b[n + 1..] == E2eKeyPayloads.EncodePublish(k)
  {
  }
}
