/** src/packet_type.rs: packet type codes, size ceilings and directions. */
module PacketType {
  import opened Wrappers
  import opened Bytes
  import opened Sizes

  datatype PacketType =
    | ClientHello | ServerHello | ClientFinish | ServerAccept
    | AuthChallenge | AuthResponse | AuthAccept | AuthReject
    | Ping | Pong
    | RegisterDevice | RegisterResponse
    | QueryAccountStatus | AccountStatusResponse
    | SendFriendRequest | FriendRequestResult | IncomingFriendRequest | FriendRequestDecision
    | RemoveFriend | RemoveFriendResult | FriendRemovedNotification | FriendStatusUpdate
    | SendTypingIndicator
    | PublishE2eKey | PublishE2eKeyResult | FetchE2eKey | E2eKeyResponse
    | SendMessage | DeliverMessage | FetchQueuedMessages | QueuedMessageDelivery
    | AckQueuedMessage | MessageStatusUpdate | DeliveryReceipt
    | Error | Close

  datatype Direction = ClientToServer | ServerToClient | Bidirectional

  function AsU8(t: PacketType): u8 {
    match t
    case ClientHello => 1
    case ServerHello => 2
    case ClientFinish => 3
    case ServerAccept => 4
    case AuthChallenge => 5
    case AuthResponse => 6
    case AuthAccept => 7
    case AuthReject => 8
    case Ping => 20
    case Pong => 21
    case RegisterDevice => 22
    case RegisterResponse => 23
    case QueryAccountStatus => 24
    case AccountStatusResponse => 25
    case SendFriendRequest => 26
    case FriendRequestResult => 27
    case IncomingFriendRequest => 28
    case FriendRequestDecision => 29
    case RemoveFriend => 30
    case RemoveFriendResult => 31
    case FriendRemovedNotification => 32
    case FriendStatusUpdate => 33
    case SendTypingIndicator => 34
    case PublishE2eKey => 35
    case PublishE2eKeyResult => 36
    case FetchE2eKey => 37
    case E2eKeyResponse => 38
    case SendMessage => 40
    case DeliverMessage => 41
    case FetchQueuedMessages => 42
    case QueuedMessageDelivery => 43
    case AckQueuedMessage => 44
    case MessageStatusUpdate => 45
    case DeliveryReceipt => 46
    case Error => 254
    case Close => 255
  }

  function FromU8(value: u8): Result<PacketType, ProtocolError> {
    match value
    case 1 => Ok(ClientHello)
    case 2 => Ok(ServerHello)
    case 3 => Ok(ClientFinish)
    case 4 => Ok(ServerAccept)
    case 5 => Ok(AuthChallenge)
    case 6 => Ok(AuthResponse)
    case 7 => Ok(AuthAccept)
    case 8 => Ok(AuthReject)
    case 20 => Ok(Ping)
    case 21 => Ok(Pong)
    case 22 => Ok(RegisterDevice)
    case 23 => Ok(RegisterResponse)
    case 24 => Ok(QueryAccountStatus)
    case 25 => Ok(AccountStatusResponse)
    case 26 => Ok(SendFriendRequest)
    case 27 => Ok(FriendRequestResult)
    case 28 => Ok(IncomingFriendRequest)
    case 29 => Ok(FriendRequestDecision)
    case 30 => Ok(RemoveFriend)
    case 31 => Ok(RemoveFriendResult)
    case 32 => Ok(FriendRemovedNotification)
    case 33 => Ok(FriendStatusUpdate)
    case 34 => Ok(SendTypingIndicator)
    case 35 => Ok(PublishE2eKey)
    case 36 => Ok(PublishE2eKeyResult)
    case 37 => Ok(FetchE2eKey)
    case 38 => Ok(E2eKeyResponse)
    case 40 => Ok(SendMessage)
    case 41 => Ok(DeliverMessage)
    case 42 => Ok(FetchQueuedMessages)
    case 43 => Ok(QueuedMessageDelivery)
    case 44 => Ok(AckQueuedMessage)
    case 45 => Ok(MessageStatusUpdate)
    case 46 => Ok(DeliveryReceipt)
    case 254 => Ok(Error)
    case 255 => Ok(Close)
    case _ => Err(UnknownPacketType(value as int))
  }

  lemma CodeOfType(t: PacketType)
    ensures FromU8(AsU8(t)) == Ok(t)
  {
  }

  lemma TypeOfCode(b: u8)
    ensures FromU8(b).Ok? ==> AsU8(FromU8(b).value) == b
  {
  }

  lemma UnknownCode(b: u8)
    ensures FromU8(b).Err? ==> FromU8(b).error == UnknownPacketType(b as int)
  {
  }

  /** The codes are exactly the images of the types, one code a type. */
  lemma CodeRoundTrip(t: PacketType, b: u8)
    ensures FromU8(b) == Ok(t) <==> AsU8(t) == b
  {
    CodeOfType(t);
    TypeOfCode(b);
  }

  function MaxPayloadSize(t: PacketType): (n: u32)
    ensures n <= 65536
  {
    match t
    case ClientHello => 1300
    case ServerHello => 32 + ML_KEM_768_CT_SIZE + ML_DSA_65_SIG_SIZE + 80
    case ClientFinish | ServerAccept => 1
    case AuthChallenge => 32
    case AuthResponse => ML_DSA_65_VK_SIZE + ML_DSA_65_SIG_SIZE + 4 + 4096
    case AuthAccept | AuthReject => 0
    case Ping | Pong => 8
    case SendMessage | DeliverMessage => 65536
    case RegisterDevice => 130
    case RegisterResponse => 259
    case QueryAccountStatus => 0
    case AccountStatusResponse => 268
    case SendFriendRequest | IncomingFriendRequest => 130
    case FriendRequestResult => 1
    case FriendRequestDecision => 131
    case RemoveFriend | FriendRemovedNotification | SendTypingIndicator => 130
    case RemoveFriendResult => 1
    case FriendStatusUpdate => 139
    case PublishE2eKey => 32 + ML_KEM_768_EK_SIZE + ML_DSA_65_VK_SIZE
    case PublishE2eKeyResult => 259
    case FetchE2eKey => 130
    case E2eKeyResponse => 130 + 1 + 32 + ML_KEM_768_EK_SIZE + ML_DSA_65_VK_SIZE
    case MessageStatusUpdate => 9
    case DeliveryReceipt => 8
    case FetchQueuedMessages => 0
    case QueuedMessageDelivery => 65536
    case AckQueuedMessage => 8
    case Error | Close => 1024
  }

  function DirectionOf(t: PacketType): Direction {
    match t
    case ClientHello | ClientFinish | AuthResponse | SendMessage | RegisterDevice
      | QueryAccountStatus | SendFriendRequest | FriendRequestDecision | RemoveFriend
      | SendTypingIndicator | FetchQueuedMessages | AckQueuedMessage | DeliveryReceipt
      | PublishE2eKey | FetchE2eKey => ClientToServer
    case ServerHello | ServerAccept | AuthChallenge | AuthAccept | AuthReject | DeliverMessage
      | RegisterResponse | AccountStatusResponse | FriendRequestResult | IncomingFriendRequest
      | RemoveFriendResult | FriendRemovedNotification | FriendStatusUpdate
      | QueuedMessageDelivery | MessageStatusUpdate | PublishE2eKeyResult
      | E2eKeyResponse => ServerToClient
    case Ping | Pong | Close | Error => Bidirectional
  }
}
