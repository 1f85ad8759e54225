/** src/connection_state.rs: which packet types each role accepts, and when. */
module ConnectionState {
  import opened Wrappers
  import opened PacketType

  datatype Role = Client | Server

  datatype State =
    | AwaitingClientHello | AwaitingClientFinish | AwaitingAuth
    | AwaitingServerHello | AwaitingServerAccept | AwaitingAuthChallenge | AwaitingAuthResult
    | Established | Closing

  function Initial(role: Role): State {
    match role
    case Server => AwaitingClientHello
    case Client => AwaitingServerHello
  }

  predicate DirectionAllowed(role: Role, t: PacketType) {
    match (role, DirectionOf(t))
    case (Client, ServerToClient) => true
    case (Client, Bidirectional) => true
    case (Server, ClientToServer) => true
    case (Server, Bidirectional) => true
    case _ => false
  }

  function ValidateIncoming(s: State, role: Role, t: PacketType): Result<(), ProtocolError> {
    if !DirectionAllowed(role, t) then Err(InvalidStateTransition)
    else
      var allowed :=
        match s
        case AwaitingClientHello => t.ClientHello?
        case AwaitingClientFinish => t.ClientFinish? || t.Error?
        case AwaitingAuth => t.AuthResponse? || t.Error?
        case AwaitingServerHello => t.ServerHello? || t.Error?
        case AwaitingServerAccept => t.ServerAccept? || t.Error?
        case AwaitingAuthChallenge => t.AuthChallenge? || t.Error?
        case AwaitingAuthResult => t.AuthAccept? || t.AuthReject? || t.Error?
        case Established =>
          (match t
           case Ping | Pong | SendMessage | DeliverMessage | MessageStatusUpdate | DeliveryReceipt
             | RegisterDevice | RegisterResponse | QueryAccountStatus | AccountStatusResponse
             | FetchQueuedMessages | QueuedMessageDelivery | AckQueuedMessage | SendFriendRequest
             | FriendRequestResult | IncomingFriendRequest | FriendRequestDecision | RemoveFriend
             | RemoveFriendResult | FriendRemovedNotification | FriendStatusUpdate | SendTypingIndicator
             | PublishE2eKey | PublishE2eKeyResult | FetchE2eKey | E2eKeyResponse | Close | Error => true
           case _ => false)
        case Closing => false;
      if allowed then Ok(()) else Err(InvalidStateTransition)
  }

  function Advance(s: State, t: PacketType): State {
    match (s, t)
    case (AwaitingClientHello, ClientHello) => AwaitingClientFinish
    case (AwaitingClientFinish, ClientFinish) => AwaitingAuth
    case (AwaitingAuth, AuthResponse) => Established
    case (AwaitingServerHello, ServerHello) => AwaitingServerAccept
    case (AwaitingServerAccept, ServerAccept) => AwaitingAuthChallenge
    case (AwaitingAuthChallenge, AuthChallenge) => AwaitingAuthResult
    case (AwaitingAuthResult, AuthAccept) => Established
    case (AwaitingAuthResult, AuthReject) => Closing
    case (_, Close) => Closing
    case (_, Error) => Closing
    case (_, _) => s
  }

  /** Validates and then advances, packet after packet; None once one is refused. */
  function Run(role: Role, s: State, trace: seq<PacketType>): Option<State>
    decreases |trace|
  {
    if |trace| == 0 then Some(s)
    else if ValidateIncoming(s, role, trace[0]).Err? then None
    else Run(role, Advance(s, trace[0]), trace[1..])
  }

  predicate Accepted(role: Role, trace: seq<PacketType>) {
    Run(role, Initial(role), trace).Some?
  }

  lemma {:induction false} RunConcat(role: Role, s: State, a: seq<PacketType>, b: seq<PacketType>)
    ensures Run(role, s, a + b) == if Run(role, s, a).None? then None else Run(role, Run(role, s, a).value, b)
    decreases |a|
  {
    if |a| == 0 {
      assert a + b == b;
    } else {
      assert (a + b)[1..] == a[1..] + b;
      if ValidateIncoming(s, role, a[0]).Ok? {
        RunConcat(role, Advance(s, a[0]), a[1..], b);
      }
    }
  }
}
