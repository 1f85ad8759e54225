/** The exact language each role accepts, and the rank that every accepted run climbs. */
module TraceLanguage {
  import opened Wrappers
  import opened PacketType
  import opened ConnectionState

  /** The packets a role must receive, in order, to become Established. */
  function Handshake(role: Role): seq<PacketType> {
    match role
    case Server => [ClientHello, ClientFinish, AuthResponse]
    case Client => [ServerHello, ServerAccept, AuthChallenge, AuthAccept]
  }

  /** The application packets each role may receive, by name. */
  predicate IsData(role: Role, t: PacketType) {
    match role
    case Server =>
      t in {Ping, Pong, RegisterDevice, QueryAccountStatus, SendFriendRequest, FriendRequestDecision, RemoveFriend,
            SendTypingIndicator, PublishE2eKey, FetchE2eKey, SendMessage, FetchQueuedMessages, AckQueuedMessage,
            DeliveryReceipt}
    case Client =>
      t in {Ping, Pong, RegisterResponse, AccountStatusResponse, FriendRequestResult, IncomingFriendRequest,
            RemoveFriendResult, FriendRemovedNotification, FriendStatusUpdate, PublishE2eKeyResult, E2eKeyResponse,
            DeliverMessage, QueuedMessageDelivery, MessageStatusUpdate}
  }

  /** A whole handshake was received first. */
  predicate PastHandshake(role: Role, trace: seq<PacketType>) {
    Handshake(role) <= trace
  }

  predicate AllData(role: Role, body: seq<PacketType>) {
    forall i :: 0 <= i < |body| ==> IsData(role, body[i])
  }

  /** Received so far without a last packet: part of the handshake, or all of it and then data. */
  predicate Open(role: Role, trace: seq<PacketType>) {
    var w := Handshake(role);
    if |trace| < |w| then trace == w[..|trace|]
    else w <= trace && AllData(role, trace[|w|..])
  }

  /** Packets that may end a connection after the open trace `before`. */
  predicate Ends(role: Role, before: seq<PacketType>, t: PacketType) {
    var w := Handshake(role);
    if |before| >= |w| then t.Close? || t.Error?
    else if t.AuthReject? then role.Client? && |before| == |w| - 1
    else t.Error? && (role.Client? || |before| > 0)
  }

  predicate InLanguage(role: Role, trace: seq<PacketType>) {
    || Open(role, trace)
    || (|trace| > 0 && Open(role, trace[..|trace| - 1]) && Ends(role, trace[..|trace| - 1], trace[|trace| - 1]))
  }

  /** Where the i-th packet of the handshake is awaited; Established after the last. */
  function Awaits(role: Role, i: nat): State
    requires i <= |Handshake(role)|
  {
    match role
    case Server => (match i case 0 => AwaitingClientHello case 1 => AwaitingClientFinish case 2 => AwaitingAuth case _ => Established)
    case Client =>
      (match i case 0 => AwaitingServerHello case 1 => AwaitingServerAccept case 2 => AwaitingAuthChallenge
       case 3 => AwaitingAuthResult case _ => Established)
  }

  function Min(a: nat, b: nat): nat { if a < b then a else b }

  /** The state that a trace of the language leads to. */
  function StateAfter(role: Role, trace: seq<PacketType>): State {
    if Open(role, trace) then Awaits(role, Min(|trace|, |Handshake(role)|)) else Closing
  }

  /** An open trace stays open by the next packet of the handshake, or by data after it. */
  lemma OpenExtends(role: Role, before: seq<PacketType>, t: PacketType)
    requires Open(role, before)
    ensures Open(role, before + [t])
       <==> if |before| < |Handshake(role)| then t == Handshake(role)[|before|] else IsData(role, t)
  {
    var w := Handshake(role);
    var trace, n := before + [t], |before|;
    if n < |w| {
      assert w[..n + 1] == w[..n] + [w[n]];
      assert n + 1 == |w| ==> w[..n + 1] == w && trace[|w|..] == [];
    } else {
      assert trace[..|w|] == before[..|w|];
      assert trace[|w|..] == before[|w|..] + [t];
      assert trace[|w|..][n - |w|] == t;
    }
  }

  /** Where the i-th handshake packet is awaited, the machine takes that packet or an ending. */
  lemma AwaitsStep(role: Role, before: seq<PacketType>, t: PacketType)
    requires |before| < |Handshake(role)|
    ensures var i := |before|;
            var s := Awaits(role, i);
            && (ValidateIncoming(s, role, t).Ok? <==> t == Handshake(role)[i] || Ends(role, before, t))
            && (t == Handshake(role)[i] ==> Advance(s, t) == Awaits(role, i + 1) && !Ends(role, before, t))
            && (Ends(role, before, t) ==> Advance(s, t) == Closing)
  {
    var i := |before|;
    match role
    case Server => assert i == 0 || i == 1 || i == 2;
    case Client => assert i == 0 || i == 1 || i == 2 || i == 3;
  }

  lemma EstablishedTakes(role: Role, t: PacketType)
    ensures ValidateIncoming(Established, role, t).Ok? <==> IsData(role, t) || t.Close? || t.Error?
  {
  }

  /** Once Established, the machine takes data and stays, or takes Close or Error and is Closing. */
  lemma EstablishedStep(role: Role, t: PacketType)
    ensures ValidateIncoming(Established, role, t).Ok? <==> IsData(role, t) || t.Close? || t.Error?
    ensures IsData(role, t) ==> Advance(Established, t) == Established && !t.Close? && !t.Error?
    ensures t.Close? || t.Error? ==> Advance(Established, t) == Closing
  {
    EstablishedTakes(role, t);
  }

  /** One more packet keeps an open trace in the language exactly when the machine accepts it. */
  lemma OpenStep(role: Role, before: seq<PacketType>, t: PacketType)
    requires Open(role, before)
    ensures ValidateIncoming(StateAfter(role, before), role, t).Ok?
       <==> Open(role, before + [t]) || Ends(role, before, t)
    ensures ValidateIncoming(StateAfter(role, before), role, t).Ok? ==>
              Advance(StateAfter(role, before), t) == StateAfter(role, before + [t])
  {
    OpenExtends(role, before, t);
    if |before| < |Handshake(role)| {
      AwaitsStep(role, before, t);
    } else {
      EstablishedStep(role, t);
    }
  }

  /** The machine accepts exactly the language, and ends where the language says. */
  lemma {:induction false} AcceptedIffInLanguage(role: Role, trace: seq<PacketType>)
    ensures Accepted(role, trace) <==> InLanguage(role, trace)
    ensures Accepted(role, trace) ==> Run(role, Initial(role), trace) == Some(StateAfter(role, trace))
  {
    if |trace| > 0 {
      var before, t := trace[..|trace| - 1], trace[|trace| - 1];
      assert trace == before + [t];
      AcceptedIffInLanguage(role, before);
      RunConcat(role, Initial(role), before, [t]);
      if Accepted(role, before) {
        assert Run(role, StateAfter(role, before), [t]) ==
          if ValidateIncoming(StateAfter(role, before), role, t).Err? then None
          else Some(Advance(StateAfter(role, before), t));
      }
      if Open(role, before) {
        OpenStep(role, before, t);
      } else if Open(role, trace) {
        OpenPrefix(role, before, t);
      }
    }
  }

  lemma OpenPrefix(role: Role, before: seq<PacketType>, t: PacketType)
    requires Open(role, before + [t])
    ensures Open(role, before)
  {
    var w := Handshake(role);
    var trace := before + [t];
    assert before == trace[..|before|];
    if |before| >= |w| {
      assert forall i :: 0 <= i < |before| - |w| ==> before[|w|..][i] == trace[|w|..][i];
    } else {
      assert trace == w[..|trace|];
    }
  }

  /** A role is Established only after receiving its whole handshake, in order and first. */
  lemma EstablishedMeansHandshake(role: Role, trace: seq<PacketType>)
    requires Run(role, Initial(role), trace) == Some(Established)
    ensures PastHandshake(role, trace) && AllData(role, trace[|Handshake(role)|..])
  {
    AcceptedIffInLanguage(role, trace);
  }

  /** The language is closed under prefixes, so any part of an accepted trace is accepted. */
  lemma AcceptedPrefix(role: Role, trace: seq<PacketType>, n: nat)
    requires Accepted(role, trace) && n <= |trace|
    ensures Accepted(role, trace[..n])
  {
    assert trace == trace[..n] + trace[n..];
    RunConcat(role, Initial(role), trace[..n], trace[n..]);
  }

  /** How far a connection has got. */
  function Rank(s: State): nat {
    match s
    case AwaitingClientHello | AwaitingServerHello => 0
    case AwaitingClientFinish | AwaitingServerAccept => 1
    case AwaitingAuth | AwaitingAuthChallenge => 2
    case AwaitingAuthResult => 3
    case Established => 4
    case Closing => 5
  }

  predicate OfRole(role: Role, s: State) {
    match s
    case AwaitingClientHello | AwaitingClientFinish | AwaitingAuth => role.Server?
    case AwaitingServerHello | AwaitingServerAccept | AwaitingAuthChallenge | AwaitingAuthResult => role.Client?
    case Established | Closing => true
  }

  /** One accepted packet: up, except that data leaves Established as it is; never to the other role's states. */
  lemma StepClimbs(role: Role, s: State, t: PacketType)
    requires OfRole(role, s) && ValidateIncoming(s, role, t).Ok?
    ensures s != Closing && OfRole(role, Advance(s, t))
    ensures if s.Established? && IsData(role, t) then Advance(s, t) == s else Rank(Advance(s, t)) > Rank(s)
  {
  }

  /** Along every accepted run: the rank never falls, the role's own states only, and nothing follows Closing. */
  lemma {:induction false} RunClimbs(role: Role, s: State, trace: seq<PacketType>)
    requires OfRole(role, s) && Run(role, s, trace).Some?
    ensures var s' := Run(role, s, trace).value;
            && OfRole(role, s') && Rank(s) <= Rank(s')
            && (Rank(s) == Rank(s') <==> |trace| == 0 || (s.Established? && AllData(role, trace)))
            && (s.Closing? ==> |trace| == 0)
            && ((forall i :: 0 <= i < |trace| ==> !IsData(role, trace[i])) ==> |trace| <= Rank(s') - Rank(s))
    decreases |trace|
  {
    if |trace| > 0 {
      StepClimbs(role, s, trace[0]);
      RunClimbs(role, Advance(s, trace[0]), trace[1..]);
      assert AllData(role, trace) <==> IsData(role, trace[0]) && AllData(role, trace[1..]) by {
        assert forall i :: 0 <= i < |trace[1..]| ==> trace[1..][i] == trace[i + 1];
        assert forall i :: 0 < i < |trace| ==> trace[i] == trace[1..][i - 1];
      }
    }
  }
}
