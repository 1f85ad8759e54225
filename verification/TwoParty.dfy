/**
 An honest client and an honest server joined by two FIFO queues: each sends its next
 handshake message when the flow documented in README.md calls for it, data once Established,
 and may give up with Error or Close at any point where it has started.
 */
module TwoParty {
  import opened Wrappers
  import opened PacketType
  import opened CS = ConnectionState
  import opened TraceLanguage

  /** `sent` counts the handshake messages sent; `done` is set by a last message. */
  datatype Party = Party(state: State, sent: nat, done: bool)

  /** The messages each side has sent, and how many of them the other has received. */
  datatype Pair = Pair(
    client: Party, server: Party,
    fromClient: seq<PacketType>, fromServer: seq<PacketType>,
    readByServer: nat, readByClient: nat, refused: bool)

  datatype Event = Sends(role: Role, packetType: PacketType) | Receives(role: Role)

  const START: Pair := Pair(Party(AwaitingServerHello, 0, false), Party(AwaitingClientHello, 0, false), [], [], 0, 0, false)

  predicate ClientMaySend(p: Party, t: PacketType) {
    !p.done && !p.state.Closing? &&
    match t
    case ClientHello => p.sent == 0
    case ClientFinish => p.sent == 1 && p.state.AwaitingServerAccept?
    case AuthResponse => p.sent == 2 && p.state.AwaitingAuthResult?
    case Error => p.sent >= 1
    case Close => p.state.Established?
    case _ => p.state.Established? && IsData(Server, t)
  }

  predicate ServerMaySend(p: Party, t: PacketType) {
    !p.done && !p.state.Closing? &&
    match t
    case ServerHello => p.sent == 0 && p.state.AwaitingClientFinish?
    case ServerAccept => p.sent == 1 && p.state.AwaitingAuth?
    case AuthChallenge => p.sent == 2 && p.state.AwaitingAuth?
    case AuthAccept | AuthReject => p.sent == 3 && p.state.Established?
    case Error => true
    case Close => p.sent == 4 && p.state.Established?
    case _ => p.sent == 4 && p.state.Established? && IsData(Client, t)
  }

  predicate Enabled(s: Pair, e: Event) {
    match e
    case Sends(Client, t) => ClientMaySend(s.client, t)
    case Sends(Server, t) => ServerMaySend(s.server, t)
    case Receives(Client) => s.readByClient < |s.fromServer|
    case Receives(Server) => s.readByServer < |s.fromClient|
  }

  function AfterSend(p: Party, t: PacketType): Party {
    if t.Close? || t.Error? || t.AuthReject? then p.(done := true)
    else if AsU8(t) < 20 then p.(sent := p.sent + 1)
    else p
  }

  function Step(s: Pair, e: Event): Pair
    requires Enabled(s, e)
  {
    match e
    case Sends(Client, t) => s.(client := AfterSend(s.client, t), fromClient := s.fromClient + [t])
    case Sends(Server, t) => s.(server := AfterSend(s.server, t), fromServer := s.fromServer + [t])
    case Receives(Client) =>
      var t := s.fromServer[s.readByClient];
      if ValidateIncoming(s.client.state, Client, t).Err? then s.(refused := true)
      else s.(client := s.client.(state := Advance(s.client.state, t)), readByClient := s.readByClient + 1)
    case Receives(Server) =>
      var t := s.fromClient[s.readByServer];
      if ValidateIncoming(s.server.state, Server, t).Err? then s.(refused := true)
      else s.(server := s.server.(state := Advance(s.server.state, t)), readByServer := s.readByServer + 1)
  }

  /** The pair after a run of enabled events. */
  function Run(events: seq<Event>): Option<Pair> {
    if |events| == 0 then Some(START)
    else
      var before := Run(events[..|events| - 1]);
      if before.Some? && Enabled(before.value, events[|events| - 1])
      then Some(Step(before.value, events[|events| - 1])) else None
  }

  /** What a sender has sent is a trace its peer accepts, and `sent` and `done` describe it. */
  predicate Trail(peer: Role, trace: seq<PacketType>, p: Party) {
    var w := Handshake(peer);
    if !p.done then Open(peer, trace) && p.sent == Min(|trace|, |w|)
    else
      |trace| > 0 &&
      var before := trace[..|trace| - 1];
      Open(peer, before) && Ends(peer, before, trace[|trace| - 1]) && p.sent == Min(|before|, |w|)
  }

  /** How many handshake packets a side has received by the time it has sent `sent` of its own. */
  function Needs(role: Role, sent: nat): nat {
    match role
    case Client => (if sent <= 1 then 0 else if sent == 2 then 1 else 3)
    case Server => (if sent == 0 then 0 else if sent == 1 then 1 else if sent <= 3 then 2 else 3)
  }

  predicate Heard(role: Role, p: Party, trace: seq<PacketType>, read: nat) {
    && p.sent <= (if role.Client? then 3 else 4)
    && Needs(role, p.sent) <= read
    && read <= |trace|
    && Handshake(role)[..Needs(role, p.sent)] <= trace
    && CS.Run(role, Initial(role), trace[..read]) == Some(p.state)
  }

  predicate Inv(s: Pair) {
    && Trail(Server, s.fromClient, s.client) && Trail(Client, s.fromServer, s.server)
    && Heard(Client, s.client, s.fromServer, s.readByClient)
    && Heard(Server, s.server, s.fromClient, s.readByServer)
    && !s.refused
  }

  lemma TrailAccepted(peer: Role, trace: seq<PacketType>, p: Party)
    requires Trail(peer, trace, p)
    ensures Accepted(peer, trace)
  {
    AcceptedIffInLanguage(peer, trace);
  }

  /** Receiving the next packet of an accepted trace is never refused. */
  lemma NextIsAccepted(role: Role, trace: seq<PacketType>, read: nat, state: State)
    requires Accepted(role, trace) && read < |trace|
    requires CS.Run(role, Initial(role), trace[..read]) == Some(state)
    ensures ValidateIncoming(state, role, trace[read]).Ok?
    ensures CS.Run(role, Initial(role), trace[..read + 1]) == Some(Advance(state, trace[read]))
  {
    AcceptedPrefix(role, trace, read + 1);
    assert trace[..read + 1] == trace[..read] + [trace[read]];
    RunConcat(role, Initial(role), trace[..read], [trace[read]]);
    assert CS.Run(role, state, [trace[read]]) ==
      if ValidateIncoming(state, role, trace[read]).Err? then None else Some(Advance(state, trace[read]));
  }

  lemma ReceiveKeepsInv(s: Pair, e: Event)
    requires Inv(s) && Enabled(s, e) && e.Receives?
    ensures Inv(Step(s, e))
  {
    match e.role
    case Client =>
      TrailAccepted(Client, s.fromServer, s.server);
      NextIsAccepted(Client, s.fromServer, s.readByClient, s.client.state);
    case Server =>
      TrailAccepted(Server, s.fromClient, s.client);
      NextIsAccepted(Server, s.fromClient, s.readByServer, s.server.state);
  }

  /** The state a side is in tells which handshake packets it has received. */
  lemma HeardSoFar(role: Role, trace: seq<PacketType>, read: nat, state: State)
    requires read <= |trace| && CS.Run(role, Initial(role), trace[..read]) == Some(state) && !state.Closing?
    ensures Open(role, trace[..read]) && state == Awaits(role, Min(read, |Handshake(role)|))
    ensures Handshake(role)[..Min(read, |Handshake(role)|)] <= trace
  {
    AcceptedIffInLanguage(role, trace[..read]);
    var w := Handshake(role);
    assert trace[..read] <= trace;
    if read < |w| {
      assert w[..read] == trace[..read];
    } else {
      assert w[..|w|] == w;
    }
  }

  /** One more message keeps the trail. */
  lemma TrailExtends(peer: Role, trace: seq<PacketType>, p: Party, t: PacketType)
    requires Trail(peer, trace, p) && !p.done
    requires var w := Handshake(peer);
             if t.Close? || t.Error? || t.AuthReject? then Ends(peer, trace, t)
             else if p.sent < |w| then t == w[p.sent] else IsData(peer, t)
    ensures Trail(peer, trace + [t], AfterSend(p, t))
  {
    assert (trace + [t])[..|trace|] == trace;
    OpenExtends(peer, trace, t);
  }

  /** What a side has heard does not depend on what is sent to it later. */
  lemma HeardKeeps(role: Role, p: Party, trace: seq<PacketType>, read: nat, t: PacketType)
    requires Heard(role, p, trace, read)
    ensures Heard(role, p, trace + [t], read)
  {
    assert (trace + [t])[..read] == trace[..read];
  }

  /** A server sends only what its own state has earned. */
  lemma ServerHeardEnough(p: Party, t: PacketType, trace: seq<PacketType>, read: nat)
    requires Heard(Server, p, trace, read) && ServerMaySend(p, t)
    ensures Heard(Server, AfterSend(p, t), trace, read)
  {
    HeardSoFar(Server, trace, read, p.state);
    var n := Needs(Server, AfterSend(p, t).sent);
    var w := Handshake(Server);
    assert n <= Min(read, 3);
    assert w[..n] <= w[..Min(read, 3)];
  }

  lemma ClientHeardEnough(p: Party, t: PacketType, trace: seq<PacketType>, read: nat)
    requires Heard(Client, p, trace, read) && ClientMaySend(p, t)
    requires p.state.Established? ==> p.sent == 3
    ensures Heard(Client, AfterSend(p, t), trace, read)
  {
    HeardSoFar(Client, trace, read, p.state);
    var n := Needs(Client, AfterSend(p, t).sent);
    var w := Handshake(Client);
    assert n <= Min(read, 4);
    assert w[..n] <= w[..Min(read, 4)];
  }

  lemma ServerSendExtends(p: Party, t: PacketType, trace: seq<PacketType>)
    requires Trail(Client, trace, p) && ServerMaySend(p, t)
    ensures Trail(Client, trace + [t], AfterSend(p, t))
  {
    TrailExtends(Client, trace, p, t);
  }

  lemma ClientSendExtends(p: Party, t: PacketType, trace: seq<PacketType>)
    requires Trail(Server, trace, p) && ClientMaySend(p, t)
    requires p.state.Established? ==> p.sent == 3
    ensures Trail(Server, trace + [t], AfterSend(p, t))
  {
    TrailExtends(Server, trace, p, t);
  }

  lemma ClientSendKeepsInv(s: Pair, t: PacketType)
    requires Inv(s) && ClientMaySend(s.client, t)
    ensures Inv(Step(s, Sends(Client, t)))
  {
    ClientSentEnough(s);
    ClientHeardEnough(s.client, t, s.fromServer, s.readByClient);
    ClientSendExtends(s.client, t, s.fromClient);
    HeardKeeps(Server, s.server, s.fromClient, s.readByServer, t);
  }

  lemma ServerSendKeepsInv(s: Pair, t: PacketType)
    requires Inv(s) && ServerMaySend(s.server, t)
    ensures Inv(Step(s, Sends(Server, t)))
  {
    ServerHeardEnough(s.server, t, s.fromClient, s.readByServer);
    ServerSendExtends(s.server, t, s.fromServer);
    HeardKeeps(Client, s.client, s.fromServer, s.readByClient, t);
  }

  /** A whole trail that starts with n handshake packets was sent by a party that counts them. */
  lemma TrailCounts(peer: Role, trace: seq<PacketType>, p: Party, n: nat)
    requires Trail(peer, trace, p) && n <= |Handshake(peer)| && Handshake(peer)[..n] <= trace
    ensures p.sent >= n
  {
    var w := Handshake(peer);
    assert n > 0 ==> w[..n][n - 1] == trace[n - 1];
  }

  /** An Established client has sent its whole handshake, and so has the server. */
  lemma ClientSentEnough(s: Pair)
    requires Inv(s)
    ensures s.client.state.Established? ==> s.client.sent == 3 && s.server.sent == 4
  {
    if s.client.state.Established? {
      HeardSoFar(Client, s.fromServer, s.readByClient, s.client.state);
      EstablishedMeansHandshake(Client, s.fromServer[..s.readByClient]);
      TrailCounts(Client, s.fromServer, s.server, 4);
      TrailCounts(Server, s.fromClient, s.client, 3);
    }
  }

  lemma StepKeepsInv(s: Pair, e: Event)
    requires Inv(s) && Enabled(s, e)
    ensures Inv(Step(s, e))
  {
    match e
    case Sends(Client, t) => ClientSendKeepsInv(s, t);
    case Sends(Server, t) => ServerSendKeepsInv(s, t);
    case Receives(_) => ReceiveKeepsInv(s, e);
  }

  lemma {:induction false} RunKeepsInv(s: Pair, events: seq<Event>)
    requires Run(events) == Some(s)
    ensures Inv(s)
    decreases |events|
  {
    if |events| == 0 {
      assert START.fromClient[..0] == [] && START.fromServer[..0] == [];
    } else {
      var n := |events| - 1;
      var before := Run(events[..n]).value;
      RunKeepsInv(before, events[..n]);
      StepKeepsInv(before, events[n]);
    }
  }

  lemma NeverRefusedHere(s: Pair)
    requires Inv(s)
    ensures s.readByServer < |s.fromClient| ==> ValidateIncoming(s.server.state, Server, s.fromClient[s.readByServer]).Ok?
    ensures s.readByClient < |s.fromServer| ==> ValidateIncoming(s.client.state, Client, s.fromServer[s.readByClient]).Ok?
  {
    TrailAccepted(Client, s.fromServer, s.server);
    TrailAccepted(Server, s.fromClient, s.client);
    if s.readByServer < |s.fromClient| {
      NextIsAccepted(Server, s.fromClient, s.readByServer, s.server.state);
    }
    if s.readByClient < |s.fromServer| {
      NextIsAccepted(Client, s.fromServer, s.readByClient, s.client.state);
    }
  }

  /** No interleaving makes either side refuse a packet with InvalidStateTransition. */
  lemma NeverRefused(s: Pair, events: seq<Event>)
    requires Run(events) == Some(s)
    ensures !s.refused
    ensures s.readByServer < |s.fromClient| ==> ValidateIncoming(s.server.state, Server, s.fromClient[s.readByServer]).Ok?
    ensures s.readByClient < |s.fromServer| ==> ValidateIncoming(s.client.state, Client, s.fromServer[s.readByClient]).Ok?
  {
    RunKeepsInv(s, events);
    NeverRefusedHere(s);
  }

  /** The server has heard the whole client handshake: it is past AwaitingAuth. */
  lemma EstablishedAgreement(s: Pair, events: seq<Event>)
    requires Run(events) == Some(s)
    ensures s.client.state.Established? ==>
              && (s.server.state.Established? || s.server.state.Closing?)
              && Handshake(Server) <= s.fromClient && Handshake(Client) <= s.fromServer
    ensures s.server.state.Established? ==> Handshake(Server) <= s.fromClient && Handshake(Client)[..3] <= s.fromServer
  {
    RunKeepsInv(s, events);
    ClientSentEnough(s);
    assert Handshake(Server)[..3] == Handshake(Server);
    if s.client.state.Established? {
      EstablishedMeansHandshake(Client, s.fromServer[..s.readByClient]);
      assert s.fromServer[..s.readByClient] <= s.fromServer;
      if !s.server.state.Closing? {
        HeardSoFar(Server, s.fromClient, s.readByServer, s.server.state);
      }
    }
    if s.server.state.Established? {
      HeardSoFar(Server, s.fromClient, s.readByServer, s.server.state);
      TrailCounts(Server, s.fromClient, s.client, 3);
    }
  }

  function Bit(b: bool): nat { if b then 1 else 0 }

  /** Distance covered: handshake messages sent and received, last messages, and Closing states. */
  function Progress(s: Pair): nat {
    s.client.sent + s.server.sent + Min(s.readByServer, 3) + Min(s.readByClient, 4)
    + Bit(s.client.done) + Bit(s.server.done) + Bit(s.client.state.Closing?) + Bit(s.server.state.Closing?)
  }

  predicate IsDataStep(s: Pair, e: Event)
    requires Enabled(s, e)
  {
    match e
    case Sends(Client, t) => IsData(Server, t)
    case Sends(Server, t) => IsData(Client, t)
    case Receives(Client) => s.client.state.Established? && IsData(Client, s.fromServer[s.readByClient])
    case Receives(Server) => s.server.state.Established? && IsData(Server, s.fromClient[s.readByServer])
  }

  lemma ProgressBounded(s: Pair)
    requires Inv(s)
    ensures Progress(s) <= 18
  {
    assert s.client.sent <= 3 && s.server.sent <= 4;
  }

  lemma {:induction false} SendStepProgresses(s: Pair, e: Event)
    requires Enabled(s, e) && e.Sends?
    ensures if IsDataStep(s, e) then Progress(Step(s, e)) == Progress(s) else Progress(Step(s, e)) > Progress(s)
  {
    match e.role
    case Client => SendProgresses(s.client, e.packetType, Server);
    case Server => SendProgresses(s.server, e.packetType, Client);
  }

  lemma {:induction false} ReceiveStepProgresses(s: Pair, e: Event)
    requires Inv(s) && Enabled(s, e) && e.Receives?
    ensures if IsDataStep(s, e) then Progress(Step(s, e)) == Progress(s) else Progress(Step(s, e)) > Progress(s)
  {
    NeverRefusedHere(s);
    match e.role
    case Client => ReceiveProgresses(Client, s.fromServer, s.readByClient, s.client.state, s.server);
    case Server => ReceiveProgresses(Server, s.fromClient, s.readByServer, s.server.state, s.client);
  }

  /** Every step that is not data is progress, and data leaves the progress as it is. */
  lemma {:induction false} StepProgresses(s: Pair, e: Event)
    requires Inv(s) && Enabled(s, e)
    ensures if IsDataStep(s, e) then Progress(Step(s, e)) == Progress(s) else Progress(Step(s, e)) > Progress(s)
  {
    if e.Sends? {
      SendStepProgresses(s, e);
    } else {
      ReceiveStepProgresses(s, e);
    }
  }

  /** How many steps of a run are not data. */
  function ProgressSteps(events: seq<Event>): nat
    requires Run(events).Some?
  {
    if |events| == 0 then 0
    else
      var n := |events| - 1;
      ProgressSteps(events[..n]) + if IsDataStep(Run(events[..n]).value, events[n]) then 0 else 1
  }

  /** A run of any length makes at most 18 steps that are not data. */
  lemma {:induction false} RunEnds(events: seq<Event>)
    requires Run(events).Some?
    ensures ProgressSteps(events) <= Progress(Run(events).value) <= 18
  {
    RunKeepsInv(Run(events).value, events);
    ProgressBounded(Run(events).value);
    if |events| > 0 {
      var n := |events| - 1;
      RunEnds(events[..n]);
      RunKeepsInv(Run(events[..n]).value, events[..n]);
      StepProgresses(Run(events[..n]).value, events[n]);
    }
  }

  lemma SendProgresses(p: Party, t: PacketType, peer: Role)
    requires if peer.Server? then ClientMaySend(p, t) else ServerMaySend(p, t)
    ensures var p' := AfterSend(p, t);
            && p'.state == p.state
            && if IsData(peer, t) then p' == p else p'.sent + Bit(p'.done) == p.sent + Bit(p.done) + 1
  {
  }

  lemma ReceiveProgresses(role: Role, trace: seq<PacketType>, read: nat, state: State, sender: Party)
    requires Trail(role, trace, sender) && read < |trace| && CS.Run(role, Initial(role), trace[..read]) == Some(state)
    ensures var state' := Advance(state, trace[read]);
            && !state.Closing?
            && (state'.Closing? || (state.Established? && IsData(role, trace[read])) || read < |Handshake(role)|)
            && (state.Established? ==> read >= |Handshake(role)|)
            && (state.Established? && IsData(role, trace[read]) ==> state'.Established?)
  {
    TrailAccepted(role, trace, sender);
    NextIsAccepted(role, trace, read, state);
    HeardSoFar(role, trace, read, state);
    EstablishedStep(role, trace[read]);
  }

  /** A side with nothing more to wait for. */
  predicate Settled(p: Party) {
    p.state.Established? || p.state.Closing? || p.done
  }

  /** Until both sides are settled there is always a step that is progress: no honest pair gets stuck. */
  lemma NeverStuck(s: Pair, events: seq<Event>)
    requires Run(events) == Some(s) && !(Settled(s.client) && Settled(s.server))
    ensures exists e :: Enabled(s, e) && !IsDataStep(s, e) && Progress(Step(s, e)) > Progress(s)
  {
    RunKeepsInv(s, events);
    var e := NextStep(s);
    StepProgresses(s, e);
  }

  lemma NextStep(s: Pair) returns (e: Event)
    requires Inv(s) && !(Settled(s.client) && Settled(s.server))
    ensures Enabled(s, e) && !IsDataStep(s, e)
  {
    var w := Handshake(Client);
    if !s.server.state.Established? && s.readByServer < |s.fromClient| { return Receives(Server); }
    if !s.client.state.Established? && s.readByClient < |s.fromServer| { return Receives(Client); }
    assert s.fromServer[..|s.fromServer|] == s.fromServer && s.fromClient[..|s.fromClient|] == s.fromClient;
    AcceptedIffInLanguage(Client, s.fromServer);
    AcceptedIffInLanguage(Server, s.fromClient);
    if !Settled(s.client) {
      HeardSoFar(Client, s.fromServer, s.readByClient, s.client.state);
      ClientWaits(s);
      var i := s.readByClient;
      return Sends(if i == 0 && s.client.sent == 0 then Client
                   else if i == 1 && s.client.sent == 1 then Client
                   else if i == 3 && s.client.sent == 2 then Client
                   else Server,
                   if i == 0 && s.client.sent == 0 then ClientHello
                   else if i == 1 && s.client.sent == 1 then ClientFinish
                   else if i == 3 && s.client.sent == 2 then AuthResponse
                   else w[i]);
    } else {
      ServerDoesNotWaitAlone(s);
      assert false;
    }
  }

  /** A waiting client has read everything, and its own count and the server's state fit together. */
  lemma ClientWaits(s: Pair)
    requires Inv(s) && !Settled(s.client) && s.readByClient == |s.fromServer|
    requires s.server.state.Established? || s.readByServer == |s.fromClient|
    ensures s.readByClient < 4 && !s.server.done && s.server.sent == s.readByClient
    ensures s.client.state == Awaits(Client, s.readByClient)
    ensures !(s.readByClient == 0 && s.client.sent == 0) && !(s.readByClient == 1 && s.client.sent == 1)
            && !(s.readByClient == 3 && s.client.sent == 2) ==>
            ServerMaySend(s.server, Handshake(Client)[s.readByClient])
  {
    HeardSoFar(Client, s.fromServer, s.readByClient, s.client.state);
    assert s.fromServer[..|s.fromServer|] == s.fromServer && s.fromClient[..|s.fromClient|] == s.fromClient;
    AcceptedIffInLanguage(Client, s.fromServer);
    AcceptedIffInLanguage(Server, s.fromClient);
    HeardSoFar(Server, s.fromClient, s.readByServer, s.server.state);
  }

  /** A server that waits with nothing to read has a client that is not settled. */
  lemma ServerDoesNotWaitAlone(s: Pair)
    requires Inv(s) && !Settled(s.server) && s.readByServer == |s.fromClient|
    requires s.client.state.Established? || s.readByClient == |s.fromServer|
    ensures !Settled(s.client)
  {
    assert s.fromServer[..|s.fromServer|] == s.fromServer && s.fromClient[..|s.fromClient|] == s.fromClient;
    AcceptedIffInLanguage(Client, s.fromServer);
    AcceptedIffInLanguage(Server, s.fromClient);
    ClientSentEnough(s);
    HeardSoFar(Server, s.fromClient, s.readByServer, s.server.state);
  }
}
