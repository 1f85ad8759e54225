/** Whole runs of a sending codec: no nonce is used twice, and how many sequence numbers there are. */
module Nonces {
  import opened Wrappers
  import opened Bytes
  import opened Sizes
  import opened Primitives
  import opened Codec
  import PT = PacketType

  /** What the owner of a codec may do on the sending side, in any order. */
  datatype SendEvent =
    | Rekey(outbound: Key, inbound: Key)
    | Send(packetType: PT.PacketType, flags: u8, payload: bytes)

  function Step(seal: Sealer, c: Codec, e: SendEvent): Codec {
    match e
    case Rekey(outbound, inbound) => Establish(c, outbound, inbound)
    case Send(t, flags, payload) => Write(seal, c, t, flags, payload).codec
  }

  function Run(seal: Sealer, events: seq<SendEvent>): Codec {
    if |events| == 0 then FRESH
    else Step(seal, Run(seal, events[..|events| - 1]), events[|events| - 1])
  }

  /** Every call to seal made in the run, in order, whether or not it succeeded. */
  function Calls(seal: Sealer, events: seq<SendEvent>): seq<SealCall> {
    if |events| == 0 then []
    else
      var n := |events| - 1;
      Calls(seal, events[..n]) + if events[n].Send? then SealCalls(Run(seal, events[..n])) else []
  }

  function Sends(events: seq<SendEvent>): nat {
    if |events| == 0 then 0
    else Sends(events[..|events| - 1]) + if events[|events| - 1].Send? then 1 else 0
  }

  lemma {:induction false} CallsBelow(seal: Sealer, events: seq<SendEvent>)
    ensures UniqueBelow(Calls(seal, events), Run(seal, events).nextSendSeq)
  {
    if |events| > 0 {
      var before := events[..|events| - 1];
      CallsBelow(seal, before);
      UniqueBelowExtends(Calls(seal, before), Run(seal, before));
      assert Calls(seal, before) + [] == Calls(seal, before);
    }
  }

  /** Across any run, failing seals and repeated keys included, no two seals share a nonce. */
  lemma NonceNeverReused(seal: Sealer, events: seq<SendEvent>, i: nat, j: nat)
    requires i < j < |Calls(seal, events)|
    ensures Calls(seal, events)[i].nonce != Calls(seal, events)[j].nonce
  {
    CallsBelow(seal, events);
  }

  lemma {:induction false} CounterAfter(seal: Sealer, events: seq<SendEvent>)
    ensures Run(seal, events).nextSendSeq == if Sends(events) < U64_MAX - 1 then Sends(events) + 1 else U64_MAX
  {
    if |events| > 0 {
      CounterAfter(seal, events[..|events| - 1]);
    }
  }

  /**
   The n-th write of a run takes sequence number n while n is at most 2^64 - 2; every later
   write fails and leaves the codec as it was.
   */
  lemma SequenceSpace(seal: Sealer, events: seq<SendEvent>, t: PT.PacketType, flags: u8, payload: bytes)
    ensures var n := Sends(events) + 1;
            var c := Run(seal, events);
            var w := Write(seal, c, t, flags, payload);
            && (w.codec == c <==> n > 0xFFFF_FFFF_FFFF_FFFE)
            && (w.codec == c ==> w.outcome == Err(CryptoError))
            && (w.codec != c && w.outcome.Ok? ==>
                 exists f: u8, wire: bytes :: w.outcome.value == Frame(PT.AsU8(t), f, wire, n))
  {
    CounterAfter(seal, events);
  }
}
