/**
 src/codec.rs: the stateful packet codec. `Read` and `Write` are one call on values; the class
 `PacketCodec` is the code itself, over a byte cursor and a writer that may fail.
 */
module Codec {
  import opened Wrappers
  import opened Bytes
  import opened Sizes
  import opened Primitives
  import PT = PacketType
  import H = Header

  datatype Session = Session(outboundKey: Key, inboundKey: Key)

  datatype Codec = Codec(lastRecvSeq: Option<u64>, nextSendSeq: u64, session: Option<Session>)

  datatype RawPacket = RawPacket(header: H.Header, payload: bytes)

  const FRESH: Codec := Codec(None, 1, None)

  function SeqNonce(seqNo: u64): Nonce {
    [0, 0, 0, 0] + ToBE(seqNo, 8)
  }

  function HeaderAad(packetType: u8, flags: u8): bytes {
    [packetType, flags]
  }

  function SaturatingAdd(a: u32, b: u32): u32 {
    if a + b > U32_MAX then U32_MAX else a + b
  }

  /** Wire ceiling of a frame of type `t`. */
  function MaxWire(t: PT.PacketType, flags: u8): u32 {
    if H.IsEncrypted(flags) then SaturatingAdd(PT.MaxPayloadSize(t), GCM_TAG_LEN)
    else PT.MaxPayloadSize(t)
  }

  function Establish(c: Codec, outbound: Key, inbound: Key): Codec {
    c.(session := Some(Session(outbound, inbound)))
  }

  predicate Above(last: Option<u64>, seqNo: u64) {
    last.Some? ==> last.value < seqNo
  }

  /** The checks made on a header before the receive watermark moves. */
  function CheckHeader(c: Codec, h: H.Header): (r: Result<(), ProtocolError>) {
    var v := H.Validate(h);
    if v.Err? then v
    else if c.session.Some? && !H.IsEncrypted(h.flags) then Err(EncryptionRequired)
    else
      var t := PT.FromU8(h.packetType);
      if t.Err? then Err(t.error)
      else if h.payloadLen > MaxWire(t.value, h.flags) then
        Err(PayloadTooLarge(h.payloadLen, MaxWire(t.value, h.flags)))
      else if !Above(c.lastRecvSeq, h.sequence) then
        Err(SequenceViolation(h.sequence, c.lastRecvSeq.value))
      else Ok(())
  }

  /** What becomes of a payload once it has been read whole. */
  function Unwrap(open: Opener, session: Option<Session>, h: H.Header, wire: bytes)
    : Result<RawPacket, ProtocolError>
  {
    if !H.IsEncrypted(h.flags) then Ok(RawPacket(h, wire))
    else if session.None? then Err(CryptoError)
    else
      match open(session.value.inboundKey, SeqNonce(h.sequence), HeaderAad(h.packetType, h.flags), wire)
      case None => Err(CryptoError)
      case Some(p) => Ok(RawPacket(h.(payloadLen := AsU32(|p|)), p))
  }

  datatype ReadResult = ReadResult(codec: Codec, outcome: Result<RawPacket, ProtocolError>, rest: bytes)

  /** One `read_packet` on the unread input. A short read takes what there is. */
  function Read(open: Opener, c: Codec, input: bytes): ReadResult {
    if |input| < H.HEADER_SIZE then ReadResult(c, Err(Io), [])
    else
      var h := H.FromBytes(input[..H.HEADER_SIZE]);
      var body := input[H.HEADER_SIZE..];
      var check := CheckHeader(c, h);
      if check.Err? then ReadResult(c, Err(check.error), body)
      else
        var c' := c.(lastRecvSeq := Some(h.sequence));
        if |body| < h.payloadLen then ReadResult(c', Err(Io), [])
        else ReadResult(c', Unwrap(open, c.session, h, body[..h.payloadLen]), body[h.payloadLen..])
  }

  datatype WriteResult = WriteResult(codec: Codec, outcome: Result<bytes, ProtocolError>)

  function Frame(packetType: u8, flags: u8, wire: bytes, seqNo: u64): bytes {
    H.Print(H.New(packetType, flags, AsU32(|wire|), seqNo)) + wire
  }

  /** One `write_packet`: the frame handed to the writer, or the error met before that. */
  function Write(seal: Sealer, c: Codec, t: PT.PacketType, flags: u8, payload: bytes): WriteResult {
    if c.nextSendSeq == U64_MAX then WriteResult(c, Err(CryptoError))
    else
      var c' := c.(nextSendSeq := c.nextSendSeq + 1);
      if c.session.None? then WriteResult(c', Ok(Frame(PT.AsU8(t), flags, payload, c.nextSendSeq)))
      else
        var flags' := H.SetEncrypted(flags);
        match seal(c.session.value.outboundKey, SeqNonce(c.nextSendSeq), HeaderAad(PT.AsU8(t), flags'), payload)
        case None => WriteResult(c', Err(CryptoError))
        case Some(wire) => WriteResult(c', Ok(Frame(PT.AsU8(t), flags', wire, c.nextSendSeq)))
  }

  datatype SealCall = SealCall(key: Key, nonce: Nonce)

  /** The calls to the AEAD's seal that one `write_packet` makes, failing ones included. */
  function SealCalls(c: Codec): seq<SealCall> {
    if c.nextSendSeq == U64_MAX || c.session.None? then []
    else [SealCall(c.session.value.outboundKey, SeqNonce(c.nextSendSeq))]
  }

  /** Read as one 96-bit big-endian integer, the nonce is the sequence number. */
  lemma NonceIsSequence(q: u64)
    ensures FromBE(SeqNonce(q)) == q
  {
    var front: bytes := [0, 0, 0, 0];
    FromBEConcat(front, ToBE(q, 8));
    assert front[..3] == [0, 0, 0] && [0 as u8, 0, 0][..2] == [0, 0] && [0 as u8, 0][..1] == [0];
    assert FromBE([0]) == 0 && FromBE([0, 0]) == 0 && FromBE([0, 0, 0]) == 0;
    Pow256Values();
    FromToBE(q, 8);
  }

  /** The logged seal call is the only thing a write asks of the AEAD. */
  lemma SealCallsAreAll(seal1: Sealer, seal2: Sealer, c: Codec, t: PT.PacketType, flags: u8, payload: bytes)
    requires forall i, ad: bytes, p: bytes :: 0 <= i < |SealCalls(c)| ==>
      seal1(SealCalls(c)[i].key, SealCalls(c)[i].nonce, ad, p) == seal2(SealCalls(c)[i].key, SealCalls(c)[i].nonce, ad, p)
    ensures Write(seal1, c, t, flags, payload) == Write(seal2, c, t, flags, payload)
  {
    if |SealCalls(c)| > 0 {
      var call := SealCalls(c)[0];
      assert seal1(call.key, call.nonce, HeaderAad(PT.AsU8(t), H.SetEncrypted(flags)), payload)
          == seal2(call.key, call.nonce, HeaderAad(PT.AsU8(t), H.SetEncrypted(flags)), payload);
    }
  }

  /** Different sequence numbers give different nonces. */
  lemma SeqNonceInjective(a: u64, b: u64)
    requires SeqNonce(a) == SeqNonce(b)
    ensures a == b
  {
    NonceIsSequence(a);
    NonceIsSequence(b);
  }

  /** A nonce of a sequence number below `bound`. */
  ghost predicate NonceBelow(n: Nonce, bound: int) {
    exists q: u64 :: q < bound && n == SeqNonce(q)
  }

  /** The calls use distinct nonces, all of sequence numbers below `bound`. */
  ghost predicate UniqueBelow(calls: seq<SealCall>, bound: int) {
    && (forall i :: 0 <= i < |calls| ==> NonceBelow(calls[i].nonce, bound))
    && (forall i, j :: 0 <= i < j < |calls| ==> calls[i].nonce != calls[j].nonce)
  }

  lemma UniqueBelowExtends(calls: seq<SealCall>, c: Codec)
    requires UniqueBelow(calls, c.nextSendSeq)
    ensures UniqueBelow(calls, c.nextSendSeq + 1)
    ensures UniqueBelow(calls + SealCalls(c), c.nextSendSeq + 1)
  {
    NonceIsFresh(c.nextSendSeq);
    forall n: Nonce | NonceBelow(n, c.nextSendSeq) ensures NonceBelow(n, c.nextSendSeq + 1) {}
    assert NonceBelow(SeqNonce(c.nextSendSeq), c.nextSendSeq + 1);
  }

  /** A byte source with a cursor. */
  class Reader {
    const data: bytes
    var pos: nat

    constructor (data: bytes)
      ensures this.data == data && pos == 0
    {
      this.data := data;
      pos := 0;
    }

    ghost predicate Valid()
      reads this
    {
      pos <= |data|
    }

    ghost function Rest(): bytes
      reads this
      requires Valid()
    {
      data[pos..]
    }

    /** Takes exactly `n` bytes, or everything and fails. */
    method ReadExact(n: nat) returns (r: Option<bytes>)
      requires Valid()
      modifies this
      ensures Valid()
      ensures n <= |old(Rest())| ==> r == Some(old(Rest())[..n]) && Rest() == old(Rest())[n..]
      ensures n > |old(Rest())| ==> r == None && Rest() == []
    {
      if n <= |data| - pos {
        assert data[pos..][..n] == data[pos..pos + n] && data[pos..][n..] == data[pos + n..];
        r := Some(data[pos..pos + n]);
        pos := pos + n;
      } else {
        r := None;
        pos := |data|;
      }
    }
  }

  /** A byte sink that accepts `room` more bytes and then fails. */
  class Writer {
    var written: bytes
    var room: nat

    constructor (room: nat)
      ensures written == [] && this.room == room
    {
      written := [];
      this.room := room;
    }

    method WriteAll(b: bytes) returns (ok: bool)
      modifies this
      ensures ok == (|b| <= old(room))
      ensures ok ==> written == old(written) + b && room == old(room) - |b|
      ensures !ok ==> written == old(written) + b[..old(room)] && room == 0
    {
      ok := |b| <= room;
      var n := if ok then |b| else room;
      written := written + b[..n];
      assert ok ==> b[..n] == b;
      room := room - n;
    }
  }

  /** A writer with `room` left took the whole frame, or as much as fits and then failed. */
  ghost predicate Transmitted(frame: bytes, room: nat, before: bytes, after: bytes, r: Result<(), ProtocolError>) {
    if |frame| <= room then r == Ok(()) && after == before + frame
    else r == Err(Io) && after == before + frame[..room]
  }

  /** The two writes that end `write_packet`: the header, then the payload. */
  method WriteFrame(writer: Writer, header: H.Header, wire: bytes) returns (r: Result<(), ProtocolError>)
    modifies writer
    ensures Transmitted(H.Print(header) + wire, old(writer.room), old(writer.written), writer.written, r)
  {
    var headerBytes := H.ToBytes(header);
    ghost var room := writer.room;
    ghost var frame := H.Print(header) + wire;
    var sent := writer.WriteAll(headerBytes[..]);
    if !sent {
      assert H.Print(header)[..room] == frame[..room];
      return Err(Io);
    }
    sent := writer.WriteAll(wire);
    if !sent {
      assert H.Print(header) + wire[..room - 24] == frame[..room];
      return Err(Io);
    }
    return Ok(());
  }

  class PacketCodec {
    var lastRecvSeq: Option<u64>
    var nextSendSeq: u64
    var session: Option<Session>
    /** Every call made to the AEAD's seal so far. */
    ghost var sealed: seq<SealCall>

    ghost function State(): Codec
      reads this
    {
      Codec(lastRecvSeq, nextSendSeq, session)
    }

    /** No nonce has been sealed under twice, and none that is still to come has been used. */
    ghost predicate Valid()
      reads this
    {
      UniqueBelow(sealed, nextSendSeq)
    }

    constructor ()
      ensures Valid() && State() == FRESH && sealed == []
      ensures lastRecvSeq == None && nextSendSeq == 1 && session == None
    {
      lastRecvSeq, nextSendSeq, session := None, 1, None;
      sealed := [];
    }

    method EstablishSession(outbound: Key, inbound: Key)
      requires Valid()
      modifies this
      ensures Valid() && State() == Establish(old(State()), outbound, inbound)
      ensures sealed == old(sealed)
    {
      session := Some(Session(outbound, inbound));
    }

    method ValidateSequence(seqNo: u64) returns (r: Result<(), ProtocolError>)
      requires Valid()
      modifies this
      ensures Valid() && sealed == old(sealed)
      ensures r.Ok? <==> Above(old(lastRecvSeq), seqNo)
      ensures r.Ok? ==> State() == old(State()).(lastRecvSeq := Some(seqNo))
      ensures r.Err? ==> State() == old(State()) && r.error == SequenceViolation(seqNo, lastRecvSeq.value)
    {
      if lastRecvSeq.Some? {
        if seqNo <= lastRecvSeq.value {
          return Err(SequenceViolation(seqNo, lastRecvSeq.value));
        }
      }
      lastRecvSeq := Some(seqNo);
      return Ok(());
    }

    method ReadPacket(aead: Aead, reader: Reader) returns (r: Result<RawPacket, ProtocolError>)
      requires Valid() && reader.Valid()
      modifies this, reader
      ensures Valid() && reader.Valid() && sealed == old(sealed)
      ensures Read(aead.open, old(State()), old(reader.Rest())) == ReadResult(State(), r, reader.Rest())
    {
      var headerBytes := reader.ReadExact(H.HEADER_SIZE);
      if headerBytes.None? {
        return Err(Io);
      }
      var header := H.FromBytes(headerBytes.value);
      var valid := H.Validate(header);
      if valid.Err? {
        return Err(valid.error);
      }
      if session.Some? && !H.IsEncrypted(header.flags) {
        return Err(EncryptionRequired);
      }
      var packetType := PT.FromU8(header.packetType);
      if packetType.Err? {
        return Err(packetType.error);
      }
      var maxForType := PT.MaxPayloadSize(packetType.value);
      if H.IsEncrypted(header.flags) {
        maxForType := SaturatingAdd(maxForType, GCM_TAG_LEN);
      }
      if header.payloadLen > maxForType {
        return Err(PayloadTooLarge(header.payloadLen, maxForType));
      }
      var inOrder := ValidateSequence(header.sequence);
      if inOrder.Err? {
        return Err(inOrder.error);
      }
      var payload: bytes := [];
      if header.payloadLen > 0 {
        var body := reader.ReadExact(header.payloadLen);
        if body.None? {
          return Err(Io);
        }
        payload := body.value;
      }
      if H.IsEncrypted(header.flags) {
        if session.None? {
          return Err(CryptoError);
        }
        var plain := aead.open(session.value.inboundKey, SeqNonce(header.sequence),
                                HeaderAad(header.packetType, header.flags), payload);
        if plain.None? {
          return Err(CryptoError);
        }
        payload := plain.value;
        header := header.(payloadLen := AsU32(|payload|));
      }
      return Ok(RawPacket(header, payload));
    }

    method WritePacket(aead: Aead, writer: Writer, t: PT.PacketType, flags: u8, payload: bytes)
      returns (r: Result<(), ProtocolError>)
      requires Valid()
      modifies this, writer
      ensures Valid() && State() == Write(aead.seal, old(State()), t, flags, payload).codec
      ensures sealed == old(sealed) + SealCalls(old(State()))
      ensures var spec := Write(aead.seal, old(State()), t, flags, payload).outcome;
              if spec.Ok? then Transmitted(spec.value, old(writer.room), old(writer.written), writer.written, r)
              else r == Err(spec.error) && writer.written == old(writer.written) && writer.room == old(writer.room)
    {
      var seqNo := nextSendSeq;
      if nextSendSeq == U64_MAX {
        return Err(CryptoError);
      }
      UniqueBelowExtends(sealed, State());
      nextSendSeq := nextSendSeq + 1;
      var wireFlags, wire := flags, payload;
      if session.Some? {
        wireFlags := H.SetEncrypted(flags);
        sealed := sealed + [SealCall(session.value.outboundKey, SeqNonce(seqNo))];
        var result := aead.seal(session.value.outboundKey, SeqNonce(seqNo), HeaderAad(PT.AsU8(t), wireFlags), payload);
        if result.None? {
          return Err(CryptoError);
        }
        wire := result.value;
      }
      r := WriteFrame(writer, H.New(PT.AsU8(t), wireFlags, AsU32(|wire|), seqNo), wire);
    }
  }

  /** The nonce of the next sequence number is not below it. */
  lemma NonceIsFresh(seqNo: u64)
    ensures !NonceBelow(SeqNonce(seqNo), seqNo)
  {
    forall q: u64 | q < seqNo ensures SeqNonce(q) != SeqNonce(seqNo) {
      if SeqNonce(q) == SeqNonce(seqNo) {
        SeqNonceInjective(q, seqNo);
      }
    }
  }
}
