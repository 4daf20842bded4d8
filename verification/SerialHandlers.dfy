/** The decoding actors on the serial side, and the console that plays the central station. */
module SerialHandlers {
  import opened Bytes
  import opened Crc8
  import opened Formats
  import opened Messages
  import opened CommanderTable

  /** The relayed ant packet in a message, if it is a relay ack that holds one. */
  function DecodeRelay(m: Message): (p: Option<AntPacket>) {
    if !IsRelayAck(m) then None
    else
      match RELAY.unpack(m.payload)
      case Err(_) => None
      case Ok(relay) => Some(relay.payload)
  }

  /** What one packet off the line makes the commander handle. */
  function Received(packet: seq<byte>): (actions: seq<Action>)
    ensures |actions| <= 2
  {
    match MESSAGE.unpack(packet)
    case Err(_) => []
    case Ok(m) =>
      (if m.header.payload.Info? then [AckReceived(m)] else [])
      + (match DecodeRelay(m) case None => [] case Some(p) => [AntReceived(p)])
  }

  function AnswerTo(a: Action): (r: seq<(UniqueId, Response)>) {
    match Answer(a) case None => [] case Some(x) => [x]
  }

  /** The requests that a list of actions answers, with their answers. */
  function Answers(actions: seq<Action>): (r: seq<(UniqueId, Response)>) {
    if actions == [] then []
    else AnswerTo(actions[0]) + Answers(actions[1..])
  }

  /**
   * One packet answers at most one request: a relay ack only through the ant packet inside it, and then the answer
   * carries the id in that packet's source; any other message only by itself.
   */
  lemma AtMostOneAnswer(packet: seq<byte>)
    ensures |Answers(Received(packet))| <= 1
    ensures match MESSAGE.unpack(packet)
            case Err(_) => Answers(Received(packet)) == []
            case Ok(m) =>
              forall x :: x in Answers(Received(packet)) ==>
                if IsRelayAck(m) then DecodeRelay(m).Some? && Answer(AntReceived(DecodeRelay(m).value)) == Some(x)
                else Answer(AckReceived(m)) == Some(x)
  {
    var parsed := MESSAGE.unpack(packet);
    if parsed.Ok? {
      var m := parsed.value;
      RelayAckIsNoAnswer(m);
      AnswersOfPair(m, DecodeRelay(m));
    }
  }

  lemma AnswersOfPair(m: Message, p: Option<AntPacket>)
    requires p.Some? ==> Answer(AckReceived(m)).None?
    ensures var actions := (if m.header.payload.Info? then [AckReceived(m)] else [])
                           + (match p case None => [] case Some(p) => [AntReceived(p)]);
            && |Answers(actions)| <= 1
            && forall x :: x in Answers(actions) ==>
                 if p.Some? then Answer(AntReceived(p.value)) == Some(x) else Answer(AckReceived(m)) == Some(x)
  {
    var own, inner: seq<Action> := if m.header.payload.Info? then [AckReceived(m)] else [],
                                   match p case None => [] case Some(p) => [AntReceived(p)];
    AnswersAppend(own, inner);
    assert own != [] ==> own[1..] == [];
    assert inner != [] ==> inner[1..] == [];
  }

  lemma {:induction false} AnswersAppend(a: seq<Action>, b: seq<Action>)
    ensures Answers(a + b) == Answers(a) + Answers(b)
  {
    hide Answer;
    if a == [] {
      assert a + b == b;
    } else {
      hide Answers;
      assert (a + b)[1..] == a[1..] + b && (a + b)[0] == a[0];
      AnswersAppend(a[1..], b);
      AnswersUnfold(a);
      AnswersUnfold(a + b);
      ConcatAssociates(AnswerTo(a[0]), Answers(a[1..]), Answers(b));
    }
  }

  lemma AnswersUnfold(a: seq<Action>)
    requires a != []
    ensures Answers(a) == AnswerTo(a[0]) + Answers(a[1..])
  {
    hide Answer;
  }

  lemma RelayAckIsNoAnswer(m: Message)
    ensures IsRelayAck(m) ==> Answer(AckReceived(m)).None?
    ensures !IsRelayAck(m) ==> DecodeRelay(m).None?
  {
  }

  /** A relay ack that carries a packed relay makes the commander handle the ant packet inside it. */
  lemma RelayArrives(m: Message, relay: Relay)
    requires m.header.header.ty.event == CSRelay && m.header.header.ty.disposition == Ack
    requires m.payload == RELAY.pack(relay)
    ensures Received(MESSAGE.pack(m)) ==
            (if m.header.payload.Info? then [AckReceived(m)] else []) + [AntReceived(relay.payload)]
  {
    MessageFormat();
    RelayFormat();
    assert MESSAGE.unpack(MESSAGE.pack(m)) == Ok(m);
    assert RELAY.unpack(m.payload) == Ok(relay);
  }

  /** So it answers exactly the request that the ant packet is from, with that packet. */
  lemma RelayAnswers(m: Message, relay: Relay)
    requires m.header.header.ty.event == CSRelay && m.header.header.ty.disposition == Ack
    requires m.payload == RELAY.pack(relay)
    ensures Answers(Received(MESSAGE.pack(m))) ==
            match relay.payload.header.payload
            case Empty => []
            case Info(h, _) => [(IdOf(h), FromAnt(relay.payload))]
  {
    RelayArrives(m, relay);
    hide *;
    InnerAnswers(m, relay.payload);
  }

  lemma InnerAnswers(m: Message, p: AntPacket)
    requires IsRelayAck(m)
    ensures Answers((if m.header.payload.Info? then [AckReceived(m)] else []) + [AntReceived(p)]) ==
            match p.header.payload case Empty => [] case Info(h, _) => [(IdOf(h), FromAnt(p))]
  {
    RelayAckIsNoAnswer(m);
    var own: seq<Action> := if m.header.payload.Info? then [AckReceived(m)] else [];
    AnswersAppend(own, [AntReceived(p)]);
    assert own != [] ==> own[1..] == [];
    assert [AntReceived(p)][1..] == [];
  }

  /** Every other message makes the commander handle it if it has a source, and does nothing if it has none. */
  lemma MessageArrives(m: Message)
    requires m.header.header.ty.event != CSRelay || m.header.header.ty.disposition != Ack
    ensures Received(MESSAGE.pack(m)) == if m.header.payload == Empty then [] else [AckReceived(m)]
  {
    MessageFormat();
    assert MESSAGE.unpack(MESSAGE.pack(m)) == Ok(m);
  }

  /** The ack the auto-acking peer builds, field by field. */
  function AckFor(m: Message): (ack: Message) {
    var header := m.header.header;
    HeaderPacket(
      HeaderPacket(header.(ty := header.ty.(disposition := Ack)), Info(header, Checksum(BODY.pack(m)))),
      [])
  }

  function Packed(m: Message): (packet: seq<byte>) {
    MESSAGE.pack(m)
  }

  function PackedAck(m: Message): (packet: seq<byte>) {
    MESSAGE.pack(AckFor(m))
  }

  /** The acks for a list of packets, up to the first that does not parse. */
  function Acks(packets: seq<seq<byte>>): (acks: seq<seq<byte>>) {
    if packets == [] then []
    else
      match MESSAGE.unpack(packets[0])
      case Err(_) => []
      case Ok(m) => [PackedAck(m)] + Acks(packets[1..])
  }

  /** How many packets parse before the first that does not. */
  function Parsed(packets: seq<seq<byte>>): (n: nat)
    ensures n <= |packets|
  {
    if packets == [] || MESSAGE.unpack(packets[0]).Err? then 0 else 1 + Parsed(packets[1..])
  }

  lemma {:induction false} ParsedMeans(packets: seq<seq<byte>>)
    ensures forall i :: 0 <= i < Parsed(packets) ==> MESSAGE.unpack(packets[i]).Ok?
    ensures Parsed(packets) < |packets| ==> MESSAGE.unpack(packets[Parsed(packets)]).Err?
  {
    hide MESSAGE;
    if packets != [] && MESSAGE.unpack(packets[0]).Ok? {
      ParsedMeans(packets[1..]);
      assert forall i :: 0 < i < |packets| ==> packets[i] == packets[1..][i - 1];
    }
  }

  predicate FailsWith(packet: seq<byte>, e: PackingError) {
    MESSAGE.unpack(packet) == Err(e)
  }

  /** Each of those has its ack, in order, and there are no others. */
  lemma {:induction false} AcksAre(packets: seq<seq<byte>>)
    ensures |Acks(packets)| == Parsed(packets)
    ensures forall k :: 0 <= k < Parsed(packets) ==>
              MESSAGE.unpack(packets[k]).Ok? && Acks(packets)[k] == PackedAck(MESSAGE.unpack(packets[k]).value)
  {
    hide MESSAGE, PackedAck;
    ParsedMeans(packets);
    if packets != [] && MESSAGE.unpack(packets[0]).Ok? {
      AcksAre(packets[1..]);
      forall k | 0 < k < Parsed(packets)
        ensures Acks(packets)[k] == PackedAck(MESSAGE.unpack(packets[k]).value)
      {
        assert Acks(packets)[k] == Acks(packets[1..])[k - 1];
      }
    }
  }

  /**
   * What the other end reads from the k-th ack: the header of the k-th packet, marked as an ack; as its source that
   * same header unmarked, with the packet's own last byte; and no payload.
   */
  lemma AckSays(packets: seq<seq<byte>>, k: nat)
    requires k < Parsed(packets)
    ensures |Acks(packets)| == Parsed(packets) && MESSAGE.unpack(packets[k]).Ok?
    ensures var h := MESSAGE.unpack(packets[k]).value.header.header;
      && |packets[k]| > 0
      && MESSAGE.unpack(Acks(packets)[k]) ==
         Ok(HeaderPacket(
           HeaderPacket(Header(h.destination, h.timestamp, h.seq_, MessageType(Ack, h.ty.invalid, h.ty.event)),
                        Info(h, packets[k][|packets[k]| - 1])),
           []))
  {
    AcksAre(packets);
    var m := MESSAGE.unpack(packets[k]).value;
    MessageFormat();
    assert MESSAGE.unpack(PackedAck(m)) == Ok(AckFor(m));
    assert MESSAGE.pack(m) == packets[k];
    LastByte(m, packets[k]);
  }

  lemma LastByte(m: Message, packet: seq<byte>)
    requires MESSAGE.pack(m) == packet
    ensures |packet| > 0 && packet[|packet| - 1] == Checksum(BODY.pack(m))
  {
  }

  /** Reads packets until the line closes or one is malformed, acking each if asked to. */
  method ReadUplink(packets: seq<seq<byte>>, autoAck: bool) returns (r: Packing<()>, down: seq<seq<byte>>)
    ensures down == if autoAck then Acks(packets) else []
    ensures r.Ok? <==> forall i :: 0 <= i < |packets| ==> MESSAGE.unpack(packets[i]).Ok?
    ensures r.Err? ==> Parsed(packets) < |packets| && FailsWith(packets[Parsed(packets)], r.error)
  {
    hide MESSAGE, BODY, Checksum, Parsed;
    ParsedMeans(packets);
    down := [];
    assert packets[0..] == packets;
    for i := 0 to |packets|
      invariant forall k :: 0 <= k < i ==> MESSAGE.unpack(packets[k]).Ok?
      invariant if autoAck then down + Acks(packets[i..]) == Acks(packets) else down == []
    {
      assert packets[i..][1..] == packets[i + 1..];
      var parsed := MESSAGE.unpack(packets[i]);
      if parsed.Err? {
        return Err(parsed.error), down;
      }
      if !autoAck {
        continue;
      }
      var ack := parsed.value;
      ack := ack.(header := ack.header.(payload := Info(ack.header.header, Checksum(BODY.pack(parsed.value)))));
      ack := ack.(header := ack.header.(header := ack.header.header.(ty := ack.header.header.ty.(disposition := Ack))));
      ack := ack.(payload := []);
      ConcatAssociates(down, [MESSAGE.pack(ack)], Acks(packets[i + 1..]));
      down := down + [MESSAGE.pack(ack)];
    }
    return Ok(()), down;
  }

  /** The ack, packed and sent back, reaches the commander as itself and as nothing else. */
  lemma AckArrives(m: Message)
    ensures Received(PackedAck(m)) == [AckReceived(AckFor(m))]
  {
    MessageFormat();
    EmptyIsNoRelay();
    assert AckFor(m).payload == [];
  }

  lemma EmptyIsNoRelay()
    ensures RELAY.unpack([]).Err?
  {
  }

  /** The request it answers is the one it acks, unless that is a relay request. */
  lemma AckAnswers(m: Message)
    ensures Answer(AckReceived(AckFor(m))) ==
            if m.header.header.ty.event == CSRelay then None else Some((RequestId(m), FromStation(AckFor(m))))
  {
  }

  /** The peer's answer to a packed message. */
  lemma PeerAnswers(m: Message)
    ensures Acks([Packed(m)]) == [PackedAck(m)]
  {
    MessageFormat();
    assert [Packed(m)][1..] == [];
  }
}
