/** The serial message format: header, source, payload and checksum, and what its parser accepts. */
module Messages {
  import opened Bytes
  import opened Crc8
  import opened Formats

  newtype u32 = x: int | 0 <= x < 0x1_0000_0000

  datatype Destination = Frontend | CentralStation | Ant | Ground

  datatype Disposition = Command | Ack

  datatype Event =
    | AntPing | AntStart | AntCalibrate | AntOTA | AntStop
    | AntPowerOff | AntHeaterOn | AntHeaterOff | AntMoveForward | AntMoveBackward
    | CSGarageOpen | CSRoverStop | CSRoverMove | CSPing | CSDFUViaBLE | CSDFUSerial | CSAntDFUInit | CSAntDFUPacket
    | CSRelay | CSBLEConnect | CSBLEDisconnect
    | FEGarageOpen | FERoverStop | FERoverMove | FEPowerSupplied | FEPing | FERestart | FECSPowerCycled

  datatype MessageType = MessageType(disposition: Disposition, invalid: bool, event: Event)

  /** The magic byte is not stored: a parsed header always has it. */
  datatype Header = Header(destination: Destination, timestamp: u32, seq_: byte, ty: MessageType)

  datatype UniqueId = UniqueId(timestamp: u32, seq_: byte)

  datatype SourceInfo = Empty | Info(header: Header, checksum: byte)

  type HeaderWithSource = HeaderPacket<Header, SourceInfo>

  type Message = HeaderPacket<HeaderWithSource, seq<byte>>

  type AntPayload = s: seq<byte> | |s| == 52 witness seq(52, _ => 0)

  type CsPayload = s: seq<byte> | |s| == 20 witness seq(20, _ => 0)

  type AntPacket = HeaderPacket<HeaderWithSource, AntPayload>

  type Relay = HeaderPacket<CsPayload, AntPacket>

  const MAGIC: byte := 0xeb

  // Enumerations

  function DestinationCode(d: Destination): (b: byte) {
    match d
    case Frontend => 0x90
    case CentralStation => 0x91
    case Ant => 0x92
    case Ground => 0xde
  }

  function DestinationOf(b: byte): (d: Option<Destination>)
    ensures d.Some? ==> DestinationCode(d.value) == b
  {
    if b == 0x90 then Some(Frontend)
    else if b == 0x91 then Some(CentralStation)
    else if b == 0x92 then Some(Ant)
    else if b == 0xde then Some(Ground)
    else None
  }

  function EventCode(e: Event): (b: byte)
    ensures b < 64
  {
    match e
    case AntPing => 0x01
    case AntStart => 0x02
    case AntCalibrate => 0x03
    case AntOTA => 0x04
    case AntStop => 0x05
    case AntPowerOff => 0x06
    case AntHeaterOn => 0x07
    case AntHeaterOff => 0x08
    case AntMoveForward => 0x09
    case AntMoveBackward => 0x0a
    case CSGarageOpen => 0x11
    case CSRoverStop => 0x12
    case CSRoverMove => 0x13
    case CSPing => 0x14
    case CSDFUViaBLE => 0x15
    case CSDFUSerial => 0x16
    case CSAntDFUInit => 0x17
    case CSAntDFUPacket => 0x18
    case CSRelay => 0x19
    case CSBLEConnect => 0x1a
    case CSBLEDisconnect => 0x1b
    case FEGarageOpen => 0x21
    case FERoverStop => 0x22
    case FERoverMove => 0x23
    case FEPowerSupplied => 0x24
    case FEPing => 0x25
    case FERestart => 0x26
    case FECSPowerCycled => 0x27
  }

  /** The commands of one group, in the order of their codes. */
  const ANT_EVENTS: seq<Event> :=
    [AntPing, AntStart, AntCalibrate, AntOTA, AntStop, AntPowerOff, AntHeaterOn, AntHeaterOff,
     AntMoveForward, AntMoveBackward]
  const CS_EVENTS: seq<Event> :=
    [CSGarageOpen, CSRoverStop, CSRoverMove, CSPing, CSDFUViaBLE, CSDFUSerial, CSAntDFUInit, CSAntDFUPacket,
     CSRelay, CSBLEConnect, CSBLEDisconnect]
  const FE_EVENTS: seq<Event> :=
    [FEGarageOpen, FERoverStop, FERoverMove, FEPowerSupplied, FEPing, FERestart, FECSPowerCycled]

  function EventOf(b: byte): (e: Option<Event>)
    ensures e.Some? ==> EventCode(e.value) == b
  {
    if 0x01 <= b <= 0x0a then Some(ANT_EVENTS[b as int - 0x01])
    else if 0x11 <= b <= 0x1b then Some(CS_EVENTS[b as int - 0x11])
    else if 0x21 <= b <= 0x27 then Some(FE_EVENTS[b as int - 0x21])
    else None
  }

  lemma CodesRoundTrip(d: Destination, e: Event)
    ensures DestinationOf(DestinationCode(d)) == Some(d) && EventOf(EventCode(e)) == Some(e)
  {
  }

  // The header

  /** One bit of disposition, one of validity, six of event. */
  function TypeByte(t: MessageType): (b: byte) {
    (if t.disposition == Ack then 128 else 0) + (if t.invalid then 64 else 0) + EventCode(t.event)
  }

  function TypeOf(b: byte): (t: Option<MessageType>) {
    match EventOf(b % 64)
    case None => None
    case Some(e) => Some(MessageType(if b >= 128 then Ack else Command, b % 128 >= 64, e))
  }

  /** Four bytes, least significant first. */
  function TimeBytes(t: u32): (s: seq<byte>)
    ensures |s| == 4
  {
    var t1 := t / 0x100;
    var t2 := t1 / 0x100;
    var t3 := t2 / 0x100;
    [(t % 0x100) as byte, (t1 % 0x100) as byte, (t2 % 0x100) as byte, t3 as byte]
  }

  function TimeOf(s: seq<byte>): (t: u32)
    requires |s| == 4
  {
    (s[0] as int + 0x100 * (s[1] as int + 0x100 * (s[2] as int + 0x100 * s[3] as int))) as u32
  }

  lemma TimeRoundTrip(t: u32)
    ensures TimeOf(TimeBytes(t)) == t
  {
  }

  lemma LowByte(low: byte, high: nat)
    ensures (low as int + 0x100 * high) % 0x100 == low as int && (low as int + 0x100 * high) / 0x100 == high
  {
  }

  lemma TimeBytesOf(s: seq<byte>)
    requires |s| == 4
    ensures TimeBytes(TimeOf(s)) == s
  {
    var h2 := s[2] as int + 0x100 * s[3] as int;
    var h1 := s[1] as int + 0x100 * h2;
    LowByte(s[0], h1);
    LowByte(s[1], h2);
    LowByte(s[2], s[3] as int);
  }

  function PackHeader(h: Header): (s: seq<byte>)
    ensures |s| == 8
  {
    [MAGIC, DestinationCode(h.destination)] + TimeBytes(h.timestamp) + [h.seq_, TypeByte(h.ty)]
  }

  function UnpackHeader(s: seq<byte>): (r: Packing<Header>) {
    if |s| != 8 then Err(BufferSizeMismatch(8, |s|))
    else if s[0] != MAGIC then Err(InvalidValue)
    else
      match DestinationOf(s[1])
      case None => Err(InvalidValue)
      case Some(d) =>
        match TypeOf(s[7])
        case None => Err(InvalidValue)
        case Some(ty) => Ok(Header(d, TimeOf(s[2..6]), s[6], ty))
  }

  // The source

  const NO_SOURCE: seq<byte> := [0, 0, 0, 0, 0, 0, 0, 0, 0]

  function PackSource(s: SourceInfo): (b: seq<byte>)
    ensures |b| == 9
  {
    match s
    case Empty => NO_SOURCE
    case Info(h, c) => PackHeader(h) + [c]
  }

  function UnpackSource(b: seq<byte>): (r: Packing<SourceInfo>) {
    if |b| != 9 then Err(BufferSizeMismatch(9, |b|))
    else if b == NO_SOURCE then Ok(Empty)
    else
      match UnpackHeader(b[..8])
      case Err(e) => Err(e)
      case Ok(h) => Ok(Info(h, b[8]))
  }

  // The formats

  const HEADER: Format<Header> := Format(PackHeader, UnpackHeader)

  const SOURCE: Format<SourceInfo> := Format(PackSource, UnpackSource)

  const RAW: Format<seq<byte>> := Format((s: seq<byte>) => s, (s: seq<byte>) => Ok(s))

  const HEADER_WITH_SOURCE: Format<HeaderWithSource> := Nested(8, HEADER, SOURCE)

  const BODY: Format<Message> := Nested(17, HEADER_WITH_SOURCE, RAW)

  const MESSAGE: Format<Message> := Checked(BODY)

  const ANT_PAYLOAD: Format<AntPayload> :=
    Format((s: AntPayload) => s, (s: seq<byte>) =>
      if |s| == 52 then (var p: AntPayload := s; Ok(p)) else Err(BufferSizeMismatch(52, |s|)))

  const CS_PAYLOAD: Format<CsPayload> :=
    Format((s: CsPayload) => s, (s: seq<byte>) =>
      if |s| == 20 then (var p: CsPayload := s; Ok(p)) else Err(BufferSizeMismatch(20, |s|)))

  const ANT_PACKET: Format<AntPacket> := Checked(Nested(17, HEADER_WITH_SOURCE, ANT_PAYLOAD))

  const RELAY: Format<Relay> := Nested(20, CS_PAYLOAD, ANT_PACKET)

  lemma TypeRoundTrip(t: MessageType)
    ensures TypeOf(TypeByte(t)) == Some(t)
  {
    hide EventCode, EventOf;
    var b, c := TypeByte(t), EventCode(t.event);
    CodesRoundTrip(Ant, t.event);
    CodeBound(t.event);
    assert b % 64 == c;
  }

  lemma TypeByteOf(b: byte)
    requires TypeOf(b).Some?
    ensures TypeByte(TypeOf(b).value) == b
  {
    hide EventCode, EventOf;
  }

  lemma CodeBound(e: Event)
    ensures EventCode(e) < 64
  {
  }

  lemma HeaderRoundTrip(h: Header)
    ensures UnpackHeader(PackHeader(h)) == Ok(h)
  {
    hide EventCode, EventOf, TypeByte, TypeOf, TimeOf, TimeBytes, DestinationCode, DestinationOf;
    CodesRoundTrip(h.destination, h.ty.event);
    TimeRoundTrip(h.timestamp);
    TypeRoundTrip(h.ty);
    assert PackHeader(h)[2..6] == TimeBytes(h.timestamp);
  }

  lemma HeaderBytesRoundTrip(s: seq<byte>)
    requires UnpackHeader(s).Ok?
    ensures PackHeader(UnpackHeader(s).value) == s
  {
    hide EventCode, EventOf, TypeByte, TypeOf, TimeOf, TimeBytes, DestinationCode, DestinationOf;
    TimeBytesOf(s[2..6]);
    TypeByteOf(s[7]);
    assert s == [s[0], s[1]] + s[2..6] + [s[6], s[7]];
  }

  lemma HeaderFormat()
    ensures Fixed(HEADER, 8) && Faithful(HEADER) && Canonical(HEADER)
  {
    forall h: Header
      ensures UnpackHeader(PackHeader(h)) == Ok(h)
    {
      HeaderRoundTrip(h);
    }
    forall s | UnpackHeader(s).Ok?
      ensures PackHeader(UnpackHeader(s).value) == s
    {
      HeaderBytesRoundTrip(s);
    }
  }

  lemma SourceFormat()
    ensures Fixed(SOURCE, 9) && Faithful(SOURCE) && Canonical(SOURCE)
  {
    HeaderFormat();
    forall v: SourceInfo
      ensures UnpackSource(PackSource(v)) == Ok(v)
    {
      if v.Info? {
        assert PackSource(v)[..8] == PackHeader(v.header);
        assert PackSource(v)[0] == MAGIC;
        assert HEADER.unpack(HEADER.pack(v.header)) == Ok(v.header);
      }
    }
    forall b | UnpackSource(b).Ok?
      ensures PackSource(UnpackSource(b).value) == b
    {
      if b != NO_SOURCE {
        assert HEADER.pack(HEADER.unpack(b[..8]).value) == b[..8];
        assert b == b[..8] + [b[8]];
      }
    }
  }

  lemma HeaderWithSourceFormat()
    ensures Fixed(HEADER_WITH_SOURCE, 17) && Faithful(HEADER_WITH_SOURCE) && Canonical(HEADER_WITH_SOURCE)
  {
    HeaderFormat();
    SourceFormat();
    NestedFixed(8, HEADER, 9, SOURCE);
    NestedFaithful(8, HEADER, SOURCE);
    NestedCanonical(8, HEADER, SOURCE);
  }

  lemma BodyFormat()
    ensures Faithful(BODY) && Canonical(BODY)
  {
    HeaderWithSourceFormat();
    NestedFaithful(17, HEADER_WITH_SOURCE, RAW);
    NestedCanonical(17, HEADER_WITH_SOURCE, RAW);
  }

  /** Messages survive packing, and only packed messages are accepted. */
  lemma MessageFormat()
    ensures Faithful(MESSAGE) && Canonical(MESSAGE)
  {
    BodyFormat();
    CheckedFaithful(BODY);
    CheckedCanonical(BODY);
  }

  lemma AntPacketFormat()
    ensures Faithful(ANT_PACKET) && Canonical(ANT_PACKET)
  {
    HeaderWithSourceFormat();
    NestedFaithful(17, HEADER_WITH_SOURCE, ANT_PAYLOAD);
    NestedCanonical(17, HEADER_WITH_SOURCE, ANT_PAYLOAD);
    CheckedFaithful(Nested(17, HEADER_WITH_SOURCE, ANT_PAYLOAD));
    CheckedCanonical(Nested(17, HEADER_WITH_SOURCE, ANT_PAYLOAD));
  }

  /** Relays survive packing, and only packed relays are accepted. */
  lemma RelayFormat()
    ensures Faithful(RELAY) && Canonical(RELAY)
  {
    AntPacketFormat();
    NestedFaithful(20, CS_PAYLOAD, ANT_PACKET);
    NestedCanonical(20, CS_PAYLOAD, ANT_PACKET);
  }

  /** A header has the magic byte, a known destination and a known event; any timestamp and sequence number will do. */
  ghost predicate ValidHeader(s: seq<byte>)
    requires |s| == 8
  {
    && s[0] == 0xeb
    && (s[1] == 0x90 || s[1] == 0x91 || s[1] == 0x92 || s[1] == 0xde)
    && (0x01 <= s[7] % 64 <= 0x0a || 0x11 <= s[7] % 64 <= 0x1b || 0x21 <= s[7] % 64 <= 0x27)
  }

  lemma HeaderAccepts(s: seq<byte>)
    ensures UnpackHeader(s).Ok? <==> |s| == 8 && ValidHeader(s)
  {
  }

  /** What the parser accepts, byte by byte. */
  lemma MessageAccepts(s: seq<byte>)
    ensures MESSAGE.unpack(s).Ok? <==>
            && |s| >= 18
            && ValidHeader(s[..8])
            && (s[8..17] == NO_SOURCE || ValidHeader(s[8..16]))
            && s[|s| - 1] == Checksum(s[..|s| - 1])
  {
    BodyFormat();
    CheckedAccepts(BODY, s);
    if |s| > 0 {
      var b := s[..|s| - 1];
      NestedAccepts(17, HEADER_WITH_SOURCE, RAW, b);
      if |b| >= 17 {
        NestedAccepts(8, HEADER, SOURCE, b[..17]);
        assert b[..17][..8] == s[..8] && b[..17][8..] == s[8..17] && s[8..17][..8] == s[8..16];
        HeaderAccepts(s[..8]);
        HeaderAccepts(s[8..16]);
      }
    }
  }

  /** Corruption of a packed message that always shows. */
  lemma CorruptedMessageRejected(m: Message, received: seq<byte>)
    requires |received| == |MESSAGE.pack(m)|
    requires var e := Diff(Bits(MESSAGE.pack(m)), Bits(received)); Burst(e) || Odd(e)
    ensures MESSAGE.unpack(received).Err?
  {
    BodyFormat();
    CorruptionRejected(BODY, m, received);
  }

  /** Bytes that differ from a packed message within eight consecutive bits only are accepted only if they are it. */
  lemma WindowedMessageRejected(m: Message, received: seq<byte>, p: nat)
    requires |received| == |MESSAGE.pack(m)|
    requires var e := Diff(Bits(MESSAGE.pack(m)), Bits(received)); forall i :: 0 <= i < |e| && e[i] ==> p <= i < p + 8
    ensures MESSAGE.unpack(received).Ok? <==> received == MESSAGE.pack(m)
  {
    BodyFormat();
    WindowChangeRejected(BODY, m, received, p);
  }

  /** Two flips in the payload of a message are accepted exactly when they are a multiple of 127 bits apart. */
  lemma TwoPayloadFlips(m: Message, received: seq<byte>, p: nat, q: nat)
    requires |received| == |MESSAGE.pack(m)|
    requires TwoAt(Diff(Bits(MESSAGE.pack(m)), Bits(received)), p, q)
    requires |received| >= 18 && received[..17] == MESSAGE.pack(m)[..17]
    ensures MESSAGE.unpack(received).Ok? <==> (q - p) % 127 == 0
  {
    BodyFormat();
    TwoFlipsRejected(BODY, m, received, p, q);
    hide *;
    SameHeadersParse(m, received);
  }

  lemma SameHeadersParse(m: Message, received: seq<byte>)
    requires |received| == |MESSAGE.pack(m)| && |received| >= 18 && received[..17] == MESSAGE.pack(m)[..17]
    ensures BODY.unpack(received[..|received| - 1]).Ok?
  {
    HeaderWithSourceFormat();
    hide UnpackHeader, UnpackSource, PackHeader, PackSource, Checksum;
    var head, b := HEADER_WITH_SOURCE.pack(m.header), received[..|received| - 1];
    assert MESSAGE.pack(m)[..17] == head;
    assert b[..17] == head;
    assert HEADER_WITH_SOURCE.unpack(head).Ok?;
    NestedAccepts(17, HEADER_WITH_SOURCE, RAW, b);
  }

  // Building messages

  datatype Params = Params(time: u32, seq_: byte)

  function CommandHeader(env: Params, dest: Destination, event: Event): (h: Header) {
    Header(dest, env.time, env.seq_, MessageType(Command, false, event))
  }

  function CommandMessage(env: Params, dest: Destination, event: Event): (m: Message) {
    HeaderPacket(HeaderPacket(CommandHeader(env, dest, event), Empty), [])
  }

  /** A command goes where it is sent, says what it is told to, and carries the parameters it was given. */
  lemma CommandIs(env: Params, dest: Destination, event: Event)
    ensures var m := CommandMessage(env, dest, event);
      && m.header.header.destination == dest
      && m.header.header.ty == MessageType(Command, false, event)
      && m.header.payload == Empty && m.payload == []
      && IdOf(m.header.header) == UniqueId(env.time, env.seq_)
  {
  }

  function IdOf(h: Header): (id: UniqueId) {
    UniqueId(h.timestamp, h.seq_)
  }

  /** The published bytes of the "5V supplied" message. */
  lemma GoldenVector()
    ensures MESSAGE.pack(CommandMessage(Params(0, 0), Frontend, FEPowerSupplied))
            == GOLDEN + [0x9a]
  {
    var m := CommandMessage(Params(0, 0), Frontend, FEPowerSupplied);
    assert TimeBytes(0) == [0, 0, 0, 0];
    assert BODY.pack(m) == PackHeader(m.header.header) + NO_SOURCE + [];
    assert BODY.pack(m) == GOLDEN;
    GoldenChecksum();
  }

  lemma Absorb(s: seq<byte>, i: nat, r: Register, b: byte)
    requires i < |s| && s[i] == b
    ensures RunBytes(r, s[i..]) == RunBytes(StepByte(r, b), s[i + 1..])
  {
    assert s[i..] == [b] + s[i + 1..];
    FirstByte(r, b, s[i + 1..]);
  }

  lemma LoadedBytes()
    ensures Loaded(BitsOf(0)) == CLEAR
    ensures Loaded(BitsOf(0xeb)) == Register(true, true, true, false, true, false, true, true)
    ensures Loaded(BitsOf(0x90)) == Register(true, false, false, true, false, false, false, false)
    ensures Loaded(BitsOf(0x24)) == Register(false, false, true, false, false, true, false, false)
    ensures Loaded(BitsOf(0x9a)) == Register(true, false, false, true, true, false, true, false)
  {
  }

  const GOLDEN: seq<byte> := [0xeb, 0x90, 0, 0, 0, 0, 0, 0x24, 0, 0, 0, 0, 0, 0, 0, 0, 0]

  lemma GoldenHead(s: seq<byte>)
    requires s == GOLDEN
    ensures RunBytes(CLEAR, s) == RunBytes(Register(false, false, false, false, false, true, false, true), s[8..])
  {
    hide RunBytes, Run, BitsOf, Loaded;
    LoadedBytes();
    assert s[0..] == s;
    Absorb(s, 0, Register(false, false, false, false, false, false, false, false), 0xeb);
    Absorb(s, 1, Register(true, false, false, true, true, true, true, true), 0x90);
    Absorb(s, 2, Register(false, false, true, false, true, true, false, true), 0);
    Absorb(s, 3, Register(true, true, false, false, false, false, true, true), 0);
    GoldenHeadEnd(s);
  }

  lemma GoldenHeadEnd(s: seq<byte>)
    requires s == GOLDEN
    ensures RunBytes(Register(false, true, false, false, false, true, true, true), s[4..])
            == RunBytes(Register(false, false, false, false, false, true, false, true), s[8..])
  {
    hide RunBytes, Run, BitsOf, Loaded;
    LoadedBytes();
    Absorb(s, 4, Register(false, true, false, false, false, true, true, true), 0);
    Absorb(s, 5, Register(true, true, false, true, false, false, true, false), 0);
    Absorb(s, 6, Register(false, false, true, true, false, false, false, false), 0);
    Absorb(s, 7, Register(true, false, false, true, false, false, false, false), 0x24);
  }

  lemma GoldenTail(s: seq<byte>)
    requires s == GOLDEN
    ensures RunBytes(Register(false, false, false, false, false, true, false, true), s[8..])
            == Register(true, false, false, true, true, false, true, false)
  {
    hide RunBytes, Run, BitsOf, Loaded;
    LoadedBytes();
    Absorb(s, 8, Register(false, false, false, false, false, true, false, true), 0);
    Absorb(s, 9, Register(false, false, false, true, true, false, true, true), 0);
    Absorb(s, 10, Register(false, true, false, false, false, false, false, true), 0);
    Absorb(s, 11, Register(true, true, false, false, false, false, false, false), 0);
    GoldenTailEnd(s);
  }

  lemma GoldenTailEnd(s: seq<byte>)
    requires s == GOLDEN
    ensures RunBytes(Register(false, true, false, false, true, true, true, false), s[12..])
            == Register(true, false, false, true, true, false, true, false)
  {
    hide RunBytes, Run, BitsOf, Loaded;
    LoadedBytes();
    Absorb(s, 12, Register(false, true, false, false, true, true, true, false), 0);
    Absorb(s, 13, Register(true, true, true, false, true, true, false, true), 0);
    Absorb(s, 14, Register(true, false, false, false, true, true, false, true), 0);
    Absorb(s, 15, Register(true, false, true, false, true, false, true, false), 0);
    Absorb(s, 16, Register(false, true, false, true, true, true, true, true), 0);
    NothingLeft(Register(true, false, false, true, true, false, true, false));
    assert s[17..] == [];
  }

  lemma GoldenChecksum()
    ensures Checksum(GOLDEN) == 0x9a
  {
    hide RunBytes, Run, BitsOf, Loaded;
    RunBytesIsRun(CLEAR, GOLDEN);
    GoldenHead(GOLDEN);
    GoldenTail(GOLDEN);
    LoadedBytes();
    RegisterRoundTrip(Register(true, false, false, true, true, false, true, false), 0x9a);
  }

  lemma NothingLeft(r: Register)
    ensures RunBytes(r, []) == r
  {
  }
}
