/** What accepted bytes mean, byte by byte, and how the others are refused. */
module MessageMeaning {
  import opened Bytes
  import opened Crc8
  import opened Formats
  import opened Messages

  /** Timestamp, sequence number and the two flags of an accepted header. */
  lemma HeaderFields(s: seq<byte>)
    requires UnpackHeader(s).Ok?
    ensures var h := UnpackHeader(s).value;
      && h.timestamp as int == s[2] as int + 0x100 * s[3] as int + 0x1_0000 * s[4] as int + 0x100_0000 * s[5] as int
      && h.seq_ == s[6]
      && (h.ty.disposition == Ack <==> s[7] >= 128)
      && (h.ty.invalid <==> s[7] % 128 >= 64)
  {
    assert s[2..6][0] == s[2] && s[2..6][1] == s[3] && s[2..6][2] == s[4] && s[2..6][3] == s[5];
  }

  lemma HeaderDestination(s: seq<byte>)
    requires UnpackHeader(s).Ok?
    ensures var d := UnpackHeader(s).value.destination;
      && (d == Frontend <==> s[1] == 0x90)
      && (d == CentralStation <==> s[1] == 0x91)
      && (d == Ant <==> s[1] == 0x92)
      && (d == Ground <==> s[1] == 0xde)
  {
    hide EventOf, EventCode, TypeOf;
  }

  lemma AntEventMeaning(b: byte)
    requires EventOf(b).Some?
    ensures var e := EventOf(b).value;
      && (e == AntPing <==> b == 0x01)
      && (e == AntStart <==> b == 0x02)
      && (e == AntCalibrate <==> b == 0x03)
      && (e == AntOTA <==> b == 0x04)
      && (e == AntStop <==> b == 0x05)
      && (e == AntPowerOff <==> b == 0x06)
      && (e == AntHeaterOn <==> b == 0x07)
      && (e == AntHeaterOff <==> b == 0x08)
      && (e == AntMoveForward <==> b == 0x09)
      && (e == AntMoveBackward <==> b == 0x0a)
  {
  }

  lemma StationEventMeaning(b: byte)
    requires EventOf(b).Some?
    ensures var e := EventOf(b).value;
      && (e == CSGarageOpen <==> b == 0x11)
      && (e == CSRoverStop <==> b == 0x12)
      && (e == CSRoverMove <==> b == 0x13)
      && (e == CSPing <==> b == 0x14)
      && (e == CSDFUViaBLE <==> b == 0x15)
      && (e == CSDFUSerial <==> b == 0x16)
      && (e == CSAntDFUInit <==> b == 0x17)
      && (e == CSAntDFUPacket <==> b == 0x18)
      && (e == CSRelay <==> b == 0x19)
      && (e == CSBLEConnect <==> b == 0x1a)
      && (e == CSBLEDisconnect <==> b == 0x1b)
  {
  }

  lemma FrontendEventMeaning(b: byte)
    requires EventOf(b).Some?
    ensures var e := EventOf(b).value;
      && (e == FEGarageOpen <==> b == 0x21)
      && (e == FERoverStop <==> b == 0x22)
      && (e == FERoverMove <==> b == 0x23)
      && (e == FEPowerSupplied <==> b == 0x24)
      && (e == FEPing <==> b == 0x25)
      && (e == FERestart <==> b == 0x26)
      && (e == FECSPowerCycled <==> b == 0x27)
  {
  }

  /** Which event a code stands for. */
  lemma EventMeaning(b: byte)
    requires EventOf(b).Some?
    ensures var e := EventOf(b).value;
      && (e == AntPing <==> b == 0x01)
      && (e == AntStart <==> b == 0x02)
      && (e == AntCalibrate <==> b == 0x03)
      && (e == AntOTA <==> b == 0x04)
      && (e == AntStop <==> b == 0x05)
      && (e == AntPowerOff <==> b == 0x06)
      && (e == AntHeaterOn <==> b == 0x07)
      && (e == AntHeaterOff <==> b == 0x08)
      && (e == AntMoveForward <==> b == 0x09)
      && (e == AntMoveBackward <==> b == 0x0a)
      && (e == CSGarageOpen <==> b == 0x11)
      && (e == CSRoverStop <==> b == 0x12)
      && (e == CSRoverMove <==> b == 0x13)
      && (e == CSPing <==> b == 0x14)
      && (e == CSDFUViaBLE <==> b == 0x15)
      && (e == CSDFUSerial <==> b == 0x16)
      && (e == CSAntDFUInit <==> b == 0x17)
      && (e == CSAntDFUPacket <==> b == 0x18)
      && (e == CSRelay <==> b == 0x19)
      && (e == CSBLEConnect <==> b == 0x1a)
      && (e == CSBLEDisconnect <==> b == 0x1b)
      && (e == FEGarageOpen <==> b == 0x21)
      && (e == FERoverStop <==> b == 0x22)
      && (e == FERoverMove <==> b == 0x23)
      && (e == FEPowerSupplied <==> b == 0x24)
      && (e == FEPing <==> b == 0x25)
      && (e == FERestart <==> b == 0x26)
      && (e == FECSPowerCycled <==> b == 0x27)
  {
    hide EventOf;
    AntEventMeaning(b);
    StationEventMeaning(b);
    FrontendEventMeaning(b);
  }

  lemma HeaderEvent(s: seq<byte>)
    requires UnpackHeader(s).Ok?
    ensures EventOf(s[7] % 64) == Some(UnpackHeader(s).value.ty.event)
  {
    hide EventOf;
  }

  /**
   * Where the parts of an accepted message are: its header, then nine bytes of source, all zero when there is none,
   * then the payload, then the checksum of all of that.
   */
  lemma MessageParts(s: seq<byte>)
    requires MESSAGE.unpack(s).Ok?
    ensures |s| >= 18
    ensures var m := MESSAGE.unpack(s).value;
      && UnpackHeader(s[..8]) == Ok(m.header.header)
      && (m.header.payload == Empty <==> s[8..17] == [0, 0, 0, 0, 0, 0, 0, 0, 0])
      && (m.header.payload.Info? ==>
          UnpackHeader(s[8..16]) == Ok(m.header.payload.header) && m.header.payload.checksum == s[16])
      && m.payload == s[17..|s| - 1]
      && s[|s| - 1] == Checksum(s[..|s| - 1])
  {
    MessageAccepts(s);
    BodyFormat();
    CheckedAccepts(BODY, s);
    BodyParts(s[..|s| - 1], s);
  }

  lemma BodyParts(b: seq<byte>, s: seq<byte>)
    requires BODY.unpack(b).Ok? && |s| >= 18 && b == s[..|s| - 1]
    ensures var m := BODY.unpack(b).value;
      && UnpackHeader(s[..8]) == Ok(m.header.header)
      && UnpackSource(s[8..17]) == Ok(m.header.payload)
      && (m.header.payload == Empty <==> s[8..17] == NO_SOURCE)
      && (m.header.payload.Info? ==>
          UnpackHeader(s[8..16]) == Ok(m.header.payload.header) && m.header.payload.checksum == s[16])
      && m.payload == s[17..|s| - 1]
  {
    hide UnpackHeader;
    assert b[..17][..8] == s[..8] && b[..17][8..] == s[8..17] && b[17..] == s[17..|s| - 1];
    assert s[8..17][..8] == s[8..16] && s[8..17][8] == s[16];
  }

  /** Where the parts of an accepted relay are: twenty bytes from the station, then the ant's packet. */
  lemma RelayParts(s: seq<byte>)
    requires RELAY.unpack(s).Ok?
    ensures |s| == 90
    ensures var r := RELAY.unpack(s).value;
      && r.header == s[..20]
      && UnpackHeader(s[20..28]) == Ok(r.payload.header.header)
      && UnpackSource(s[28..37]) == Ok(r.payload.header.payload)
      && r.payload.payload == s[37..89]
      && s[89] == Checksum(s[20..89])
  {
    AntParts(s[20..]);
    assert s[20..][..8] == s[20..28] && s[20..][8..17] == s[28..37] && s[20..][17..69] == s[37..89];
    assert s[20..][..69] == s[20..89];
  }

  lemma AntParts(s: seq<byte>)
    requires ANT_PACKET.unpack(s).Ok?
    ensures |s| == 70
    ensures var p := ANT_PACKET.unpack(s).value;
      && UnpackHeader(s[..8]) == Ok(p.header.header)
      && UnpackSource(s[8..17]) == Ok(p.header.payload)
      && p.payload == s[17..69]
      && s[69] == Checksum(s[..69])
  {
    hide UnpackHeader, UnpackSource;
    AntBodyFormat();
    CheckedAccepts(Nested(17, HEADER_WITH_SOURCE, ANT_PAYLOAD), s);
    var b := s[..|s| - 1];
    assert |b[17..]| == 52;
    assert b[..17][..8] == s[..8] && b[..17][8..] == s[8..17] && b[17..] == s[17..69];
  }

  lemma AntBodyFormat()
    ensures Canonical(Nested(17, HEADER_WITH_SOURCE, ANT_PAYLOAD))
  {
    HeaderWithSourceFormat();
    NestedCanonical(17, HEADER_WITH_SOURCE, ANT_PAYLOAD);
  }

  /** Bytes that are refused are too short, or not valid; there is no other reason. */
  lemma MessageErrors(s: seq<byte>)
    requires MESSAGE.unpack(s).Err?
    ensures MESSAGE.unpack(s).error == if |s| < 18 then BufferTooSmall else InvalidValue
  {
    CheckedErrors(BODY, s);
    hide *;
    if |s| > 0 { RefusedBody(s[..|s| - 1]); }
  }

  lemma RefusedBody(b: seq<byte>)
    ensures BODY.unpack(b).Ok? ==> |b| >= 17
    ensures BODY.unpack(b).Err? ==> BODY.unpack(b).error == if |b| < 17 then BufferTooSmall else InvalidValue
  {
    NestedAccepts(17, HEADER_WITH_SOURCE, RAW, b);
    if BODY.unpack(b).Err? { BodyErrors(b); }
  }

  lemma HeaderErrors(s: seq<byte>)
    requires |s| == 8 && UnpackHeader(s).Err?
    ensures UnpackHeader(s).error == InvalidValue
  {
    hide DestinationOf, TypeOf, TimeOf;
  }

  lemma SourceErrors(s: seq<byte>)
    requires |s| == 9 && UnpackSource(s).Err?
    ensures UnpackSource(s).error == InvalidValue
  {
    HeaderErrors(s[..8]);
    hide UnpackHeader;
  }

  lemma BodyErrors(b: seq<byte>)
    requires BODY.unpack(b).Err?
    ensures BODY.unpack(b).error == if |b| < 17 then BufferTooSmall else InvalidValue
  {
    hide UnpackHeader, UnpackSource;
    if |b| >= 17 {
      var h := b[..17];
      if UnpackHeader(h[..8]).Err? {
        HeaderErrors(h[..8]);
      } else if UnpackSource(h[8..]).Err? {
        SourceErrors(h[8..]);
      }
      assert HEADER_WITH_SOURCE.unpack(h).Err?;
    }
  }
}
