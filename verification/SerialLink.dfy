/** From the messages handed to the serial actor to the messages the other end takes off the line. */
module SerialLink {
  import opened Bytes
  import opened Delimiters
  import opened Messages
  import Cobs
  import opened CobsFraming
  import opened CrcCaches

  function Packets(ms: seq<Message>): (r: seq<seq<byte>>)
    ensures |r| == |ms| && forall i :: 0 <= i < |ms| ==> r[i] == MESSAGE.pack(ms[i])
  {
    seq(|ms|, i requires 0 <= i < |ms| => MESSAGE.pack(ms[i]))
  }

  /** The messages among what the line reports; frames that fail to decode or to parse are logged and dropped. */
  function Accepted(reports: seq<Result<seq<byte>, CobsFraming.Error>>): (ms: seq<Message>) {
    if reports == [] then []
    else
      var rest := Accepted(reports[1..]);
      match reports[0]
      case Err(_) => rest
      case Ok(packet) =>
        match MESSAGE.unpack(packet)
        case Err(_) => rest
        case Ok(m) => [m] + rest
  }

  lemma {:induction false} AcceptedAppend(a: seq<Result<seq<byte>, CobsFraming.Error>>,
                                          b: seq<Result<seq<byte>, CobsFraming.Error>>)
    ensures Accepted(a + b) == Accepted(a) + Accepted(b)
  {
    if a == [] {
      assert a + b == b;
    } else {
      assert (a + b)[1..] == a[1..] + b;
      AcceptedAppend(a[1..], b);
    }
  }

  /** The sending end: each message is packed and queued, the queue is drained in order into frames. */
  method Uplink(ms: seq<Message>) returns (wire: seq<byte>)
    ensures wire == Join(Bodies(Packets(ms)), ZERO)
  {
    var queue: seq<seq<byte>> := [];
    for i := 0 to |ms|
      invariant queue == Packets(ms[..i])
    {
      var packer := new WithCrc<Message>(BODY, ms[i]);
      var packed := packer.PackToVec();
      queue := queue + [packed];
      assert ms[..i + 1] == ms[..i] + [ms[i]];
    }
    assert ms[..|ms|] == ms;
    wire := EncodeStream(queue);
  }

  lemma NoneAccepted()
    ensures Accepted([]) == []
  {
  }

  lemma AcceptedLast(report: Result<seq<byte>, CobsFraming.Error>)
    ensures Accepted([report]) ==
            if report.Ok? && MESSAGE.unpack(report.value).Ok? then [MESSAGE.unpack(report.value).value] else []
  {
    assert [report][1..] == [];
  }

  /** The receiving end: deframe, unpack, pass on what is valid. */
  method Downlink(chunks: seq<seq<byte>>) returns (received: seq<Message>)
    ensures WellFormed(Flatten(chunks)) ==> received == Accepted(Reported(Flatten(chunks)))
    ensures Accepted(Reports(Good(Split(ZERO, Flatten(chunks)).parts))) <= received
  {
    hide Split, Reported, WellFormed, Flatten, Cobs.Decode, Accepted, Good, Reports;
    NoneAccepted();
    var reports := DecodeStream(chunks);
    received := [];
    for i := 0 to |reports|
      invariant received == Accepted(reports[..i])
    {
      assert reports[..i + 1] == reports[..i] + [reports[i]];
      AcceptedAppend(reports[..i], [reports[i]]);
      AcceptedLast(reports[i]);
      if reports[i].Ok? {
        var unpacked := WithCrc<Message>.UnpackFromSlice(BODY, reports[i].value);
        if unpacked.Ok? {
          received := received + [unpacked.value.val];
        }
      }
    }
    assert reports[..|reports|] == reports;
    ghost var vouched := Reports(Good(Split(ZERO, Flatten(chunks)).parts));
    AcceptedAppend(vouched, reports[|vouched|..]);
    assert vouched + reports[|vouched|..] == reports;
  }

  lemma {:induction false} AcceptedPackets(ms: seq<Message>)
    ensures Accepted(Oks(Packets(ms))) == ms
  {
    if ms != [] {
      hide Accepted;
      AcceptedPackets(ms[1..]);
      assert Oks(Packets(ms))[1..] == Oks(Packets(ms[1..]));
      AcceptedOne(ms[0], Oks(Packets(ms)));
    }
  }

  lemma AcceptedOne(m: Message, reports: seq<Result<seq<byte>, CobsFraming.Error>>)
    requires reports != [] && reports[0] == Ok(MESSAGE.pack(m))
    ensures Accepted(reports) == [m] + Accepted(reports[1..])
  {
    MessageFormat();
  }

  /** However the line cuts the bytes up, the messages that went in come out: all of them, in order, and no others. */
  lemma LinkDelivers(ms: seq<Message>, chunks: seq<seq<byte>>)
    requires Flatten(chunks) == Join(Bodies(Packets(ms)), ZERO)
    ensures WellFormed(Flatten(chunks)) && Accepted(Reported(Flatten(chunks))) == ms
  {
    StreamRoundTrip(Packets(ms), []);
    assert Flatten(chunks) + [] == Flatten(chunks);
    AcceptedPackets(ms);
  }

  /** Whatever follows the messages on the line, frames that do not decode included, they are all accepted first. */
  lemma NoiseComesAfter(ms: seq<Message>, noise: seq<byte>)
    ensures var s := Join(Bodies(Packets(ms)), ZERO) + noise;
            Accepted(Reports(Good(Split(ZERO, s).parts))) == ms + Accepted(Reports(Good(Split(ZERO, noise).parts)))
  {
    hide Split, Cobs.Decode, Good, Accepted, Reports, WellFormed, Cobs.Encode;
    var bodies, wire := Bodies(Packets(ms)), Join(Bodies(Packets(ms)), ZERO);
    CleanSplit(Packets(ms));
    SplitExtend(ZERO, wire, noise);
    assert [] + noise == noise;
    GoodAppend(bodies, Split(ZERO, noise).parts);
    ReportsAppend(bodies, Good(Split(ZERO, noise).parts));
    AcceptedAppend(Reports(bodies), Reports(Good(Split(ZERO, noise).parts)));
    AcceptedPackets(ms);
  }

  /** The two ends, and something else on the line afterwards. */
  method TransferThenNoise(ms: seq<Message>, noise: seq<byte>, cut: seq<nat>) returns (received: seq<Message>)
    ensures ms <= received
  {
    var wire := Uplink(ms);
    var chunks := Chop(wire + noise, cut);
    NoiseComesAfter(ms, noise);
    received := Downlink(chunks);
  }

  /** The two ends put together. */
  method Transfer(ms: seq<Message>, cut: seq<nat>) returns (received: seq<Message>)
    ensures received == ms
  {
    var wire := Uplink(ms);
    var chunks := Chop(wire, cut);
    LinkDelivers(ms, chunks);
    received := Downlink(chunks);
  }

  /** The line delivers `wire` in pieces of any sizes. */
  function Chop(wire: seq<byte>, cut: seq<nat>): (chunks: seq<seq<byte>>)
    ensures Flatten(chunks) == wire
    decreases |cut|
  {
    if cut == [] || cut[0] > |wire| then
      FlattenOne(wire);
      [wire]
    else
      [wire[..cut[0]]] + Chop(wire[cut[0]..], cut[1..])
  }
}
