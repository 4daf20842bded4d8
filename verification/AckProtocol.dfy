/**
 * Requests, the two directions of the line as queues of packets, the auto-acking peer and the commander, stepping in
 * any order.
 */
module AckProtocol {
  import opened Bytes
  import opened Messages
  import opened CommanderTable
  import opened Fates
  import opened SerialHandlers

  /**
   * `outbox`: messages issued and not yet packed; `uplink`, `downlink`: packets on the line; `inbox`: decoded messages
   * waiting for the commander.
   */
  datatype Sys = Sys(
    cmd: State, outbox: seq<Message>, uplink: seq<seq<byte>>, downlink: seq<seq<byte>>, inbox: seq<Action>)

  const START := Sys(INITIAL, [], [], [], [])

  datatype Step =
    | Issue(message: Message)
    | Pack
    | PeerAcks
    | Unpack
    | Handle
    | GiveUp(channel: nat)
    | Tick

  ghost predicate Sound(sys: Sys) {
    Valid(sys.cmd)
  }

  /** One step; a step with nothing to work on changes nothing. */
  function Take(sys: Sys, step: Step): (sys': Sys)
    requires Sound(sys)
    ensures Sound(sys')
  {
    match step
    case Issue(m) => sys.(cmd := Next(sys.cmd, Requested(m)), outbox := sys.outbox + [m])
    case Pack =>
      if sys.outbox == [] then sys
      else sys.(outbox := sys.outbox[1..], uplink := sys.uplink + [Packed(sys.outbox[0])])
    case PeerAcks =>
      if sys.uplink == [] then sys
      else sys.(uplink := sys.uplink[1..], downlink := sys.downlink + Acks([sys.uplink[0]]))
    case Unpack =>
      if sys.downlink == [] then sys
      else sys.(downlink := sys.downlink[1..], inbox := sys.inbox + Received(sys.downlink[0]))
    case Handle =>
      if sys.inbox == [] then sys
      else sys.(cmd := Next(sys.cmd, sys.inbox[0]), inbox := sys.inbox[1..])
    case GiveUp(k) => sys.(cmd := Next(sys.cmd, ReceiverClosed(k)))
    case Tick => sys.(cmd := Next(sys.cmd, CollectionDue))
  }

  function Reached(steps: seq<Step>): (sys: Sys)
    ensures Sound(sys)
    decreases |steps|
  {
    if steps == [] then START else Take(Reached(steps[..|steps| - 1]), steps[|steps| - 1])
  }

  ghost predicate DistinctIds(ms: seq<Message>) {
    forall i, j :: 0 <= i < j < |ms| ==> RequestId(ms[i]) != RequestId(ms[j])
  }

  predicate IsRelayRequest(m: Message) {
    m.header.header.ty.event == CSRelay
  }

  /** How many requests' acks the commander has handled. */
  function Handled(sys: Sys): (n: int) {
    |sys.cmd.issued| - |sys.outbox| - |sys.uplink| - |sys.downlink| - |sys.inbox|
  }

  /** The queues hold, in order, everything issued whose ack has not been handled. */
  ghost predicate InTransit(ms: seq<Message>, outbox: seq<Message>, uplink: seq<seq<byte>>, downlink: seq<seq<byte>>,
                            inbox: seq<Action>)
  {
    var o := |ms| - |outbox|;
    var u := o - |uplink|;
    var d := u - |downlink|;
    var h := d - |inbox|;
    && h >= 0
    && (forall i :: h <= i < d ==> inbox[i - h] == AckReceived(AckFor(ms[i])))
    && (forall i :: d <= i < u ==> downlink[i - d] == PackedAck(ms[i]))
    && (forall i :: u <= i < o ==> uplink[i - u] == Packed(ms[i]))
    && outbox == ms[o..]
  }

  /** Where the `k`-th request stands once `h` acks are handled: a listener is answered exactly when its ack was. */
  ghost predicate Standing(st: State, h: int, k: nat)
    requires k < |st.issued| == |st.channels|
  {
    var m, c := st.issued[k], st.channels[k];
    var answered := k < h && !IsRelayRequest(m);
    && c.id == RequestId(m)
    && (c.slot == Waiting <==> c.id in st.requests && st.requests[c.id] == k)
    && (c.slot.Delivered? ==> answered && c.slot == Delivered(FromStation(AckFor(m))))
    && (answered ==> c.slot != Waiting)
    && (c.open ==> c.slot == Waiting || c.slot.Delivered?)
  }

  ghost predicate Inv(sys: Sys) {
    && |sys.cmd.issued| == |sys.cmd.channels|
    && InTransit(sys.cmd.issued, sys.outbox, sys.uplink, sys.downlink, sys.inbox)
    && AllStanding(sys.cmd, Handled(sys))
  }

  ghost predicate AllStanding(st: State, h: int)
    requires |st.issued| == |st.channels|
  {
    forall k :: 0 <= k < |st.issued| ==> Standing(st, h, k)
  }

  /** Only a new request adds a message or a channel. */
  lemma NextKeeps(st: State, a: Action)
    requires Valid(st)
    ensures !a.Requested? ==> Next(st, a).issued == st.issued && |Next(st, a).channels| == |st.channels|
    ensures a.Requested? ==> Next(st, a).issued == st.issued + [a.message]
    ensures a.Requested? ==> |Next(st, a).channels| == |st.channels| + 1
  {
  }

  /** A request with a fresh id concerns no earlier one. */
  lemma IssueStanding(st: State, h: int, m: Message)
    requires Valid(st) && |st.issued| == |st.channels| && h <= |st.issued|
    requires AllStanding(st, h) && DistinctIds(st.issued + [m])
    ensures |Next(st, Requested(m)).issued| == |Next(st, Requested(m)).channels|
    ensures AllStanding(Next(st, Requested(m)), h)
  {
    hide AckFor;
    var st', n := Next(st, Requested(m)), |st.issued|;
    forall k | 0 <= k <= n
      ensures Standing(st', h, k)
    {
      if k < n {
        assert Standing(st, h, k);
        assert RequestId(st'.issued[k]) != RequestId(st'.issued[n]);
      }
    }
  }

  /** Answering request `h` concerns no other request. */
  lemma HandleStanding(st: State, h: nat)
    requires Valid(st) && h < |st.issued| == |st.channels|
    requires AllStanding(st, h) && DistinctIds(st.issued)
    ensures var st' := Next(st, AckReceived(AckFor(st.issued[h])));
            |st'.issued| == |st'.channels| == |st.issued| && AllStanding(st', h + 1)
  {
    hide AckFor, Next, Standing;
    var m, next := st.issued[h], h + 1;
    var st' := Next(st, AckReceived(AckFor(m)));
    NextKeeps(st, AckReceived(AckFor(m)));
    assert Standing(st, h, h);
    forall k | 0 <= k < |st.issued|
      ensures Standing(st', next, k)
    {
      assert Standing(st, h, k);
      if k < h {
        assert RequestId(st.issued[k]) != RequestId(m);
        OthersStand(st, h, k);
      } else if k > h {
        assert RequestId(m) != RequestId(st.issued[k]);
        OthersStand(st, h, k);
      } else {
        AnsweredStands(st, h);
      }
    }
  }

  lemma AnsweredStands(st: State, h: nat)
    requires Valid(st) && h < |st.issued| == |st.channels| && Standing(st, h, h)
    ensures var st' := Next(st, AckReceived(AckFor(st.issued[h])));
            |st'.issued| == |st'.channels| == |st.issued| && Standing(st', h + 1, h)
  {
    AckAnswers(st.issued[h]);
    NextKeeps(st, AckReceived(AckFor(st.issued[h])));
    hide AckFor, Answer;
  }

  lemma OthersStand(st: State, h: nat, k: nat)
    requires Valid(st) && h < |st.issued| == |st.channels| && k < |st.issued| && k != h
    requires Standing(st, h, k) && Standing(st, h, h) && RequestId(st.issued[k]) != RequestId(st.issued[h])
    ensures var st' := Next(st, AckReceived(AckFor(st.issued[h])));
            |st'.issued| == |st'.channels| == |st.issued| && Standing(st', h + 1, k)
  {
    AckAnswers(st.issued[h]);
    NextKeeps(st, AckReceived(AckFor(st.issued[h])));
    hide AckFor, Answer;
  }

  /** Closing a receiver, or collecting what is closed, answers nobody and drops no listener. */
  lemma EnvironmentStanding(st: State, h: int, a: Action)
    requires Valid(st) && |st.issued| == |st.channels| && AllStanding(st, h)
    requires a.ReceiverClosed? || a.CollectionDue?
    ensures |Next(st, a).issued| == |Next(st, a).channels| == |st.issued|
    ensures AllStanding(Next(st, a), h)
  {
    hide AckFor;
    var st' := Next(st, a);
    forall k | 0 <= k < |st.issued|
      ensures Standing(st', h, k)
    {
      assert Standing(st, h, k);
    }
  }

  lemma TransitIssue(ms: seq<Message>, outbox: seq<Message>, uplink: seq<seq<byte>>, downlink: seq<seq<byte>>,
                     inbox: seq<Action>, m: Message)
    requires InTransit(ms, outbox, uplink, downlink, inbox)
    ensures InTransit(ms + [m], outbox + [m], uplink, downlink, inbox)
  {
    hide Packed, PackedAck, AckFor;
  }

  lemma TransitPack(ms: seq<Message>, outbox: seq<Message>, uplink: seq<seq<byte>>, downlink: seq<seq<byte>>,
                    inbox: seq<Action>)
    requires InTransit(ms, outbox, uplink, downlink, inbox) && outbox != []
    ensures InTransit(ms, outbox[1..], uplink + [Packed(outbox[0])], downlink, inbox)
  {
    hide Packed, PackedAck, AckFor;
  }

  lemma TransitPeer(ms: seq<Message>, outbox: seq<Message>, uplink: seq<seq<byte>>, downlink: seq<seq<byte>>,
                    inbox: seq<Action>)
    requires InTransit(ms, outbox, uplink, downlink, inbox) && uplink != []
    ensures InTransit(ms, outbox, uplink[1..], downlink + Acks([uplink[0]]), inbox)
    ensures |Acks([uplink[0]])| == 1
  {
    hide Packed, PackedAck, AckFor, Acks;
    var u := |ms| - |outbox| - |uplink|;
    assert uplink[0] == Packed(ms[u]);
    PeerAnswers(ms[u]);
  }

  lemma TransitUnpack(ms: seq<Message>, outbox: seq<Message>, uplink: seq<seq<byte>>, downlink: seq<seq<byte>>,
                      inbox: seq<Action>)
    requires InTransit(ms, outbox, uplink, downlink, inbox) && downlink != []
    ensures InTransit(ms, outbox, uplink, downlink[1..], inbox + Received(downlink[0]))
    ensures |Received(downlink[0])| == 1
  {
    hide Packed, PackedAck, AckFor, Received;
    var d := |ms| - |outbox| - |uplink| - |downlink|;
    assert downlink[0] == PackedAck(ms[d]);
    AckArrives(ms[d]);
  }

  lemma TransitHandle(ms: seq<Message>, outbox: seq<Message>, uplink: seq<seq<byte>>, downlink: seq<seq<byte>>,
                      inbox: seq<Action>)
    requires InTransit(ms, outbox, uplink, downlink, inbox) && inbox != []
    ensures var h := |ms| - |outbox| - |uplink| - |downlink| - |inbox|; h >= 0 && inbox[0] == AckReceived(AckFor(ms[h]))
    ensures InTransit(ms, outbox, uplink, downlink, inbox[1..])
  {
    hide Packed, PackedAck, AckFor;
  }

  lemma InvIssue(sys: Sys, m: Message)
    requires Sound(sys) && Inv(sys) && DistinctIds(sys.cmd.issued + [m])
    ensures Inv(Take(sys, Issue(m)))
  {
    hide Next, AllStanding, InTransit, DistinctIds;
    NextKeeps(sys.cmd, Requested(m));
    HandledBound(sys);
    TransitIssue(sys.cmd.issued, sys.outbox, sys.uplink, sys.downlink, sys.inbox, m);
    IssueStanding(sys.cmd, Handled(sys), m);
  }

  lemma HandledBound(sys: Sys)
    requires Inv(sys)
    ensures 0 <= Handled(sys) <= |sys.cmd.issued|
  {
  }

  /** Moving packets along changes nothing for any request. */
  lemma InvMove(sys: Sys, step: Step)
    requires Sound(sys) && Inv(sys) && (step.Pack? || step.PeerAcks? || step.Unpack?)
    ensures Inv(Take(sys, step))
  {
    hide AllStanding, InTransit, Received, Acks, Packed;
    if Take(sys, step) != sys {
      match step {
        case Pack => TransitPack(sys.cmd.issued, sys.outbox, sys.uplink, sys.downlink, sys.inbox);
        case PeerAcks => TransitPeer(sys.cmd.issued, sys.outbox, sys.uplink, sys.downlink, sys.inbox);
        case Unpack => TransitUnpack(sys.cmd.issued, sys.outbox, sys.uplink, sys.downlink, sys.inbox);
      }
    }
  }

  lemma InvHandle(sys: Sys)
    requires Sound(sys) && Inv(sys) && DistinctIds(sys.cmd.issued)
    ensures Inv(Take(sys, Handle))
  {
    hide Next, AllStanding, InTransit, DistinctIds, AckFor;
    if sys.inbox != [] {
      TransitHandle(sys.cmd.issued, sys.outbox, sys.uplink, sys.downlink, sys.inbox);
      HandleStanding(sys.cmd, Handled(sys));
      NextKeeps(sys.cmd, sys.inbox[0]);
    }
  }

  lemma InvEnvironment(sys: Sys, step: Step)
    requires Sound(sys) && Inv(sys) && (step.GiveUp? || step.Tick?)
    ensures Inv(Take(sys, step))
  {
    hide Next, AllStanding, InTransit;
    var a := if step.GiveUp? then ReceiverClosed(step.channel) else CollectionDue;
    NextKeeps(sys.cmd, a);
    EnvironmentStanding(sys.cmd, Handled(sys), a);
  }

  lemma IssuedOnlyGrows(sys: Sys, step: Step)
    requires Sound(sys)
    ensures sys.cmd.issued <= Take(sys, step).cmd.issued
    ensures DistinctIds(Take(sys, step).cmd.issued) ==> DistinctIds(sys.cmd.issued)
  {
  }

  /** The invariant holds in every state any sequence of steps can reach. */
  lemma {:induction false} InvReached(steps: seq<Step>)
    requires DistinctIds(Reached(steps).cmd.issued)
    ensures Inv(Reached(steps))
    decreases |steps|
  {
    if steps != [] {
      var n := |steps| - 1;
      var sys := Reached(steps[..n]);
      IssuedOnlyGrows(sys, steps[n]);
      InvReached(steps[..n]);
      match steps[n]
      case Issue(m) => InvIssue(sys, m);
      case Pack => InvMove(sys, Pack);
      case PeerAcks => InvMove(sys, PeerAcks);
      case Unpack => InvMove(sys, Unpack);
      case Handle => InvHandle(sys);
      case GiveUp(_) => InvEnvironment(sys, steps[n]);
      case Tick => InvEnvironment(sys, steps[n]);
    }
  }

  /** Nothing is on its way any more. */
  predicate Drained(sys: Sys) {
    sys.outbox == [] && sys.uplink == [] && sys.downlink == [] && sys.inbox == []
  }

  /**
   * Once everything is drained, each request somebody still listens for has been answered with its own ack, unless it
   * is a relay request, whose ack the commander drops; such a request still waits.
   */
  lemma DrainedMeansAnswered(steps: seq<Step>, k: nat)
    requires DistinctIds(Reached(steps).cmd.issued) && Drained(Reached(steps))
    requires k < |Reached(steps).cmd.issued|
    ensures var sys := Reached(steps);
            var m := sys.cmd.issued[k];
            && k < |sys.cmd.channels|
            && (sys.cmd.channels[k].open ==>
                  sys.cmd.channels[k].slot == if IsRelayRequest(m) then Waiting else Delivered(FromStation(AckFor(m))))
  {
    InvReached(steps);
    assert Standing(Reached(steps).cmd, Handled(Reached(steps)), k);
  }

  /** And the caller gets that ack, with its own header as source, exactly when its own invalid bit was clear. */
  lemma AnswerIsOwnAck(m: Message)
    ensures var f := Answered(FromStation(AckFor(m)));
            && SourceId(f.response) == Some(RequestId(m))
            && AckFor(m).header.payload.header == m.header.header
            && (SendResult(f) == Ok(f.response) <==> !m.header.header.ty.invalid)
  {
  }

  /** At any time, drained or not, no listener is ever given anything but the ack of its own request. */
  lemma OnlyOwnAcks(steps: seq<Step>, k: nat)
    requires DistinctIds(Reached(steps).cmd.issued) && k < |Reached(steps).cmd.channels|
    ensures var sys := Reached(steps);
            && k < |sys.cmd.issued|
            && (sys.cmd.channels[k].slot.Delivered? ==>
                  && sys.cmd.channels[k].slot == Delivered(FromStation(AckFor(sys.cmd.issued[k])))
                  && !IsRelayRequest(sys.cmd.issued[k]))
  {
    InvReached(steps);
    assert Standing(Reached(steps).cmd, Handled(Reached(steps)), k);
  }

  /** One request, all the way to the peer and back. */
  const THERE_AND_BACK: seq<Step> := [Pack, PeerAcks, Unpack, Handle]

  lemma OneRequest(m: Message)
    ensures var sys := Reached([Issue(m)] + THERE_AND_BACK);
      && Drained(sys) && sys.cmd.issued == [m] && |sys.cmd.channels| == 1 && sys.cmd.channels[0].open
      && sys.cmd.channels[0].slot == if IsRelayRequest(m) then Waiting else Delivered(FromStation(AckFor(m)))
  {
    hide Reached, Packed, PackedAck, AckFor, Acks, Received, Answer;
    ReachedByTaking(m);
    PeerAnswers(m);
    AckArrives(m);
    AckAnswers(m);
    assert [Packed(m)][1..] == [] && [PackedAck(m)][1..] == [] && [m][1..] == [];
  }

  lemma ReachedByTaking(m: Message)
    ensures Reached([Issue(m)] + THERE_AND_BACK)
         == Take(Take(Take(Take(Take(START, Issue(m)), Pack), PeerAcks), Unpack), Handle)
  {
    hide Take;
    var s := [Issue(m)] + THERE_AND_BACK;
    assert s[..5] == s && s[..0] == [];
    forall k | 0 <= k < 5 ensures Reached(s[..k + 1]) == Take(Reached(s[..k]), s[k]) {
      assert s[..k + 1][..k] == s[..k];
    }
    assert Reached(s[..4]) == Take(Reached(s[..3]), s[3]);
    assert Reached(s[..2]) == Take(Reached(s[..1]), s[1]);
  }

  /** A relay request whose ack has come back, with nothing left on its way: its listener still waits. */
  lemma RelayRequestWaits()
    ensures var m := CommandMessage(Params(0, 0), CentralStation, CSRelay);
      var sys := Reached([Issue(m)] + THERE_AND_BACK);
      Drained(sys) && |sys.cmd.channels| == 1 && sys.cmd.channels[0].open && sys.cmd.channels[0].slot == Waiting
  {
    hide Reached;
    OneRequest(CommandMessage(Params(0, 0), CentralStation, CSRelay));
  }
}
