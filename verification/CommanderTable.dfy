/** Matching acks to outstanding requests through a table of one-shot senders. */
module CommanderTable {
  import opened Bytes
  import opened Messages

  datatype Reply<+M, +A> = FromStation(message: M) | FromAnt(packet: A)

  type Response = Reply<Message, AntPacket>

  /** What can happen to the commander: a message in its mailbox, a tick of its timer, or a receiver going away. */
  datatype Action =
    | Requested(message: Message)
    | AckReceived(message: Message)
    | AntReceived(packet: AntPacket)
    | ReceiverClosed(channel: nat)
    | CollectionDue

  /** The sender's end of a one-shot channel: not used yet, used, used too late, or dropped unused. */
  datatype Slot = Waiting | Delivered(response: Response) | Unheard | Dropped

  datatype Channel = Channel(id: UniqueId, open: bool, slot: Slot)

  datatype State = State(requests: map<UniqueId, nat>, channels: seq<Channel>, issued: seq<Message>)

  const INITIAL := State(map[], [], [])

  function RequestId(m: Message): (id: UniqueId) {
    IdOf(m.header.header)
  }

  /** A relayed ack: left to the ant packet inside it. */
  predicate IsRelayAck(m: Message) {
    m.header.header.ty.event == CSRelay && m.header.header.ty.disposition == Ack
  }

  /** The request an action answers, and the answer. */
  function Answer(a: Action): (r: Option<(UniqueId, Response)>) {
    match a
    case AckReceived(m) =>
      if IsRelayAck(m) || m.header.payload.Empty? then None
      else Some((IdOf(m.header.payload.header), FromStation(m)))
    case AntReceived(p) =>
      if p.header.payload.Empty? then None else Some((IdOf(p.header.payload.header), FromAnt(p)))
    case _ => None
  }

  function Without(m: map<UniqueId, nat>, id: UniqueId): (r: map<UniqueId, nat>)
    ensures id !in r && forall u :: u in r <==> u in m && u != id
    ensures forall u :: u in r ==> r[u] == m[u]
  {
    m - {id}
  }

  /** Every sender in the table belongs to a channel opened for that id. */
  ghost predicate Valid(st: State) {
    forall u :: u in st.requests ==> st.requests[u] < |st.channels| && st.channels[st.requests[u]].id == u
  }

  function WithSlot(channels: seq<Channel>, k: nat, slot: Slot): (r: seq<Channel>)
    requires k < |channels|
    ensures |r| == |channels|
  {
    channels[k := channels[k].(slot := slot)]
  }

  function Next(st: State, a: Action): (st': State)
    requires Valid(st)
    ensures Valid(st')
  {
    match a
    case Requested(m) =>
      var id := RequestId(m);
      var channels := if id in st.requests then WithSlot(st.channels, st.requests[id], Dropped) else st.channels;
      State(st.requests[id := |channels|], channels + [Channel(id, true, Waiting)], st.issued + [m])
    case ReceiverClosed(k) =>
      if k < |st.channels| then st.(channels := st.channels[k := st.channels[k].(open := false)]) else st
    case CollectionDue =>
      State(map u | u in st.requests && st.channels[st.requests[u]].open :: st.requests[u],
            seq(|st.channels|, k requires 0 <= k < |st.channels| => Collected(st, k)),
            st.issued)
    case _ =>
      match Answer(a)
      case None => st
      case Some((id, response)) =>
        if id !in st.requests then st
        else
          var k := st.requests[id];
          State(Without(st.requests, id),
                WithSlot(st.channels, k, if st.channels[k].open then Delivered(response) else Unheard),
                st.issued)
  }

  /** A channel after a collection: its sender goes if it is in the table and nobody listens. */
  function Collected(st: State, k: nat): (c: Channel)
    requires k < |st.channels|
  {
    var c := st.channels[k];
    if c.id in st.requests && st.requests[c.id] == k && !c.open then c.(slot := Dropped) else c
  }

  /** A collection in progress: `keys` are still to be removed. */
  ghost predicate Partway(was: State, st: State, keys: set<UniqueId>)
    requires Valid(was)
  {
    && Valid(st) && st.issued == was.issued && |st.channels| == |was.channels|
    && (forall u :: u in keys ==> u in was.requests && !was.channels[was.requests[u]].open)
    && (forall u :: u in st.requests <==> u in was.requests && (was.channels[was.requests[u]].open || u in keys))
    && (forall u :: u in st.requests ==> st.requests[u] == was.requests[u])
    && forall k :: 0 <= k < |st.channels| ==>
         st.channels[k] == if was.channels[k].id in st.requests then was.channels[k] else Collected(was, k)
  }

  lemma PartwayBegins(was: State, keys: set<UniqueId>)
    requires Valid(was) && keys == set u | u in was.requests && !was.channels[was.requests[u]].open
    ensures Partway(was, was, keys)
  {
  }

  lemma PartwayGoesOn(was: State, st: State, keys: set<UniqueId>, id: UniqueId)
    requires Valid(was) && Partway(was, st, keys) && id in keys
    ensures id in st.requests && st.requests[id] < |st.channels|
    ensures var channels := WithSlot(st.channels, st.requests[id], Dropped);
            Partway(was, State(Without(st.requests, id), channels, st.issued), keys - {id})
  {
    assert st.requests[id] == was.requests[id];
  }

  lemma PartwayEnds(was: State, st: State)
    requires Valid(was) && Partway(was, st, {})
    ensures st == Next(was, CollectionDue)
  {
    assert st.requests == Next(was, CollectionDue).requests;
    assert st.channels == Next(was, CollectionDue).channels;
  }

  function Exec(run: seq<Action>): (st: State)
    ensures Valid(st)
    decreases |run|
  {
    if run == [] then INITIAL else Next(Exec(run[..|run| - 1]), run[|run| - 1])
  }

  class Commander {
    var requests: map<UniqueId, nat>
    var channels: seq<Channel>
    var issued: seq<Message>

    ghost function Abs(): State
      reads this
    {
      State(requests, channels, issued)
    }

    constructor ()
      ensures Abs() == INITIAL
    {
      requests, channels, issued := map[], [], [];
    }

    method HandleRequest(msg: Message) returns (rx: nat)
      requires Valid(Abs())
      modifies this
      ensures Abs() == Next(old(Abs()), Requested(msg)) && rx == |old(channels)|
    {
      rx := |channels|;
      var id := RequestId(msg);
      if id in requests {
        channels := WithSlot(channels, requests[id], Dropped);
      }
      channels := channels + [Channel(id, true, Waiting)];
      requests := requests[id := rx];
      issued := issued + [msg];
    }

    /** Takes the sender for `id` out of the table and uses it. */
    method Reply(id: UniqueId, response: Response)
      requires Valid(Abs()) && id in requests
      modifies this
      ensures Abs() == State(Without(old(requests), id),
                             WithSlot(old(channels), old(requests)[id],
                                      if old(channels)[old(requests)[id]].open then Delivered(response) else Unheard),
                             old(issued))
    {
      var tx := requests[id];
      requests := Without(requests, id);
      channels := WithSlot(channels, tx, if channels[tx].open then Delivered(response) else Unheard);
    }

    method HandleAck(msg: Message)
      requires Valid(Abs())
      modifies this
      ensures Abs() == Next(old(Abs()), AckReceived(msg))
    {
      if IsRelayAck(msg) {
        return;
      }
      match msg.header.payload {
        case Empty => return;
        case Info(header, _) =>
          if IdOf(header) in requests {
            Reply(IdOf(header), FromStation(msg));
          }
      }
    }

    method HandleAnt(pkt: AntPacket)
      requires Valid(Abs())
      modifies this
      ensures Abs() == Next(old(Abs()), AntReceived(pkt))
    {
      match pkt.header.payload {
        case Empty => return;
        case Info(header, _) =>
          if IdOf(header) in requests {
            Reply(IdOf(header), FromAnt(pkt));
          }
      }
    }

    method CloseReceiver(k: nat)
      requires Valid(Abs())
      modifies this
      ensures Abs() == Next(old(Abs()), ReceiverClosed(k))
    {
      if k < |channels| {
        channels := channels[k := channels[k].(open := false)];
      }
    }

    /** Notes the ids whose receivers are gone, then removes them one by one. */
    method CollectGarbage()
      requires Valid(Abs())
      modifies this
      ensures Abs() == Next(old(Abs()), CollectionDue)
    {
      hide Next, Partway, WithSlot;
      ghost var was := Abs();
      var keys := set u | u in requests && !channels[requests[u]].open;
      PartwayBegins(was, keys);
      while keys != {}
        invariant Partway(was, Abs(), keys)
        decreases |keys|
      {
        var id :| id in keys;
        PartwayGoesOn(was, Abs(), keys, id);
        channels := WithSlot(channels, requests[id], Dropped);
        requests := Without(requests, id);
        keys := keys - {id};
      }
      PartwayEnds(was, Abs());
    }
  }
}
