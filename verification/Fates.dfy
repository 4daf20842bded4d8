/**
 * What becomes of each request, read off the history alone: no table, only the first later event that concerns the
 * request. The commander's table agrees with this at every moment of every run.
 */
module Fates {
  import opened Bytes
  import opened Messages
  import opened CommanderTable

  datatype Fate =
    | Pending(open: bool)
    | Answered(response: Response)
    | TooLate
    | Superseded
    | GarbageCollected

  /** One event later, for request number `k` with id `id`. Only a pending request has anything left to happen to it. */
  function Onward(f: Fate, id: UniqueId, k: nat, a: Action): (f': Fate) {
    if !f.Pending? then f
    else
      match a
      case Requested(m) => if RequestId(m) == id then Superseded else f
      case ReceiverClosed(j) => if j == k then Pending(false) else f
      case CollectionDue => if f.open then f else GarbageCollected
      case _ =>
        match Answer(a)
        case None => f
        case Some((u, response)) =>
          if u != id then f else if f.open then Answered(response) else TooLate
  }

  /** The number of requests among the first events. */
  function Requests(run: seq<Action>): (n: nat)
    ensures n <= |run|
  {
    if run == [] then 0 else Requests(run[..|run| - 1]) + if run[|run| - 1].Requested? then 1 else 0
  }

  /** The fate, at the end of `run`, of the request made at position `i`. */
  function FateOf(run: seq<Action>, i: nat): (f: Fate)
    requires i < |run| && run[i].Requested?
    decreases |run|
  {
    var n := |run| - 1;
    if i == n then Pending(true)
    else Onward(FateOf(run[..n], i), RequestId(run[i].message), Requests(run[..i]), run[n])
  }

  function SlotFor(f: Fate): (s: Slot) {
    match f
    case Pending(_) => Waiting
    case Answered(r) => Delivered(r)
    case TooLate => Unheard
    case Superseded => Dropped
    case GarbageCollected => Dropped
  }

  /** Channel `k` is in the state that fate `f` says, and the table holds its sender exactly while it is pending. */
  ghost predicate Tracks(st: State, k: nat, id: UniqueId, f: Fate) {
    && k < |st.channels|
    && st.channels[k].id == id
    && st.channels[k].slot == SlotFor(f)
    && (f.Pending? ==> st.channels[k].open == f.open)
    && (f.Pending? <==> id in st.requests && st.requests[id] == k)
  }

  lemma TracksNext(st: State, k: nat, id: UniqueId, f: Fate, a: Action)
    requires Valid(st) && Tracks(st, k, id, f)
    ensures Tracks(Next(st, a), k, id, Onward(f, id, k, a))
  {
    hide Answer;
    match a {
      case Requested(m) => TracksLater(st, k, id, f, m);
      case _ =>
    }
  }

  lemma TracksLater(st: State, k: nat, id: UniqueId, f: Fate, m: Message)
    requires Valid(st) && Tracks(st, k, id, f)
    ensures Tracks(Next(st, Requested(m)), k, id, Onward(f, id, k, Requested(m)))
  {
    hide Answer;
  }

  lemma TracksNew(st: State, m: Message)
    requires Valid(st)
    ensures Tracks(Next(st, Requested(m)), |st.channels|, RequestId(m), Pending(true))
  {
  }

  lemma {:induction false} ChannelsCountRequests(run: seq<Action>)
    ensures |Exec(run).channels| == Requests(run) == |Exec(run).issued|
  {
    if run != [] {
      ChannelsCountRequests(run[..|run| - 1]);
    }
  }

  /** Every request is tracked through every run. */
  lemma {:induction false} TableTracksFates(run: seq<Action>, i: nat)
    requires i < |run| && run[i].Requested?
    ensures Tracks(Exec(run), Requests(run[..i]), RequestId(run[i].message), FateOf(run, i))
    decreases |run|
  {
    var n := |run| - 1;
    var before := run[..n];
    if i == n {
      ChannelsCountRequests(before);
      TracksNew(Exec(before), run[n].message);
    } else {
      TableTracksFates(before, i);
      assert before[..i] == run[..i] && before[i] == run[i];
      TracksNext(Exec(before), Requests(run[..i]), RequestId(run[i].message), FateOf(before, i), run[n]);
    }
  }

  /** Each sender in the table belongs to a pending request. */
  lemma {:induction false} TableHoldsPending(run: seq<Action>, id: UniqueId)
    requires id in Exec(run).requests
    ensures exists i :: 0 <= i < |run| && run[i].Requested? && RequestId(run[i].message) == id
                        && FateOf(run, i).Pending? && Requests(run[..i]) == Exec(run).requests[id]
  {
    var k := Exec(run).requests[id];
    ChannelsCountRequests(run);
    var i := RequestAt(run, k);
    TableTracksFates(run, i);
  }

  lemma {:induction false} RequestAt(run: seq<Action>, k: nat) returns (i: nat)
    requires k < Requests(run)
    ensures i < |run| && run[i].Requested? && Requests(run[..i]) == k
  {
    var n := |run| - 1;
    if k < Requests(run[..n]) {
      i := RequestAt(run[..n], k);
      assert run[..n][..i] == run[..i];
    } else {
      i := n;
    }
  }

  /** A settled request stays settled: it is answered at most once. */
  lemma {:induction false} SettledForGood(run: seq<Action>, more: seq<Action>, i: nat)
    requires i < |run| && run[i].Requested? && !FateOf(run, i).Pending?
    ensures FateOf(run + more, i) == FateOf(run, i)
    decreases |more|
  {
    var all := run + more;
    if more == [] {
      assert all == run;
    } else {
      var n := |all| - 1;
      SettledForGood(run, more[..|more| - 1], i);
      assert all[..n] == run + more[..|more| - 1];
    }
  }

  /** Whether an event answers requests with that id. */
  predicate IsAnswerTo(a: Action, id: UniqueId) {
    Answer(a).Some? && Answer(a).value.0 == id
  }

  /** What must have happened, after the request at `i`, for it to have fate `f`. */
  ghost predicate Caused(run: seq<Action>, i: nat, f: Fate)
    requires i < |run| && run[i].Requested?
  {
    var id, k := RequestId(run[i].message), Requests(run[..i]);
    match f
    case Pending(open) => open || exists j :: i < j < |run| && run[j] == ReceiverClosed(k)
    case Answered(r) => exists j :: i < j < |run| && Answer(run[j]) == Some((id, r))
    case TooLate =>
      exists j, n :: i < j < n < |run| && run[j] == ReceiverClosed(k) && IsAnswerTo(run[n], id)
    case Superseded => exists j :: i < j < |run| && run[j].Requested? && RequestId(run[j].message) == id
    case GarbageCollected => exists j, n :: i < j < n < |run| && run[j] == ReceiverClosed(k) && run[n] == CollectionDue
  }

  /**
   * Answers carry the request's own id; only a later request with that id supersedes; an answer is too late, and a
   * waiter is collected, only after its receiver has closed.
   */
  lemma {:induction false} FateHasCause(run: seq<Action>, i: nat)
    requires i < |run| && run[i].Requested?
    ensures Caused(run, i, FateOf(run, i))
    decreases |run|
  {
    var n := |run| - 1;
    if i < n {
      var before := run[..n];
      FateHasCause(before, i);
      assert before[..i] == run[..i];
      assert forall j :: i < j < n ==> before[j] == run[j];
    }
  }

  /** The id a response answers. */
  function SourceId(r: Response): (id: Option<UniqueId>) {
    var source := match r case FromStation(m) => m.header.payload case FromAnt(p) => p.header.payload;
    match source
    case Empty => None
    case Info(h, _) => Some(IdOf(h))
  }

  function IsInvalid(r: Response): (b: bool) {
    match r
    case FromStation(m) => m.header.header.ty.invalid
    case FromAnt(p) => p.header.header.ty.invalid
  }

  datatype SendError = MailboxTimeout | RequestDropped | InvalidAckChecksum

  /** What `send` returns when it stops waiting on a request with fate `f`. */
  function SendResult(f: Fate): (r: Result<Response, SendError>) {
    match f
    case Answered(response) => if IsInvalid(response) then Err(InvalidAckChecksum) else Ok(response)
    case Superseded => Err(RequestDropped)
    case _ => Err(MailboxTimeout)
  }

  /** A caller is only ever given a valid response to its own request. */
  lemma CorrectCorrelation(run: seq<Action>, i: nat)
    requires i < |run| && run[i].Requested?
    ensures SendResult(FateOf(run, i)).Ok? <==> FateOf(run, i).Answered? && !IsInvalid(FateOf(run, i).response)
    ensures FateOf(run, i).Answered? ==> SourceId(FateOf(run, i).response) == Some(RequestId(run[i].message))
  {
    FateHasCause(run, i);
  }

  /**
   * What the caller gets, bit by bit: a response exactly as it came if its invalid bit is clear, an error if it is set,
   * an error if a request with the same id took its place, and nothing but a time-out otherwise.
   */
  lemma SendOutcome(run: seq<Action>, i: nat)
    requires i < |run| && run[i].Requested?
    ensures match FateOf(run, i)
            case Answered(FromStation(m)) =>
              SendResult(FateOf(run, i)) ==
              if m.header.header.ty.invalid then Err(InvalidAckChecksum) else Ok(FromStation(m))
            case Answered(FromAnt(p)) =>
              SendResult(FateOf(run, i)) ==
              if p.header.header.ty.invalid then Err(InvalidAckChecksum) else Ok(FromAnt(p))
            case Superseded => SendResult(FateOf(run, i)) == Err(RequestDropped)
            case _ => SendResult(FateOf(run, i)) == Err(MailboxTimeout)
    ensures SendResult(FateOf(run, i)).Ok? ==>
              SourceId(SendResult(FateOf(run, i)).value) == Some(RequestId(run[i].message))
  {
    CorrectCorrelation(run, i);
  }

  /** What waits, and what an answer to it does, whoever made the answer. */
  lemma AnswerIsDelivered(st: State, a: Action, id: UniqueId)
    requires Valid(st) && id in st.requests
    requires match a
             case AckReceived(m) =>
               && !(m.header.header.ty.event == CSRelay && m.header.header.ty.disposition == Ack)
               && m.header.payload.Info? && IdOf(m.header.payload.header) == id
             case AntReceived(p) => p.header.payload.Info? && IdOf(p.header.payload.header) == id
             case _ => false
    ensures var st', k := Next(st, a), st.requests[id];
      && id !in st'.requests && (forall u :: u != id && u in st.requests ==> u in st'.requests)
      && |st'.channels| == |st.channels|
      && st'.channels[k].slot ==
         (if !st.channels[k].open then Unheard
          else match a case AckReceived(m) => Delivered(FromStation(m)) case AntReceived(p) => Delivered(FromAnt(p)))
      && forall n :: 0 <= n < |st.channels| && n != k ==> st'.channels[n] == st.channels[n]
  {
  }

  /** Acks of relays, answers without a source, and answers nobody waits for leave everything as it was. */
  lemma OthersAreIgnored(st: State, a: Action)
    requires Valid(st)
    requires match a
             case AckReceived(m) =>
               || (m.header.header.ty.event == CSRelay && m.header.header.ty.disposition == Ack)
               || m.header.payload == Empty
               || IdOf(m.header.payload.header) !in st.requests
             case AntReceived(p) => p.header.payload == Empty || IdOf(p.header.payload.header) !in st.requests
             case _ => false
    ensures Next(st, a) == st
  {
  }

  /** A new request waits under its own id, on an open channel of its own; one that waited under that id is dropped. */
  lemma RequestWaits(st: State, m: Message)
    requires Valid(st)
    ensures var st', id, n := Next(st, Requested(m)), RequestId(m), |st.channels|;
      && st'.requests == st.requests[id := n]
      && |st'.channels| == n + 1 && st'.channels[n] == Channel(id, true, Waiting)
      && forall k :: 0 <= k < n ==>
           st'.channels[k] ==
           if id in st.requests && st.requests[id] == k then st.channels[k].(slot := Dropped) else st.channels[k]
  {
  }

  /** A collection takes exactly the closed requests out of the table and drops their senders. */
  lemma CollectionIsExact(st: State)
    requires Valid(st)
    ensures var st' := Next(st, CollectionDue);
      && (forall u :: u in st'.requests <==> u in st.requests && st.channels[st.requests[u]].open)
      && (forall u :: u in st'.requests ==> st'.requests[u] == st.requests[u])
      && |st'.channels| == |st.channels|
      && (forall u :: u in st.requests && !st.channels[st.requests[u]].open ==>
            st'.channels[st.requests[u]].slot == Dropped)
      && (forall k :: 0 <= k < |st.channels| && st.channels[k].open ==> st'.channels[k] == st.channels[k])
  {
  }

  /** A receiver that goes away closes its own channel; a collection after that frees the id it waited under. */
  lemma ClosedIsCollected(st: State, k: nat)
    requires Valid(st) && k < |st.channels|
    ensures var st', id := Next(st, ReceiverClosed(k)), st.channels[k].id;
      && st'.requests == st.requests && st'.channels == st.channels[k := st.channels[k].(open := false)]
      && (id in st.requests && st.requests[id] == k ==> id !in Next(st', CollectionDue).requests)
  {
  }

  /** With pairwise distinct ids no request is ever superseded. */
  lemma DistinctNeverSuperseded(run: seq<Action>, i: nat)
    requires i < |run| && run[i].Requested?
    requires forall p, q :: 0 <= p < q < |run| && run[p].Requested? && run[q].Requested? ==>
                              RequestId(run[p].message) != RequestId(run[q].message)
    ensures FateOf(run, i) != Superseded
  {
    FateHasCause(run, i);
  }
}
