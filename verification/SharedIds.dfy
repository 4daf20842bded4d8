/**
 * Who gets which ack when ids are shared. Acks are handled in the order of the requests, and each goes to the latest
 * request with its id that still waits.
 */
module SharedIds {
  import opened Bytes
  import opened Messages
  import opened CommanderTable
  import opened SerialHandlers
  import opened AckProtocol

  /** For each request, how many acks the commander had handled when it was issued. */
  function Marks(steps: seq<Step>): (r: seq<int>) {
    if steps == [] then []
    else
      var before, last := steps[..|steps| - 1], steps[|steps| - 1];
      if last.Issue? then Marks(before) + [Handled(Reached(before))] else Marks(before)
  }

  /** The ack of `m` answers requests with that id. */
  predicate AnsweredBy(m: Message, id: UniqueId) {
    RequestId(m) == id && !IsRelayRequest(m)
  }

  /** The first request from `from` below `limit` whose ack answers that id. */
  function FirstAck(ms: seq<Message>, id: UniqueId, from: int, limit: int): (r: Option<nat>)
    requires 0 <= from && limit <= |ms|
    ensures r.Some? ==>
      && from <= r.value < limit && AnsweredBy(ms[r.value], id)
      && forall j :: from <= j < r.value ==> !AnsweredBy(ms[j], id)
    ensures r.None? ==> forall j :: from <= j < limit ==> !AnsweredBy(ms[j], id)
    decreases limit - from
  {
    if from >= limit then None
    else if AnsweredBy(ms[from], id) then Some(from)
    else FirstAck(ms, id, from + 1, limit)
  }

  /** The next request after the `k`-th with the same id. */
  function NextFrom(ms: seq<Message>, id: UniqueId, from: nat): (r: Option<nat>)
    ensures r.Some? ==>
      && from <= r.value < |ms| && RequestId(ms[r.value]) == id
      && forall j :: from <= j < r.value ==> RequestId(ms[j]) != id
    ensures r.None? ==> forall j :: from <= j < |ms| ==> RequestId(ms[j]) != id
    decreases |ms| - from
  {
    if from >= |ms| then None
    else if RequestId(ms[from]) == id then Some(from)
    else NextFrom(ms, id, from + 1)
  }

  function NextSame(ms: seq<Message>, k: nat): (r: Option<nat>)
    requires k < |ms|
  {
    NextFrom(ms, RequestId(ms[k]), k + 1)
  }

  /** Marks that fit the requests: no more acks than requests were handled by then, and no more than by now. */
  ghost predicate Fitting(ms: seq<Message>, marks: seq<int>, h: int) {
    && |marks| == |ms| && 0 <= h <= |ms|
    && forall k :: 0 <= k < |ms| ==> 0 <= marks[k] <= h && marks[k] <= k
  }

  /**
   * The request whose ack request `k` is given, out of the `h` acks handled: the first with its id since it was issued,
   * and before the next request with that id was.
   */
  function Given(ms: seq<Message>, marks: seq<int>, h: int, k: nat): (r: Option<nat>)
    requires Fitting(ms, marks, h) && k < |ms|
  {
    var next := NextSame(ms, k);
    FirstAck(ms, RequestId(ms[k]), marks[k], if next.Some? then marks[next.value] else h)
  }

  /** What the listener for request `k` finds. */
  function Due(ms: seq<Message>, marks: seq<int>, h: int, k: nat): (s: Slot)
    requires Fitting(ms, marks, h) && k < |ms|
  {
    var a := Given(ms, marks, h, k);
    if a.Some? then Delivered(FromStation(AckFor(ms[a.value])))
    else if NextSame(ms, k).Some? then Dropped
    else Waiting
  }

  /** Where request `k` stands; a listener that has gone may have missed its due. */
  ghost predicate Settled(st: State, marks: seq<int>, h: int, k: nat)
    requires Fitting(st.issued, marks, h) && k < |st.issued| == |st.channels|
  {
    var c := st.channels[k];
    && c.id == RequestId(st.issued[k])
    && (c.slot == Waiting <==> c.id in st.requests && st.requests[c.id] == k)
    && (c.open || c.slot == Waiting || c.slot.Delivered? ==> c.slot == Due(st.issued, marks, h, k))
  }

  ghost predicate AllSettled(st: State, marks: seq<int>, h: int) {
    && Valid(st) && |st.issued| == |st.channels| && Fitting(st.issued, marks, h)
    && forall k :: 0 <= k < |st.issued| ==> Settled(st, marks, h, k)
  }

  // A new request

  lemma NextAppend(ms: seq<Message>, m: Message, k: nat)
    requires k < |ms|
    ensures NextSame(ms + [m], k) ==
      if NextSame(ms, k).Some? then NextSame(ms, k)
      else if RequestId(m) == RequestId(ms[k]) then Some(|ms|)
      else None
  {
    var all := ms + [m];
    assert forall j :: 0 <= j < |ms| ==> all[j] == ms[j];
    assert all[|ms|] == m;
    var r := NextSame(all, k);
    if r.Some? && r.value < |ms| { assert RequestId(ms[r.value]) == RequestId(ms[k]); }
  }

  lemma FirstAppend(ms: seq<Message>, m: Message, id: UniqueId, from: int, limit: int)
    requires 0 <= from && limit <= |ms|
    ensures FirstAck(ms + [m], id, from, limit) == FirstAck(ms, id, from, limit)
  {
    var all := ms + [m];
    assert forall j :: 0 <= j < |ms| ==> all[j] == ms[j];
    var r := FirstAck(all, id, from, limit);
    if r.Some? { assert AnsweredBy(ms[r.value], id); }
  }

  lemma DueAfterIssue(ms: seq<Message>, marks: seq<int>, h: int, m: Message, k: nat)
    requires Fitting(ms, marks, h) && k < |ms|
    ensures Fitting(ms + [m], marks + [h], h)
    ensures Due(ms + [m], marks + [h], h, k) ==
      if RequestId(m) == RequestId(ms[k]) && Due(ms, marks, h, k) == Waiting then Dropped else Due(ms, marks, h, k)
  {
    var all, marked := ms + [m], marks + [h];
    assert all[k] == ms[k] && marked[k] == marks[k] && marked[|ms|] == h;
    NextAppend(ms, m, k);
    var next := NextSame(all, k);
    var limit := if next.Some? then marked[next.value] else h;
    hide FirstAck, NextSame, AckFor;
    FirstAppend(ms, m, RequestId(ms[k]), marks[k], limit);
    var a := FirstAck(ms, RequestId(ms[k]), marks[k], limit);
    if a.Some? { assert all[a.value] == ms[a.value]; }
  }

  lemma DueWhenNew(ms: seq<Message>, marks: seq<int>, h: int, m: Message)
    requires Fitting(ms, marks, h)
    ensures Fitting(ms + [m], marks + [h], h) && Due(ms + [m], marks + [h], h, |ms|) == Waiting
  {
  }

  lemma SettledAfterIssue(st: State, marks: seq<int>, h: int, m: Message)
    requires AllSettled(st, marks, h)
    ensures AllSettled(Next(st, Requested(m)), marks + [h], h)
  {
    hide Due, AckFor;
    var st', n := Next(st, Requested(m)), |st.issued|;
    DueWhenNew(st.issued, marks, h, m);
    forall k | 0 <= k < |st'.issued|
      ensures Settled(st', marks + [h], h, k)
    {
      if k < n {
        assert Settled(st, marks, h, k);
        DueAfterIssue(st.issued, marks, h, m, k);
      }
    }
  }

  // An ack

  lemma FirstExtend(ms: seq<Message>, id: UniqueId, from: int, h: int)
    requires 0 <= from <= h < |ms|
    ensures FirstAck(ms, id, from, h + 1) ==
      if FirstAck(ms, id, from, h).Some? then FirstAck(ms, id, from, h)
      else if AnsweredBy(ms[h], id) then Some(h)
      else None
  {
    var r := FirstAck(ms, id, from, h + 1);
    var q := FirstAck(ms, id, from, h);
    if q.Some? { assert AnsweredBy(ms[q.value], id); }
    if AnsweredBy(ms[h], id) { assert r.Some?; }
  }

  lemma DueAfterAck(ms: seq<Message>, marks: seq<int>, h: int, k: nat)
    requires Fitting(ms, marks, h) && k < |ms| && h < |ms|
    ensures Fitting(ms, marks, h + 1)
    ensures Due(ms, marks, h + 1, k) ==
      if Due(ms, marks, h, k) == Waiting && AnsweredBy(ms[h], RequestId(ms[k]))
      then Delivered(FromStation(AckFor(ms[h])))
      else Due(ms, marks, h, k)
  {
    hide FirstAck, NextSame, AckFor, AnsweredBy;
    FirstExtend(ms, RequestId(ms[k]), marks[k], h);
  }

  /** What handling an ack does to the table and to channel `k`. */
  lemma AckHandled(st: State, m: Message, k: nat)
    requires Valid(st) && k < |st.channels|
    ensures var st', c, id := Next(st, AckReceived(AckFor(m))), st.channels[k], RequestId(m);
      var hit := !IsRelayRequest(m) && id in st.requests;
      && k < |st'.channels|
      && st'.requests == (if hit then Without(st.requests, id) else st.requests)
      && st'.channels[k] ==
         if !hit || st.requests[id] != k then c
         else c.(slot := if c.open then Delivered(FromStation(AckFor(m))) else Unheard)
  {
    AckAnswers(m);
    hide AckFor, Answer;
  }

  lemma OneSettledAfterAck(st: State, marks: seq<int>, h: nat, k: nat)
    requires Valid(st) && |st.issued| == |st.channels| && Fitting(st.issued, marks, h)
    requires h < |st.issued| && k < |st.issued| && Settled(st, marks, h, k)
    ensures var st' := Next(st, AckReceived(AckFor(st.issued[h])));
      && Fitting(st'.issued, marks, h + 1) && k < |st'.issued| == |st'.channels|
      && Settled(st', marks, h + 1, k)
  {
    AckHandled(st, st.issued[h], k);
    NextKeeps(st, AckReceived(AckFor(st.issued[h])));
    DueAfterAck(st.issued, marks, h, k);
    hide AckFor, Answer, Due, Next;
  }

  lemma SettledAfterAck(st: State, marks: seq<int>, h: nat)
    requires AllSettled(st, marks, h) && h < |st.issued|
    ensures AllSettled(Next(st, AckReceived(AckFor(st.issued[h]))), marks, h + 1)
  {
    var m, later := st.issued[h], h + 1;
    NextKeeps(st, AckReceived(AckFor(m)));
    hide AckFor, Next, Settled;
    var st' := Next(st, AckReceived(AckFor(m)));
    forall k | 0 <= k < |st.issued|
      ensures Settled(st', marks, later, k)
    {
      assert Settled(st, marks, h, k);
      OneSettledAfterAck(st, marks, h, k);
    }
  }

  lemma SettledAfterEnvironment(st: State, marks: seq<int>, h: int, a: Action)
    requires AllSettled(st, marks, h) && (a.ReceiverClosed? || a.CollectionDue?)
    ensures AllSettled(Next(st, a), marks, h)
  {
    hide AckFor, Due;
    NextKeeps(st, a);
    var st' := Next(st, a);
    forall k | 0 <= k < |st.issued|
      ensures Settled(st', marks, h, k)
    {
      assert Settled(st, marks, h, k);
    }
  }

  // Every run

  ghost predicate Flowing(sys: Sys) {
    InTransit(sys.cmd.issued, sys.outbox, sys.uplink, sys.downlink, sys.inbox)
  }

  lemma FlowStep(sys: Sys, step: Step)
    requires Sound(sys) && Flowing(sys)
    ensures Flowing(Take(sys, step))
    ensures Handled(Take(sys, step)) == Handled(sys) + if step.Handle? && sys.inbox != [] then 1 else 0
    ensures step.Handle? && sys.inbox != [] ==>
      0 <= Handled(sys) < |sys.cmd.issued| && sys.inbox[0] == AckReceived(AckFor(sys.cmd.issued[Handled(sys)]))
  {
    hide InTransit, Received, SerialHandlers.Acks, Packed, Next, AckFor;
    var ms := sys.cmd.issued;
    match step {
      case Issue(m) =>
        NextKeeps(sys.cmd, Requested(m));
        TransitIssue(ms, sys.outbox, sys.uplink, sys.downlink, sys.inbox, m);
      case Pack => if sys.outbox != [] { TransitPack(ms, sys.outbox, sys.uplink, sys.downlink, sys.inbox); }
      case PeerAcks => if sys.uplink != [] { TransitPeer(ms, sys.outbox, sys.uplink, sys.downlink, sys.inbox); }
      case Unpack => if sys.downlink != [] { TransitUnpack(ms, sys.outbox, sys.uplink, sys.downlink, sys.inbox); }
      case Handle =>
        if sys.inbox != [] {
          TransitHandle(ms, sys.outbox, sys.uplink, sys.downlink, sys.inbox);
          NextKeeps(sys.cmd, sys.inbox[0]);
        }
      case GiveUp(k) => NextKeeps(sys.cmd, ReceiverClosed(k));
      case Tick => NextKeeps(sys.cmd, CollectionDue);
    }
  }

  lemma SettledStep(sys: Sys, step: Step, marks: seq<int>)
    requires Sound(sys) && Flowing(sys) && AllSettled(sys.cmd, marks, Handled(sys))
    ensures var marks' := if step.Issue? then marks + [Handled(sys)] else marks;
      AllSettled(Take(sys, step).cmd, marks', Handled(Take(sys, step)))
  {
    hide AllSettled, Flowing, Next, AckFor, Handled, Received, SerialHandlers.Acks, Packed;
    FlowStep(sys, step);
    match step {
      case Issue(m) => SettledAfterIssue(sys.cmd, marks, Handled(sys), m);
      case Handle => if sys.inbox != [] { SettledAfterAck(sys.cmd, marks, Handled(sys)); }
      case GiveUp(k) => SettledAfterEnvironment(sys.cmd, marks, Handled(sys), ReceiverClosed(k));
      case Tick => SettledAfterEnvironment(sys.cmd, marks, Handled(sys), CollectionDue);
      case _ =>
    }
  }

  lemma {:induction false} SettledReached(steps: seq<Step>)
    ensures Flowing(Reached(steps)) && AllSettled(Reached(steps).cmd, Marks(steps), Handled(Reached(steps)))
    decreases |steps|
  {
    hide AllSettled, Flowing, Take;
    if steps == [] {
      SettledAtStart();
    } else {
      var n := |steps| - 1;
      SettledReached(steps[..n]);
      FlowStep(Reached(steps[..n]), steps[n]);
      SettledStep(Reached(steps[..n]), steps[n], Marks(steps[..n]));
    }
  }

  lemma SettledAtStart()
    ensures Flowing(START) && AllSettled(START.cmd, [], Handled(START))
  {
  }

  /**
   * With ids shared in any way, in every state of every run, each open listener has exactly the ack that is due to it:
   * the first with its id handled after its request was issued and before the id was issued again. Without one it has
   * been dropped if the id was issued again, and waits if not. A listener that has gone was given that ack or nothing.
   */
  lemma WhoGetsWhichAck(steps: seq<Step>, k: nat)
    requires k < |Reached(steps).cmd.channels|
    ensures var sys := Reached(steps);
      var ms, marks, h := sys.cmd.issued, Marks(steps), Handled(sys);
      && Fitting(ms, marks, h) && k < |ms|
      && (sys.cmd.channels[k].open ==> sys.cmd.channels[k].slot == Due(ms, marks, h, k))
      && (sys.cmd.channels[k].slot.Delivered? ==> sys.cmd.channels[k].slot == Due(ms, marks, h, k))
  {
    hide Reached, Due, Marks;
    SettledReached(steps);
    assert Settled(Reached(steps).cmd, Marks(steps), Handled(Reached(steps)), k);
  }

  /** Nobody is given the ack of a later request. */
  lemma NeverALaterAck(ms: seq<Message>, marks: seq<int>, h: int, k: nat)
    requires Fitting(ms, marks, h) && k < |ms|
    ensures Given(ms, marks, h, k).Some? ==>
      Given(ms, marks, h, k).value <= k && RequestId(ms[Given(ms, marks, h, k).value]) == RequestId(ms[k])
  {
  }

  /**
   * A request is given its own ack exactly when that has been handled, it is no relay request, no ack for its id was
   * still to come when it was issued, and its id was not issued again before its own ack was handled.
   */
  lemma OwnAckExactly(ms: seq<Message>, marks: seq<int>, h: int, k: nat)
    requires Fitting(ms, marks, h) && k < |ms|
    ensures Given(ms, marks, h, k) == Some(k) <==>
      && k < h && !IsRelayRequest(ms[k])
      && (forall j :: marks[k] <= j < k ==> !AnsweredBy(ms[j], RequestId(ms[k])))
      && (NextSame(ms, k).Some? ==> k < marks[NextSame(ms, k).value])
  {
  }

  // Getting there

  /** How many moves everything on its way has left to make. */
  function Distance(sys: Sys): (n: nat) {
    4 * |sys.outbox| + 3 * |sys.uplink| + 2 * |sys.downlink| + |sys.inbox|
  }

  /** The move that brings something nearer. */
  function Onwards(sys: Sys): (s: Step) {
    if sys.outbox != [] then Pack
    else if sys.uplink != [] then PeerAcks
    else if sys.downlink != [] then Unpack
    else Handle
  }

  lemma Nearer(sys: Sys)
    requires Sound(sys) && Flowing(sys) && !Drained(sys)
    ensures Distance(Take(sys, Onwards(sys))) < Distance(sys)
    ensures Take(sys, Onwards(sys)).cmd.issued == sys.cmd.issued
  {
    hide Received, SerialHandlers.Acks, Packed, Next, AckFor, InTransit;
    var ms := sys.cmd.issued;
    match Onwards(sys) {
      case Pack =>
      case PeerAcks => TransitPeer(ms, sys.outbox, sys.uplink, sys.downlink, sys.inbox);
      case Unpack => TransitUnpack(ms, sys.outbox, sys.uplink, sys.downlink, sys.inbox);
      case Handle =>
        TransitHandle(ms, sys.outbox, sys.uplink, sys.downlink, sys.inbox);
        NextKeeps(sys.cmd, sys.inbox[0]);
    }
  }

  /** From every state of every run everything on its way can be brought home, with nothing new issued. */
  lemma {:induction false} AlwaysDrains(steps: seq<Step>) returns (more: seq<Step>)
    ensures forall i :: 0 <= i < |more| ==> more[i] in {Pack, PeerAcks, Unpack, Handle}
    ensures Drained(Reached(steps + more)) && Reached(steps + more).cmd.issued == Reached(steps).cmd.issued
    decreases Distance(Reached(steps))
  {
    hide Flowing, Take, Distance, AllSettled, Drained;
    var sys := Reached(steps);
    if Drained(sys) {
      more := [];
      assert steps + [] == steps;
    } else {
      var step := Onwards(sys);
      SettledReached(steps);
      Nearer(sys);
      TakeOne(steps, step);
      var rest := AlwaysDrains(steps + [step]);
      more := [step] + rest;
      assert steps + more == steps + [step] + rest;
    }
  }

  /** A caller that gives up, and the next tick, free the id that the request waited under. */
  lemma GivingUpFreesTheId(steps: seq<Step>, k: nat)
    requires var st := Reached(steps).cmd; k < |st.channels| && st.channels[k].slot == Waiting
    ensures var st, st' := Reached(steps).cmd, Reached(steps + [GiveUp(k)] + [Tick]).cmd;
      st.channels[k].id in st.requests && st.channels[k].id !in st'.requests
  {
    hide Reached, Due;
    SettledReached(steps);
    assert Settled(Reached(steps).cmd, Marks(steps), Handled(Reached(steps)), k);
    TakeOne(steps, GiveUp(k));
    TakeOne(steps + [GiveUp(k)], Tick);
  }

  lemma TakeOne(steps: seq<Step>, step: Step)
    ensures Reached(steps + [step]) == Take(Reached(steps), step)
  {
    assert (steps + [step])[..|steps + [step]| - 1] == steps;
  }
}
