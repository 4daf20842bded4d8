/** Where request ids come from: a millisecond clock and a wrapping counter. */
module Ids {
  import opened Bytes
  import opened Messages
  import opened CommanderTable
  import opened Fates
  import opened SerialHandlers
  import opened AckProtocol

  const U32_MAX: nat := 0xffff_ffff

  /** The remainder that takes the sign of the dividend. */
  function TruncatedRem(a: int, m: int): (r: int)
    requires m > 0
    ensures -m < r < m
  {
    if a >= 0 then a % m else -((-a) % m)
  }

  /** Conversion of a signed value to 32 unsigned bits. */
  function Cast(a: int): (t: u32) {
    (a % 0x1_0000_0000) as u32
  }

  /** Milliseconds since the mission epoch, as a timestamp. */
  function ToEpoch(ms: int): (t: u32) {
    Cast(TruncatedRem(ms, U32_MAX))
  }

  /** Milliseconds since the mission epoch, from a timestamp. */
  function FromEpoch(t: u32): (ms: int) {
    t as int
  }

  /** The conversions undo each other exactly for instants from the epoch until 2^32 - 1 ms after it, exclusive. */
  lemma EpochRoundTrip(ms: int)
    ensures FromEpoch(ToEpoch(ms)) == ms <==> 0 <= ms < U32_MAX
  {
  }

  /** Before the epoch the cast moves every remainder but zero up by one. */
  function Slip(ms: int): (n: nat) {
    if ms < 0 && ms % U32_MAX != 0 then 1 else 0
  }

  /** Every instant's timestamp, before the epoch as after it. */
  lemma EpochIs(ms: int)
    ensures ToEpoch(ms) as int == ms % U32_MAX + Slip(ms)
  {
    if ms < 0 && ms % U32_MAX != 0 {
      var k := (-ms) % U32_MAX;
      NegatedRemainder(ms);
      assert TruncatedRem(ms, U32_MAX) == -k && 0 < k < U32_MAX;
    } else if ms < 0 {
      NegatedRemainder(ms);
    }
  }

  lemma NegatedRemainder(ms: int)
    ensures (-ms) % U32_MAX == if ms % U32_MAX == 0 then 0 else U32_MAX - ms % U32_MAX
  {
    var q, r := ms / U32_MAX, ms % U32_MAX;
    assert -ms == U32_MAX * (-q) - r;
    if r != 0 { assert -ms == U32_MAX * (-q - 1) + (U32_MAX - r); }
  }

  /** On either side of the epoch, instants a multiple of 2^32 - 1 ms apart; across it, the earlier one slips. */
  predicate SameStamp(a: int, b: int) {
    if (a < 0) == (b < 0) then a % U32_MAX == b % U32_MAX else a % U32_MAX + Slip(a) == b % U32_MAX + Slip(b)
  }

  /**
   * Two instants on the same side of the epoch share a timestamp exactly when they are a multiple of 2^32 - 1 ms apart;
   * an instant before it and one after it are one millisecond off that, unless both are such a multiple from the epoch.
   */
  lemma EpochCollides(a: int, b: int)
    ensures ToEpoch(a) == ToEpoch(b) <==> SameStamp(a, b)
  {
    EpochIs(a);
    EpochIs(b);
  }

  /** One millisecond before the epoch, and 2^32 - 1 ms later: not the same timestamp. */
  lemma EpochSlips()
    ensures ToEpoch(-1) == 0xffff_ffff && ToEpoch(-1 + U32_MAX) == 0xffff_fffe
  {
  }

  class SeqService {
    var counter: byte

    constructor ()
      ensures counter == 0
    {
      counter := 0;
    }

    /** Hands out the counter and advances it, wrapping around. */
    method Handle() returns (seq_: byte)
      modifies this
      ensures seq_ == old(counter)
      ensures counter as int == (old(counter) as int + 1) % 256
    {
      seq_ := counter;
      counter := if counter == 255 then 0 else counter + 1;
    }
  }

  /** The parameters drawn at the given instants, from a fresh service. */
  function Drawn(times: seq<int>): (ps: seq<Params>)
    ensures |ps| == |times|
  {
    seq(|times|, i requires 0 <= i < |times| => Params(ToEpoch(times[i]), (i % 256) as byte))
  }

  method Draw(times: seq<int>) returns (ps: seq<Params>)
    ensures ps == Drawn(times)
  {
    var service := new SeqService();
    ps := [];
    for i := 0 to |times|
      invariant ps == Drawn(times)[..i]
      invariant service.counter as int == i % 256
    {
      var n := service.Handle();
      ps := ps + [Params(ToEpoch(times[i]), n)];
    }
  }

  /** Two draws give the same id exactly when the counter has come round and so has the clock. */
  lemma IdsCollide(times: seq<int>, i: nat, j: nat)
    requires i < |times| && j < |times|
    ensures Drawn(times)[i] == Drawn(times)[j] <==> i % 256 == j % 256 && SameStamp(times[i], times[j])
  {
    EpochCollides(times[i], times[j]);
  }

  /** Draws a multiple of 256 apart see different milliseconds. */
  ghost predicate ClockOutrunsCounter(times: seq<int>) {
    forall i, j :: 0 <= i < j < |times| && i % 256 == j % 256 ==> times[i] != times[j]
  }

  ghost predicate WithinEpoch(times: seq<int>) {
    forall i :: 0 <= i < |times| ==> 0 <= times[i] < U32_MAX
  }

  ghost predicate AllDifferent(ps: seq<Params>) {
    forall i, j :: 0 <= i < j < |ps| ==> ps[i] != ps[j]
  }

  /** Within one turn of the clock the ids are all different exactly when the clock outruns the counter. */
  lemma IdsAllDifferent(times: seq<int>)
    requires WithinEpoch(times)
    ensures AllDifferent(Drawn(times)) <==> ClockOutrunsCounter(times)
  {
    var ps := Drawn(times);
    forall i, j | 0 <= i < j < |times|
      ensures ps[i] == ps[j] <==> i % 256 == j % 256 && times[i] == times[j]
    {
      IdsCollide(times, i, j);
      assert times[i] % U32_MAX == times[i] && times[j] % U32_MAX == times[j];
    }
    if AllDifferent(ps) {
      forall i, j | 0 <= i < j < |times| && i % 256 == j % 256
        ensures times[i] != times[j]
      {
        assert ps[i] != ps[j];
      }
    }
  }

  /** `m` carries the id of a draw. */
  predicate BuiltFrom(m: Message, p: Params) {
    m.header.header.timestamp == p.time && m.header.header.seq_ == p.seq_
  }

  /**
   * `origin` says which requests of a run are built from draws, and which draw each is from. No draw is used twice;
   * they may be used in any order, or not at all. Other requests, such as forwarded packets, carry any ids they like.
   */
  ghost predicate Origin(run: seq<Action>, ps: seq<Params>, origin: map<nat, nat>) {
    && (forall i :: i in origin ==>
          i < |run| && run[i].Requested? && origin[i] < |ps| && BuiltFrom(run[i].message, ps[origin[i]]))
    && forall i, j :: i in origin && j in origin && i != j ==> origin[i] != origin[j]
  }

  lemma DrawsDiffer(times: seq<int>, run: seq<Action>, origin: map<nat, nat>, i: nat, j: nat)
    requires WithinEpoch(times) && ClockOutrunsCounter(times) && Origin(run, Drawn(times), origin)
    requires i in origin && j in origin && i != j
    ensures RequestId(run[i].message) != RequestId(run[j].message)
  {
    hide Drawn;
    IdsAllDifferent(times);
    var ps := Drawn(times);
    var a, b := origin[i], origin[j];
    if a < b { assert ps[a] != ps[b]; } else { assert ps[b] != ps[a]; }
  }

  /** A request built from a draw is superseded only by a request that is not. */
  lemma SupersededOnlyByOthers(times: seq<int>, run: seq<Action>, origin: map<nat, nat>, i: nat)
    requires WithinEpoch(times) && ClockOutrunsCounter(times) && Origin(run, Drawn(times), origin)
    requires i in origin
    ensures FateOf(run, i) == Superseded ==>
            exists j :: i < j < |run| && run[j].Requested? && j !in origin
                        && RequestId(run[j].message) == RequestId(run[i].message)
  {
    hide Drawn, FateOf;
    FateHasCause(run, i);
    if FateOf(run, i) == Superseded {
      var j :| i < j < |run| && run[j].Requested? && RequestId(run[j].message) == RequestId(run[i].message);
      if j in origin { DrawsDiffer(times, run, origin, i, j); }
    }
  }

  /** Where all requests are built from draws, none of them is superseded. */
  lemma CommandsNeverSupersede(times: seq<int>, run: seq<Action>, origin: map<nat, nat>, i: nat)
    requires WithinEpoch(times) && ClockOutrunsCounter(times) && Origin(run, Drawn(times), origin)
    requires forall j :: 0 <= j < |run| && run[j].Requested? ==> j in origin
    requires i < |run| && run[i].Requested?
    ensures FateOf(run, i) != Superseded
  {
    hide Drawn, FateOf;
    SupersededOnlyByOthers(times, run, origin, i);
  }

  /** Messages built from different draws, in whatever order, have distinct ids. */
  lemma DrawnIdsAreDistinct(times: seq<int>, ms: seq<Message>, origin: seq<nat>)
    requires WithinEpoch(times) && |origin| == |ms|
    requires forall k :: 0 <= k < |ms| ==> origin[k] < |times| && BuiltFrom(ms[k], Drawn(times)[origin[k]])
    requires forall k, n :: 0 <= k < n < |ms| ==> origin[k] != origin[n]
    requires ClockOutrunsCounter(times)
    ensures DistinctIds(ms)
  {
    hide Drawn;
    IdsAllDifferent(times);
    var ps := Drawn(times);
    forall k, n | 0 <= k < n < |ms|
      ensures RequestId(ms[k]) != RequestId(ms[n])
    {
      var a, b := origin[k], origin[n];
      if a < b { assert ps[a] != ps[b]; } else { assert ps[b] != ps[a]; }
    }
  }

  /** A command that is to be built from one draw. */
  datatype Order = Order(draw: nat, dest: Destination, event: Event)

  /** The commands that a list of orders gives. */
  ghost predicate Ordered(ms: seq<Message>, orders: seq<Order>, ps: seq<Params>) {
    && |ms| == |orders|
    && (forall k :: 0 <= k < |ms| ==>
          orders[k].draw < |ps| && ms[k] == CommandMessage(ps[orders[k].draw], orders[k].dest, orders[k].event))
    && forall k, n :: 0 <= k < n < |ms| ==> orders[k].draw != orders[n].draw
  }

  /** Commands built from different draws, used in any order, have pairwise distinct ids. */
  lemma CommandsAreDistinct(times: seq<int>, orders: seq<Order>, ms: seq<Message>)
    requires WithinEpoch(times) && ClockOutrunsCounter(times) && Ordered(ms, orders, Drawn(times))
    ensures DistinctIds(ms)
  {
    hide Drawn, DistinctIds;
    var origin := seq(|ms|, k requires 0 <= k < |ms| => orders[k].draw);
    forall k | 0 <= k < |ms|
      ensures BuiltFrom(ms[k], Drawn(times)[origin[k]])
    {
      CommandIs(Drawn(times)[origin[k]], orders[k].dest, orders[k].event);
    }
    DrawnIdsAreDistinct(times, ms, origin);
  }

  /**
   * From the draw to the answer: in any run whose requests are commands built from such draws, once nothing is on its
   * way, every open listener has the ack of its own command, unless that asked for a relay.
   */
  lemma CommandsAreAnswered(times: seq<int>, orders: seq<Order>, steps: seq<Step>, k: nat)
    requires WithinEpoch(times) && ClockOutrunsCounter(times)
    requires Ordered(Reached(steps).cmd.issued, orders, Drawn(times)) && Drained(Reached(steps))
    requires k < |orders| && orders[k].event != CSRelay
    ensures var sys := Reached(steps);
      && k < |sys.cmd.channels|
      && (sys.cmd.channels[k].open ==> sys.cmd.channels[k].slot == Delivered(FromStation(AckFor(sys.cmd.issued[k]))))
  {
    hide Reached, Drawn, AckFor;
    CommandsAreDistinct(times, orders, Reached(steps).cmd.issued);
    DrainedMeansAnswered(steps, k);
    CommandIs(Drawn(times)[orders[k].draw], orders[k].dest, orders[k].event);
  }
}
