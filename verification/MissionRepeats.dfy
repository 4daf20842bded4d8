/** What sending the same event again does. */
module MissionRepeats {
  import opened Bytes
  import opened Messages
  import opened Mission
  import opened MissionSafety
  import opened MissionTasks

  // The machine

  /** The same event over and over, after as many gaps. */
  function Again(w: World, event: Event, gaps: seq<nat>): (w': World) {
    if gaps == [] then w
    else
      var before := Again(w, event, gaps[..|gaps| - 1]);
      HandleEvent(before.(now := before.now + gaps[|gaps| - 1]), event, true)
  }

  /** Nothing but the clock and the log tells the two apart. */
  predicate SameMachine(v: World, w: World) {
    v.(log := w.log, now := w.now) == w
  }

  /** The part of the machine that decides what it does next. */
  function Core(w: World): (r: (Phase, Option<Event>, Option<nat>, map<nat, Task>)) {
    (w.phase, w.pendingEvt, w.runningTask, w.tasks)
  }

  predicate AsksForGarage(phase: Phase, event: Event) {
    event == FEGarageOpen && phase != GarageOpen
  }

  /** How many more futures to wait for so many copies leave behind. */
  function Pings(event: Event, copies: nat): (n: nat) {
    if event == AntPing then copies else 0
  }

  lemma SecondOnlyPings(w: World, event: Event, later: World)
    requires Shape(w) && !AsksForGarage(w.phase, event)
    requires SameMachine(later.(waiting := 0), HandleEvent(w, event, true).(waiting := 0))
    ensures SameMachine(HandleEvent(later, event, true), later.(waiting := later.waiting + Pings(event, 1)))
  {
  }

  lemma {:induction false} AgainOnlyPings(w: World, event: Event, gaps: seq<nat>)
    requires Shape(w) && !AsksForGarage(w.phase, event)
    ensures var once := HandleEvent(w, event, true);
      SameMachine(Again(once, event, gaps), once.(waiting := once.waiting + Pings(event, |gaps|)))
  {
    hide HandleEvent, Shape, AsksForGarage;
    if gaps != [] {
      var once := HandleEvent(w, event, true);
      var n := |gaps| - 1;
      AgainOnlyPings(w, event, gaps[..n]);
      var before := Again(once, event, gaps[..n]);
      SecondOnlyPings(w, event, before.(now := before.now + gaps[n]));
    }
  }

  lemma GarageAsked(w: World)
    requires w.phase != GarageOpen
    ensures var once := HandleEvent(w, FEGarageOpen, true);
      once.phase != GarageOpen && once.runningTask == Some(w.nextHandle) && once.nextHandle == w.nextHandle + 1
  {
  }

  lemma {:induction false} AgainAsksAgain(once: World, gaps: seq<nat>)
    requires once.phase != GarageOpen && once.runningTask.Some? && once.runningTask.value < once.nextHandle
    ensures var w := Again(once, FEGarageOpen, gaps);
      && w.phase != GarageOpen && w.nextHandle == once.nextHandle + |gaps|
      && w.runningTask == if gaps == [] then once.runningTask else Some(w.nextHandle - 1)
  {
    hide HandleEvent;
    if gaps != [] {
      var n := |gaps| - 1;
      AgainAsksAgain(once, gaps[..n]);
      var before := Again(once, FEGarageOpen, gaps[..n]);
      GarageAsked(before.(now := before.now + gaps[n]));
    }
  }

  /**
   * Handling an event again, and again, leaves the whole machine as handling it once did, unless each copy sends a
   * ping or asks for a garage that is not known to be open.
   */
  lemma RepeatsAreStutters(steps: seq<Step>, event: Event, gaps: seq<nat>)
    requires gaps != [] && event != FERestart
    ensures var w := Reached(steps);
      var once := HandleEvent(w, event, true);
      SameMachine(Again(once, event, gaps), once) <==>
        event != AntPing && (event != FEGarageOpen || w.phase == GarageOpen)
  {
    hide Reached, Again, HandleEvent;
    InvReached(steps);
    var w := Reached(steps);
    if AsksForGarage(w.phase, event) {
      GarageAsked(w);
      AgainAsksAgain(HandleEvent(w, FEGarageOpen, true), gaps);
    } else {
      AgainOnlyPings(w, event, gaps);
    }
  }

  /** Phase, queue and tasks stay as they are even where pings are sent. */
  lemma RepeatsKeepTheCore(steps: seq<Step>, event: Event, gaps: seq<nat>)
    requires gaps != [] && event != FERestart
    ensures var w := Reached(steps);
      var once := HandleEvent(w, event, true);
      Core(Again(once, event, gaps)) == Core(once) <==> event != FEGarageOpen || w.phase == GarageOpen
  {
    hide Reached, Again, HandleEvent;
    InvReached(steps);
    var w := Reached(steps);
    if AsksForGarage(w.phase, event) {
      GarageAsked(w);
      AgainAsksAgain(HandleEvent(w, FEGarageOpen, true), gaps);
    } else {
      AgainOnlyPings(w, event, gaps);
    }
  }

  // Packets from the ground

  predicate IsSend(r: Record) {
    r.AntStartSent? || r.AntPingSent? || r.Forwarded?
  }

  /** What the machine has sent. */
  function Sent(log: seq<Record>): (r: seq<Record>) {
    if log == [] then []
    else
      var last := log[|log| - 1];
      Sent(log[..|log| - 1]) + if IsSend(last) then [last] else []
  }

  lemma SentSnoc(log: seq<Record>, r: Record)
    ensures Sent(log + [r]) == Sent(log) + if IsSend(r) then [r] else []
  {
    Snoc(log, r);
  }

  /** Everything a world holds but the clock, with what was sent in place of the log. */
  function Outcome(w: World): (r: World) {
    w.(now := 0, log := Sent(w.log))
  }

  predicate IsForwarded(dest: Destination) {
    dest == Ant || dest == CentralStation
  }

  /** A packet that has a new effect every time. */
  predicate Loud(phase: Phase, event: Event, dest: Destination) {
    event == AntPing || IsForwarded(dest) || AsksForGarage(phase, event)
  }

  /** The steps in which the same packet comes from the ground again and again, each after the last is dealt with. */
  function Copies(event: Event, dest: Destination, gaps: seq<nat>): (r: seq<Step>) {
    if gaps == [] then []
    else Copies(event, dest, gaps[..|gaps| - 1]) + [WaitOver, TimePasses(gaps[|gaps| - 1]), FromGround(event, dest)]
  }

  function Round(w: World, event: Event, dest: Destination, gap: nat): (w': World) {
    Do(Do(Do(w, WaitOver), TimePasses(gap)), FromGround(event, dest))
  }

  lemma ReachedRound(steps: seq<Step>, event: Event, dest: Destination, gap: nat)
    ensures Reached(steps + [WaitOver, TimePasses(gap), FromGround(event, dest)])
         == Round(Reached(steps), event, dest, gap)
  {
    hide Reached, Do;
    ReachedThen(steps, WaitOver);
    ReachedThen(steps + [WaitOver], TimePasses(gap));
    ReachedThen(steps + [WaitOver] + [TimePasses(gap)], FromGround(event, dest));
    assert steps + [WaitOver, TimePasses(gap), FromGround(event, dest)]
        == steps + [WaitOver] + [TimePasses(gap)] + [FromGround(event, dest)];
  }

  /** A machine that handles what comes next once its wait is over. */
  predicate Willing(w: World) {
    !w.halted && w.waiting <= 1
  }

  lemma RoundIsCommand(w: World, event: Event, dest: Destination, gap: nat)
    requires Willing(w)
    ensures Round(w, event, dest, gap) == UpCommand(w.(waiting := 0, now := w.now + gap), event, dest)
  {
    hide UpCommand;
  }

  lemma SentByEvent(w: World, event: Event)
    ensures Sent(HandleEvent(w, event, true).log) == Sent(w.log) + if event == AntPing then [AntPingSent(w.now)] else []
  {
    hide Sent;
    var record := Handled(w.now, event, true, w.mailbox != []);
    SentSnoc(w.log, record);
    SentSnoc(w.log + [record], StopQueued(w.now));
    SentSnoc(w.log + [record], StopAccepted(w.now));
    SentSnoc(w.log + [record], AntPingSent(w.now));
  }

  /** Where nothing is sent on, a command is its event. */
  lemma QuietCommand(w: World, event: Event, dest: Destination)
    requires event != AntPing && !IsForwarded(dest)
    ensures UpCommand(w, event, dest) == HandleEvent(w, event, true)
    ensures Sent(UpCommand(w, event, dest).log) == Sent(w.log)
  {
    hide HandleEvent, Sent;
    SentByEvent(w, event);
  }

  lemma RoundIsSilent(w: World, event: Event, dest: Destination, later: World, gap: nat)
    requires Shape(w) && w.waiting == 0 && !w.halted && event != FERestart && !Loud(w.phase, event, dest)
    requires Outcome(later) == Outcome(UpCommand(w, event, dest))
    ensures Outcome(Round(later, event, dest, gap)) == Outcome(later)
  {
    var once := HandleEvent(w, event, true);
    var before := later.(waiting := 0, now := later.now + gap);
    QuietCommand(w, event, dest);
    OnceIsWilling(w, event);
    hide HandleEvent, UpCommand, Round, Shape, Sent;
    assert SameMachine(later, once);
    RoundIsCommand(later, event, dest, gap);
    QuietCommand(before, event, dest);
    SecondOnlyPings(w, event, before);
  }

  lemma OnceIsWilling(w: World, event: Event)
    requires w.waiting == 0 && !w.halted && event != FERestart
    ensures var once := HandleEvent(w, event, true); !once.halted && once.waiting == Pings(event, 1)
  {
  }

  /** How much has been started and sent. */
  function Effort(w: World): (n: nat) {
    w.nextHandle + |Sent(w.log)|
  }

  lemma CommandIsLoud(w: World, event: Event, dest: Destination)
    requires w.waiting == 0 && !w.halted && event != FERestart && Loud(w.phase, event, dest)
    ensures var w' := UpCommand(w, event, dest); Effort(w') > Effort(w) && Willing(w') && Loud(w'.phase, event, dest)
  {
    hide Sent, HandleEvent;
    var once := HandleEvent(w, event, true);
    OnceIsWilling(w, event);
    HandlesOnlyGrow(w, event);
    SentByEvent(w, event);
    SentSnoc(once.log, Forwarded(w.now, event));
  }

  lemma HandlesOnlyGrow(w: World, event: Event)
    ensures var once := HandleEvent(w, event, true);
      && once.nextHandle >= w.nextHandle
      && (AsksForGarage(w.phase, event) ==> once.nextHandle > w.nextHandle && once.phase == w.phase)
  {
  }

  lemma {:induction false} CopiesAddUp(steps: seq<Step>, event: Event, dest: Destination, gaps: seq<nat>)
    requires event != FERestart && Willing(Reached(steps)) && Loud(Reached(steps).phase, event, dest)
    ensures var w := Reached(steps + Copies(event, dest, gaps));
      && Willing(w) && Loud(w.phase, event, dest)
      && Effort(w) >= Effort(Reached(steps)) + |gaps|
  {
    hide Reached, UpCommand, Do, Loud, Effort;
    if gaps == [] {
      assert steps + [] == steps;
    } else {
      var n := |gaps| - 1;
      var w := Reached(steps + Copies(event, dest, gaps[..n]));
      CopiesAddUp(steps, event, dest, gaps[..n]);
      NextCopy(steps, event, dest, gaps);
      RoundIsCommand(w, event, dest, gaps[n]);
      CommandIsLoud(w.(waiting := 0, now := w.now + gaps[n]), event, dest);
      EffortIsIndependent(w, gaps[n]);
    }
  }

  lemma EffortIsIndependent(w: World, gap: nat)
    ensures Effort(w.(waiting := 0, now := w.now + gap)) == Effort(w)
  {
  }

  lemma NextCopy(steps: seq<Step>, event: Event, dest: Destination, gaps: seq<nat>)
    requires gaps != []
    ensures var n := |gaps| - 1;
      Reached(steps + Copies(event, dest, gaps))
        == Round(Reached(steps + Copies(event, dest, gaps[..n])), event, dest, gaps[n])
  {
    hide Reached, Round;
    var n := |gaps| - 1;
    var before := Copies(event, dest, gaps[..n]);
    ReachedRound(steps + before, event, dest, gaps[n]);
    assert steps + Copies(event, dest, gaps)
        == steps + before + [WaitOver, TimePasses(gaps[n]), FromGround(event, dest)];
  }

  lemma {:induction false} CopiesAreSilent(steps: seq<Step>, event: Event, dest: Destination, gaps: seq<nat>)
    requires var w := Reached(steps);
      w.waiting == 0 && !w.halted && event != FERestart && !Loud(w.phase, event, dest)
    ensures Outcome(Reached(steps + [FromGround(event, dest)] + Copies(event, dest, gaps)))
         == Outcome(Reached(steps + [FromGround(event, dest)]))
  {
    hide Reached, UpCommand, Inv, Shape, Outcome, Loud, Round;
    var w, first := Reached(steps), steps + [FromGround(event, dest)];
    if gaps == [] {
      assert first + [] == first;
    } else {
      var n := |gaps| - 1;
      var later := Reached(first + Copies(event, dest, gaps[..n]));
      CopiesAreSilent(steps, event, dest, gaps[..n]);
      NextCopy(first, event, dest, gaps);
      ReachedThen(steps, FromGround(event, dest));
      ShapeReached(steps);
      RoundIsSilent(w, event, dest, later, gaps[n]);
    }
  }

  /**
   * Copies that follow one another, with nothing but waits and time between them, have no outcome at all, nothing sent,
   * started or changed, exactly when the packet is not for the ant or the station, is no ping, and does not ask for a
   * garage that is not known to be open.
   */
  lemma ResendingIsSilent(steps: seq<Step>, event: Event, dest: Destination, gaps: seq<nat>)
    requires Reached(steps).waiting == 0 && !Reached(steps).halted
    requires gaps != [] && event != FERestart
    ensures var first := steps + [FromGround(event, dest)];
      Outcome(Reached(first + Copies(event, dest, gaps))) == Outcome(Reached(first)) <==>
        && dest != Ant && dest != CentralStation
        && event != AntPing
        && (event != FEGarageOpen || Reached(steps).phase == GarageOpen)
  {
    hide Reached, UpCommand, Outcome, Copies;
    var w, first := Reached(steps), steps + [FromGround(event, dest)];
    if Loud(w.phase, event, dest) {
      ReachedThen(steps, FromGround(event, dest));
      CommandIsLoud(w, event, dest);
      CopiesAddUp(first, event, dest, gaps);
      EffortShows(Reached(first), Reached(first + Copies(event, dest, gaps)));
    } else {
      CopiesAreSilent(steps, event, dest, gaps);
    }
  }

  lemma EffortShows(v: World, w: World)
    requires Effort(v) != Effort(w)
    ensures Outcome(v) != Outcome(w)
  {
    hide Sent;
  }

  // Copies with anything at all in between

  /** Whether an event that is sent nowhere leaves the machine as it is. */
  predicate Idle(w: World, event: Event) {
    match React(w.phase, event, w.now)
    case Nothing => true
    case Queue => w.pendingEvt.Some?
    case Unqueue => w.pendingEvt.None?
    case Reset => w.phase == GarageOpen
    case _ => false
  }

  lemma IdleEvent(w: World, event: Event)
    requires Shape(w) && Staffed(w) && event != FERestart && event != AntPing
    ensures HandleEvent(w, event, true).(log := w.log) == w <==> Idle(w, event)
  {
    if w.phase == GarageOpen && React(w.phase, event, w.now).Reset? {
      assert w.runningTask == None;
    }
  }

  /** A command has no outcome exactly when nothing is sent on and the event leaves the machine as it is. */
  lemma SilentCommand(w: World, event: Event, dest: Destination)
    requires Shape(w) && Staffed(w) && !w.halted && event != FERestart
    ensures Outcome(UpCommand(w, event, dest)) == Outcome(w) <==>
      !IsForwarded(dest) && event != AntPing && Idle(w, event)
  {
    var w' := UpCommand(w, event, dest);
    var once := HandleEvent(w, event, true);
    SentByEvent(w, event);
    HandlingGoesOn(w, event);
    hide Shape, Staffed, HandleEvent, Sent, Idle;
    SentSnoc(once.log, Forwarded(w.now, event));
    if IsForwarded(dest) || event == AntPing {
      assert |Sent(w'.log)| > |Sent(w.log)|;
      OutcomeShowsSent(w', w);
    } else {
      IdleEvent(w, event);
      OutcomeIs(once, w);
    }
  }

  lemma HandlingGoesOn(w: World, event: Event)
    requires event != FERestart
    ensures HandleEvent(w, event, true).halted == w.halted && HandleEvent(w, event, true).now == w.now
  {
  }

  lemma OutcomeShowsSent(v: World, w: World)
    requires |Sent(v.log)| != |Sent(w.log)|
    ensures Outcome(v) != Outcome(w)
  {
    hide Sent;
  }

  lemma OutcomeIs(v: World, w: World)
    requires v.now == w.now && Sent(v.log) == Sent(w.log)
    ensures Outcome(v) == Outcome(w) <==> v.(log := w.log) == w
  {
    hide Sent;
  }

  /** In the phase that an event has led to, the same event begins nothing but another request for the garage. */
  lemma NothingLeftToBegin(w: World, event: Event, later: World)
    requires Shape(w) && later.phase == HandleEvent(w, event, true).phase
    requires event != FERestart && event != AntPing
    ensures Idle(later, event) <==>
      && !AsksForGarage(later.phase, event)
      && (event == FERoverStop && later.phase != AntRun ==> later.pendingEvt.Some?)
      && (event == FERoverMove ==> later.pendingEvt.None?)
  {
  }

  /**
   * A packet is handled; then anything may happen, and the machine is again in the phase that the packet led to. One
   * more copy has no outcome exactly when it is neither sent on nor a ping, asks for no garage that is not known to be
   * open, finds a stop still held if it is a stop that is not accepted yet, and finds none held if it is a move.
   */
  lemma CopyIsSilent(steps: seq<Step>, event: Event, dest: Destination, more: seq<Step>)
    requires event != FERestart
    requires Reached(steps).waiting == 0 && !Reached(steps).halted
    requires var first := steps + [FromGround(event, dest)];
      var w := Reached(first + more);
      w.phase == Reached(first).phase && w.waiting == 0 && !w.halted
    ensures var before := steps + [FromGround(event, dest)] + more;
      var w := Reached(before);
      Outcome(Reached(before + [FromGround(event, dest)])) == Outcome(w) <==>
        && dest != Ant && dest != CentralStation
        && event != AntPing
        && (event == FEGarageOpen ==> w.phase == GarageOpen)
        && (event == FERoverStop && w.phase != AntRun ==> w.pendingEvt == Some(FERoverStop))
        && (event == FERoverMove ==> w.pendingEvt == None)
  {
    hide Reached, Shape, Staffed, UpCommand, Outcome, Idle;
    var before := steps + [FromGround(event, dest)] + more;
    var w := Reached(before);
    ReachedThen(steps, FromGround(event, dest));
    ReachedThen(before, FromGround(event, dest));
    ShapeReached(steps);
    ShapeReached(before);
    StaffedReached(before);
    SilentCommand(w, event, dest);
    CommandPhase(Reached(steps), event, dest);
    if event != AntPing { NothingLeftToBegin(Reached(steps), event, w); }
    OnlyStopsHeld(w);
  }

  lemma CommandPhase(w: World, event: Event, dest: Destination)
    ensures UpCommand(w, event, dest).phase == HandleEvent(w, event, true).phase
  {
    hide HandleEvent;
  }

  lemma OnlyStopsHeld(w: World)
    requires Shape(w)
    ensures w.pendingEvt == None || w.pendingEvt == Some(FERoverStop)
  {
  }

  const STOP := FromGround(FERoverStop, Frontend)
  const MOVE := FromGround(FERoverMove, Frontend)

  /** Stop, move, stop: the phase never changes, and yet the second stop counts. */
  lemma RepeatedStopCounts()
    ensures var before := Reached([FromSerial(CSBLEDisconnect), STOP, MOVE]);
      var after := Reached([FromSerial(CSBLEDisconnect), STOP, MOVE, STOP]);
      && before.phase == GarageOpen && before.pendingEvt == None
      && after.phase == GarageOpen && after.pendingEvt == Some(FERoverStop)
  {
    hide Reached, Do;
    ReachedNone();
    ReachedThen([], FromSerial(CSBLEDisconnect));
    ReachedThen([FromSerial(CSBLEDisconnect)], STOP);
    ReachedThen([FromSerial(CSBLEDisconnect), STOP], MOVE);
    ReachedThen([FromSerial(CSBLEDisconnect), STOP, MOVE], STOP);
    assert [] + [FromSerial(CSBLEDisconnect)] == [FromSerial(CSBLEDisconnect)];
    assert [FromSerial(CSBLEDisconnect)] + [STOP] == [FromSerial(CSBLEDisconnect), STOP];
    assert [FromSerial(CSBLEDisconnect), STOP] + [MOVE] == [FromSerial(CSBLEDisconnect), STOP, MOVE];
    assert [FromSerial(CSBLEDisconnect), STOP, MOVE] + [STOP] == [FromSerial(CSBLEDisconnect), STOP, MOVE, STOP];
    DisconnectOpens();
    StopHeld(Do(LAUNCH, FromSerial(CSBLEDisconnect)));
    MoveFrees(Do(Do(LAUNCH, FromSerial(CSBLEDisconnect)), STOP));
    StopHeld(Do(Do(Do(LAUNCH, FromSerial(CSBLEDisconnect)), STOP), MOVE));
  }

  predicate OpenAndReady(w: World) {
    w.phase == GarageOpen && w.waiting == 0 && !w.halted
  }

  lemma DisconnectOpens()
    ensures OpenAndReady(Do(LAUNCH, FromSerial(CSBLEDisconnect)))
  {
  }

  lemma StopHeld(w: World)
    requires OpenAndReady(w)
    ensures OpenAndReady(Do(w, STOP)) && Do(w, STOP).pendingEvt == Some(FERoverStop)
  {
  }

  lemma MoveFrees(w: World)
    requires OpenAndReady(w)
    ensures OpenAndReady(Do(w, MOVE)) && Do(w, MOVE).pendingEvt == None
  {
  }
}
