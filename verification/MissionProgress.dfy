/** What the machine does do: each event in each phase, each timer when due, and the whole way to the ant's start. */
module MissionProgress {
  import opened Bytes
  import opened Messages
  import opened Mission
  import opened MissionSafety

  /** The machine handles what comes next. */
  predicate Listening(w: World) {
    !w.halted && w.waiting == 0
  }

  /** One task is live, it is held, and nothing else is. */
  predicate OnlyTask(w: World, h: nat, task: Task) {
    w.tasks == map[h := task] && w.runningTask == Some(h)
  }

  /** The tasks, what is queued, what is waited for and the mailbox are as they were. */
  predicate Unmoved(v: World, w: World) {
    && v.phase == w.phase && v.runningTask == w.runningTask && v.tasks == w.tasks && v.nextHandle == w.nextHandle
    && v.pendingEvt == w.pendingEvt && v.mailbox == w.mailbox && v.waiting == w.waiting && v.halted == w.halted
    && v.now == w.now
  }

  // Events

  /** Where an event takes the phase. */
  predicate Leads(w: World, event: Event, w': World) {
    match event
    case FEPowerSupplied => w'.phase == PingCentralStation
    case CSBLEDisconnect => w'.phase == GarageOpen
    case CSBLEConnect => w'.phase == BLEConnected
    case FERoverStop => w'.phase == if w.phase == AntReady then AntRun else w.phase
    case FERoverMove => w'.phase == if w.phase == AntRun then AntReady else w.phase
    case _ => w'.phase == w.phase
  }

  /** The task it leaves live, and no other: a new one with the next handle, none, or the one there was. */
  predicate Leaves(w: World, event: Event, w': World) {
    match event
    case FEPowerSupplied =>
      if w.phase == PingCentralStation then Same(w, w') else OnlyTask(w', w.nextHandle, PingInterval)
    case FEGarageOpen => if w.phase == GarageOpen then Same(w, w') else OnlyTask(w', w.nextHandle, GarageRetry)
    case CSBLEDisconnect => w'.tasks == map[] && w'.runningTask == None
    case CSBLEConnect =>
      if w.phase == BLEConnected then Same(w, w') else OnlyTask(w', w.nextHandle, BleTimer(w.now + 60 * SECOND))
    case FERoverStop =>
      if w.phase == AntReady then OnlyTask(w', w.nextHandle, AntDelay(w.now + 10 * SECOND)) else Same(w, w')
    case FERoverMove => if w.phase == AntRun then OnlyTask(w', w.nextHandle, AntStopRetry) else Same(w, w')
    case _ => Same(w, w')
  }

  predicate Same(w: World, w': World) {
    w'.tasks == w.tasks && w'.runningTask == w.runningTask
  }

  /** The stop it leaves held. */
  predicate Holds(w: World, event: Event, w': World) {
    match event
    case FERoverStop => w'.pendingEvt == if w.phase == AntReady || w.phase == AntRun then None else Some(FERoverStop)
    case FERoverMove => w'.pendingEvt == None
    case _ => w'.pendingEvt == w.pendingEvt
  }

  lemma EventLeads(w: World, event: Event, fromGround: bool)
    ensures Leads(w, event, HandleEvent(w, event, fromGround))
  {
  }

  lemma EventLeaves(w: World, event: Event, fromGround: bool)
    requires OneLiveTask(w)
    ensures Leaves(w, event, HandleEvent(w, event, fromGround))
  {
  }

  lemma EventHolds(w: World, event: Event, fromGround: bool)
    requires OnlyStopsQueued(w)
    ensures Holds(w, event, HandleEvent(w, event, fromGround))
  {
    hide Cancelled;
  }

  /** What the event itself puts on record, and what it makes the machine wait for. */
  lemma EventRecords(w: World, event: Event, fromGround: bool)
    ensures var w' := HandleEvent(w, event, fromGround);
      && w'.log == w.log + [Handled(w.now, event, fromGround, w.mailbox != [])]
                   + (if event == AntPing then [AntPingSent(w.now)]
                      else if event != FERoverStop || w.phase == AntRun then []
                      else if w.phase == AntReady then [StopAccepted(w.now)]
                      else [StopQueued(w.now)])
      && w'.waiting == w.waiting + (if event == AntPing then 1 else 0)
      && (w'.halted <==> w.halted || event == FERestart)
      && w'.now == w.now && w'.mailbox == w.mailbox
  {
    hide Cancelled;
    assert forall s: seq<Record> :: s + [] == s;
  }

  /**
   * What a packet from the ground does, in every run: the phase it leads to, the one task it leaves live, the stop it
   * leaves held, and what is put on record, forwarding last.
   */
  lemma PacketTakesEffect(steps: seq<Step>, event: Event, dest: Destination)
    requires Listening(Reached(steps))
    ensures var w, w' := Reached(steps), Reached(steps + [FromGround(event, dest)]);
      && Leads(w, event, w') && Leaves(w, event, w') && Holds(w, event, w')
      && w'.mailbox == w.mailbox && w'.now == w.now
      && w'.waiting == (if event == AntPing then 1 else 0)
      && (w'.halted <==> event == FERestart)
      && w'.log == HandleEvent(w, event, true).log
                   + if event != FERestart && (dest == Ant || dest == CentralStation) then [Forwarded(w.now, event)]
                     else []
  {
    hide Reached, HandleEvent, Leads, Leaves, Holds;
    var w := Reached(steps);
    ShapeReached(steps);
    ReachedThen(steps, FromGround(event, dest));
    EventLeads(w, event, true);
    EventLeaves(w, event, true);
    EventHolds(w, event, true);
    EventRecords(w, event, true);
    hide Shape;
    var once := HandleEvent(w, event, true);
    assert once.log + [] == once.log;
    ForwardingMovesNothing(w, event, once, once.(log := once.log + [Forwarded(w.now, event)]));
  }

  lemma ForwardingMovesNothing(w: World, event: Event, v: World, w': World)
    requires Leads(w, event, v) && Leaves(w, event, v) && Holds(w, event, v) && Unmoved(v, w')
    ensures Leads(w, event, w') && Leaves(w, event, w') && Holds(w, event, w')
  {
  }

  /** A move during a run tells the ant to stop, and does nothing else. */
  lemma MoveStopsTheAnt(steps: seq<Step>, dest: Destination)
    requires Listening(Reached(steps)) && Reached(steps).phase == AntRun
    ensures var w := Reached(steps + [FromGround(FERoverMove, dest)]);
      w.phase == AntReady && w.tasks == map[Reached(steps).nextHandle := AntStopRetry]
  {
    hide Reached;
    PacketTakesEffect(steps, FERoverMove, dest);
  }

  /** From the serial side connects and disconnects take effect; every other message leaves the machine as it is. */
  lemma MessageTakesEffect(steps: seq<Step>, event: Event)
    requires Listening(Reached(steps))
    ensures var w, w' := Reached(steps), Reached(steps + [FromSerial(event)]);
      && (event != CSBLEConnect && event != CSBLEDisconnect ==> w' == w)
      && (event == CSBLEConnect || event == CSBLEDisconnect ==>
          Leads(w, event, w') && Leaves(w, event, w') && w'.pendingEvt == w.pendingEvt
          && w'.mailbox == w.mailbox && w'.now == w.now && Listening(w')
          && w'.log == w.log + [Handled(w.now, event, false, w.mailbox != [])])
  {
    hide Reached, HandleEvent, Leads, Leaves, Holds;
    var w := Reached(steps);
    ShapeReached(steps);
    ReachedThen(steps, FromSerial(event));
    EventLeads(w, event, false);
    EventLeaves(w, event, false);
    EventHolds(w, event, false);
    EventRecords(w, event, false);
    hide Shape;
    OnlyHeldStopsMove(w, event, HandleEvent(w, event, false));
    assert forall s: seq<Record> :: s + [] == s;
  }

  lemma OnlyHeldStopsMove(w: World, event: Event, w': World)
    requires Holds(w, event, w')
    ensures event != FERoverStop && event != FERoverMove ==> w'.pendingEvt == w.pendingEvt
  {
  }

  /** A re-sent stop is taken out of the mailbox and handled like any other. */
  lemma MailTakesEffect(steps: seq<Step>)
    requires Listening(Reached(steps)) && Reached(steps).mailbox != []
    ensures var w, w' := Reached(steps), Reached(steps + [Resent]);
      && w'.mailbox == w.mailbox[1..]
      && (w.phase == AntReady ==> w'.phase == AntRun && OnlyTask(w', w.nextHandle, AntDelay(w.now + 10 * SECOND)))
      && (w.phase == AntRun ==> w'.phase == AntRun && Same(w, w'))
      && (w.phase != AntReady && w.phase != AntRun ==>
          w'.phase == w.phase && Same(w, w') && w'.pendingEvt == Some(FERoverStop))
  {
    hide Reached, HandleEvent;
    var w := Reached(steps);
    ShapeReached(steps);
    ReachedThen(steps, Resent);
    assert w.mailbox[0] == FERoverStop;
    var taken := w.(mailbox := w.mailbox[1..]);
    EventLeads(taken, FERoverStop, false);
    EventLeaves(taken, FERoverStop, false);
    EventHolds(taken, FERoverStop, false);
    EventRecords(taken, FERoverStop, false);
  }

  /** While a future is waited for, and once the process has exited, nothing but time and the wait itself goes on. */
  lemma NothingWhileWaiting(w: World, s: Step)
    requires w.halted || (w.waiting > 0 && !s.WaitOver? && !s.TimePasses?)
    ensures Do(w, s) == w
  {
  }

  lemma WaitsEnd(w: World)
    requires !w.halted
    ensures Do(w, WaitOver) == w.(waiting := if w.waiting == 0 then 0 else w.waiting - 1)
  {
  }

  // Timers

  /** Some time later the runtime finds a timer, or an interval, to run. */
  function Later(w: World, d: nat, s: Step): (w': World) {
    Do(Do(w, TimePasses(d)), s)
  }

  lemma ReachedLater(steps: seq<Step>, d: nat, s: Step)
    ensures Reached(steps + [TimePasses(d)] + [s]) == Later(Reached(steps), d, s)
  {
    hide Reached, Do;
    ReachedThen(steps, TimePasses(d));
    ReachedThen(steps + [TimePasses(d)], s);
  }

  /**
   * A settling timer that is live makes the machine ready exactly when it is due, whether or not a stop is held; a stop
   * that is held goes into the mailbox. Before that it does nothing.
   */
  lemma SettlingEnds(steps: seq<Step>, h: nat, d: nat)
    requires var w := Reached(steps); Listening(w) && h in w.tasks && w.tasks[h].BleTimer?
    ensures var w, v := Reached(steps), Reached(steps + [TimePasses(d)] + [Timer(h)]);
      && (v.phase == AntReady <==> w.tasks[h].due <= w.now + d)
      && if w.now + d < w.tasks[h].due then v == w.(now := w.now + d)
         else
           && v.tasks == map[] && v.pendingEvt == None && Listening(v) && v.now == w.now + d
           && v.nextHandle == w.nextHandle
           && v.mailbox == w.mailbox + (if w.pendingEvt == Some(FERoverStop) then [FERoverStop] else [])
           && v.log == w.log + [Ready(w.now + d)]
  {
    hide Reached;
    ReachedLater(steps, d, Timer(h));
    LiveTaskIsHeld(steps, h);
    ShapeReached(steps);
    hide Fresh;
  }

  /** The delay after an accepted stop ends in the ant's start, on record and waited for, and in the interval. */
  lemma DelayEnds(steps: seq<Step>, h: nat, d: nat)
    requires var w := Reached(steps); Listening(w) && h in w.tasks && w.tasks[h].AntDelay?
    ensures var w, v := Reached(steps), Reached(steps + [TimePasses(d)] + [Timer(h)]);
      if w.now + d < w.tasks[h].due then v == w.(now := w.now + d)
      else
        && v.phase == AntRun && OnlyTask(v, w.nextHandle, AntInterval(w.now + d)) && v.waiting == 1 && !v.halted
        && v.now == w.now + d
        && v.log == w.log + [AntStartSent(w.now + d)]
  {
    hide Reached;
    ReachedLater(steps, d, Timer(h));
    LiveTaskIsHeld(steps, h);
  }

  /** From thirty seconds after it began on, each tick of the interval is another start; before that it is none. */
  lemma IntervalStarts(steps: seq<Step>, h: nat, d: nat)
    requires var w := Reached(steps); Listening(w) && h in w.tasks && w.tasks[h].AntInterval?
    ensures var w, v := Reached(steps), Reached(steps + [TimePasses(d)] + [Tick(h)]);
      if w.now + d < w.tasks[h].since + 30 * SECOND then v == w.(now := w.now + d)
      else v == w.(now := w.now + d, waiting := 1, log := w.log + [AntStartSent(w.now + d)])
  {
    hide Reached;
    ReachedLater(steps, d, Tick(h));
  }

  /** A retry that is over leaves nothing live; telling the ant to stop changes nothing else, however it went. */
  lemma StopRetryEnds(steps: seq<Step>, h: nat, success: bool)
    requires var w := Reached(steps); Listening(w) && h in w.tasks && w.tasks[h].AntStopRetry?
    ensures Reached(steps + [RetryOver(h, success)]) == Reached(steps).(tasks := map[])
  {
    hide Reached;
    ReachedThen(steps, RetryOver(h, success));
    LiveTaskIsHeld(steps, h);
  }

  // All the way

  /** A disconnect, a connect that settles, a stop that sits out its delay. */
  function Way(h: nat): (steps: seq<Step>) {
    [FromSerial(CSBLEDisconnect), FromSerial(CSBLEConnect), TimePasses(60 * SECOND), Timer(h),
     FromGround(FERoverStop, Frontend), TimePasses(10 * SECOND), Timer(h + 1)]
  }

  /**
   * The ant can be started from every state of every run in which the machine is listening, and seventy seconds are
   * enough: no start can come sooner after a connect, and this one does not come later.
   */
  lemma SeventySecondsAreEnough(steps: seq<Step>)
    requires Listening(Reached(steps))
    ensures var w, v := Reached(steps), Reached(steps + Way(Reached(steps).nextHandle));
      && v.phase == AntRun && v.now == w.now + 70 * SECOND
      && |v.log| > |w.log| && v.log[|v.log| - 1] == AntStartSent(w.now + 70 * SECOND)
  {
    hide Reached, Leads, Leaves, OnlyTask;
    var w, h := Reached(steps), Reached(steps).nextHandle;
    var a := steps + [FromSerial(CSBLEDisconnect)];
    var b := a + [FromSerial(CSBLEConnect)];
    var c := b + [TimePasses(60 * SECOND)] + [Timer(h)];
    var d := c + [FromGround(FERoverStop, Frontend)];
    assert steps + Way(h) == d + [TimePasses(10 * SECOND)] + [Timer(h + 1)];
    Connecting(steps, a, b);
    Settling(b, h, w.now);
    Stopping(c, h + 1, w.now + 60 * SECOND);
    DelayEnds(d, h + 1, 10 * SECOND);
    LogsGrow(w, Reached(a), Reached(b), Reached(c), Reached(d));
  }

  /** The log is that of `w` and more. */
  predicate Extends(v: World, w: World) {
    |v.log| >= |w.log|
  }

  lemma LogsGrow(w: World, a: World, b: World, c: World, d: World)
    requires Extends(b, w) && Extends(c, b) && Extends(d, c)
    ensures Extends(d, w)
  {
  }

  lemma Connecting(steps: seq<Step>, a: seq<Step>, b: seq<Step>)
    requires Listening(Reached(steps))
    requires a == steps + [FromSerial(CSBLEDisconnect)] && b == a + [FromSerial(CSBLEConnect)]
    ensures var w, v := Reached(steps), Reached(b);
      Listening(v) && v.now == w.now && Extends(v, w)
      && v.tasks == map[w.nextHandle := BleTimer(w.now + 60 * SECOND)] && v.nextHandle == w.nextHandle + 1
  {
    hide Reached;
    MessageTakesEffect(steps, CSBLEDisconnect);
    MessageTakesEffect(a, CSBLEConnect);
    HandlesCount(steps, CSBLEDisconnect);
    HandlesCount(a, CSBLEConnect);
  }

  lemma HandlesCount(steps: seq<Step>, event: Event)
    requires Listening(Reached(steps))
    ensures var w, w' := Reached(steps), Reached(steps + [FromSerial(event)]);
      && (event == CSBLEDisconnect ==> w'.nextHandle == w.nextHandle)
      && (event == CSBLEConnect && w.phase != BLEConnected ==> w'.nextHandle == w.nextHandle + 1)
  {
    hide Reached, Cancelled;
    ReachedThen(steps, FromSerial(event));
  }

  lemma Settling(b: seq<Step>, h: nat, t: int)
    requires var w := Reached(b);
      Listening(w) && w.now == t && w.tasks == map[h := BleTimer(t + 60 * SECOND)] && w.nextHandle == h + 1
    ensures var v := Reached(b + [TimePasses(60 * SECOND)] + [Timer(h)]);
      Listening(v) && v.now == t + 60 * SECOND && v.phase == AntReady && v.nextHandle == h + 1 && Extends(v, Reached(b))
  {
    hide Reached;
    SettlingEnds(b, h, 60 * SECOND);
  }

  lemma Stopping(c: seq<Step>, h: nat, t: int)
    requires var w := Reached(c); Listening(w) && w.now == t && w.phase == AntReady && w.nextHandle == h
    ensures var v := Reached(c + [FromGround(FERoverStop, Frontend)]);
      Listening(v) && v.now == t && v.tasks == map[h := AntDelay(t + 10 * SECOND)] && Extends(v, Reached(c))
  {
    hide Reached, HandleEvent;
    PacketTakesEffect(c, FERoverStop, Frontend);
    EventRecords(Reached(c), FERoverStop, true);
  }
}
