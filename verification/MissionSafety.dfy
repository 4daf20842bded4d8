/** What every run of the mission state machine keeps. */
module MissionSafety {
  import opened Bytes
  import opened Messages
  import opened Mission

  datatype Step =
    | FromGround(event: Event, dest: Destination)
    | FromSerial(event: Event)
    | Resent
    | Timer(handle: nat)
    | Tick(handle: nat)
    | RetryOver(handle: nat, success: bool)
    | WaitOver
    | TimePasses(duration: nat)

  /** One step. While the actor waits for a future nothing else is run. */
  function Do(w: World, s: Step): (w': World) {
    if w.halted then w
    else if s.TimePasses? then w.(now := w.now + s.duration)
    else if s.WaitOver? then w.(waiting := if w.waiting > 0 then w.waiting - 1 else 0)
    else if w.waiting > 0 then w
    else
      match s
      case FromGround(event, dest) => UpCommand(w, event, dest)
      case FromSerial(event) => DownMessage(w, event)
      case Resent => Wrapped(w)
      case Timer(h) => TimerFires(w, h)
      case Tick(h) => IntervalTicks(w, h)
      case RetryOver(h, success) => RetryEnds(w, h, success)
  }

  function Reached(steps: seq<Step>): (w: World) {
    if steps == [] then LAUNCH else Do(Reached(steps[..|steps| - 1]), steps[|steps| - 1])
  }

  // One live task, with a phase to match.

  predicate Matches(task: Task, phase: Phase) {
    match task
    case PingInterval => phase == PingCentralStation
    case GarageRetry => phase != GarageOpen
    case BleTimer(_) => phase == BLEConnected
    case AntDelay(_) => phase == AntRun
    case AntInterval(_) => phase == AntRun
    case AntStopRetry => phase == AntReady
  }

  ghost predicate OneLiveTask(w: World) {
    && Fresh(w)
    && forall h :: h in w.tasks ==> w.runningTask == Some(h) && Matches(w.tasks[h], w.phase)
  }

  ghost predicate OnlyStopsQueued(w: World) {
    && (w.pendingEvt == None || w.pendingEvt == Some(FERoverStop))
    && (w.phase == AntReady || w.phase == AntRun ==> w.pendingEvt == None)
    && forall k :: 0 <= k < |w.mailbox| ==> w.mailbox[k] == FERoverStop
  }

  ghost predicate Shape(w: World) {
    OneLiveTask(w) && OnlyStopsQueued(w)
  }

  // What the log tells.

  predicate Resets(r: Record) {
    r.GarageOpened? || (r.Handled? && (r.event == CSBLEDisconnect || r.event == FEPowerSupplied))
  }

  predicate Interrupts(r: Record) {
    || r.GarageOpened?
    || (r.Handled? && r.event in {CSBLEDisconnect, CSBLEConnect, FEPowerSupplied, FEGarageOpen, FERoverMove})
  }

  /** The first connect since the last reset. */
  function ConnectAt(log: seq<Record>): (r: Option<nat>)
    ensures r.Some? ==>
      && r.value < |log| && log[r.value].Handled? && log[r.value].event == CSBLEConnect
      && forall k :: r.value < k < |log| ==> !Resets(log[k])
  {
    if log == [] then None
    else
      var before := ConnectAt(log[..|log| - 1]);
      var last := log[|log| - 1];
      if Resets(last) then None
      else if before.None? && last.Handled? && last.event == CSBLEConnect then Some(|log| - 1)
      else before
  }

  /** The last accepted stop, unless something has interrupted it. */
  function AcceptAt(log: seq<Record>): (r: Option<nat>)
    ensures r.Some? ==>
      && r.value < |log| && log[r.value].StopAccepted?
      && forall k :: r.value < k < |log| ==> !Interrupts(log[k])
  {
    if log == [] then None
    else
      var last := log[|log| - 1];
      if last.StopAccepted? then Some(|log| - 1) else if Interrupts(last) then None else AcceptAt(log[..|log| - 1])
  }

  /** Whether a queued stop has been neither taken back nor accepted. */
  function Owed(log: seq<Record>): (r: bool) {
    if log == [] then false
    else
      var last := log[|log| - 1];
      if last.StopQueued? then true
      else if last.StopAccepted? || (last.Handled? && last.event == FERoverMove) then false
      else Owed(log[..|log| - 1])
  }

  predicate IsRover(r: Record) {
    r.Handled? && (r.event == FERoverStop || r.event == FERoverMove)
  }

  /** The last rover event; with `ground`, of those that came from the ground and not from the machine's own mailbox. */
  function LastRover(log: seq<Record>, ground: bool): (r: Option<Record>)
    ensures r.Some? ==> r.value in log && IsRover(r.value)
  {
    if log == [] then None
    else
      var last := log[|log| - 1];
      if IsRover(last) && (ground ==> last.fromGround) then Some(last)
      else LastRover(log[..|log| - 1], ground)
  }

  /** How far the mission has come, by the last record that decides it. */
  datatype Stage = Idle | Powered | Opened | Linked

  function StageAfter(before: Stage, r: Record): (s: Stage) {
    if r.GarageOpened? || (r.Handled? && r.event == CSBLEDisconnect) then Opened
    else if r.Handled? && r.event == FEPowerSupplied then Powered
    else if r.Handled? && r.event == CSBLEConnect then Linked
    else before
  }

  function StageOf(log: seq<Record>): (s: Stage) {
    if log == [] then Idle else StageAfter(StageOf(log[..|log| - 1]), log[|log| - 1])
  }

  /** A request for the garage stops the running task and yet does not end the run. */
  predicate EndsRun(r: Record) {
    Interrupts(r) && !(r.Handled? && r.event == FEGarageOpen)
  }

  /** Whether a stop was accepted and nothing has ended the run since. */
  function Runs(log: seq<Record>): (b: bool) {
    if log == [] then false
    else
      var last := log[|log| - 1];
      last.StopAccepted? || (!EndsRun(last) && Runs(log[..|log| - 1]))
  }

  lemma StageSnoc(log: seq<Record>, r: Record)
    ensures StageOf(log + [r]) == StageAfter(StageOf(log), r)
    ensures Runs(log + [r]) == (r.StopAccepted? || (!EndsRun(r) && Runs(log)))
  {
    Snoc(log, r);
  }

  lemma Snoc(log: seq<Record>, r: Record)
    ensures (log + [r])[..|log + [r]| - 1] == log && (log + [r])[|log + [r]| - 1] == r
  {
  }

  lemma ConnectSnoc(log: seq<Record>, r: Record)
    ensures ConnectAt(log + [r]) ==
      if Resets(r) then None
      else if ConnectAt(log).None? && r.Handled? && r.event == CSBLEConnect then Some(|log|)
      else ConnectAt(log)
  {
    Snoc(log, r);
  }

  lemma AcceptSnoc(log: seq<Record>, r: Record)
    ensures AcceptAt(log + [r]) ==
      if r.StopAccepted? then Some(|log|) else if Interrupts(r) then None else AcceptAt(log)
  {
    Snoc(log, r);
  }

  lemma OwedSnoc(log: seq<Record>, r: Record)
    ensures Owed(log + [r]) ==
      (r.StopQueued? || (!r.StopAccepted? && !(r.Handled? && r.event == FERoverMove) && Owed(log)))
  {
    Snoc(log, r);
  }

  lemma RoverSnoc(log: seq<Record>, r: Record, ground: bool)
    ensures LastRover(log + [r], ground) ==
      if IsRover(r) && (ground ==> r.fromGround) then Some(r)
      else LastRover(log, ground)
  {
    Snoc(log, r);
  }

  // Timing.

  /** A connect that is still good was handled at least a settling time before `t`. */
  ghost predicate Connected(log: seq<Record>, t: int) {
    ConnectAt(log).Some? && log[ConnectAt(log).value].at + BLE_SETTLE <= t
  }

  /** A stop was accepted by a connected machine, at least the delay before `t`; nothing has interrupted it. */
  ghost predicate Accepted(log: seq<Record>, t: int) {
    && ConnectAt(log).Some? && AcceptAt(log).Some? && ConnectAt(log).value < AcceptAt(log).value
    && log[ConnectAt(log).value].at + BLE_SETTLE <= log[AcceptAt(log).value].at
    && log[AcceptAt(log).value].at + ANT_DELAY <= t
  }

  lemma ConnectedKept(log: seq<Record>, r: Record, t: int)
    requires !Resets(r) && Connected(log, t)
    ensures Connected(log + [r], t)
  {
    ConnectSnoc(log, r);
  }

  lemma AcceptedKept(log: seq<Record>, r: Record, t: int)
    requires !Interrupts(r) && !r.StopAccepted? && Accepted(log, t)
    ensures Accepted(log + [r], t)
  {
    ConnectSnoc(log, r);
    AcceptSnoc(log, r);
  }

  lemma ConnectStarts(log: seq<Record>, r: Record, t: int)
    requires r.Handled? && r.event == CSBLEConnect && r.at + BLE_SETTLE <= t
    requires forall k :: 0 <= k < |log| ==> log[k].at <= r.at
    ensures Connected(log + [r], t)
  {
    ConnectSnoc(log, r);
  }

  lemma AcceptStarts(log: seq<Record>, r: Record, t: int)
    requires r.StopAccepted? && Connected(log, r.at) && r.at + ANT_DELAY <= t
    ensures Accepted(log + [r], t)
  {
    ConnectSnoc(log, r);
    AcceptSnoc(log, r);
  }

  ghost predicate TaskTimed(task: Task, log: seq<Record>, now: int) {
    match task
    case BleTimer(due) => Connected(log, due)
    case AntDelay(due) => Accepted(log, due)
    case AntInterval(since) => Accepted(log, since)
    case _ => true
  }

  ghost predicate Past(log: seq<Record>, now: int) {
    forall k :: 0 <= k < |log| ==> log[k].at <= now
  }

  ghost predicate Justified(log: seq<Record>) {
    forall k :: 0 <= k < |log| && log[k].AntStartSent? ==> Accepted(log[..k], log[k].at)
  }

  ghost predicate Timed(w: World) {
    && Past(w.log, w.now)
    && Justified(w.log)
    && (w.phase == AntReady || w.phase == AntRun ==> Connected(w.log, w.now))
    && forall h :: h in w.tasks ==> TaskTimed(w.tasks[h], w.log, w.now)
  }

  lemma JustifiedKept(log: seq<Record>, r: Record)
    requires Justified(log) && (r.AntStartSent? ==> Accepted(log, r.at))
    ensures Justified(log + [r])
  {
    hide Accepted;
    var all := log + [r];
    forall k | 0 <= k < |all| && all[k].AntStartSent? ensures Accepted(all[..k], all[k].at) {
      if k < |log| { assert all[..k] == log[..k]; } else { assert all[..k] == log; }
    }
  }

  // What became of a stop that had to wait.

  /** `holding`: a re-sent stop has been taken out of the mailbox and is about to be handled. */
  ghost predicate StopKept(w: World, holding: bool) {
    var waits := w.pendingEvt.Some? || w.mailbox != [] || holding;
    && (Owed(w.log) ==> w.phase != AntRun && waits)
    && (w.pendingEvt.Some? ==> Owed(w.log))
    && (w.pendingEvt.Some? || w.phase == AntRun ==>
        LastRover(w.log, false).Some? && LastRover(w.log, false).value.event == FERoverStop)
    && (waits || w.phase == AntRun ==>
        LastRover(w.log, true).Some?
        && (LastRover(w.log, true).value.event == FERoverStop || LastRover(w.log, true).value.overMail))
  }

  ghost predicate Kept(w: World) {
    StopKept(w, false)
  }

  /** The phase is what the log says. */
  ghost predicate Tells(log: seq<Record>, phase: Phase) {
    && (phase == FlightIdle <==> StageOf(log) == Idle)
    && (phase == PingCentralStation <==> StageOf(log) == Powered)
    && (phase == GarageOpen <==> StageOf(log) == Opened)
    && (phase == BLEConnected || phase == AntReady || phase == AntRun <==> StageOf(log) == Linked)
    && (phase == AntRun <==> Runs(log))
  }

  ghost predicate Told(w: World) {
    Tells(w.log, w.phase)
  }

  ghost predicate Inv(w: World) {
    Shape(w) && Timed(w) && Kept(w) && Told(w)
  }

  // The invariant, step by step: shape.

  lemma OneTaskAfterEvent(w: World, event: Event, fromGround: bool)
    requires OneLiveTask(w)
    ensures OneLiveTask(HandleEvent(w, event, fromGround))
  {
    HandlesStayFresh(w, event, fromGround);
    hide Fresh;
  }

  lemma OnlyStopsAfterEvent(w: World, event: Event, fromGround: bool)
    requires OnlyStopsQueued(w)
    ensures OnlyStopsQueued(HandleEvent(w, event, fromGround))
  {
    hide Cancelled;
  }

  lemma ShapeAfterEvent(w: World, event: Event, fromGround: bool)
    requires Shape(w)
    ensures Shape(HandleEvent(w, event, fromGround))
  {
    hide OneLiveTask, OnlyStopsQueued, HandleEvent;
    OneTaskAfterEvent(w, event, fromGround);
    OnlyStopsAfterEvent(w, event, fromGround);
  }

  lemma ShapeAfterTask(w: World, h: nat, success: bool)
    requires Shape(w)
    ensures Shape(TimerFires(w, h)) && Shape(IntervalTicks(w, h)) && Shape(RetryEnds(w, h, success))
  {
  }

  // Timing.

  /** A record that ends nothing which the machine still relies on. */
  ghost predicate Harmless(w: World, r: Record) {
    && r.at <= w.now
    && (r.AntStartSent? ==> Accepted(w.log, r.at))
    && (Interrupts(r) || r.StopAccepted? ==>
        forall h :: h in w.tasks ==> !w.tasks[h].AntDelay? && !w.tasks[h].AntInterval?)
    && (Resets(r) ==> w.phase != AntReady && w.phase != AntRun && forall h :: h in w.tasks ==> !w.tasks[h].BleTimer?)
  }

  lemma TaskStaysTimed(task: Task, log: seq<Record>, r: Record, now: int)
    requires TaskTimed(task, log, now)
    requires Interrupts(r) || r.StopAccepted? ==> !task.AntDelay? && !task.AntInterval?
    requires Resets(r) ==> !task.BleTimer?
    ensures TaskTimed(task, log + [r], now)
  {
    hide Accepted, Connected, Interrupts, Resets;
    match task {
      case BleTimer(due) => ConnectedKept(log, r, due);
      case AntDelay(due) => AcceptedKept(log, r, due);
      case AntInterval(since) => AcceptedKept(log, r, since);
      case _ =>
    }
  }

  lemma TimedAfterRecord(w: World, r: Record)
    requires Timed(w) && Harmless(w, r)
    ensures Timed(w.(log := w.log + [r]))
  {
    hide Accepted, Connected, Interrupts, Resets, TaskTimed;
    JustifiedKept(w.log, r);
    if w.phase == AntReady || w.phase == AntRun { ConnectedKept(w.log, r, w.now); }
    forall h | h in w.tasks ensures TaskTimed(w.tasks[h], w.log + [r], w.now) {
      TaskStaysTimed(w.tasks[h], w.log, r, w.now);
    }
  }

  /** An event that leaves the running task alone, seen from the log. */
  lemma QuietEventIsHarmless(w: World, event: Event, fromGround: bool)
    requires Shape(w)
    requires var r := React(w.phase, event, w.now); !r.Begin? && !r.Reset?
    ensures Harmless(w, Handled(w.now, event, fromGround, w.mailbox != []))
  {
    hide Accepted;
  }

  /** An event that begins a task, or resets the machine, first clears the way. */
  lemma ClearedIsHarmless(w: World, event: Event, fromGround: bool, phase: Phase)
    requires Timed(w)
    requires phase == AntReady || phase == AntRun ==> w.phase == AntReady || w.phase == AntRun
    requires phase == AntReady || phase == AntRun ==> event != CSBLEDisconnect && event != FEPowerSupplied
    ensures var record := Handled(w.now, event, fromGround, w.mailbox != []);
      Timed(w.(tasks := map[], phase := phase, log := w.log + [record]))
  {
    hide Accepted, Connected;
    TimedAfterRecord(w.(tasks := map[], phase := phase), Handled(w.now, event, fromGround, w.mailbox != []));
  }

  lemma TimedDependsOn(v: World, w: World)
    requires Timed(v)
    requires v.log == w.log && v.now == w.now && v.phase == w.phase
    requires forall h :: h in w.tasks ==> TaskTimed(w.tasks[h], w.log, w.now)
    ensures Timed(w)
  {
    hide Connected, Justified, Past, TaskTimed;
  }

  /** A world without tasks that is as late as another and as far into its log. */
  lemma TimedDependsOnLog(v: World, w: World)
    requires Timed(v) && w.tasks == map[]
    requires v.log == w.log && v.now == w.now
    requires w.phase == AntReady || w.phase == AntRun ==> Connected(w.log, w.now)
    ensures Timed(w)
  {
    hide Connected, Justified, Past;
  }

  lemma TimedAfterBegin(w: World, event: Event, fromGround: bool)
    requires Shape(w) && Timed(w) && React(w.phase, event, w.now).Begin?
    ensures Timed(HandleEvent(w, event, fromGround))
  {
    hide Accepted, Connected, Justified;
    var r := React(w.phase, event, w.now);
    var record := Handled(w.now, event, fromGround, w.mailbox != []);
    var seen := w.(tasks := map[], phase := r.phase, log := w.log + [record]);
    ClearedIsHarmless(w, event, fromGround, r.phase);
    if r.accepts {
      TimedAfterRecord(seen, StopAccepted(w.now));
      AcceptStarts(seen.log, StopAccepted(w.now), w.now + ANT_DELAY);
      TimedDependsOn(seen.(log := seen.log + [StopAccepted(w.now)]), HandleEvent(w, event, fromGround));
    } else {
      if event == CSBLEConnect { ConnectStarts(w.log, record, w.now + BLE_SETTLE); }
      TimedDependsOn(seen, HandleEvent(w, event, fromGround));
    }
  }

  lemma TimedAfterReset(w: World, event: Event, fromGround: bool)
    requires Shape(w) && Timed(w) && React(w.phase, event, w.now).Reset?
    ensures Timed(HandleEvent(w, event, fromGround))
  {
    hide Timed, Accepted;
    var record := Handled(w.now, event, fromGround, w.mailbox != []);
    ClearedIsHarmless(w, event, fromGround, GarageOpen);
    TimedDependsOn(w.(tasks := map[], phase := GarageOpen, log := w.log + [record]), HandleEvent(w, event, fromGround));
  }

  /** An event that leaves the running task alone adds records and nothing else that matters here. */
  lemma TimedAfterQuiet(w: World, event: Event, fromGround: bool)
    requires Shape(w) && Timed(w)
    requires var r := React(w.phase, event, w.now); !r.Begin? && !r.Reset?
    ensures Timed(HandleEvent(w, event, fromGround))
  {
    hide Accepted, Connected, Justified, Past, TaskTimed, Harmless;
    var r := React(w.phase, event, w.now);
    var seen := Noted(w, event, fromGround);
    QuietEventIsHarmless(w, event, fromGround);
    TimedAfterRecord(w, Handled(w.now, event, fromGround, w.mailbox != []));
    OwnRecordsAreHarmless(seen);
    var noted := if r.Queue? then [StopQueued(w.now)] else if r.PingAnt? then [AntPingSent(w.now)] else [];
    if noted != [] { TimedAfterRecord(seen, noted[0]); }
    assert seen.log + [] == seen.log;
    TimedDependsOn(seen.(log := seen.log + noted), HandleEvent(w, event, fromGround));
  }

  lemma OwnRecordsAreHarmless(w: World)
    ensures Harmless(w, StopQueued(w.now)) && Harmless(w, AntPingSent(w.now))
  {
  }

  lemma TimedAfterEvent(w: World, event: Event, fromGround: bool)
    requires Shape(w) && Timed(w)
    ensures Timed(HandleEvent(w, event, fromGround))
  {
    hide Shape, Timed, HandleEvent, React;
    var r := React(w.phase, event, w.now);
    if r.Begin? {
      TimedAfterBegin(w, event, fromGround);
    } else if r.Reset? {
      TimedAfterReset(w, event, fromGround);
    } else {
      TimedAfterQuiet(w, event, fromGround);
    }
  }

  lemma TimedAfterTimer(w: World, h: nat)
    requires Shape(w) && Timed(w)
    ensures Timed(TimerFires(w, h))
  {
    hide Accepted, Connected, Justified, Past;
    if h in w.tasks && w.tasks[h].BleTimer? && w.now >= w.tasks[h].due {
      LaterIsConnected(w.log, w.tasks[h].due, w.now);
      var idle := w.(tasks := map[]);
      TimedAfterRecord(idle, Ready(w.now));
      ConnectedKept(w.log, Ready(w.now), w.now);
      TimedDependsOnLog(idle.(log := w.log + [Ready(w.now)]), TimerFires(w, h));
    } else if h in w.tasks && w.tasks[h].AntDelay? && w.now >= w.tasks[h].due {
      LaterIsAccepted(w.log, w.tasks[h].due, w.now);
      var idle := w.(tasks := map[]);
      TimedAfterRecord(idle, AntStartSent(w.now));
      AcceptedKept(w.log, AntStartSent(w.now), w.now);
      TimedDependsOn(idle.(log := w.log + [AntStartSent(w.now)]), TimerFires(w, h));
    }
  }

  lemma LaterIsConnected(log: seq<Record>, t: int, u: int)
    requires Connected(log, t) && t <= u
    ensures Connected(log, u)
  {
  }

  lemma LaterIsAccepted(log: seq<Record>, t: int, u: int)
    requires Accepted(log, t) && t <= u
    ensures Accepted(log, u)
  {
  }

  lemma TimedAfterTick(w: World, h: nat)
    requires Shape(w) && Timed(w)
    ensures Timed(IntervalTicks(w, h))
  {
    hide Accepted, Connected, Justified, Past;
    if h in w.tasks && w.tasks[h].AntInterval? && w.now >= w.tasks[h].since + ANT_PERIOD {
      LaterIsAccepted(w.log, w.tasks[h].since, w.now);
      TimedAfterRecord(w, AntStartSent(w.now));
    }
  }

  lemma TimedAfterRetry(w: World, h: nat, success: bool)
    requires Shape(w) && Timed(w)
    ensures Timed(RetryEnds(w, h, success))
  {
    hide Accepted, Connected, Justified;
    if h in w.tasks && w.tasks[h].GarageRetry? && success {
      var idle := w.(tasks := map[], phase := GarageOpen);
      TimedAfterRecord(idle, GarageOpened(w.now));
      TimedDependsOn(idle.(log := w.log + [GarageOpened(w.now)]), RetryEnds(w, h, success));
    }
  }

  // A stop that has to wait.

  lemma KeptAfterBegin(w: World, event: Event, fromGround: bool, resent: bool)
    requires Shape(w) && StopKept(w, resent) && React(w.phase, event, w.now).Begin?
    requires resent ==> event == FERoverStop
    requires event == FERoverStop || event == FERoverMove ==> fromGround || resent
    ensures Kept(HandleEvent(w, event, fromGround))
  {
    hide Owed, LastRover;
    var record := Handled(w.now, event, fromGround, w.mailbox != []);
    RecordsSnoc(w.log, record);
    if React(w.phase, event, w.now).accepts { RecordsSnoc(w.log + [record], StopAccepted(w.now)); }
  }

  lemma KeptAfterQuiet(w: World, event: Event, fromGround: bool, resent: bool)
    requires Shape(w) && StopKept(w, resent) && !React(w.phase, event, w.now).Begin?
    requires resent ==> event == FERoverStop
    requires event == FERoverStop || event == FERoverMove ==> fromGround || resent
    ensures Kept(HandleEvent(w, event, fromGround))
  {
    hide Owed, LastRover;
    var record := Handled(w.now, event, fromGround, w.mailbox != []);
    RecordsSnoc(w.log, record);
    if React(w.phase, event, w.now).Queue? {
      RecordsSnoc(w.log + [record], StopQueued(w.now));
    } else {
      RecordsSnoc(w.log + [record], AntPingSent(w.now));
    }
  }

  lemma RecordsSnoc(log: seq<Record>, r: Record)
    ensures Owed(log + [r]) ==
      (r.StopQueued? || (!r.StopAccepted? && !(r.Handled? && r.event == FERoverMove) && Owed(log)))
    ensures LastRover(log + [r], false) == if IsRover(r) then Some(r) else LastRover(log, false)
    ensures LastRover(log + [r], true) == if IsRover(r) && r.fromGround then Some(r) else LastRover(log, true)
  {
    OwedSnoc(log, r);
    RoverSnoc(log, r, false);
    RoverSnoc(log, r, true);
  }

  lemma KeptAfterEvent(w: World, event: Event, fromGround: bool, resent: bool)
    requires Shape(w) && StopKept(w, resent)
    requires resent ==> event == FERoverStop
    requires event == FERoverStop || event == FERoverMove ==> fromGround || resent
    ensures Kept(HandleEvent(w, event, fromGround))
  {
    hide Shape, StopKept, Kept, HandleEvent, React;
    if React(w.phase, event, w.now).Begin? {
      KeptAfterBegin(w, event, fromGround, resent);
    } else {
      KeptAfterQuiet(w, event, fromGround, resent);
    }
  }

  /** Records that are about neither rover events nor stops change nothing here. */
  lemma KeptAfterRecord(w: World, r: Record)
    requires Kept(w) && (r.AntStartSent? || r.GarageOpened? || r.Forwarded? || r.Ready?)
    ensures Kept(w.(log := w.log + [r]))
  {
    hide Owed, LastRover;
    RecordsSnoc(w.log, r);
  }

  lemma KeptAfterTask(w: World, h: nat, success: bool)
    requires Shape(w) && Kept(w)
    ensures Kept(TimerFires(w, h)) && Kept(IntervalTicks(w, h)) && Kept(RetryEnds(w, h, success))
  {
    hide Owed, LastRover;
    KeptAfterRecord(w, Ready(w.now));
    KeptAfterRecord(w, AntStartSent(w.now));
    KeptAfterRecord(w, GarageOpened(w.now));
  }

  // The phase and the log.

  /** The phase once a record is on the log. */
  function PhaseAfter(phase: Phase, r: Record): (p: Phase) {
    match r
    case GarageOpened(_) => GarageOpen
    case Ready(_) => AntReady
    case StopAccepted(_) => AntRun
    case Handled(_, event, _, _) =>
      if event == CSBLEDisconnect then GarageOpen
      else if event == FEPowerSupplied then PingCentralStation
      else if event == CSBLEConnect then BLEConnected
      else if event == FERoverMove && phase == AntRun then AntReady
      else phase
    case _ => phase
  }

  lemma TellsAfterRecord(log: seq<Record>, phase: Phase, r: Record)
    requires Tells(log, phase) && (r.StopAccepted? ==> phase == AntReady) && (r.Ready? ==> phase == BLEConnected)
    ensures Tells(log + [r], PhaseAfter(phase, r))
  {
    hide StageOf, Runs;
    StageSnoc(log, r);
  }

  lemma ToldAfterQuiet(w: World, event: Event, fromGround: bool)
    requires Told(w) && !React(w.phase, event, w.now).Begin?
    ensures Told(HandleEvent(w, event, fromGround))
  {
    hide Tells;
    var record := Handled(w.now, event, fromGround, w.mailbox != []);
    var log, phase := w.log + [record], PhaseAfter(w.phase, record);
    TellsAfterRecord(w.log, w.phase, record);
    TellsAfterRecord(log, phase, StopQueued(w.now));
    TellsAfterRecord(log, phase, AntPingSent(w.now));
  }

  lemma ToldAfterBegin(w: World, event: Event, fromGround: bool)
    requires Told(w) && React(w.phase, event, w.now).Begin?
    ensures Told(HandleEvent(w, event, fromGround))
  {
    hide Tells;
    var record := Handled(w.now, event, fromGround, w.mailbox != []);
    TellsAfterRecord(w.log, w.phase, record);
    if React(w.phase, event, w.now).accepts {
      TellsAfterRecord(w.log + [record], w.phase, StopAccepted(w.now));
    }
  }

  lemma ToldAfterEvent(w: World, event: Event, fromGround: bool)
    requires Told(w)
    ensures Told(HandleEvent(w, event, fromGround))
  {
    hide Told, HandleEvent, React;
    if React(w.phase, event, w.now).Begin? {
      ToldAfterBegin(w, event, fromGround);
    } else {
      ToldAfterQuiet(w, event, fromGround);
    }
  }

  lemma ToldAfterForwarding(w: World, event: Event)
    requires Told(w)
    ensures Told(w.(log := w.log + [Forwarded(w.now, event)]))
  {
    hide Tells;
    TellsAfterRecord(w.log, w.phase, Forwarded(w.now, event));
  }

  lemma ToldAfterTask(w: World, h: nat, success: bool)
    requires Shape(w) && Told(w)
    ensures Told(TimerFires(w, h)) && Told(IntervalTicks(w, h)) && Told(RetryEnds(w, h, success))
  {
    hide StageOf, Runs;
    if w.phase == BLEConnected { TellsAfterRecord(w.log, w.phase, Ready(w.now)); }
    TellsAfterRecord(w.log, w.phase, AntStartSent(w.now));
    TellsAfterRecord(w.log, w.phase, GarageOpened(w.now));
  }

  // Every run.

  lemma InvAfterEvent(w: World, event: Event, fromGround: bool, resent: bool)
    requires Shape(w) && Timed(w) && StopKept(w, resent) && Told(w)
    requires resent ==> event == FERoverStop
    requires event == FERoverStop || event == FERoverMove ==> fromGround || resent
    ensures Inv(HandleEvent(w, event, fromGround))
  {
    hide Shape, Timed, StopKept, Told;
    ToldAfterEvent(w, event, fromGround);
    ShapeAfterEvent(w, event, fromGround);
    TimedAfterEvent(w, event, fromGround);
    KeptAfterEvent(w, event, fromGround, resent);
  }

  lemma InvAfterTask(w: World, h: nat, success: bool)
    requires Inv(w)
    ensures Inv(TimerFires(w, h)) && Inv(IntervalTicks(w, h)) && Inv(RetryEnds(w, h, success))
  {
    hide Shape, Timed, Kept, Told;
    ToldAfterTask(w, h, success);
    ShapeAfterTask(w, h, success);
    TimedAfterTimer(w, h);
    TimedAfterTick(w, h);
    TimedAfterRetry(w, h, success);
    KeptAfterTask(w, h, success);
  }

  lemma InvAfterCommand(w: World, event: Event, dest: Destination)
    requires Inv(w)
    ensures Inv(UpCommand(w, event, dest))
  {
    hide HandleEvent, Timed, StopKept, Told;
    InvAfterEvent(w, event, true, false);
    var after := HandleEvent(w, event, true);
    HandlingTakesNoTime(w, event, true);
    ForwardingIsHarmless(after, event);
    ToldAfterForwarding(after, event);
    TimedAfterRecord(after, Forwarded(w.now, event));
    KeptAfterRecord(after, Forwarded(w.now, event));
  }

  lemma HandlingTakesNoTime(w: World, event: Event, fromGround: bool)
    ensures HandleEvent(w, event, fromGround).now == w.now
  {
  }

  lemma ForwardingIsHarmless(w: World, event: Event)
    ensures Harmless(w, Forwarded(w.now, event))
  {
  }

  lemma InvAfterResent(w: World)
    requires Inv(w)
    ensures Inv(Wrapped(w))
  {
    hide HandleEvent, LastRover, Owed, Accepted, Connected, StageOf, Runs;
    if w.mailbox != [] {
      var taken := w.(mailbox := w.mailbox[1..]);
      assert StopKept(taken, true);
      TimedDependsOn(w, taken);
      InvAfterEvent(taken, FERoverStop, false, true);
    }
  }

  lemma InvAfterTime(w: World, now: int, waiting: nat)
    requires Inv(w) && w.now <= now
    ensures Inv(w.(now := now, waiting := waiting))
  {
    hide Accepted, Justified, Owed, LastRover, StageOf, Runs;
  }

  lemma InvStep(w: World, s: Step)
    requires Inv(w)
    ensures Inv(Do(w, s))
  {
    hide Shape, Timed, StopKept, Told, HandleEvent, TimerFires, IntervalTicks, RetryEnds, UpCommand, Wrapped;
    match s {
      case FromGround(event, dest) => InvAfterCommand(w, event, dest);
      case FromSerial(event) =>
        if event == CSBLEConnect || event == CSBLEDisconnect { InvAfterEvent(w, event, false, false); }
      case Resent => InvAfterResent(w);
      case Timer(h) => InvAfterTask(w, h, true);
      case Tick(h) => InvAfterTask(w, h, true);
      case RetryOver(h, success) => InvAfterTask(w, h, success);
      case WaitOver => InvAfterTime(w, w.now, if w.waiting > 0 then w.waiting - 1 else 0);
      case TimePasses(d) => InvAfterTime(w, w.now + d, w.waiting);
    }
  }

  lemma {:induction false} InvReached(steps: seq<Step>)
    ensures Inv(Reached(steps))
  {
    hide Inv, Do;
    if steps == [] {
      InvAtLaunch();
    } else {
      InvReached(steps[..|steps| - 1]);
      InvStep(Reached(steps[..|steps| - 1]), steps[|steps| - 1]);
    }
  }

  lemma InvAtLaunch()
    ensures Inv(LAUNCH)
  {
  }

  lemma ShapeReached(steps: seq<Step>)
    ensures Shape(Reached(steps))
  {
    hide Reached;
    InvReached(steps);
  }

  // What that says about every run.

  /** Why the ant was told to start: a connect that settled, then a stop that was accepted and sat out its delay. */
  ghost predicate SafelyStarted(log: seq<Record>, k: nat)
    requires k < |log|
  {
    exists i, j :: 0 <= i < j < k
      && log[i].Handled? && log[i].event == CSBLEConnect && log[j].StopAccepted?
      && log[i].at + 60 * SECOND <= log[j].at && log[j].at + 10 * SECOND <= log[k].at
      && (forall m :: i < m < k ==> !Resets(log[m]))
      && (forall m :: j < m < k ==> !Interrupts(log[m]))
  }

  lemma EveryStartIsSafe(steps: seq<Step>, k: nat)
    requires var log := Reached(steps).log; k < |log| && log[k].AntStartSent?
    ensures SafelyStarted(Reached(steps).log, k)
  {
    hide Reached;
    InvReached(steps);
    var log := Reached(steps).log;
    var sofar := log[..k];
    assert Accepted(sofar, log[k].at);
    var i, j := ConnectAt(sofar).value, AcceptAt(sofar).value;
    assert log[i] == sofar[i] && log[j] == sofar[j];
    assert forall m :: i < m < k ==> log[m] == sofar[m];
    assert log[i].Handled? && log[j].StopAccepted?;
  }

  /** The phase can be read off the history: no task, handle or clock has a say in it. */
  lemma PhaseFollowsHistory(steps: seq<Step>)
    ensures var w := Reached(steps);
      && (w.phase == AntRun <==> Runs(w.log))
      && StageOf(w.log) == match w.phase
                           case FlightIdle => Idle
                           case PingCentralStation => Powered
                           case GarageOpen => Opened
                           case _ => Linked
  {
    hide Reached, StageOf, Runs;
    InvReached(steps);
  }

  /** At most one task is live, it is the one the machine holds, and the phase is one that it belongs to. */
  lemma LiveTaskIsHeld(steps: seq<Step>, h: nat)
    requires h in Reached(steps).tasks
    ensures var w := Reached(steps);
      w.runningTask == Some(h) && w.tasks == map[h := w.tasks[h]] && Matches(w.tasks[h], w.phase)
  {
    hide Reached;
    InvReached(steps);
    var w := Reached(steps);
    assert forall g :: g in w.tasks ==> g == h;
  }

  /** The phase does not imply a live task: a failed garage request leaves its dead handle behind. */
  lemma GarageRequestOver(steps: seq<Step>, h: nat, success: bool)
    requires var w := Reached(steps); h in w.tasks && w.tasks[h] == GarageRetry
    ensures var w := RetryEnds(Reached(steps), h, success);
      && w.tasks == map[]
      && (w.phase == GarageOpen <==> success)
      && (w.runningTask == Some(h) <==> !success)
  {
    hide Reached;
    LiveTaskIsHeld(steps, h);
  }

  /** A task that is over or cancelled never comes back, so its callback never runs. */
  lemma DeadStaysDead(w: World, s: Step, h: nat)
    requires h < w.nextHandle && h !in w.tasks
    ensures h < Do(w, s).nextHandle && h !in Do(w, s).tasks
  {
    hide HandleEvent;
    match s {
      case FromGround(event, _) => DeadAfterEvent(w, event, true, h);
      case FromSerial(event) => DeadAfterEvent(w, event, false, h);
      case Resent => if w.mailbox != [] { DeadAfterEvent(w.(mailbox := w.mailbox[1..]), w.mailbox[0], false, h); }
      case _ =>
    }
  }

  lemma DeadAfterEvent(w: World, event: Event, fromGround: bool, h: nat)
    requires h < w.nextHandle && h !in w.tasks
    ensures h < HandleEvent(w, event, fromGround).nextHandle && h !in HandleEvent(w, event, fromGround).tasks
  {
  }

  lemma {:induction false} DeadForGood(steps: seq<Step>, more: seq<Step>, h: nat)
    requires h < Reached(steps).nextHandle && h !in Reached(steps).tasks
    ensures h < Reached(steps + more).nextHandle && h !in Reached(steps + more).tasks
  {
    hide Do;
    if more == [] {
      assert steps + more == steps;
    } else {
      var n := |more| - 1;
      DeadForGood(steps, more[..n], h);
      assert (steps + more)[..|steps + more| - 1] == steps + more[..n];
      DeadStaysDead(Reached(steps + more[..n]), more[n], h);
    }
  }

  // A queued stop.

  predicate Discharges(r: Record) {
    r.StopAccepted? || (r.Handled? && r.event == FERoverMove)
  }

  lemma {:induction false} OwedWhenQueued(log: seq<Record>, k: nat)
    requires k < |log| && log[k].StopQueued? && forall m :: k < m < |log| ==> !Discharges(log[m])
    ensures Owed(log)
  {
    if k < |log| - 1 { OwedWhenQueued(log[..|log| - 1], k); }
  }

  lemma {:induction false} QueuedWhenOwed(log: seq<Record>)
    requires Owed(log)
    ensures exists k :: 0 <= k < |log| && log[k].StopQueued? && forall m :: k < m < |log| ==> !Discharges(log[m])
  {
    var n := |log| - 1;
    if log[n].StopQueued? {
      assert log[n].StopQueued?;
    } else {
      QueuedWhenOwed(log[..n]);
      var k :| 0 <= k < n && log[..n][k].StopQueued? && forall m :: k < m < n ==> !Discharges(log[..n][m]);
      assert log[k].StopQueued?;
      assert forall m :: k < m < n ==> log[m] == log[..n][m];
    }
  }

  /** From the step that queues a stop until a move is handled or a stop accepted, the stop is held or on its way. */
  lemma QueuedStopIsNeverLost(steps: seq<Step>, k: nat)
    requires var log := Reached(steps).log;
      k < |log| && log[k].StopQueued? && forall m :: k < m < |log| ==> !Discharges(log[m])
    ensures var w := Reached(steps);
      w.phase != AntRun && (w.pendingEvt == Some(FERoverStop) || FERoverStop in w.mailbox)
  {
    hide Reached, LastRover;
    InvReached(steps);
    OwedWhenQueued(Reached(steps).log, k);
    var w := Reached(steps);
    if w.mailbox != [] { assert w.mailbox[0] == FERoverStop; }
  }

  /** What is held was queued and still stands, and nothing is held by a machine that is ready or running. */
  lemma HeldStopIsOwed(steps: seq<Step>)
    ensures var w := Reached(steps);
      && (w.pendingEvt.Some? ==> w.pendingEvt == Some(FERoverStop) && w.phase != AntReady && w.phase != AntRun)
      && (w.pendingEvt.Some? ==>
          exists k :: 0 <= k < |w.log| && w.log[k].StopQueued? && forall m :: k < m < |w.log| ==> !Discharges(w.log[m]))
      && (w.pendingEvt.Some? || w.phase == AntRun ==>
          LastRover(w.log, false).Some? && LastRover(w.log, false).value.event == FERoverStop)
  {
    hide Reached, Owed, LastRover;
    InvReached(steps);
    if Owed(Reached(steps).log) { QueuedWhenOwed(Reached(steps).log); }
  }

  /** A running machine was last told to stop by the ground, or to move while a re-sent stop was in the mail. */
  lemma RunFollowsGroundStop(steps: seq<Step>)
    requires Reached(steps).phase == AntRun
    ensures var last := LastRover(Reached(steps).log, true);
      last.Some? && (last.value.event == FERoverStop || last.value.overMail)
  {
    hide Reached, LastRover;
    InvReached(steps);
  }

  /** Such a move does not take the stop back: it is accepted, or queued again, exactly when it was in the mail. */
  lemma MoveMissesTheMail(steps: seq<Step>, dest: Destination)
    requires !Reached(steps).halted && Reached(steps).waiting == 0
    ensures var w := Reached(steps + [FromGround(FERoverMove, dest), Resent]);
      w.phase == AntRun || w.pendingEvt.Some? <==> Reached(steps).mailbox != []
  {
    hide Reached, Do, Inv;
    InvReached(steps);
    ReachedThen(steps, FromGround(FERoverMove, dest));
    ReachedThen(steps + [FromGround(FERoverMove, dest)], Resent);
    assert steps + [FromGround(FERoverMove, dest), Resent] == steps + [FromGround(FERoverMove, dest)] + [Resent];
    MoveThenMail(Reached(steps), dest);
  }

  lemma MoveThenMail(w: World, dest: Destination)
    requires Inv(w) && !w.halted && w.waiting == 0
    ensures var w' := Do(Do(w, FromGround(FERoverMove, dest)), Resent);
      w'.phase == AntRun || w'.pendingEvt.Some? <==> w.mailbox != []
  {
    hide Timed, StopKept, Fresh, Told, Cancelled;
    var moved := Do(w, FromGround(FERoverMove, dest));
    assert moved.phase != AntRun && moved.pendingEvt.None? && moved.mailbox == w.mailbox;
  }

  lemma ReachedThen(steps: seq<Step>, s: Step)
    ensures Reached(steps + [s]) == Do(Reached(steps), s)
  {
    assert (steps + [s])[..|steps + [s]| - 1] == steps;
  }

  const STORY: seq<Step> :=
    [FromSerial(CSBLEConnect), FromGround(FERoverStop, Frontend), TimePasses(60 * SECOND), Timer(0),
     FromGround(FERoverMove, Frontend), Resent, TimePasses(10 * SECOND), Timer(1)]

  const STORY_LOG: seq<Record> :=
    [Handled(0, CSBLEConnect, false, false), Handled(0, FERoverStop, true, false), StopQueued(0), Ready(60 * SECOND),
     Handled(60 * SECOND, FERoverMove, true, true), Handled(60 * SECOND, FERoverStop, false, false),
     StopAccepted(60 * SECOND), AntStartSent(70 * SECOND)]

  /** A short story in which the ant is sent on its way although the ground's last word was a move. */
  lemma MoveOutrun()
    ensures Reached(STORY).log == STORY_LOG && Reached(STORY).phase == AntRun
    ensures LastRover(STORY_LOG, true) == Some(Handled(60 * SECOND, FERoverMove, true, true))
  {
    hide Reached, Do, LastRover;
    StoryBegins();
    StoryWaits();
    StoryGoesOn();
    StoryEnds();
    assert STORY[..0] == [] && STORY[..8] == STORY;
    forall k | 0 <= k < |STORY| ensures Reached(STORY[..k + 1]) == Do(Reached(STORY[..k]), STORY[k]) {
      ReachedThen(STORY[..k], STORY[k]);
      assert STORY[..k + 1] == STORY[..k] + [STORY[k]];
    }
    ReachedNone();
    assert Reached(STORY[..4]) == Do(Reached(STORY[..3]), STORY[3]);
    GroundSaidMove();
  }

  const HALFWAY := World(AntReady, Some(0), None, map[], 1, 60 * SECOND, [FERoverStop], 0, false, STORY_LOG[..4])

  const CONNECTED :=
    World(BLEConnected, Some(0), Some(FERoverStop), map[0 := BleTimer(60 * SECOND)], 1, 0, [], 0, false, STORY_LOG[..3])

  lemma StoryBegins()
    ensures Do(Do(LAUNCH, STORY[0]), STORY[1]) == CONNECTED
  {
    assert STORY_LOG[..3] == [STORY_LOG[0]] + [STORY_LOG[1]] + [STORY_LOG[2]];
  }

  lemma StoryWaits()
    ensures Do(Do(CONNECTED, STORY[2]), STORY[3]) == HALFWAY
  {
    assert STORY_LOG[..4] == STORY_LOG[..3] + [STORY_LOG[3]];
  }

  const RESENT :=
    World(AntRun, Some(1), None, map[1 := AntDelay(70 * SECOND)], 2, 60 * SECOND, [], 0, false, STORY_LOG[..7])

  lemma StoryGoesOn()
    ensures Do(Do(HALFWAY, STORY[4]), STORY[5]) == RESENT
  {
    assert STORY_LOG[..7] == STORY_LOG[..4] + [STORY_LOG[4]] + [STORY_LOG[5]] + [STORY_LOG[6]];
  }

  lemma StoryEnds()
    ensures var w := Do(Do(RESENT, STORY[6]), STORY[7]); w.log == STORY_LOG && w.phase == AntRun
  {
    assert STORY_LOG == STORY_LOG[..7] + [STORY_LOG[7]];
  }

  lemma GroundSaidMove()
    ensures LastRover(STORY_LOG, true) == Some(Handled(60 * SECOND, FERoverMove, true, true))
  {
    var move := STORY_LOG[..4] + [STORY_LOG[4]];
    assert STORY_LOG == move + [STORY_LOG[5]] + [STORY_LOG[6]] + [STORY_LOG[7]];
    RoverSnoc(STORY_LOG[..4], STORY_LOG[4], true);
    RoverSnoc(move, STORY_LOG[5], true);
    RoverSnoc(move + [STORY_LOG[5]], STORY_LOG[6], true);
    RoverSnoc(move + [STORY_LOG[5]] + [STORY_LOG[6]], STORY_LOG[7], true);
  }

  lemma ReachedNone()
    ensures Reached([]) == LAUNCH
  {
  }
}
