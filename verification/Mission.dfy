/** The mission state machine: what each event does, the cancellable tasks around it, and the code that does it. */
module Mission {
  import opened Bytes
  import opened Messages

  datatype Phase = FlightIdle | PingCentralStation | GarageOpen | BLEConnected | AntReady | AntRun

  /** A future in the actor's context; times are in nanoseconds. */
  datatype Task =
    | PingInterval
    | GarageRetry
    | BleTimer(due: int)
    | AntDelay(due: int)
    | AntInterval(since: int)
    | AntStopRetry

  const SECOND := 1_000_000_000
  const BLE_SETTLE := 60 * SECOND
  const ANT_DELAY := 10 * SECOND
  const ANT_PERIOD := 30 * SECOND

  /** What an observer can see happen, in order. `overMail`: a re-sent event was still in the mailbox. */
  datatype Record =
    | Handled(at: int, event: Event, fromGround: bool, overMail: bool)
    | StopQueued(at: int)
    | StopAccepted(at: int)
    | GarageOpened(at: int)
    | Ready(at: int)
    | AntStartSent(at: int)
    | AntPingSent(at: int)
    | Forwarded(at: int, event: Event)

  datatype World = World(
    phase: Phase, runningTask: Option<nat>, pendingEvt: Option<Event>,
    tasks: map<nat, Task>, nextHandle: nat, now: int, mailbox: seq<Event>, waiting: nat, halted: bool, log: seq<Record>)

  const LAUNCH := World(FlightIdle, None, None, map[], 0, 0, [], 0, false, [])

  /** What an event does to the machine. */
  datatype Reaction =
    | Nothing
    | Queue
    | Unqueue
    | Begin(task: Task, phase: Phase, accepts: bool)
    | Reset
    | PingAnt
    | Exit

  /** The transition table. */
  function React(phase: Phase, event: Event, now: int): (r: Reaction) {
    match event
    case FEPowerSupplied =>
      if phase == PingCentralStation then Nothing else Begin(PingInterval, PingCentralStation, false)
    case FEGarageOpen => if phase == GarageOpen then Nothing else Begin(GarageRetry, phase, false)
    case CSBLEDisconnect => Reset
    case CSBLEConnect =>
      if phase == BLEConnected then Nothing else Begin(BleTimer(now + BLE_SETTLE), BLEConnected, false)
    case FERoverStop =>
      if phase == AntRun then Nothing
      else if phase == AntReady then Begin(AntDelay(now + ANT_DELAY), AntRun, true)
      else Queue
    case FERoverMove => if phase == AntRun then Begin(AntStopRetry, AntReady, false) else Unqueue
    case FERestart => Exit
    case AntPing => PingAnt
    case _ => Nothing
  }

  /** The live tasks once the one held in `running` is cancelled. */
  function Cancelled(tasks: map<nat, Task>, running: Option<nat>): (r: map<nat, Task>) {
    match running
    case None => tasks
    case Some(h) => tasks - {h}
  }

  /** What an event leaves on record before anything is done about it. */
  function Noted(w: World, event: Event, fromGround: bool): (w': World) {
    w.(log := w.log + [Handled(w.now, event, fromGround, w.mailbox != [])])
  }

  /** Handling one event. */
  function HandleEvent(w: World, event: Event, fromGround: bool): (w': World) {
    var seen := Noted(w, event, fromGround);
    match React(w.phase, event, w.now)
    case Nothing => seen
    case Queue => seen.(pendingEvt := Some(FERoverStop), log := seen.log + [StopQueued(w.now)])
    case Unqueue => seen.(pendingEvt := None)
    case Begin(task, phase, accepts) =>
      seen.(phase := phase,
            runningTask := Some(w.nextHandle),
            tasks := Cancelled(w.tasks, w.runningTask)[w.nextHandle := task],
            nextHandle := w.nextHandle + 1,
            log := if accepts then seen.log + [StopAccepted(w.now)] else seen.log)
    case Reset => seen.(phase := GarageOpen, runningTask := None, tasks := Cancelled(w.tasks, w.runningTask))
    case PingAnt => seen.(waiting := w.waiting + 1, log := seen.log + [AntPingSent(w.now)])
    case Exit => seen.(halted := true)
  }

  /** The arm that an event takes, but for the cancelling at the end. */
  ghost function Arm(w: World, event: Event): (w': World) {
    match React(w.phase, event, w.now)
    case Nothing => w
    case Queue => w.(pendingEvt := Some(FERoverStop), log := w.log + [StopQueued(w.now)])
    case Unqueue => w.(pendingEvt := None)
    case Begin(task, phase, accepts) =>
      w.(phase := phase,
         runningTask := Some(w.nextHandle),
         tasks := w.tasks[w.nextHandle := task],
         nextHandle := w.nextHandle + 1,
         log := if accepts then w.log + [StopAccepted(w.now)] else w.log)
    case Reset => w.(phase := GarageOpen, runningTask := None)
    case PingAnt => w.(waiting := w.waiting + 1, log := w.log + [AntPingSent(w.now)])
    case Exit => w.(halted := true)
  }

  /** The handle that an arm has not put back. */
  ghost function Dropped(w: World, event: Event): (r: Option<nat>) {
    var reaction := React(w.phase, event, w.now);
    if reaction.Begin? || reaction.Reset? then w.runningTask else None
  }

  /** The arms in which nothing depends on the phase. */
  lemma PlainArms(w: World, event: Event)
    ensures event == CSBLEDisconnect ==>
      Arm(w, event) == w.(phase := GarageOpen, runningTask := None) && Dropped(w, event) == w.runningTask
    ensures event == FERestart ==> Arm(w, event) == w.(halted := true) && Dropped(w, event) == None
    ensures event !in {CSBLEDisconnect, FERestart, AntPing, FEPowerSupplied, FEGarageOpen, CSBLEConnect, FERoverStop,
                       FERoverMove}
      ==> Arm(w, event) == w && Dropped(w, event) == None
  {
  }

  /** The old task may as well be cancelled after the new one is spawned, as their handles differ. */
  lemma CancelledLast(w: World, event: Event, fromGround: bool)
    requires w.runningTask.Some? ==> w.runningTask.value < w.nextHandle
    ensures var arm := Arm(Noted(w, event, fromGround), event);
      HandleEvent(w, event, fromGround) == arm.(tasks := Cancelled(arm.tasks, Dropped(w, event)))
  {
    var reaction := React(w.phase, event, w.now);
    if reaction.Begin? {
      assert Cancelled(w.tasks[w.nextHandle := reaction.task], w.runningTask)
          == Cancelled(w.tasks, w.runningTask)[w.nextHandle := reaction.task];
    }
  }

  /** Every handle in use has been given out. */
  ghost predicate Fresh(w: World) {
    && (w.runningTask.Some? ==> w.runningTask.value < w.nextHandle)
    && forall h :: h in w.tasks ==> h < w.nextHandle
  }

  lemma HandlesStayFresh(w: World, event: Event, fromGround: bool)
    requires Fresh(w)
    ensures Fresh(HandleEvent(w, event, fromGround))
  {
    hide React;
  }

  lemma DroppedWhenNoted(w: World, event: Event, fromGround: bool)
    ensures Dropped(Noted(w, event, fromGround), event) == Dropped(w, event)
  {
    hide React;
  }

  /** A one-shot timer runs its callback; a timer that is not live, or not due, does nothing. */
  function TimerFires(w: World, h: nat): (w': World) {
    if h !in w.tasks then w
    else
      match w.tasks[h]
      case BleTimer(due) =>
        if w.now < due then w
        else
          w.(phase := AntReady, tasks := w.tasks - {h}, pendingEvt := None,
             mailbox := w.mailbox + if w.pendingEvt.Some? then [w.pendingEvt.value] else [],
             log := w.log + [Ready(w.now)])
      case AntDelay(due) =>
        if w.now < due then w
        else
          w.(tasks := (w.tasks - {h})[w.nextHandle := AntInterval(w.now)],
             runningTask := Some(w.nextHandle), nextHandle := w.nextHandle + 1,
             waiting := w.waiting + 1, log := w.log + [AntStartSent(w.now)])
      case _ => w
  }

  function IntervalTicks(w: World, h: nat): (w': World) {
    if h !in w.tasks then w
    else
      match w.tasks[h]
      case AntInterval(since) =>
        if w.now < since + ANT_PERIOD then w
        else w.(waiting := w.waiting + 1, log := w.log + [AntStartSent(w.now)])
      case _ => w
  }

  /** A retried request is over; a garage request that got through opens the garage. */
  function RetryEnds(w: World, h: nat, success: bool): (w': World) {
    if h !in w.tasks then w
    else
      match w.tasks[h]
      case GarageRetry =>
        var ended := w.(tasks := w.tasks - {h});
        if !success then ended
        else ended.(runningTask := None, phase := GarageOpen, log := w.log + [GarageOpened(w.now)])
      case AntStopRetry => w.(tasks := w.tasks - {h})
      case _ => w
  }

  function UpCommand(w: World, event: Event, dest: Destination): (w': World) {
    var h := HandleEvent(w, event, true);
    if (dest == Ant || dest == CentralStation) && !h.halted then h.(log := h.log + [Forwarded(w.now, event)]) else h
  }

  /** Of what comes up from the serial side only connects and disconnects matter. */
  function DownMessage(w: World, event: Event): (w': World) {
    if event == CSBLEConnect || event == CSBLEDisconnect then HandleEvent(w, event, false) else w
  }

  /** The first re-sent event in the mailbox. */
  function Wrapped(w: World): (w': World) {
    if w.mailbox == [] then w else HandleEvent(w.(mailbox := w.mailbox[1..]), w.mailbox[0], false)
  }

  /** The actor's context. Handles count up and are never reused. */
  class Context {
    var tasks: map<nat, Task>
    var nextHandle: nat
    var now: int
    var mailbox: seq<Event>
    var waiting: nat
    var halted: bool
    var log: seq<Record>

    constructor ()
      ensures tasks == map[] && nextHandle == 0 && now == 0 && mailbox == [] && waiting == 0 && !halted && log == []
    {
      tasks, nextHandle, now, mailbox, waiting, halted, log := map[], 0, 0, [], 0, false, [];
    }

    method Spawn(task: Task) returns (h: nat)
      modifies this`tasks, this`nextHandle
      ensures h == old(nextHandle) && nextHandle == h + 1 && tasks == old(tasks)[h := task]
    {
      h := nextHandle;
      tasks := tasks[h := task];
      nextHandle := nextHandle + 1;
    }

    method CancelFuture(h: nat)
      modifies this`tasks
      ensures tasks == old(tasks) - {h}
    {
      tasks := tasks - {h};
    }

    method Note(r: Record)
      modifies this`log
      ensures log == old(log) + [r]
    {
      log := log + [r];
    }
  }

  class StateMachine {
    var phase: Phase
    var runningTask: Option<nat>
    var pendingEvt: Option<Event>

    constructor ()
      ensures phase == FlightIdle && runningTask == None && pendingEvt == None
    {
      phase, runningTask, pendingEvt := FlightIdle, None, None;
    }

    ghost function Abs(ctx: Context): World
      reads this, ctx
    {
      World(phase, runningTask, pendingEvt,
            ctx.tasks, ctx.nextHandle, ctx.now, ctx.mailbox, ctx.waiting, ctx.halted, ctx.log)
    }

    ghost predicate Valid(ctx: Context)
      reads this, ctx
    {
      Fresh(Abs(ctx))
    }

    /** Starts pinging, once. */
    method OnPowerSupplied(held: Option<nat>, ctx: Context) returns (oldHandle: Option<nat>)
      requires runningTask == None
      modifies this, ctx
      ensures var w := old(Abs(ctx)).(runningTask := held);
        Abs(ctx) == Arm(w, FEPowerSupplied) && oldHandle == Dropped(w, FEPowerSupplied)
    {
      oldHandle := held;
      if phase == PingCentralStation {
        runningTask, oldHandle := oldHandle, None;
      } else {
        var handle := ctx.Spawn(PingInterval);
        runningTask := Some(handle);
        phase := PingCentralStation;
      }
    }

    /** Asks for the garage to be opened; the phase changes when that has worked. */
    method OnGarageOpen(held: Option<nat>, ctx: Context) returns (oldHandle: Option<nat>)
      requires runningTask == None
      modifies this, ctx
      ensures var w := old(Abs(ctx)).(runningTask := held);
        Abs(ctx) == Arm(w, FEGarageOpen) && oldHandle == Dropped(w, FEGarageOpen)
    {
      oldHandle := held;
      if phase == GarageOpen {
        runningTask, oldHandle := oldHandle, None;
      } else {
        var handle := ctx.Spawn(GarageRetry);
        runningTask := Some(handle);
      }
    }

    /** Lets the connection settle; a repeated connect does not restart the timer. */
    method OnConnect(held: Option<nat>, ctx: Context) returns (oldHandle: Option<nat>)
      requires runningTask == None
      modifies this, ctx
      ensures var w := old(Abs(ctx)).(runningTask := held);
        Abs(ctx) == Arm(w, CSBLEConnect) && oldHandle == Dropped(w, CSBLEConnect)
    {
      oldHandle := held;
      if phase == BLEConnected {
        runningTask, oldHandle := oldHandle, None;
      } else {
        var handle := ctx.Spawn(BleTimer(ctx.now + BLE_SETTLE));
        phase := BLEConnected;
        runningTask := Some(handle);
      }
    }

    /** A stop is accepted by a machine that is ready and queued by one that is not. */
    method OnRoverStop(held: Option<nat>, ctx: Context) returns (oldHandle: Option<nat>)
      requires runningTask == None
      modifies this, ctx
      ensures var w := old(Abs(ctx)).(runningTask := held);
        Abs(ctx) == Arm(w, FERoverStop) && oldHandle == Dropped(w, FERoverStop)
    {
      oldHandle := held;
      if phase == AntRun {
        runningTask, oldHandle := oldHandle, None;
      } else if phase == AntReady {
        var handle := ctx.Spawn(AntDelay(ctx.now + ANT_DELAY));
        runningTask := Some(handle);
        phase := AntRun;
        ctx.Note(StopAccepted(ctx.now));
      } else {
        pendingEvt := Some(FERoverStop);
        runningTask, oldHandle := oldHandle, None;
        ctx.Note(StopQueued(ctx.now));
      }
    }

    /** A move ends a run, or takes a queued stop back. */
    method OnRoverMove(held: Option<nat>, ctx: Context) returns (oldHandle: Option<nat>)
      requires runningTask == None
      modifies this, ctx
      ensures var w := old(Abs(ctx)).(runningTask := held);
        Abs(ctx) == Arm(w, FERoverMove) && oldHandle == Dropped(w, FERoverMove)
    {
      oldHandle := held;
      if phase == AntRun {
        var handle := ctx.Spawn(AntStopRetry);
        runningTask := Some(handle);
        phase := AntReady;
      } else {
        pendingEvt := None;
        runningTask, oldHandle := oldHandle, None;
      }
    }

    /** Sends a ping, every time. */
    method OnAntPing(held: Option<nat>, ctx: Context) returns (oldHandle: Option<nat>)
      requires runningTask == None
      modifies this, ctx
      ensures var w := old(Abs(ctx)).(runningTask := held);
        Abs(ctx) == Arm(w, AntPing) && oldHandle == Dropped(w, AntPing)
    {
      oldHandle := held;
      runningTask, oldHandle := oldHandle, None;
      ctx.waiting := ctx.waiting + 1;
      ctx.Note(AntPingSent(ctx.now));
    }

    /**
     * The running task is taken out first; an arm that leaves it alone puts it back, and what was not put back is
     * cancelled last.
     */
    method Step(event: Event, fromGround: bool, ctx: Context)
      requires Valid(ctx)
      modifies this, ctx
      ensures Abs(ctx) == HandleEvent(old(Abs(ctx)), event, fromGround)
      ensures Valid(ctx)
    {
      hide HandleEvent, Arm, React, Dropped;
      CancelledLast(Abs(ctx), event, fromGround);
      HandlesStayFresh(Abs(ctx), event, fromGround);
      DroppedWhenNoted(Abs(ctx), event, fromGround);
      var oldHandle := runningTask;
      runningTask := None;
      ctx.Note(Handled(ctx.now, event, fromGround, ctx.mailbox != []));
      oldHandle := Dispatch(event, oldHandle, ctx);
      if oldHandle.Some? {
        ctx.CancelFuture(oldHandle.value);
      }
    }

    method Dispatch(event: Event, held: Option<nat>, ctx: Context) returns (oldHandle: Option<nat>)
      requires runningTask == None
      modifies this, ctx
      ensures var w := old(Abs(ctx)).(runningTask := held);
        Abs(ctx) == Arm(w, event) && oldHandle == Dropped(w, event)
    {
      hide Arm, Dropped, React;
      PlainArms(Abs(ctx).(runningTask := held), event);
      oldHandle := held;
      match event {
        case FEPowerSupplied => oldHandle := OnPowerSupplied(held, ctx);
        case FEGarageOpen => oldHandle := OnGarageOpen(held, ctx);
        case CSBLEDisconnect => phase := GarageOpen;
        case CSBLEConnect => oldHandle := OnConnect(held, ctx);
        case FERoverStop => oldHandle := OnRoverStop(held, ctx);
        case FERoverMove => oldHandle := OnRoverMove(held, ctx);
        case FERestart =>
          // The process is gone; what is left of the state is what it was.
          runningTask, oldHandle := oldHandle, None;
          ctx.halted := true;
        case AntPing => oldHandle := OnAntPing(held, ctx);
        case _ =>
          runningTask, oldHandle := oldHandle, None;
      }
    }

    /** The callback of the timer that a connect starts. */
    method BleTimerFired(h: nat, ctx: Context)
      requires Valid(ctx) && h in ctx.tasks && ctx.tasks[h].BleTimer? && ctx.now >= ctx.tasks[h].due
      modifies this, ctx
      ensures Abs(ctx) == TimerFires(old(Abs(ctx)), h) && Valid(ctx)
    {
      ctx.CancelFuture(h);
      phase := AntReady;
      ctx.Note(Ready(ctx.now));
      var evt := pendingEvt;
      pendingEvt := None;
      if evt.None? {
        return;
      }
      ctx.mailbox := ctx.mailbox + [evt.value];
    }

    /** The callback of the delay that an accepted stop starts. */
    method AntDelayFired(h: nat, ctx: Context)
      requires Valid(ctx) && h in ctx.tasks && ctx.tasks[h].AntDelay? && ctx.now >= ctx.tasks[h].due
      modifies this, ctx
      ensures Abs(ctx) == TimerFires(old(Abs(ctx)), h) && Valid(ctx)
    {
      ctx.CancelFuture(h);
      ctx.waiting := ctx.waiting + 1;
      ctx.Note(AntStartSent(ctx.now));
      var handle := ctx.Spawn(AntInterval(ctx.now));
      runningTask := Some(handle);
    }

    /** The end of a garage request: on failure nothing changes but that the task is over. */
    method GarageRetryEnded(h: nat, success: bool, ctx: Context)
      requires Valid(ctx) && h in ctx.tasks && ctx.tasks[h].GarageRetry?
      modifies this, ctx
      ensures Abs(ctx) == RetryEnds(old(Abs(ctx)), h, success) && Valid(ctx)
    {
      ctx.CancelFuture(h);
      if !success {
        return;
      }
      runningTask := None;
      phase := GarageOpen;
      ctx.Note(GarageOpened(ctx.now));
    }

    /** The callback of the interval that starts the ant again and again. */
    method AntIntervalTicked(h: nat, ctx: Context)
      requires Valid(ctx) && h in ctx.tasks && ctx.tasks[h].AntInterval? && ctx.now >= ctx.tasks[h].since + ANT_PERIOD
      modifies this, ctx
      ensures Abs(ctx) == IntervalTicks(old(Abs(ctx)), h) && Valid(ctx)
    {
      ctx.waiting := ctx.waiting + 1;
      ctx.Note(AntStartSent(ctx.now));
    }

    method HandleUpCommand(event: Event, dest: Destination, ctx: Context)
      requires Valid(ctx)
      modifies this, ctx
      ensures Abs(ctx) == UpCommand(old(Abs(ctx)), event, dest) && Valid(ctx)
    {
      Step(event, true, ctx);
      if (dest == Ant || dest == CentralStation) && !ctx.halted {
        ctx.Note(Forwarded(ctx.now, event));
      }
    }

    method HandleDownMessage(event: Event, ctx: Context)
      requires Valid(ctx)
      modifies this, ctx
      ensures Abs(ctx) == DownMessage(old(Abs(ctx)), event) && Valid(ctx)
    {
      if event != CSBLEConnect && event != CSBLEDisconnect {
        return;
      }
      Step(event, false, ctx);
    }

    method HandleEventWrap(ctx: Context)
      requires Valid(ctx) && ctx.mailbox != []
      modifies this, ctx
      ensures Abs(ctx) == Wrapped(old(Abs(ctx))) && Valid(ctx)
    {
      var event := ctx.mailbox[0];
      ctx.mailbox := ctx.mailbox[1..];
      Step(event, false, ctx);
    }
  }
}
