/** When a phase has the task that belongs to it, and what becomes of a machine that has lost it. */
module MissionTasks {
  import opened Bytes
  import opened Messages
  import opened Mission
  import opened MissionSafety

  /** The phase, read off the log alone. */
  function PhaseOf(log: seq<Record>): (p: Phase) {
    if log == [] then FlightIdle else PhaseAfter(PhaseOf(log[..|log| - 1]), log[|log| - 1])
  }

  /** How long the log was when the phase last changed. */
  function Entered(log: seq<Record>): (n: nat)
    ensures n <= |log|
  {
    if log == [] then 0
    else if PhaseOf(log) != PhaseOf(log[..|log| - 1]) then |log|
    else Entered(log[..|log| - 1])
  }

  predicate RequestsGarage(r: Record) {
    r.Handled? && r.event == FEGarageOpen
  }

  /** The garage has not been asked for since the present phase was entered. */
  ghost predicate Undisturbed(log: seq<Record>) {
    forall k :: Entered(log) <= k < |log| ==> !RequestsGarage(log[k])
  }

  /** The task that a phase is for; pinging, settling and running have one. */
  predicate Belongs(task: Task, phase: Phase) {
    match phase
    case PingCentralStation => task.PingInterval?
    case BLEConnected => task.BleTimer?
    case AntRun => task.AntDelay? || task.AntInterval?
    case _ => false
  }

  predicate HasTask(phase: Phase) {
    phase == PingCentralStation || phase == BLEConnected || phase == AntRun
  }

  ghost predicate OwnTaskLives(w: World) {
    exists h :: h in w.tasks && Belongs(w.tasks[h], w.phase)
  }

  ghost predicate Staffed(w: World) {
    && w.phase == PhaseOf(w.log)
    && (w.phase == GarageOpen ==> w.runningTask == None)
    && (HasTask(w.phase) ==> (OwnTaskLives(w) <==> Undisturbed(w.log)))
  }

  lemma PhaseSnoc(log: seq<Record>, r: Record)
    ensures PhaseOf(log + [r]) == PhaseAfter(PhaseOf(log), r)
    ensures Entered(log + [r]) == if PhaseOf(log + [r]) != PhaseOf(log) then |log| + 1 else Entered(log)
  {
    Snoc(log, r);
  }

  lemma UndisturbedSnoc(log: seq<Record>, r: Record)
    ensures Undisturbed(log + [r]) <==>
      PhaseAfter(PhaseOf(log), r) != PhaseOf(log) || (!RequestsGarage(r) && Undisturbed(log))
  {
    PhaseSnoc(log, r);
    hide PhaseOf, Entered;
    var all := log + [r];
    assert forall k :: 0 <= k < |log| ==> all[k] == log[k];
    assert all[|log|] == r;
  }

  /** A record that changes no phase and asks for no garage leaves everything as it was. */
  lemma StaffedAfterRecord(w: World, r: Record)
    requires Staffed(w) && PhaseAfter(w.phase, r) == w.phase && !RequestsGarage(r)
    ensures Staffed(w.(log := w.log + [r]))
  {
    hide PhaseOf, Undisturbed;
    PhaseSnoc(w.log, r);
    UndisturbedSnoc(w.log, r);
  }

  lemma StaffedAfterQuiet(w: World, event: Event, fromGround: bool)
    requires Shape(w) && Staffed(w)
    requires var r := React(w.phase, event, w.now); !r.Begin? && !r.Reset?
    ensures Staffed(HandleEvent(w, event, fromGround))
  {
    hide Shape, PhaseOf, Undisturbed;
    var record := Handled(w.now, event, fromGround, w.mailbox != []);
    var seen := Noted(w, event, fromGround);
    PhaseSnoc(w.log, record);
    UndisturbedSnoc(w.log, record);
    StaffedAfterRecord(seen, StopQueued(w.now));
    StaffedAfterRecord(seen, AntPingSent(w.now));
  }

  lemma StaffedAfterReset(w: World, event: Event, fromGround: bool)
    requires Staffed(w) && React(w.phase, event, w.now).Reset?
    ensures Staffed(HandleEvent(w, event, fromGround))
  {
    hide PhaseOf, Undisturbed;
    PhaseSnoc(w.log, Handled(w.now, event, fromGround, w.mailbox != []));
  }

  /** A task that is begun belongs to the phase it is begun with, unless it is a request for the garage. */
  lemma StaffedAfterBegin(w: World, event: Event, fromGround: bool)
    requires Shape(w) && Staffed(w) && React(w.phase, event, w.now).Begin?
    ensures Staffed(HandleEvent(w, event, fromGround))
  {
    hide PhaseOf, Undisturbed;
    var record := Handled(w.now, event, fromGround, w.mailbox != []);
    var r, next := React(w.phase, event, w.now), HandleEvent(w, event, fromGround);
    PhaseSnoc(w.log, record);
    UndisturbedSnoc(w.log, record);
    PhaseSnoc(w.log + [record], StopAccepted(w.now));
    UndisturbedSnoc(w.log + [record], StopAccepted(w.now));
    OnlyTheNewTask(w, event, fromGround);
  }

  lemma OnlyTheNewTask(w: World, event: Event, fromGround: bool)
    requires OneLiveTask(w) && React(w.phase, event, w.now).Begin?
    ensures var r, next := React(w.phase, event, w.now), HandleEvent(w, event, fromGround);
      next.phase == r.phase && (OwnTaskLives(next) <==> Belongs(r.task, r.phase))
  {
    hide React;
    var r, next := React(w.phase, event, w.now), HandleEvent(w, event, fromGround);
    assert w.nextHandle in next.tasks && next.tasks[w.nextHandle] == r.task;
    assert forall h :: h in next.tasks ==> h == w.nextHandle;
  }

  lemma StaffedAfterEvent(w: World, event: Event, fromGround: bool)
    requires Shape(w) && Staffed(w)
    ensures Staffed(HandleEvent(w, event, fromGround))
  {
    hide Shape, Staffed, HandleEvent, React;
    var r := React(w.phase, event, w.now);
    if r.Begin? {
      StaffedAfterBegin(w, event, fromGround);
    } else if r.Reset? {
      StaffedAfterReset(w, event, fromGround);
    } else {
      StaffedAfterQuiet(w, event, fromGround);
    }
  }

  lemma StaffedAfterTimer(w: World, h: nat)
    requires Inv(w) && Staffed(w)
    ensures Staffed(TimerFires(w, h))
  {
    hide PhaseOf, Undisturbed, Timed, StopKept, Told;
    PhaseSnoc(w.log, Ready(w.now));
    PhaseSnoc(w.log, AntStartSent(w.now));
    UndisturbedSnoc(w.log, AntStartSent(w.now));
    if h in w.tasks && w.tasks[h].AntDelay? && w.now >= w.tasks[h].due {
      assert Belongs(w.tasks[h], w.phase);
      assert TimerFires(w, h).tasks[w.nextHandle] == AntInterval(w.now);
      assert OwnTaskLives(TimerFires(w, h));
    }
  }

  lemma StaffedAfterTick(w: World, h: nat)
    requires Staffed(w)
    ensures Staffed(IntervalTicks(w, h))
  {
    hide Staffed;
    StaffedAfterRecord(w, AntStartSent(w.now));
    hide *;
    WaitingChangesNoStaff(w.(log := w.log + [AntStartSent(w.now)]), w.now, w.waiting + 1);
  }

  lemma WaitingChangesNoStaff(w: World, now: int, waiting: nat)
    requires Staffed(w)
    ensures Staffed(w.(now := now, waiting := waiting))
  {
    hide PhaseOf, Undisturbed;
  }

  lemma StaffedAfterRetry(w: World, h: nat, success: bool)
    requires Inv(w) && Staffed(w)
    ensures Staffed(RetryEnds(w, h, success))
  {
    hide PhaseOf, Undisturbed, Timed, StopKept, Told;
    PhaseSnoc(w.log, GarageOpened(w.now));
  }

  lemma StaffedAfterMail(w: World)
    requires Shape(w) && Staffed(w)
    ensures Staffed(Wrapped(w))
  {
    hide HandleEvent, PhaseOf, Undisturbed;
    if w.mailbox != [] {
      StaffedAfterEvent(w.(mailbox := w.mailbox[1..]), w.mailbox[0], false);
    }
  }

  lemma StaffedStep(w: World, s: Step)
    requires Inv(w) && Staffed(w)
    ensures Staffed(Do(w, s))
  {
    hide Shape, Timed, Kept, Told, Staffed, HandleEvent, TimerFires, IntervalTicks, RetryEnds, Wrapped;
    match s {
      case FromGround(event, dest) =>
        StaffedAfterEvent(w, event, true);
        ForwardingKeepsStaff(HandleEvent(w, event, true), Forwarded(w.now, event));
      case FromSerial(event) => StaffedAfterEvent(w, event, false);
      case Resent => StaffedAfterMail(w);
      case Timer(h) => StaffedAfterTimer(w, h);
      case Tick(h) => StaffedAfterTick(w, h);
      case RetryOver(h, success) => StaffedAfterRetry(w, h, success);
      case WaitOver => WaitingChangesNoStaff(w, w.now, if w.waiting > 0 then w.waiting - 1 else 0);
      case TimePasses(d) => WaitingChangesNoStaff(w, w.now + d, w.waiting);
    }
  }

  lemma ForwardingKeepsStaff(w: World, r: Record)
    requires Staffed(w) && r.Forwarded?
    ensures Staffed(w.(log := w.log + [r]))
  {
    hide Staffed;
    StaffedAfterRecord(w, r);
  }

  lemma {:induction false} StaffedReached(steps: seq<Step>)
    ensures Staffed(Reached(steps))
  {
    hide Inv, Staffed, Do;
    if steps == [] {
      StaffedAtLaunch();
    } else {
      var n := |steps| - 1;
      StaffedReached(steps[..n]);
      InvReached(steps[..n]);
      StaffedStep(Reached(steps[..n]), steps[n]);
    }
  }

  lemma StaffedAtLaunch()
    ensures Staffed(LAUNCH)
  {
  }

  /**
   * A pinging, settling or running machine has its task exactly when the garage has not been asked for since the record
   * that brought it into that phase.
   */
  lemma PhaseHasItsTask(steps: seq<Step>)
    requires HasTask(Reached(steps).phase)
    ensures var w := Reached(steps);
      && w.phase == PhaseOf(w.log)
      && ((exists h :: h in w.tasks && Belongs(w.tasks[h], w.phase)) <==>
          forall k :: Entered(w.log) <= k < |w.log| ==> !RequestsGarage(w.log[k]))
  {
    hide Reached, PhaseOf, Entered;
    StaffedReached(steps);
  }

  // A machine left without its timer.

  /** What can still move such a machine: power, a disconnect, or asking for the garage again. */
  predicate Frees(s: Step) {
    (s.FromGround? || s.FromSerial?) && s.event in {FEPowerSupplied, CSBLEDisconnect, FEGarageOpen}
  }

  predicate Stuck(w: World) {
    w.phase == BLEConnected && w.tasks == map[]
  }

  /** The garage request of a connected machine fails: the timer it replaced never fires. */
  lemma FailedRequestSticks(steps: seq<Step>, h: nat)
    requires var w := Reached(steps); w.phase == BLEConnected && h in w.tasks && w.tasks[h] == GarageRetry
    ensures Stuck(RetryEnds(Reached(steps), h, false))
  {
    hide Reached;
    GarageRequestOver(steps, h, false);
  }

  /** Nothing of the kind is on the longer log but not on the shorter. */
  ghost predicate NoneSince(before: seq<Record>, after: seq<Record>) {
    && before <= after
    && forall k :: |before| <= k < |after| ==> !after[k].Ready? && !after[k].AntStartSent?
  }

  lemma StuckAfterEvent(w: World, event: Event, fromGround: bool)
    requires Stuck(w) && event !in {FEPowerSupplied, CSBLEDisconnect, FEGarageOpen}
    ensures var w' := HandleEvent(w, event, fromGround); Stuck(w') && NoneSince(w.log, w'.log)
  {
  }

  lemma StaysStuck(w: World, s: Step)
    requires Shape(w) && Stuck(w) && !Frees(s)
    ensures Stuck(Do(w, s)) && NoneSince(w.log, Do(w, s).log)
  {
    hide HandleEvent;
    match s {
      case FromGround(event, _) => StuckAfterEvent(w, event, true);
      case FromSerial(event) => StuckAfterEvent(w, event, false);
      case Resent =>
        if w.mailbox != [] {
          assert w.mailbox[0] == FERoverStop;
          StuckAfterEvent(w.(mailbox := w.mailbox[1..]), FERoverStop, false);
        }
      case _ =>
    }
  }

  /** It is never ready and never starts the ant, however often the connection is reported, until something frees it. */
  lemma {:induction false} StuckUntilFreed(steps: seq<Step>, more: seq<Step>)
    requires Stuck(Reached(steps))
    requires forall k :: 0 <= k < |more| ==> !Frees(more[k])
    ensures Stuck(Reached(steps + more)) && NoneSince(Reached(steps).log, Reached(steps + more).log)
  {
    hide Reached, Do, Inv, Stuck, Frees;
    if more == [] {
      assert steps + more == steps;
    } else {
      var n := |more| - 1;
      StuckUntilFreed(steps, more[..n]);
      ShapeReached(steps + more[..n]);
      assert steps + more == steps + more[..n] + [more[n]];
      ReachedThen(steps + more[..n], more[n]);
      StaysStuck(Reached(steps + more[..n]), more[n]);
    }
  }
}
