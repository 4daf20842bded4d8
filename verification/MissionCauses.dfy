/** Why a task is live, and why the garage is taken to be open. */
module MissionCauses {
  import opened Bytes
  import opened Messages
  import opened Mission
  import opened MissionSafety
  import opened MissionTasks

  /** A record that begins a task, in the phase that the machine was in before it. */
  predicate Begins(phase: Phase, r: Record) {
    || r.StopAccepted?
    || (r.Handled? && r.event == FEPowerSupplied && phase != PingCentralStation)
    || (r.Handled? && r.event == FEGarageOpen && phase != GarageOpen)
    || (r.Handled? && r.event == CSBLEConnect && phase != BLEConnected)
    || (r.Handled? && r.event == FERoverMove && phase == AntRun)
  }

  /** A record after which no task is left. */
  predicate Ends(r: Record) {
    r.Ready? || r.GarageOpened? || (r.Handled? && r.event == CSBLEDisconnect)
  }

  /** The record that began the task that may still be live: the last to begin any, unless one that ends it follows. */
  function CauseAt(log: seq<Record>): (r: Option<nat>)
    ensures r.Some? ==>
      && r.value < |log| && Begins(PhaseOf(log[..r.value]), log[r.value])
      && forall k :: r.value < k < |log| ==> !Begins(PhaseOf(log[..k]), log[k]) && !Ends(log[k])
  {
    if log == [] then None
    else
      var n := |log| - 1;
      if Begins(PhaseOf(log[..n]), log[n]) then Some(n)
      else if Ends(log[n]) then None
      else
        var before := CauseAt(log[..n]);
        assert forall k :: 0 <= k <= n ==> log[..n][..k] == log[..k];
        before
  }

  /** What begins a task, to the instant. */
  predicate Accounts(r: Record, task: Task) {
    match task
    case PingInterval => r.Handled? && r.event == FEPowerSupplied
    case GarageRetry => r.Handled? && r.event == FEGarageOpen
    case BleTimer(due) => r.Handled? && r.event == CSBLEConnect && due == r.at + 60 * SECOND
    case AntDelay(due) => r.StopAccepted? && due == r.at + 10 * SECOND
    case AntInterval(since) => r.StopAccepted? && r.at + 10 * SECOND <= since
    case AntStopRetry => r.Handled? && r.event == FERoverMove
  }

  predicate Explains(log: seq<Record>, task: Task) {
    CauseAt(log).Some? && Accounts(log[CauseAt(log).value], task)
  }

  /** The task was begun by a connect that has settled at `t`. */
  predicate SettledBy(log: seq<Record>, t: int) {
    && CauseAt(log).Some?
    && var r := log[CauseAt(log).value]; r.Handled? && r.event == CSBLEConnect && r.at + 60 * SECOND <= t
  }

  /** The garage was opened by a request for it, and the machine was ready for a connect that had settled. */
  predicate Grounded(log: seq<Record>, k: nat)
    requires k < |log|
  {
    && (log[k].GarageOpened? ==> Explains(log[..k], GarageRetry))
    && (log[k].Ready? ==> SettledBy(log[..k], log[k].at))
  }

  ghost predicate AllGrounded(log: seq<Record>) {
    forall k :: 0 <= k < |log| ==> Grounded(log, k)
  }

  ghost predicate Caused(w: World) {
    && (forall h :: h in w.tasks ==> Explains(w.log, w.tasks[h]))
    && AllGrounded(w.log)
  }

  lemma CauseSnoc(log: seq<Record>, r: Record)
    ensures CauseAt(log + [r]) ==
      if Begins(PhaseOf(log), r) then Some(|log|) else if Ends(r) then None else CauseAt(log)
  {
    Snoc(log, r);
  }

  lemma ExplainsSnoc(log: seq<Record>, r: Record, task: Task)
    ensures Begins(PhaseOf(log), r) ==> (Explains(log + [r], task) <==> Accounts(r, task))
    ensures !Begins(PhaseOf(log), r) && !Ends(r) ==> (Explains(log + [r], task) <==> Explains(log, task))
  {
    CauseSnoc(log, r);
  }

  lemma GroundedSnoc(log: seq<Record>, r: Record)
    requires AllGrounded(log) && !r.GarageOpened? && !r.Ready?
    ensures AllGrounded(log + [r])
  {
    GroundedNext(log, r);
  }

  lemma GroundedNext(log: seq<Record>, r: Record)
    requires AllGrounded(log)
    requires r.GarageOpened? ==> Explains(log, GarageRetry)
    requires r.Ready? ==> SettledBy(log, r.at)
    ensures AllGrounded(log + [r])
  {
    hide Explains, SettledBy;
    var all := log + [r];
    forall k | 0 <= k < |all|
      ensures Grounded(all, k)
    {
      if k < |log| {
        assert all[..k] == log[..k] && Grounded(log, k);
        GroundedLocal(log, all, k);
      } else {
        assert all[..k] == log;
      }
    }
  }

  lemma GroundedLocal(log: seq<Record>, all: seq<Record>, k: nat)
    requires log <= all && k < |log| && Grounded(log, k)
    ensures Grounded(all, k)
  {
    assert all[..k] == log[..k];
  }

  /** A record that neither begins nor ends a task, nor opens anything. */
  lemma CausedAfterRecord(w: World, r: Record)
    requires Caused(w) && !Begins(PhaseOf(w.log), r) && !Ends(r)
    ensures Caused(w.(log := w.log + [r]))
  {
    hide Explains, PhaseOf, Begins;
    GroundedSnoc(w.log, r);
    forall h | h in w.tasks
      ensures Explains(w.log + [r], w.tasks[h])
    {
      ExplainsSnoc(w.log, r, w.tasks[h]);
    }
  }

  lemma CausedAfterQuiet(w: World, event: Event, fromGround: bool)
    requires Shape(w) && Staffed(w) && Caused(w)
    requires var r := React(w.phase, event, w.now); !r.Begin? && !r.Reset?
    ensures Caused(HandleEvent(w, event, fromGround))
  {
    hide Caused, Staffed, PhaseOf, Begins;
    var record := Handled(w.now, event, fromGround, w.mailbox != []);
    var seen, next := Noted(w, event, fromGround), HandleEvent(w, event, fromGround);
    StaffedPhase(w);
    QuietBegins(w, event, fromGround);
    CausedAfterRecord(w, record);
    OwnRecordsBegin(seen);
    var r := React(w.phase, event, w.now);
    var noted := if r.Queue? then [StopQueued(w.now)] else if r.PingAnt? then [AntPingSent(w.now)] else [];
    if noted != [] { CausedAfterRecord(seen, noted[0]); }
    assert seen.log + [] == seen.log;
    CausedDependsOn(seen.(log := seen.log + noted), next);
  }

  lemma QuietBegins(w: World, event: Event, fromGround: bool)
    requires var r := React(w.phase, event, w.now); !r.Begin? && !r.Reset?
    ensures var record := Handled(w.now, event, fromGround, w.mailbox != []); !Begins(w.phase, record) && !Ends(record)
  {
  }

  lemma OwnRecordsBegin(w: World)
    ensures !Begins(PhaseOf(w.log), StopQueued(w.now)) && !Begins(PhaseOf(w.log), AntPingSent(w.now))
  {
    hide PhaseOf;
  }

  lemma StaffedPhase(w: World)
    requires Staffed(w)
    ensures PhaseOf(w.log) == w.phase
  {
  }

  lemma CausedDependsOn(v: World, w: World)
    requires Caused(v)
    ensures v.log == w.log && (forall h :: h in w.tasks ==> h in v.tasks && v.tasks[h] == w.tasks[h]) ==> Caused(w)
  {
    hide Explains, AllGrounded;
  }

  lemma CausedAfterReset(w: World, event: Event, fromGround: bool)
    requires Shape(w) && Caused(w) && React(w.phase, event, w.now).Reset?
    ensures Caused(HandleEvent(w, event, fromGround))
  {
    hide Explains;
    GroundedSnoc(w.log, Handled(w.now, event, fromGround, w.mailbox != []));
    hide AllGrounded;
  }

  lemma CausedAfterBegin(w: World, event: Event, fromGround: bool)
    requires Shape(w) && Staffed(w) && Caused(w) && React(w.phase, event, w.now).Begin?
    ensures Caused(HandleEvent(w, event, fromGround))
  {
    hide Explains, PhaseOf;
    var record := Handled(w.now, event, fromGround, w.mailbox != []);
    var r := React(w.phase, event, w.now);
    GroundedSnoc(w.log, record);
    OnlyTheNewTask(w, event, fromGround);
    if r.accepts {
      GroundedSnoc(w.log + [record], StopAccepted(w.now));
      ExplainsSnoc(w.log + [record], StopAccepted(w.now), r.task);
    } else {
      ExplainsSnoc(w.log, record, r.task);
    }
    TaskIsNew(w, event, fromGround);
    hide AllGrounded;
  }

  lemma TaskIsNew(w: World, event: Event, fromGround: bool)
    requires OneLiveTask(w) && React(w.phase, event, w.now).Begin?
    ensures HandleEvent(w, event, fromGround).tasks == map[w.nextHandle := React(w.phase, event, w.now).task]
  {
    hide React;
  }

  lemma CausedAfterEvent(w: World, event: Event, fromGround: bool)
    requires Shape(w) && Staffed(w) && Caused(w)
    ensures Caused(HandleEvent(w, event, fromGround))
  {
    hide Shape, Staffed, Caused, HandleEvent, React;
    var r := React(w.phase, event, w.now);
    if r.Begin? {
      CausedAfterBegin(w, event, fromGround);
    } else if r.Reset? {
      CausedAfterReset(w, event, fromGround);
    } else {
      CausedAfterQuiet(w, event, fromGround);
    }
  }

  lemma CausedAfterTimer(w: World, h: nat)
    requires Shape(w) && Staffed(w) && Caused(w)
    ensures Caused(TimerFires(w, h))
  {
    hide PhaseOf, CauseAt, AllGrounded;
    if h in w.tasks && w.tasks[h].BleTimer? && w.now >= w.tasks[h].due {
      assert Explains(w.log, w.tasks[h]);
      GroundedNext(w.log, Ready(w.now));
    } else if h in w.tasks && w.tasks[h].AntDelay? && w.now >= w.tasks[h].due {
      assert Explains(w.log, w.tasks[h]);
      GroundedSnoc(w.log, AntStartSent(w.now));
      ExplainsSnoc(w.log, AntStartSent(w.now), AntInterval(w.now));
    }
  }

  lemma CausedAfterTick(w: World, h: nat)
    requires Caused(w)
    ensures Caused(IntervalTicks(w, h))
  {
    hide Caused, PhaseOf;
    CausedAfterRecord(w, AntStartSent(w.now));
    CausedDependsOn(w.(log := w.log + [AntStartSent(w.now)]), IntervalTicks(w, h));
  }

  lemma CausedAfterRetry(w: World, h: nat, success: bool)
    requires Shape(w) && Caused(w)
    ensures Caused(RetryEnds(w, h, success))
  {
    hide PhaseOf, CauseAt, AllGrounded;
    if h in w.tasks && w.tasks[h].GarageRetry? {
      assert Explains(w.log, w.tasks[h]);
      GroundedNext(w.log, GarageOpened(w.now));
    }
  }

  lemma CausedStep(w: World, s: Step)
    requires Inv(w) && Staffed(w) && Caused(w)
    ensures Caused(Do(w, s))
  {
    hide Shape, Timed, Kept, Told, Staffed, Caused, HandleEvent, TimerFires, IntervalTicks, RetryEnds;
    match s {
      case FromGround(event, dest) =>
        CausedAfterEvent(w, event, true);
        ForwardingIsNoCause(HandleEvent(w, event, true), Forwarded(w.now, event));
      case FromSerial(event) => CausedAfterEvent(w, event, false);
      case Resent => CausedAfterMail(w);
      case Timer(h) => CausedAfterTimer(w, h);
      case Tick(h) => CausedAfterTick(w, h);
      case RetryOver(h, success) => CausedAfterRetry(w, h, success);
      case WaitOver => CausedDependsOn(w, Do(w, s));
      case TimePasses(d) => CausedDependsOn(w, Do(w, s));
    }
  }

  lemma ForwardingIsNoCause(w: World, r: Record)
    requires Caused(w) && r.Forwarded?
    ensures Caused(w.(log := w.log + [r]))
  {
    hide Caused, PhaseOf;
    CausedAfterRecord(w, r);
  }

  lemma CausedAfterMail(w: World)
    requires Shape(w) && Staffed(w) && Caused(w)
    ensures Caused(Wrapped(w))
  {
    hide HandleEvent, PhaseOf, Undisturbed, Explains, AllGrounded;
    if w.mailbox != [] {
      CausedAfterEvent(w.(mailbox := w.mailbox[1..]), w.mailbox[0], false);
    }
  }

  lemma {:induction false} CausedReached(steps: seq<Step>)
    ensures Caused(Reached(steps))
  {
    hide Inv, Staffed, Caused, Do;
    if steps == [] {
      CausedAtLaunch();
    } else {
      var n := |steps| - 1;
      CausedReached(steps[..n]);
      InvReached(steps[..n]);
      StaffedReached(steps[..n]);
      CausedStep(Reached(steps[..n]), steps[n]);
    }
  }

  lemma CausedAtLaunch()
    ensures Caused(LAUNCH)
  {
  }

  /** What `CauseAt` finds, spelled out: nothing after it has begun another task or ended this one. */
  ghost predicate BegunBy(log: seq<Record>, i: nat, n: nat)
    requires i < n <= |log|
  {
    && Begins(PhaseOf(log[..i]), log[i])
    && forall k :: i < k < n ==> !Begins(PhaseOf(log[..k]), log[k]) && !Ends(log[k])
  }

  /**
   * In every run, a live task was begun by the event that is to begin it, its due time is exactly the settling time or
   * the delay after that, and nothing since has begun another or ended it.
   */
  lemma EveryTaskHasItsCause(steps: seq<Step>, h: nat)
    requires h in Reached(steps).tasks
    ensures var w := Reached(steps);
      exists i :: 0 <= i < |w.log| && Accounts(w.log[i], w.tasks[h]) && BegunBy(w.log, i, |w.log|)
  {
    hide Reached, PhaseOf, Begins, Accounts;
    CausedReached(steps);
    var w := Reached(steps);
    assert Explains(w.log, w.tasks[h]);
    var i := CauseAt(w.log).value;
    assert BegunBy(w.log, i, |w.log|);
  }

  /** In every run, the garage is only taken to be open when a request for it got through that nothing had replaced. */
  lemma EveryOpeningWasAskedFor(steps: seq<Step>, k: nat)
    requires var log := Reached(steps).log; k < |log| && log[k].GarageOpened?
    ensures var log := Reached(steps).log;
      exists i :: 0 <= i < k && log[i].Handled? && log[i].event == FEGarageOpen && BegunBy(log, i, k)
  {
    hide Reached, PhaseOf, Begins;
    CausedReached(steps);
    var log := Reached(steps).log;
    assert Grounded(log, k);
    var i := CauseAt(log[..k]).value;
    BegunLocally(log, i, k);
  }

  /** In every run, the machine is only ready when the connect it was made ready for is a settling time old. */
  lemma EveryReadinessWasSettled(steps: seq<Step>, k: nat)
    requires var log := Reached(steps).log; k < |log| && log[k].Ready?
    ensures var log := Reached(steps).log;
      exists i :: 0 <= i < k && log[i].Handled? && log[i].event == CSBLEConnect && log[i].at + 60 * SECOND <= log[k].at
                  && BegunBy(log, i, k)
  {
    hide Reached, PhaseOf, Begins;
    CausedReached(steps);
    var log := Reached(steps).log;
    assert Grounded(log, k);
    var i := CauseAt(log[..k]).value;
    BegunLocally(log, i, k);
  }

  lemma BegunLocally(log: seq<Record>, i: nat, n: nat)
    requires n <= |log| && CauseAt(log[..n]) == Some(i)
    ensures i < n && log[..n][i] == log[i] && BegunBy(log, i, n)
  {
    hide PhaseOf, Begins;
    assert forall k :: 0 <= k < n ==> log[..n][..k] == log[..k] && log[..n][k] == log[k];
  }
}
