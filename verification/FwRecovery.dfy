/**
  Recovery from loss of the firmware: the flags IONIC_LIF_F_FW_RESET,
  IONIC_LIF_F_FW_STOPPING and IONIC_LIF_F_UP, moved by the watchdog
  (ionic_heartbeat_check), the reset event (ionic_notifyq_service), the deferred
  worker (ionic_lif_handle_fw_down, ionic_lif_handle_fw_up) and whoever starts
  or stops the queues under queue_lock.  FW_RESET is set outside that lock.
 */
module FwRecovery {

  /** Where the deferred worker stands in a LIF_RESET item. */
  datatype Worker =
    | WIdle
    | WDown           // fw_down: about to test and set FW_RESET
    | WDownLock       // FW_RESET set, waiting for queue_lock
    | WDownLocked     // holding queue_lock, about to stop the queues
    | WDownDone       // lock released, about to clear FW_STOPPING
    | WUp             // fw_up: about to test FW_RESET
    | WUpInit         // re-initialising the device
    | WUpLocked       // ionic_restart_lif, holding queue_lock
    | WUpDone         // lock released, about to clear FW_RESET

  /** The thread, if any, that holds queue_lock to start the queues. */
  datatype Starter =
    | SNone
    | SLocked   // about to test FW_RESET
    | SPassed   // saw it clear, about to set UP
    | SEnable   // UP set, enabling the queues

  datatype State = State(
    up: bool, fwReset: bool, fwStopping: bool,
    ready: bool, gen: nat,             // idev->fw_status_ready, idev->fw_generation
    work: seq<bool>,                   // queued LIF_RESET items; true is firmware up
    w: Worker, s: Starter)

  datatype Step =
    | Watchdog(running: bool, gen: nat)
    | ResetEvent
    | WTake              // the worker takes the next item
    | WStep              // and its next step
    | WFail              // re-initialising the device or restarting the LIF failed
    | SLock              // link check, open or reconfiguration wants the queues started
    | SStep
    | SFail              // BROKEN, or enabling the queues failed
    | StopQueues         // link down or ionic_stop, under the lock

  const PROBED := State(false, false, false, true, 0, [], WIdle, SNone)

  predicate LockFree(s: State) {
    s.s == SNone && s.w != WDownLocked && s.w != WUpLocked
  }

  predicate Enabled(s: State, step: Step) {
    match step
    case Watchdog(_, _) => true
    case ResetEvent => true
    case WTake => s.w == WIdle && s.work != []
    case WStep => s.w != WIdle && (s.w == WDownLock || s.w == WUpInit ==> LockFree(s))
    case WFail => s.w == WUpInit || s.w == WUpLocked
    case SLock => LockFree(s)
    case SStep => s.s != SNone
    case SFail => s.s == SLocked || s.s == SEnable
    case StopQueues => LockFree(s)
  }

  /** The transition half of ionic_heartbeat_check. */
  function AfterWatchdog(s: State, running: bool, gen: nat): State {
    var changed := running && gen != s.gen;
    // a new generation means a restart was missed: fake whichever side makes it a transition
    var seen := running && !(changed && !s.fwReset);
    var s1 := if changed then s.(gen := gen, ready := if s.fwReset then false else s.ready) else s;
    if seen != s1.ready && !s1.fwStopping then
      var s2 := s1.(ready := seen);
      if !seen && !s2.fwReset then s2.(fwStopping := true, work := s2.work + [false])
      else if seen && s2.fwReset then s2.(work := s2.work + [true])
      else s2
    else s1
  }

  /** IONIC_EVENT_RESET */
  function AfterResetEvent(s: State): State {
    if s.ready && !s.fwReset && !s.fwStopping then s.(fwStopping := true, work := s.work + [false]) else s
  }

  function AfterWStep(s: State): State {
    match s.w
    case WIdle => s
    case WDown => if s.fwReset then s.(w := WIdle) else s.(fwReset := true, w := WDownLock)
    case WDownLock => s.(w := WDownLocked)
    case WDownLocked => s.(up := false, w := WDownDone)
    case WDownDone => s.(fwStopping := false, w := WIdle)
    case WUp => s.(w := if s.fwReset then WUpInit else WIdle)
    case WUpInit => s.(w := WUpLocked)
    case WUpLocked => s.(w := WUpDone)
    case WUpDone => s.(fwReset := false, w := WIdle)
  }

  /** ionic_start_queues, one test or write at a time. */
  function AfterSStep(s: State): State {
    match s.s
    case SNone => s
    case SLocked => s.(s := if s.fwReset then SNone else SPassed)
    case SPassed => if s.up then s.(s := SNone) else s.(up := true, s := SEnable)
    case SEnable => s.(s := SNone)
  }

  function Apply(s: State, step: Step): State
    requires Enabled(s, step)
  {
    match step
    case Watchdog(running, gen) => AfterWatchdog(s, running, gen)
    case ResetEvent => AfterResetEvent(s)
    case WTake => s.(w := if s.work[0] then WUp else WDown, work := s.work[1..])
    case WStep => AfterWStep(s)
    case WFail => s.(w := WIdle)
    case SLock => s.(s := SLocked)
    case SStep => AfterSStep(s)
    case SFail => if s.s == SEnable then s.(up := false, s := SNone) else s.(s := SNone)
    case StopQueues => s.(up := false)
  }

  ghost predicate Run(s: State, steps: seq<Step>, s': State)
    decreases |steps|
  {
    if steps == [] then s' == s
    else Enabled(s, steps[0]) && Run(Apply(s, steps[0]), steps[1..], s')
  }

  // ----- invariant ---------------------------------------------------------

  predicate GoingDown(w: Worker) {
    w == WDown || w == WDownLock || w == WDownLocked || w == WDownDone
  }

  function Downs(work: seq<bool>): nat {
    if work == [] then 0 else (if work[0] then 0 else 1) + Downs(work[1..])
  }

  /** Teardown items queued or being handled. */
  function Teardowns(s: State): nat {
    Downs(s.work) + if GoingDown(s.w) then 1 else 0
  }

  ghost predicate Inv(s: State) {
    // FW_STOPPING accounts for the one teardown under way
    && Teardowns(s) == (if s.fwStopping then 1 else 0)
    // which has not begun while FW_RESET is clear
    && (Downs(s.work) > 0 || s.w == WDown ==> !s.fwReset)
    && (s.w == WDownLock || s.w == WDownLocked || s.w == WDownDone ==> s.fwReset)
    // a restart past its first test runs under FW_RESET
    && (s.w == WUpInit || s.w == WUpLocked || s.w == WUpDone ==> s.fwReset)
    // queue_lock
    && (s.s != SNone ==> s.w != WDownLocked && s.w != WUpLocked)
    // the only queues up under FW_RESET are those the teardown is about to stop
    && (s.fwReset && s.up ==> s.w == WDownLock || s.w == WDownLocked)
    && (s.fwReset && s.s == SPassed ==> s.w == WDownLock)
    && (s.s == SEnable ==> s.up)
  }

  lemma {:induction false} DownsAdd(work: seq<bool>, up: bool)
    ensures Downs(work + [up]) == Downs(work) + if up then 0 else 1
  {
    if work == [] {
      assert work + [up] == [up];
      assert [up][1..] == [];
    } else {
      assert (work + [up])[1..] == work[1..] + [up];
      DownsAdd(work[1..], up);
    }
  }

  lemma WatchdogKeepsInv(s: State, running: bool, gen: nat)
    requires Inv(s)
    ensures Inv(AfterWatchdog(s, running, gen))
  {
    DownsAdd(s.work, true);
    DownsAdd(s.work, false);
  }

  lemma StepKeepsInv(s: State, step: Step)
    requires Inv(s) && Enabled(s, step)
    ensures Inv(Apply(s, step))
  {
    match step
    case Watchdog(running, gen) => WatchdogKeepsInv(s, running, gen);
    case ResetEvent => DownsAdd(s.work, false);
    case _ =>
  }

  lemma {:induction false} RunKeepsInv(s: State, steps: seq<Step>, s': State)
    requires Inv(s) && Run(s, steps, s')
    ensures Inv(s')
    decreases |steps|
  {
    if steps != [] {
      StepKeepsInv(s, steps[0]);
      RunKeepsInv(Apply(s, steps[0]), steps[1..], s');
    }
  }

  /** Is the locked section of the current teardown still ahead? */
  predicate TeardownAhead(s: State) {
    s.w == WDownLock || s.w == WDownLocked
  }

  /**
    After every interleaving: FW_STOPPING is set exactly while one teardown is
    queued or running, never two; and the data queues are not up while FW_RESET
    is set and the teardown's locked section is done.
   */
  lemma EveryInterleaving(steps: seq<Step>, s: State)
    requires Run(PROBED, steps, s)
    ensures s.fwStopping <==> Teardowns(s) == 1
    ensures Teardowns(s) <= 1
    ensures s.fwReset && !TeardownAhead(s) ==> !s.up
    ensures s.w == WDown ==> !s.fwReset
  {
    RunKeepsInv(PROBED, steps, s);
  }

  /** A restart is queued only when no teardown is queued or running and the last one took effect. */
  lemma RestartAfterTeardown(steps: seq<Step>, s: State, running: bool, gen: nat)
    requires Run(PROBED, steps, s)
    requires AfterWatchdog(s, running, gen).work == s.work + [true]
    ensures Teardowns(s) == 0 && s.fwReset && !s.up
  {
    RunKeepsInv(PROBED, steps, s);
    assert (s.work + [true])[|s.work|] != (s.work + [false])[|s.work|];
  }

  /**
    Exactly when the watchdog queues a restart: under FW_RESET with no teardown
    under way, when firmware runs and either is seen for the first time since it
    was last seen down or has a new generation.
   */
  lemma RestartQueuedIff(s: State, running: bool, gen: nat)
    ensures AfterWatchdog(s, running, gen).work == s.work + [true] <==>
            s.fwReset && !s.fwStopping && running && (gen != s.gen || !s.ready)
  {
    assert (s.work + [true])[|s.work|] != (s.work + [false])[|s.work|];
    assert |s.work + [true]| != |s.work|;
  }

  /** And exactly when it queues a teardown. */
  lemma TeardownQueuedIff(s: State, running: bool, gen: nat)
    ensures AfterWatchdog(s, running, gen).work == s.work + [false] <==>
            !s.fwReset && !s.fwStopping && s.ready && (!running || gen != s.gen)
  {
    assert (s.work + [true])[|s.work|] != (s.work + [false])[|s.work|];
    assert |s.work + [false]| != |s.work|;
  }

  /**
    The watchdog remembers what it saw: a second check with the same reading
    changes nothing, unless the first only noted a new generation of a firmware
    that had been down with no reset under way.
   */
  lemma SecondCheckIff(s: State, running: bool, gen: nat)
    ensures var once := AfterWatchdog(s, running, gen);
            AfterWatchdog(once, running, gen) == once <==>
            !(running && gen != s.gen && !s.fwReset && !s.fwStopping && !s.ready)
  {
  }

  /** A reset event queues a teardown if and only if firmware counts as running and none is under way or done. */
  lemma ResetEventIff(s: State)
    ensures AfterResetEvent(s) ==
            if s.ready && !s.fwReset && !s.fwStopping then s.(fwStopping := true, work := s.work + [false]) else s
    ensures AfterResetEvent(s).work == s.work + [false] <==> s.ready && !s.fwReset && !s.fwStopping
  {
    assert |s.work + [false]| != |s.work|;
  }

  // ----- a restart that fails ---------------------------------------------------

  /** Under FW_RESET with nothing queued, while firmware counts as running. */
  predicate Stranded(s: State) {
    s.fwReset && !s.fwStopping && s.ready && s.work == [] && s.w == WIdle && !s.up
  }

  /** A failed restart with nothing else queued leaves the LIF stranded, unless firmware was seen down meanwhile. */
  lemma FailedRestartStrands(steps: seq<Step>, s: State)
    requires Run(PROBED, steps, s) && Enabled(s, WFail) && s.work == []
    ensures Stranded(Apply(s, WFail)) <==> s.ready
  {
    RunKeepsInv(PROBED, steps, s);
  }

  /**
    So does a teardown that finishes while firmware counts as running: the check
    that saw the new generation came while FW_STOPPING was set, stored it, and
    left nothing for the next check to notice.
   */
  lemma TeardownStrands(steps: seq<Step>, s: State)
    requires Run(PROBED, steps, s) && s.w == WDownDone && s.work == []
    ensures Stranded(Apply(s, WStep)) <==> s.ready
  {
    RunKeepsInv(PROBED, steps, s);
  }

  /** And there is no other way: the exact steps that strand a LIF. */
  lemma StrandedBy(steps: seq<Step>, s: State, step: Step)
    requires Run(PROBED, steps, s) && Enabled(s, step) && !Stranded(s)
    ensures Stranded(Apply(s, step)) <==>
            s.ready && s.work == [] && (step == WFail || (step == WStep && s.w == WDownDone))
  {
    RunKeepsInv(PROBED, steps, s);
  }

  lemma {:induction false} RunSnoc(s: State, steps: seq<Step>, mid: State, step: Step)
    requires Run(s, steps, mid) && Enabled(mid, step)
    ensures Run(s, steps + [step], Apply(mid, step))
    decreases |steps|
  {
    var all := steps + [step];
    if steps == [] {
      assert all[1..] == [];
    } else {
      assert all[1..] == steps[1..] + [step];
      RunSnoc(Apply(s, steps[0]), steps[1..], mid, step);
    }
  }

  /** From a teardown just taken, the worker's four steps. */
  lemma FinishTeardown(taken: seq<Step>, s0: State) returns (steps: seq<Step>, s: State)
    requires Run(PROBED, taken, s0) && s0.w == WDown && !s0.fwReset && s0.s == SNone
    ensures taken <= steps && Run(PROBED, steps, s)
    ensures s == s0.(fwReset := true, up := false, fwStopping := false, w := WIdle)
  {
    var s1 := Apply(s0, WStep);
    var s2 := Apply(s1, WStep);
    var s3 := Apply(s2, WStep);
    s := Apply(s3, WStep);
    RunSnoc(PROBED, taken, s0, WStep);
    RunSnoc(PROBED, taken + [WStep], s1, WStep);
    RunSnoc(PROBED, taken + [WStep] + [WStep], s2, WStep);
    RunSnoc(PROBED, taken + [WStep] + [WStep] + [WStep], s3, WStep);
    steps := taken + [WStep] + [WStep] + [WStep] + [WStep];
  }

  /** A run in which a restart can fail and strand the LIF. */
  lemma FailedRestartExample() returns (steps: seq<Step>, s: State)
    ensures Run(PROBED, steps, s) && Enabled(s, WFail) && s.ready && s.work == []
  {
    var down, s0 := DownRun([], PROBED);
    var s1 := Apply(s0, Watchdog(true, 0));
    RunSnoc(PROBED, down, s0, Watchdog(true, 0));
    var s2 := Apply(s1, WTake);
    RunSnoc(PROBED, down + [Watchdog(true, 0)], s1, WTake);
    s := Apply(s2, WStep);
    RunSnoc(PROBED, down + [Watchdog(true, 0)] + [WTake], s2, WStep);
    steps := down + [Watchdog(true, 0)] + [WTake] + [WStep];
  }

  /** A run that strands the LIF without any failure: the new firmware is seen between the event and the teardown. */
  lemma TeardownExample() returns (steps: seq<Step>, s: State)
    ensures Run(PROBED, steps, s) && Stranded(s)
  {
    var s1 := Apply(PROBED, ResetEvent);
    RunSnoc(PROBED, [], PROBED, ResetEvent);
    var s2 := Apply(s1, Watchdog(true, 1));
    RunSnoc(PROBED, [] + [ResetEvent], s1, Watchdog(true, 1));
    var s3 := Apply(s2, WTake);
    RunSnoc(PROBED, [] + [ResetEvent] + [Watchdog(true, 1)], s2, WTake);
    steps, s := FinishTeardown([] + [ResetEvent] + [Watchdog(true, 1)] + [WTake], s3);
  }

  /** Every watchdog check finds the firmware running, with the same generation. */
  ghost predicate Steady(steps: seq<Step>, gen: nat) {
    steps == [] ||
    ((steps[0].Watchdog? ==> steps[0].running && steps[0].gen == gen) && Steady(steps[1..], gen))
  }

  /**
    A stranded LIF stays stranded for as long as firmware stays up with the same
    generation, whatever else happens: a failed restart is never retried.
   */
  lemma {:induction false} StrandedForGood(s: State, steps: seq<Step>, s': State)
    requires Inv(s) && Stranded(s) && Run(s, steps, s') && Steady(steps, s.gen)
    ensures Stranded(s')
    decreases |steps|
  {
    if steps != [] {
      StepKeepsInv(s, steps[0]);
      StrandedForGood(Apply(s, steps[0]), steps[1..], s');
    }
  }

  /** One check that sees it down and one that sees it up again queue the restart. */
  lemma DownAndUpRecovers(s: State, gen: nat, gen': nat)
    requires Stranded(s)
    ensures AfterWatchdog(AfterWatchdog(s, false, gen), true, gen').work == [true]
  {
  }

  // ----- what the teardown and the restart lead to ----------------------------

  function WSteps(steps: seq<Step>): nat {
    if steps == [] then 0 else (if steps[0] == WStep then 1 else 0) + WSteps(steps[1..])
  }

  /** Steps the worker has left in its item. */
  function Rank(w: Worker): nat {
    match w
    case WIdle => 0
    case WDown => 4
    case WDownLock => 3
    case WDownLocked => 2
    case WDownDone => 1
    case WUp => 4
    case WUpInit => 3
    case WUpLocked => 2
    case WUpDone => 1
  }

  ghost predicate EndsWithWStep(steps: seq<Step>) {
    steps != [] && steps[|steps| - 1] == WStep
  }

  lemma {:induction false} LastCounts(steps: seq<Step>)
    requires EndsWithWStep(steps)
    ensures WSteps(steps) >= 1
  {
    if |steps| > 1 {
      LastCounts(steps[1..]);
    }
  }

  /**
    However the other actors interleave, the last of a teardown's worker steps
    leaves FW_RESET set, FW_STOPPING clear and the queues down.
   */
  lemma {:induction false} TeardownCompletes(s: State, steps: seq<Step>, s': State)
    requires Inv(s) && GoingDown(s.w) && Run(s, steps, s')
    requires EndsWithWStep(steps) && WSteps(steps) == Rank(s.w)
    ensures s'.w == WIdle && s'.fwReset && !s'.fwStopping && !s'.up
    decreases |steps|
  {
    var next := Apply(s, steps[0]);
    StepKeepsInv(s, steps[0]);
    if |steps| == 1 {
      assert steps[1..] == [];
    } else {
      LastCounts(steps[1..]);
      TeardownCompletes(next, steps[1..], s');
    }
  }

  predicate GoingUp(s: State) {
    s.fwReset && (s.w == WUp || s.w == WUpInit || s.w == WUpLocked || s.w == WUpDone)
  }

  /**
    Likewise the last worker step of a restart that meets no error leaves
    FW_RESET and FW_STOPPING clear and the queues down, ready to be started.
   */
  lemma {:induction false} RestartCompletes(s: State, steps: seq<Step>, s': State)
    requires Inv(s) && GoingUp(s) && Run(s, steps, s') && WFail !in steps
    requires EndsWithWStep(steps) && WSteps(steps) == Rank(s.w)
    ensures s'.w == WIdle && !s'.fwReset && !s'.fwStopping && !s'.up
    decreases |steps|
  {
    var next := Apply(s, steps[0]);
    StepKeepsInv(s, steps[0]);
    if |steps| == 1 {
      assert steps[1..] == [];
    } else {
      LastCounts(steps[1..]);
      RestartCompletes(next, steps[1..], s');
    }
  }

  /**
    Exactly when the queues change: up at the second step of a start that passed
    its test, down at a stop, a failed start, or the locked section of a teardown.
   */
  lemma UpChangesIff(s: State, step: Step)
    requires Inv(s) && Enabled(s, step)
    ensures !s.up ==> (Apply(s, step).up <==> step == SStep && s.s == SPassed)
    ensures s.up ==> (!Apply(s, step).up <==>
              step == StopQueues || (step == SFail && s.s == SEnable) || (step == WStep && s.w == WDownLocked))
  {
  }

  // ----- queues that do come up -----------------------------------------------

  /** The starter holds queue_lock before every one of these steps. */
  ghost predicate Held(s: State, steps: seq<Step>)
    decreases |steps|
  {
    steps == [] || (s.s != SNone && Enabled(s, steps[0]) && Held(Apply(s, steps[0]), steps[1..]))
  }

  /**
    A start that has found FW_RESET clear and meets no failure ends with the
    queues up, however the other actors interleave until it releases the lock.
   */
  lemma {:induction false} StartComesUp(s: State, steps: seq<Step>, s': State)
    requires Inv(s) && (s.s == SPassed || s.s == SEnable)
    requires Run(s, steps, s') && Held(s, steps) && SFail !in steps && s'.s == SNone
    ensures s'.up
    decreases |steps|
  {
    var next := Apply(s, steps[0]);
    StepKeepsInv(s, steps[0]);
    if next.s == SNone {
      assert steps[1..] == [];
    } else {
      StartComesUp(next, steps[1..], s');
    }
  }

  /** The whole start: it brings the queues up if and only if its test finds FW_RESET clear, or they were up already. */
  lemma StartIff(s: State, steps: seq<Step>, s': State)
    requires Inv(s) && s.s == SLocked && steps != [] && steps[0] == SStep
    requires Run(s, steps, s') && Held(s, steps) && SFail !in steps && s'.s == SNone
    ensures s'.up <==> !s.fwReset || s.up
  {
    StepKeepsInv(s, SStep);
    if s.fwReset {
      assert steps[1..] == [];
    } else {
      StartComesUp(Apply(s, SStep), steps[1..], s');
    }
  }

  /** A start, left alone, of queues that are down. */
  lemma StartRun(before: seq<Step>, s0: State) returns (steps: seq<Step>, s: State)
    requires Run(PROBED, before, s0) && LockFree(s0) && !s0.fwReset && !s0.up
    ensures before <= steps && Run(PROBED, steps, s) && s == s0.(up := true)
  {
    var s1 := Apply(s0, SLock);
    var s2 := Apply(s1, SStep);
    var s3 := Apply(s2, SStep);
    s := Apply(s3, SStep);
    RunSnoc(PROBED, before, s0, SLock);
    RunSnoc(PROBED, before + [SLock], s1, SStep);
    RunSnoc(PROBED, before + [SLock] + [SStep], s2, SStep);
    RunSnoc(PROBED, before + [SLock] + [SStep] + [SStep], s3, SStep);
    steps := before + [SLock] + [SStep] + [SStep] + [SStep];
  }

  /** A teardown, from the check that sees firmware down to its last step. */
  lemma DownRun(before: seq<Step>, s0: State) returns (steps: seq<Step>, s: State)
    requires Run(PROBED, before, s0) && s0.s == SNone && s0.w == WIdle && s0.work == []
    requires s0.ready && !s0.fwReset && !s0.fwStopping
    ensures before <= steps && Run(PROBED, steps, s)
    ensures s == s0.(up := false, ready := false, fwReset := true)
  {
    var s1 := Apply(s0, Watchdog(false, 0));
    RunSnoc(PROBED, before, s0, Watchdog(false, 0));
    var s2 := Apply(s1, WTake);
    RunSnoc(PROBED, before + [Watchdog(false, 0)], s1, WTake);
    steps, s := FinishTeardown(before + [Watchdog(false, 0)] + [WTake], s2);
  }

  /** A restart, from the check that sees firmware up again to its last step. */
  lemma UpRun(before: seq<Step>, s0: State) returns (steps: seq<Step>, s: State)
    requires Run(PROBED, before, s0) && s0.s == SNone && s0.w == WIdle && s0.work == []
    requires !s0.ready && s0.fwReset && !s0.fwStopping
    ensures before <= steps && Run(PROBED, steps, s)
    ensures s == s0.(ready := true, fwReset := false)
  {
    var seen := before + [Watchdog(true, s0.gen)];
    var s1 := Apply(s0, Watchdog(true, s0.gen));
    RunSnoc(PROBED, before, s0, Watchdog(true, s0.gen));
    var s2 := Apply(s1, WTake);
    RunSnoc(PROBED, seen, s1, WTake);
    var s3 := Apply(s2, WStep);
    RunSnoc(PROBED, seen + [WTake], s2, WStep);
    var s4 := Apply(s3, WStep);
    RunSnoc(PROBED, seen + [WTake] + [WStep], s3, WStep);
    var s5 := Apply(s4, WStep);
    RunSnoc(PROBED, seen + [WTake] + [WStep] + [WStep], s4, WStep);
    s := Apply(s5, WStep);
    RunSnoc(PROBED, seen + [WTake] + [WStep] + [WStep] + [WStep], s5, WStep);
    steps := seen + [WTake] + [WStep] + [WStep] + [WStep] + [WStep];
  }

  /** One run that brings the queues up, loses the firmware, and brings them up again. */
  lemma UpDownUp() returns (up: seq<Step>, s1: State, down: seq<Step>, s2: State, again: seq<Step>, s3: State)
    ensures up <= down <= again
    ensures Run(PROBED, up, s1) && s1.up && !s1.fwReset
    ensures Run(PROBED, down, s2) && !s2.up && s2.fwReset
    ensures Run(PROBED, again, s3) && s3.up && !s3.fwReset
  {
    up, s1 := StartRun([], PROBED);
    down, s2 := DownRun(up, s1);
    var restarted, s := UpRun(down, s2);
    again, s3 := StartRun(restarted, s);
  }
}
