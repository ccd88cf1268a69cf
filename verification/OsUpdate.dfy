/**
  The OS update loop, its detached countdown timers, the shared freeze flag and
  the application loop it freezes (orchestrator/src/loop_os.rs, and the check in
  orchestrator/src/loop_apps.rs), as one transition system with a step per await.
 */
module OsUpdate {
  import opened Options

  datatype Deployment = Deployment(checksum: string, imageRef: Option<string>)

  datatype Status = Status(booted: Option<Deployment>, staged: Option<Deployment>)

  datatype Target = Target(id: int, commitHash: string, immediate: bool)

  datatype OsState = OsState(
    updatePending: bool,
    bootedChecksum: string,
    bootedImageRef: Option<string>,
    stagedChecksum: Option<string>,
    stagedImageRef: Option<string>,
    countdownStarted: bool)

  /** A target is named either by checksum or by image reference. */
  predicate Is(d: Option<Deployment>, hash: string) {
    d.Some? && (d.value.checksum == hash || d.value.imageRef == Some(hash))
  }

  /** `OsState::new` */
  function NewState(status: Status): Option<OsState> {
    match status.booted
    case None => None
    case Some(booted) =>
      Some(OsState(
        status.staged.Some?,
        booted.checksum,
        booted.imageRef,
        if status.staged.Some? then Some(status.staged.value.checksum) else None,
        if status.staged.Some? then status.staged.value.imageRef else None,
        false))
  }

  predicate IsBooted(s: OsState, hash: string) {
    s.bootedChecksum == hash || s.bootedImageRef == Some(hash)
  }

  predicate IsStaged(s: OsState, hash: string) {
    s.stagedChecksum == Some(hash) || s.stagedImageRef == Some(hash)
  }

  /** Where the OS loop is suspended. */
  datatype Pc =
    | Idle
    | AwaitTarget
    | Reporting(reported: Target)
    | Switching(target: Target)
    | Applying
    | Rechecking

  /**
    `frozen` is the shared flag. `sleeping` timers count down, `armed` ones have
    set the flag and are about to apply. `seen` is the status the running cycle
    read; `booted` and `staged` are the device's own deployments.
   */
  datatype World = World(
    state: OsState, pc: Pc, frozen: bool,
    sleeping: nat, armed: nat, appCycleRunning: bool,
    seen: Option<Status>, booted: Option<Deployment>, staged: Option<Deployment>,
    switches: nat, timersStarted: nat, appCyclesStarted: nat)

  /** An await resolving, with its result; `None` and `false` are failures. */
  datatype Label =
    | StatusRead(status: Option<Status>)
    | TargetRead(target: Option<Target>)
    | Reported(ok: bool)
    | Switched(staged: Option<Deployment>)
    | Applied(ok: bool)
    | TimerFires
    | TimerApplies(ok: bool)
    | AppTick
    | AppCycleEnds

  predicate OfOsLoop(l: Label) {
    l.StatusRead? || l.TargetRead? || l.Reported? || l.Switched? || l.Applied?
  }

  /** What the OS loop does once the target is known. */
  function Decide(w: World, t: Target): World {
    if IsBooted(w.state, t.commitHash) then w.(pc := Reporting(t))
    else if IsStaged(w.state, t.commitHash) then
      if t.immediate then w.(frozen := true, pc := Applying) else w.(pc := Idle)
    else if t.immediate then w.(frozen := true, pc := Switching(t))
    else w.(pc := Switching(t))
  }

  /** The successor, if the label is enabled. */
  function Step(w: World, l: Label): Option<World> {
    match l
    case StatusRead(r) =>
      if w.pc == Idle then
        if r.None? then Some(w)
        else
          (match NewState(r.value)
           case None => Some(w)
           case Some(s) =>
             Some(w.(state := s.(countdownStarted := w.state.countdownStarted), pc := AwaitTarget, seen := r)))
      else if w.pc == Rechecking then
        Some(if r.None? then w.(pc := Idle)
             else w.(pc := Idle, sleeping := w.sleeping + 1, timersStarted := w.timersStarted + 1))
      else None
    case TargetRead(t) =>
      if w.pc != AwaitTarget then None
      else if t.None? then Some(w.(pc := Idle))
      else Some(Decide(w, t.value))
    case Reported(ok) =>
      if w.pc.Reporting? then Some(w.(pc := Idle)) else None
    case Switched(d) =>
      if !w.pc.Switching? then None
      else if d.None? then Some(w.(pc := Idle))
      else
        var w' := w.(staged := d, switches := w.switches + 1);
        if w.pc.target.immediate then Some(w'.(pc := Applying))
        else Some(w'.(pc := Rechecking, state := w.state.(countdownStarted := true)))
    case Applied(ok) =>
      if w.pc == Applying then Some(w.(pc := Idle)) else None
    case TimerFires =>
      if w.sleeping == 0 then None
      else Some(w.(sleeping := w.sleeping - 1, armed := w.armed + 1, frozen := true))
    case TimerApplies(ok) =>
      if w.armed == 0 then None else Some(w.(armed := w.armed - 1))
    case AppTick =>
      if w.appCycleRunning then None
      else if w.frozen then Some(w)
      else Some(w.(appCycleRunning := true, appCyclesStarted := w.appCyclesStarted + 1))
    case AppCycleEnds =>
      if w.appCycleRunning then Some(w.(appCycleRunning := false)) else None
  }

  function Run(w: World, labels: seq<Label>): Option<World> {
    if labels == [] then Some(w) else
    var r := Run(w, labels[..|labels| - 1]);
    if r.None? then None else Step(r.value, labels[|labels| - 1])
  }

  /** Process start: the flag is clear and nothing is under way. */
  ghost predicate Start(w: World) {
    && w.pc == Idle && !w.frozen && w.sleeping == w.armed == 0 && !w.appCycleRunning
    && w.switches == w.timersStarted == w.appCyclesStarted == 0
  }

  // ------------------------------------------------------------------ run safety

  ghost predicate Invariant(w: World) {
    && (w.pc == Applying ==> w.frozen)
    && (w.armed > 0 ==> w.frozen)
    && (w.pc != Idle ==> w.seen.Some? && w.seen.value.booted.Some?)
    && (w.pc != Idle && w.pc != Rechecking ==>
          NewState(w.seen.value) == Some(w.state.(countdownStarted := false)))
    && (w.pc.Reporting? ==> Is(w.seen.value.booted, w.pc.reported.commitHash))
    && (w.pc.Switching? ==> !IsStaged(w.state, w.pc.target.commitHash) && !IsBooted(w.state, w.pc.target.commitHash))
    && (w.pc.Switching? && w.pc.target.immediate ==> w.frozen)
    && w.timersStarted + (if w.pc == Rechecking then 1 else 0) <= w.switches
    && w.sleeping + w.armed <= w.timersStarted
    && (w.timersStarted > 0 || w.pc == Rechecking ==> w.state.countdownStarted)
  }

  /** What one step may do. */
  ghost predicate SafeStep(w: World, l: Label, w': World) {
    && (w.frozen ==> w'.frozen)
    && (l.Applied? || l.TimerApplies? ==> w.frozen)
    && (w.frozen ==> w'.appCyclesStarted == w.appCyclesStarted)
    && (l.Reported? ==> w.pc.Reporting? && w.seen.Some? && Is(w.seen.value.booted, w.pc.reported.commitHash))
  }

  lemma StepIsSafe(w: World, l: Label)
    requires Invariant(w) && Step(w, l).Some?
    ensures Invariant(Step(w, l).value) && SafeStep(w, l, Step(w, l).value)
  {
  }

  lemma {:induction false} Reachable(w: World, labels: seq<Label>)
    requires Invariant(w) && Run(w, labels).Some?
    ensures Invariant(Run(w, labels).value)
    decreases |labels|
  {
    if labels != [] {
      var n := |labels| - 1;
      Reachable(w, labels[..n]);
      StepIsSafe(Run(w, labels[..n]).value, labels[n]);
    }
  }

  lemma {:induction false} RunPrefix(w: World, labels: seq<Label>, n: nat)
    requires Run(w, labels).Some? && n <= |labels|
    ensures Run(w, labels[..n]).Some?
    decreases |labels|
  {
    if n == |labels| {
      assert labels[..n] == labels;
    } else {
      var m := |labels| - 1;
      RunPrefix(w, labels[..m], n);
      assert labels[..m][..n] == labels[..n];
    }
  }

  /**
    Safety of every interleaving of OS cycles, timers and application ticks, at
    every step of every run: the flag never falls; whenever an apply resolves
    the flag was already up; no application cycle starts once it is up; and what
    is reported was booted in the status that cycle read.
   */
  lemma RunIsSafe(w: World, labels: seq<Label>, n: nat)
    requires Start(w) && Run(w, labels).Some? && n < |labels|
    ensures Run(w, labels[..n]).Some? && Run(w, labels[..n + 1]).Some?
    ensures SafeStep(Run(w, labels[..n]).value, labels[n], Run(w, labels[..n + 1]).value)
  {
    RunPrefix(w, labels, n);
    RunPrefix(w, labels, n + 1);
    assert labels[..n + 1][..n] == labels[..n];
    Reachable(w, labels[..n]);
    StepIsSafe(Run(w, labels[..n]).value, labels[n]);
  }

  // ------------------------------------------------- what a cycle does about its target

  /** Where the loop goes on once a target is read, by the status `st` that the cycle has read. */
  ghost predicate GoesOn(w: World, st: Status, t: Target, w': World) {
    var booted, staged := Is(st.booted, t.commitHash), Is(st.staged, t.commitHash);
    && (w'.pc == Reporting(t) <==> booted)
    && (w'.pc == Applying <==> !booted && staged && t.immediate)
    && (w'.pc == Idle <==> !booted && staged && !t.immediate)
    && (w'.pc == Switching(t) <==> !booted && !staged)
    && (w'.frozen <==> w.frozen || (t.immediate && !booted))
    && w' == w.(pc := w'.pc, frozen := w'.frozen)
  }

  /**
    At every target that is read in every run: it is reported if and only if the
    cycle's status shows it booted; else applied if and only if it is staged and
    immediate; else left to its timer if and only if it is staged; and else it is
    switched to, whatever other image is staged.
   */
  lemma TargetDecides(w: World, labels: seq<Label>, n: nat, t: Target)
    requires Start(w) && Run(w, labels).Some? && n < |labels| && labels[n] == TargetRead(Some(t))
    ensures Run(w, labels[..n]).Some? && Run(w, labels[..n + 1]).Some?
    ensures var before := Run(w, labels[..n]).value;
      before.seen.Some? && GoesOn(before, before.seen.value, t, Run(w, labels[..n + 1]).value)
  {
    RunSplit(w, labels, n);
    Reachable(w, labels[..n]);
  }

  /**
    At every switch that resolves: a failed one ends the cycle and changes
    nothing else; a successful one leaves its deployment staged and goes on to
    apply it if the target is immediate, and to read the status again if not.
   */
  lemma SwitchDecides(w: World, d: Option<Deployment>)
    requires w.pc.Switching?
    ensures var r := Step(w, Switched(d));
      && r.Some?
      && (d.None? ==> r.value == w.(pc := Idle))
      && (d.Some? ==> r.value == w.(pc := if w.pc.target.immediate then Applying else Rechecking,
                                    staged := d, switches := w.switches + 1, state := r.value.state))
  {
  }

  /** A poll of the application loop starts a cycle if and only if the flag is down and none is running. */
  lemma TickStartsIff(w: World)
    ensures var r := Step(w, AppTick);
      && (r.Some? && r.value.appCyclesStarted == w.appCyclesStarted + 1 && r.value.appCycleRunning
          <==> !w.frozen && !w.appCycleRunning)
      && (r.Some? && (w.frozen || w.appCycleRunning) ==> r.value == w)
  {
  }

  /**
    What a cycle awaits, read off its results: it reports exactly a booted target,
    switches exactly to one neither booted nor staged, and applies exactly an
    immediate one that is staged or has just been switched to.
   */
  lemma CycleCalls(i: Inputs, l: Label)
    ensures var known := i.status.Some? && i.status.value.booted.Some? && i.target.Some?;
      var booted := known && Is(i.status.value.booted, i.target.value.commitHash);
      var staged := known && Is(i.status.value.staged, i.target.value.commitHash);
      var switches := known && !booted && !staged;
      && CycleLabels(i) != [] && CycleLabels(i)[0] == StatusRead(i.status)
      && (l.TargetRead? ==> (l in CycleLabels(i) <==>
            l.target == i.target && i.status.Some? && i.status.value.booted.Some?))
      && (l.Reported? ==> (l in CycleLabels(i) <==> l.ok == i.reportOk && booted))
      && (l.Switched? ==> (l in CycleLabels(i) <==> l.staged == i.switched && switches))
      && (l.Applied? ==> (l in CycleLabels(i) <==>
            l.ok == i.applyOk && known && !booted && i.target.value.immediate && (staged || i.switched.Some?)))
      && (switches && i.switched.Some? && !i.target.value.immediate ==>
            |CycleLabels(i)| == 4 && CycleLabels(i)[3] == StatusRead(i.recheck))
  {
  }

  /** From the moment the flag is up, however the run goes on, it stays up and no application cycle starts. */
  lemma {:induction false} OnceFrozen(w: World, labels: seq<Label>)
    requires Invariant(w) && w.frozen && Run(w, labels).Some?
    ensures Run(w, labels).value.frozen
    ensures Run(w, labels).value.appCyclesStarted == w.appCyclesStarted
    decreases |labels|
  {
    if labels != [] {
      var n := |labels| - 1;
      OnceFrozen(w, labels[..n]);
      Reachable(w, labels[..n]);
      StepIsSafe(Run(w, labels[..n]).value, labels[n]);
    }
  }

  lemma RunSplit(w: World, labels: seq<Label>, n: nat)
    requires n < |labels| && Run(w, labels).Some?
    ensures Run(w, labels[..n]).Some? && Run(w, labels[..n + 1]) == Step(Run(w, labels[..n]).value, labels[n])
    ensures Run(w, labels[..n + 1]).Some?
  {
    RunPrefix(w, labels, n);
    RunPrefix(w, labels, n + 1);
    assert labels[..n + 1][..n] == labels[..n];
  }

  /**
    With the flag up, an application cycle is running if and only if it was
    running at the start and has not ended since.
   */
  lemma {:induction false} CycleOutlivesFreeze(w: World, labels: seq<Label>)
    requires Invariant(w) && w.frozen && Run(w, labels).Some?
    ensures Run(w, labels).value.appCycleRunning <==> w.appCycleRunning && AppCycleEnds !in labels
    decreases |labels|
  {
    if labels != [] {
      var n := |labels| - 1;
      CycleOutlivesFreeze(w, labels[..n]);
      OnceFrozen(w, labels[..n]);
      FrozenCycleStep(Run(w, labels[..n]).value, labels[n]);
      assert labels == labels[..n] + [labels[n]];
    }
  }

  lemma FrozenCycleStep(w: World, l: Label)
    requires w.frozen && Step(w, l).Some?
    ensures Step(w, l).value.appCycleRunning <==> w.appCycleRunning && l != AppCycleEnds
  {
  }

  /**
    When the freeze is as instant as documented: with the flag up, no
    application cycle runs from here on, in any continuation, if and only if
    none is running now.
   */
  lemma FreezeIsInstantIff(w: World)
    requires Invariant(w) && w.frozen
    ensures !w.appCycleRunning <==> forall labels | Run(w, labels).Some? :: !Run(w, labels).value.appCycleRunning
  {
    if forall labels | Run(w, labels).Some? :: !Run(w, labels).value.appCycleRunning {
      assert Run(w, []) == Some(w);
    } else {
      var labels :| Run(w, labels).Some? && Run(w, labels).value.appCycleRunning;
      CycleOutlivesFreeze(w, labels);
    }
  }

  /** The step after the first `i` raises the flag. */
  ghost predicate RaisesFlag(w: World, labels: seq<Label>, i: nat)
    requires i < |labels|
  {
    && Run(w, labels[..i]).Some? && !Run(w, labels[..i]).value.frozen
    && Run(w, labels[..i + 1]).Some? && Run(w, labels[..i + 1]).value.frozen
  }

  lemma {:induction false} SomeStepRaised(w: World, labels: seq<Label>, n: nat)
    requires !w.frozen && n <= |labels| && Run(w, labels).Some?
    requires Run(w, labels[..n]).Some? && Run(w, labels[..n]).value.frozen
    ensures exists i :: 0 <= i < n && RaisesFlag(w, labels, i)
    decreases n
  {
    assert n > 0;
    RunSplit(w, labels, n - 1);
    if Run(w, labels[..n - 1]).value.frozen {
      SomeStepRaised(w, labels, n - 1);
    } else {
      assert RaisesFlag(w, labels, n - 1);
    }
  }

  /**
    At every apply of every run: some earlier step raised the flag, and the
    apply meets a running application cycle if and only if one was running at
    that step and has not ended in between.
   */
  lemma ApplyOverlapsIff(w: World, labels: seq<Label>, n: nat)
    requires Start(w) && Run(w, labels).Some? && n < |labels| && (labels[n].Applied? || labels[n].TimerApplies?)
    ensures Run(w, labels[..n]).Some?
    ensures exists i :: 0 <= i < n && RaisesFlag(w, labels, i)
    ensures forall i | 0 <= i < n && RaisesFlag(w, labels, i) ::
      Run(w, labels[..n]).value.appCycleRunning <==>
      Run(w, labels[..i]).value.appCycleRunning && AppCycleEnds !in labels[i + 1..n]
  {
    RunIsSafe(w, labels, n);
    SomeStepRaised(w, labels, n);
    forall i | 0 <= i < n && RaisesFlag(w, labels, i)
      ensures Run(w, labels[..n]).value.appCycleRunning <==>
              Run(w, labels[..i]).value.appCycleRunning && AppCycleEnds !in labels[i + 1..n]
    {
      OverlapSinceRaise(w, labels, i, n);
    }
  }

  lemma OverlapSinceRaise(w: World, labels: seq<Label>, i: nat, n: nat)
    requires Invariant(w) && Run(w, labels).Some? && i < n < |labels| && RaisesFlag(w, labels, i)
    ensures Run(w, labels[..n]).Some?
    ensures Run(w, labels[..n]).value.appCycleRunning <==>
            Run(w, labels[..i]).value.appCycleRunning && AppCycleEnds !in labels[i + 1..n]
  {
    var raised, later := labels[..i + 1], labels[i + 1..n];
    assert labels[..n] == raised + later;
    RunPrefix(w, labels, n);
    RunAppend(w, raised, later);
    Reachable(w, raised);
    RaisedAt(w, labels, i);
    CycleOutlivesFreeze(Run(w, raised).value, later);
  }

  lemma RaisedAt(w: World, labels: seq<Label>, i: nat)
    requires Run(w, labels).Some? && i < |labels| && RaisesFlag(w, labels, i)
    ensures Run(w, labels[..i + 1]).value.appCycleRunning == Run(w, labels[..i]).value.appCycleRunning
  {
    RunSplit(w, labels, i);
    RaisingStep(Run(w, labels[..i]).value, labels[i]);
  }

  /** Raising the flag neither starts nor ends an application cycle. */
  lemma RaisingStep(w: World, l: Label)
    requires Step(w, l).Some? && !w.frozen && Step(w, l).value.frozen
    ensures Step(w, l).value.appCycleRunning == w.appCycleRunning
  {
  }

  /**
    The freeze is not retroactive: an application cycle that was already running
    when the flag went up is still running when the update is applied.
   */
  lemma FreezeDoesNotStopRunningCycle(w: World, d: Deployment, t: Target)
    requires Start(w) && t.immediate && d.checksum != t.commitHash && d.imageRef == None
    ensures var labels := [AppTick, StatusRead(Some(Status(Some(d), None))), TargetRead(Some(t)),
                           Switched(Some(Deployment(t.commitHash, None)))];
      && Run(w, labels).Some?
      && Run(w, labels).value.appCycleRunning
      && Step(Run(w, labels).value, Applied(true)).Some?
  {
    var l0, l1, l2, l3 := AppTick, StatusRead(Some(Status(Some(d), None))), TargetRead(Some(t)),
                          Switched(Some(Deployment(t.commitHash, None)));
    assert [] + [l0] == [l0] && [l0] + [l1] == [l0, l1] && [l0, l1] + [l2] == [l0, l1, l2];
    assert [l0, l1, l2] + [l3] == [l0, l1, l2, l3];
    RunSnoc(w, [], l0);
    RunSnoc(w, [l0], l1);
    RunSnoc(w, [l0, l1], l2);
    var w2 := Run(w, [l0, l1]).value;
    assert w2.pc == AwaitTarget && !IsBooted(w2.state, t.commitHash) && !IsStaged(w2.state, t.commitHash);
    RunSnoc(w, [l0, l1, l2], l3);
  }

  lemma RunSnoc(w: World, labels: seq<Label>, l: Label)
    requires Run(w, labels).Some?
    ensures Run(w, labels + [l]) == Step(Run(w, labels).value, l)
  {
  }

  // ------------------------------------------------ one staging and one countdown

  /** The staging tool's contract: a status shows the real deployments, and a successful switch stages its target. */
  predicate Honest(w: World, l: Label) {
    && (l.StatusRead? && l.status.Some? ==> l.status.value == Status(w.booted, w.staged))
    && (l.Switched? && l.staged.Some? && w.pc.Switching? ==> Is(l.staged, w.pc.target.commitHash))
  }

  /** Every target that is read names `hash`. */
  predicate Wants(l: Label, hash: string) {
    l.TargetRead? && l.target.Some? ==> l.target.value.commitHash == hash
  }

  /** A run in which the staging tool keeps its contract at every step. */
  ghost predicate HonestSteps(w: World, labels: seq<Label>) {
    && Run(w, labels).Some?
    && forall n | 0 <= n < |labels| :: Run(w, labels[..n]).Some? && Honest(Run(w, labels[..n]).value, labels[n])
  }

  /** Such a run in which the cloud names no other image. */
  ghost predicate HonestRun(w: World, labels: seq<Label>, hash: string) {
    HonestSteps(w, labels) && forall n | 0 <= n < |labels| :: Wants(labels[n], hash)
  }

  lemma HonestStepsPrefix(w: World, labels: seq<Label>)
    requires labels != [] && HonestSteps(w, labels)
    ensures HonestSteps(w, labels[..|labels| - 1])
    ensures Honest(Run(w, labels[..|labels| - 1]).value, labels[|labels| - 1])
  {
    var m := |labels| - 1;
    forall n | 0 <= n < m
      ensures var p := labels[..m]; Run(w, p[..n]).Some? && Honest(Run(w, p[..n]).value, p[n])
    {
      assert labels[..m][..n] == labels[..n];
      assert Honest(Run(w, labels[..n]).value, labels[n]);
    }
    assert Honest(Run(w, labels[..m]).value, labels[m]);
  }

  lemma HonestPrefix(w: World, labels: seq<Label>, hash: string)
    requires labels != [] && HonestRun(w, labels, hash)
    ensures HonestRun(w, labels[..|labels| - 1], hash)
    ensures Honest(Run(w, labels[..|labels| - 1]).value, labels[|labels| - 1])
    ensures Wants(labels[|labels| - 1], hash)
  {
    HonestStepsPrefix(w, labels);
  }

  ghost predicate Staging(w: World, hash: string) {
    && Invariant(w)
    && (w.pc != Idle && w.pc != Rechecking && w.pc != Applying ==> w.seen == Some(Status(w.booted, w.staged)))
    && (w.pc.Switching? ==> w.pc.target.commitHash == hash)
    && (if Is(w.staged, hash) then w.switches <= 1 else w.switches == 0)
  }

  lemma StagingStep(w: World, l: Label, hash: string)
    requires Staging(w, hash) && Honest(w, l) && Wants(l, hash) && Step(w, l).Some?
    ensures Staging(Step(w, l).value, hash)
  {
    StepIsSafe(w, l);
  }

  lemma {:induction false} StagingRun(w: World, labels: seq<Label>, hash: string)
    requires Staging(w, hash) && HonestRun(w, labels, hash)
    ensures Staging(Run(w, labels).value, hash)
    decreases |labels|
  {
    if labels != [] {
      var n := |labels| - 1;
      HonestPrefix(w, labels, hash);
      StagingRun(w, labels[..n], hash);
      StagingStep(Run(w, labels[..n]).value, labels[n], hash);
    }
  }

  /**
    However often the loop polls, and whether the target is marked immediate or
    not from one poll to the next, a run that keeps naming the same image
    switches successfully at most once and starts at most one countdown.
   */
  lemma OneStagingOneCountdown(w: World, labels: seq<Label>, hash: string)
    requires Start(w) && HonestRun(w, labels, hash)
    ensures var w' := Run(w, labels).value; w'.switches <= 1 && w'.timersStarted <= 1
  {
    StagingRun(w, labels, hash);
  }

  // -------------------------------------------------------- what is applied

  /** The target that was read last. */
  function LastTarget(labels: seq<Label>): Option<Target> {
    if labels == [] then None
    else
      var last := labels[|labels| - 1];
      if last.TargetRead? && last.target.Some? then last.target else LastTarget(labels[..|labels| - 1])
  }

  /** The status is the real one up to the decision, and what is about to be applied is the target read last. */
  ghost predicate Aims(w: World, target: Option<Target>) {
    && (w.pc != Idle && w.pc != Rechecking && w.pc != Applying ==> w.seen == Some(Status(w.booted, w.staged)))
    && (w.pc.Switching? ==> target == Some(w.pc.target))
    && (w.pc == Applying ==>
          && target.Some? && target.value.immediate
          && Is(w.staged, target.value.commitHash) && !Is(w.booted, target.value.commitHash))
  }

  lemma AimsStep(w: World, l: Label, target: Option<Target>)
    requires Invariant(w) && Aims(w, target) && Honest(w, l) && Step(w, l).Some?
    ensures Aims(Step(w, l).value, if l.TargetRead? && l.target.Some? then l.target else target)
  {
  }

  lemma {:induction false} AimsRun(w: World, labels: seq<Label>)
    requires Start(w) && HonestSteps(w, labels)
    ensures Aims(Run(w, labels).value, LastTarget(labels))
    decreases |labels|
  {
    if labels != [] {
      var n := |labels| - 1;
      HonestStepsPrefix(w, labels);
      AimsRun(w, labels[..n]);
      Reachable(w, labels[..n]);
      AimsStep(Run(w, labels[..n]).value, labels[n], LastTarget(labels[..n]));
    }
  }

  /**
    Over every run in which the staging tool keeps its contract, the loop applies
    only the target it read last, when that is immediate, staged and not booted;
    never another image that happens to be staged.
   */
  lemma AppliesItsTarget(w: World, labels: seq<Label>)
    requires Start(w) && labels != [] && HonestSteps(w, labels) && labels[|labels| - 1].Applied?
    ensures var before := labels[..|labels| - 1];
      var t := LastTarget(before);
      && Run(w, before).Some? && t.Some? && t.value.immediate
      && Is(Run(w, before).value.staged, t.value.commitHash)
      && !Is(Run(w, before).value.booted, t.value.commitHash)
  {
    HonestStepsPrefix(w, labels);
    AimsRun(w, labels[..|labels| - 1]);
  }

  // -------------------------------------------------------- a stranded countdown

  /** A deferred switch that succeeded starts its countdown exactly when the status read after it succeeds. */
  lemma CountdownNeedsRecheck(w: World, d: Deployment, r: Option<Status>)
    requires Invariant(w) && w.pc.Switching? && !w.pc.target.immediate
    ensures Run(w, [Switched(Some(d)), StatusRead(r)]).Some?
    ensures Run(w, [Switched(Some(d)), StatusRead(r)]).value.timersStarted > w.timersStarted <==> r.Some?
  {
    RunSnoc(w, [], Switched(Some(d)));
    RunSnoc(w, [Switched(Some(d))], StatusRead(r));
    assert [] + [Switched(Some(d))] == [Switched(Some(d))];
    assert [Switched(Some(d))] + [StatusRead(r)] == [Switched(Some(d)), StatusRead(r)];
  }

  predicate Deferred(l: Label) {
    l.TargetRead? && l.target.Some? ==> !l.target.value.immediate
  }

  predicate Applies(l: Label) {
    l.Applied? || l.TimerApplies?
  }

  /** The status is read truthfully, and the cloud keeps naming `hash`, deferred. */
  ghost predicate DeferredRun(w: World, labels: seq<Label>, hash: string) {
    HonestRun(w, labels, hash) && forall l | l in labels :: Deferred(l)
  }

  /** Staged, not booted, and no timer left that would apply it. */
  ghost predicate Stranded(w: World, hash: string) {
    && Is(w.staged, hash) && !Is(w.booted, hash)
    && w.sleeping == w.armed == 0
    && (w.pc == Idle || (w.pc == AwaitTarget && w.seen == Some(Status(w.booted, w.staged))
          && NewState(w.seen.value) == Some(w.state.(countdownStarted := false))))
  }

  lemma StrandedStep(w: World, l: Label, hash: string)
    requires Stranded(w, hash) && Honest(w, l) && Wants(l, hash) && Deferred(l) && Step(w, l).Some?
    ensures Stranded(Step(w, l).value, hash) && !Applies(l)
    ensures Step(w, l).value.timersStarted == w.timersStarted && Step(w, l).value.frozen == w.frozen
    ensures w.frozen ==> Step(w, l).value.appCyclesStarted == w.appCyclesStarted
  {
  }

  /**
    From a stranded state, as long as the cloud keeps asking for the same image
    deferred, every run of the process ends with no countdown started and not
    one apply, because later polls see the image staged and wait for a timer
    that does not exist. The flag stays as it is: if a timer has raised it, no
    application cycle starts either.
   */
  lemma {:induction false} StrandedForever(w: World, labels: seq<Label>, hash: string)
    requires Stranded(w, hash) && DeferredRun(w, labels, hash)
    ensures var w' := Run(w, labels).value;
      && Stranded(w', hash)
      && w'.timersStarted == w.timersStarted
      && w'.frozen == w.frozen
      && (w.frozen ==> w'.appCyclesStarted == w.appCyclesStarted)
    ensures forall l | l in labels :: !Applies(l)
    decreases |labels|
  {
    if labels != [] {
      var n := |labels| - 1;
      HonestPrefix(w, labels, hash);
      StrandedForever(w, labels[..n], hash);
      StrandedStep(Run(w, labels[..n]).value, labels[n], hash);
      assert labels == labels[..n] + [labels[n]];
    }
  }

  /** No continuation of this kind applies anything. */
  ghost predicate NeverApplied(w: World, hash: string) {
    forall more | DeferredRun(w, more, hash) :: forall l | l in more :: !Applies(l)
  }

  function TimerApplications(labels: seq<Label>): nat {
    if labels == [] then 0
    else
      TimerApplications(labels[..|labels| - 1]) + (if labels[|labels| - 1].TimerApplies? then 1 else 0)
  }

  /** Every timer that was started is asleep, about to apply, or has applied; and it raised the flag first. */
  lemma {:induction false} TimersAccounted(w: World, labels: seq<Label>)
    requires Start(w) && Run(w, labels).Some?
    ensures var w' := Run(w, labels).value;
      && w'.timersStarted == w'.sleeping + w'.armed + TimerApplications(labels)
      && (w'.armed > 0 || TimerApplications(labels) > 0 ==> w'.frozen)
    decreases |labels|
  {
    if labels != [] {
      var n := |labels| - 1;
      TimersAccounted(w, labels[..n]);
      TimerStep(Run(w, labels[..n]).value, labels[n]);
    }
  }

  lemma TimerStep(w: World, l: Label)
    requires Step(w, l).Some?
    ensures var w' := Step(w, l).value;
      && w'.sleeping + w'.armed + (if l.TimerApplies? then 1 else 0) - w'.timersStarted
         == w.sleeping + w.armed - w.timersStarted
      && (w.frozen ==> w'.frozen)
      && (w'.armed > w.armed ==> w'.frozen)
      && (l.TimerApplies? ==> w.armed > 0)
  {
  }

  lemma {:induction false} TimerApplicationsCount(labels: seq<Label>)
    ensures TimerApplications(labels) > 0 <==> exists l :: l in labels && l.TimerApplies?
    decreases |labels|
  {
    if labels != [] {
      var n := |labels| - 1;
      TimerApplicationsCount(labels[..n]);
      assert labels == labels[..n] + [labels[n]];
      assert labels[n] in labels;
    }
  }

  /**
    Exactly when a deferred update is lost, over every such run from process
    start: in an idle state with the image staged and not booted, nothing will
    ever apply it if and only if no countdown was started (the status read after
    the switch failed, or the image was staged before the process started) or
    the one countdown has already resolved its apply. In the second case the
    flag is up, so the applications are frozen as well.
   */
  lemma StrandedIff(w: World, labels: seq<Label>, hash: string)
    requires Start(w) && DeferredRun(w, labels, hash)
    requires var w' := Run(w, labels).value; w'.pc == Idle && Is(w'.staged, hash) && !Is(w'.booted, hash)
    ensures var w' := Run(w, labels).value;
      var resolved := exists l :: l in labels && l.TimerApplies?;
      && w'.timersStarted <= 1
      && (NeverApplied(w', hash) <==> w'.timersStarted == 0 || resolved)
      && (resolved ==> w'.frozen)
  {
    var w' := Run(w, labels).value;
    OneStagingOneCountdown(w, labels, hash);
    TimersAccounted(w, labels);
    TimerApplicationsCount(labels);
    if Stranded(w', hash) {
      forall more | DeferredRun(w', more, hash)
        ensures forall l | l in more :: !Applies(l)
      {
        StrandedForever(w', more, hash);
      }
    } else {
      RemainingTimerApplies(w', hash);
    }
  }

  lemma RemainingTimerApplies(w: World, hash: string)
    requires w.sleeping + w.armed > 0
    ensures !NeverApplied(w, hash)
  {
    var fire, apply := TimerFires, TimerApplies(false);
    EmptyRun(w, hash);
    if w.armed > 0 {
      TimerRun(w, [], apply, hash);
      EndsInApply(w, [], apply, hash);
    } else {
      TimerRun(w, [], fire, hash);
      TimerRun(w, [] + [fire], apply, hash);
      EndsInApply(w, [] + [fire], apply, hash);
    }
  }

  lemma EndsInApply(w: World, labels: seq<Label>, l: Label, hash: string)
    requires DeferredRun(w, labels + [l], hash) && Applies(l)
    ensures !NeverApplied(w, hash)
  {
    assert l in labels + [l];
  }

  lemma EmptyRun(w: World, hash: string)
    ensures Run(w, []) == Some(w) && DeferredRun(w, [], hash)
  {
  }

  lemma TimerRun(w: World, labels: seq<Label>, l: Label, hash: string)
    requires DeferredRun(w, labels, hash) && (l.TimerFires? || l.TimerApplies?)
    requires Step(Run(w, labels).value, l).Some?
    ensures Run(w, labels + [l]) == Step(Run(w, labels).value, l) && DeferredRun(w, labels + [l], hash)
  {
    var all := labels + [l];
    RunSnoc(w, labels, l);
    forall n | 0 <= n < |all|
      ensures Run(w, all[..n]).Some? && Honest(Run(w, all[..n]).value, all[n])
    {
      assert all[..n] == labels[..n];
      if n == |labels| {
        assert labels[..n] == labels;
      } else {
        assert all[n] == labels[n];
      }
    }
    assert HonestSteps(w, all);
  }

  /** The two ways in after a deferred switch: the status read fails, or the timer's apply fails. */
  lemma StrandingHappens(w: World, d: Deployment, s: Status, hash: string)
    requires Invariant(w) && w.pc.Switching? && !w.pc.target.immediate && w.pc.target.commitHash == hash
    requires Is(Some(d), hash) && w.seen == Some(Status(w.booted, w.staged))
    requires w.sleeping == w.armed == 0
    ensures var r := Run(w, [Switched(Some(d)), StatusRead(None)]);
      r.Some? && Stranded(r.value, hash) && r.value.frozen == w.frozen
    ensures var r := Run(w, [Switched(Some(d)), StatusRead(Some(s)), TimerFires, TimerApplies(false)]);
      r.Some? && Stranded(r.value, hash) && r.value.frozen
  {
    var l0, l1, l2, l3 := Switched(Some(d)), StatusRead(Some(s)), TimerFires, TimerApplies(false);
    CountdownNeedsRecheck(w, d, None);
    CountdownNeedsRecheck(w, d, Some(s));
    TwoSteps(w, l0, StatusRead(None));
    TwoSteps(w, l0, l1);
    assert [l0, l1] + [l2] == [l0, l1, l2] && [l0, l1, l2] + [l3] == [l0, l1, l2, l3];
    RunSnoc(w, [l0, l1], l2);
    RunSnoc(w, [l0, l1, l2], l3);
  }

  lemma TwoSteps(w: World, a: Label, b: Label)
    requires Step(w, a).Some?
    ensures Run(w, [a, b]) == Step(Step(w, a).value, b)
  {
    assert [] + [a] == [a] && [a] + [b] == [a, b];
    RunSnoc(w, [], a);
    RunSnoc(w, [a], b);
  }

  // ------------------------------------------------- frozen with nothing in progress

  predicate SwitchingNow(w: World) {
    w.pc.Switching? && w.pc.target.immediate
  }

  /** Step `n` is an immediate switch that fails. */
  ghost predicate ImmediateSwitchFails(w: World, labels: seq<Label>, n: nat)
    requires n < |labels|
  {
    labels[n] == Switched(None) && Run(w, labels[..n]).Some? && SwitchingNow(Run(w, labels[..n]).value)
  }

  ghost predicate SomeImmediateSwitchFailed(w: World, labels: seq<Label>) {
    exists n :: 0 <= n < |labels| && ImmediateSwitchFails(w, labels, n)
  }

  lemma FailedSwitchSnoc(w: World, labels: seq<Label>)
    requires labels != [] && Run(w, labels[..|labels| - 1]).Some?
    ensures SomeImmediateSwitchFailed(w, labels) <==>
      || SomeImmediateSwitchFailed(w, labels[..|labels| - 1])
      || (labels[|labels| - 1] == Switched(None) && SwitchingNow(Run(w, labels[..|labels| - 1]).value))
  {
    var m := |labels| - 1;
    var before := labels[..m];
    if n :| 0 <= n < |labels| && ImmediateSwitchFails(w, labels, n) {
      assert n < m ==> before[..n] == labels[..n] && ImmediateSwitchFails(w, before, n);
    }
    if n :| 0 <= n < m && ImmediateSwitchFails(w, before, n) {
      assert before[..n] == labels[..n] && ImmediateSwitchFails(w, labels, n);
    }
    if labels[m] == Switched(None) && SwitchingNow(Run(w, before).value) {
      assert ImmediateSwitchFails(w, labels, m);
    }
  }

  /** As long as nothing is staged: no timer, no apply; the flag is up for an immediate switch, failed or under way. */
  ghost predicate Unstaged(w: World, failed: bool) {
    w.staged.None? ==>
      && w.sleeping == w.armed == 0 && w.pc != Applying && w.pc != Rechecking
      && (w.pc != Idle ==> w.seen == Some(Status(w.booted, w.staged)))
      && (w.frozen <==> failed || SwitchingNow(w))
  }

  lemma UnstagedStep(w: World, l: Label, failed: bool)
    requires Invariant(w) && Unstaged(w, failed) && Honest(w, l) && Step(w, l).Some?
    ensures Unstaged(Step(w, l).value, failed || (l == Switched(None) && SwitchingNow(w)))
  {
  }

  lemma {:induction false} UnstagedRun(w: World, labels: seq<Label>)
    requires Start(w) && HonestSteps(w, labels)
    ensures Unstaged(Run(w, labels).value, SomeImmediateSwitchFailed(w, labels))
    decreases |labels|
  {
    if labels != [] {
      var m := |labels| - 1;
      HonestStepsPrefix(w, labels);
      UnstagedRun(w, labels[..m]);
      Reachable(w, labels[..m]);
      UnstagedStep(Run(w, labels[..m]).value, labels[m], SomeImmediateSwitchFailed(w, labels[..m]));
      FailedSwitchSnoc(w, labels);
    }
  }

  /**
    Exactly when the applications are frozen although no update is in progress:
    over every run from process start, in an idle state with nothing staged there
    is no timer, and the flag is up if and only if an immediate switch has failed.
    Then it is up in every continuation, and no application cycle starts again.
   */
  lemma FrozenForNothingIff(w: World, labels: seq<Label>)
    requires Start(w) && HonestSteps(w, labels)
    requires Run(w, labels).value.pc == Idle && Run(w, labels).value.staged.None?
    ensures var w' := Run(w, labels).value;
      && w'.sleeping == w'.armed == 0
      && (w'.frozen <==> SomeImmediateSwitchFailed(w, labels))
      && (w'.frozen ==> forall more | Run(w', more).Some? ::
            Run(w', more).value.frozen && Run(w', more).value.appCyclesStarted == w'.appCyclesStarted)
  {
    var w' := Run(w, labels).value;
    UnstagedRun(w, labels);
    Reachable(w, labels);
    if w'.frozen {
      forall more | Run(w', more).Some?
        ensures Run(w', more).value.frozen && Run(w', more).value.appCyclesStarted == w'.appCyclesStarted
      {
        OnceFrozen(w', more);
      }
    }
  }

  // -------------------------------------------------------------------- the loop

  /**
    What one cycle meets: the result of each call it may make, and what the
    timers and the application loop do while it waits for the k-th of them.
   */
  datatype Inputs = Inputs(
    status: Option<Status>, target: Option<Target>, reportOk: bool, switched: Option<Deployment>,
    applyOk: bool, recheck: Option<Status>, others: nat -> seq<Label>)

  /** The awaits of the OS loop itself among those of all tasks. */
  function OwnLabels(labels: seq<Label>): seq<Label> {
    if labels == [] then []
    else
      var last := labels[|labels| - 1];
      OwnLabels(labels[..|labels| - 1]) + (if OfOsLoop(last) then [last] else [])
  }

  /** What one cycle awaits, read off its inputs. */
  function CycleLabels(i: Inputs): seq<Label> {
    var s := ReadState(i.status);
    if s.None? then [StatusRead(i.status)]
    else if i.target.None? then [StatusRead(i.status), TargetRead(None)]
    else [StatusRead(i.status)] + ([TargetRead(i.target)] + LabelsTowards(s.value, i, i.target.value))
  }

  /** The state a status read yields, if it succeeds and shows a booted deployment. */
  function ReadState(status: Option<Status>): Option<OsState> {
    if status.None? then None else NewState(status.value)
  }

  function LabelsTowards(s: OsState, i: Inputs, t: Target): seq<Label> {
    if IsBooted(s, t.commitHash) then [Reported(i.reportOk)]
    else if IsStaged(s, t.commitHash) then
      if t.immediate then [Applied(i.applyOk)] else []
    else SwitchLabels(i, t)
  }

  function SwitchLabels(i: Inputs, t: Target): seq<Label> {
    if i.switched.None? then [Switched(None)]
    else if t.immediate then [Switched(i.switched), Applied(i.applyOk)]
    else [Switched(i.switched), StatusRead(i.recheck)]
  }

  function AllCycleLabels(cycles: seq<Inputs>): seq<Label> {
    if cycles == [] then [] else AllCycleLabels(cycles[..|cycles| - 1]) + CycleLabels(cycles[|cycles| - 1])
  }

  class OsUpdater {
    var state: OsState
    var frozen: bool
    var sleeping: nat
    var armed: nat
    var appCycleRunning: bool
    ghost var world: World
    ghost var trace: seq<Label>
    ghost var own: seq<Label>

    ghost predicate Valid()
      reads this
    {
      && world.state == state && world.frozen == frozen
      && world.sleeping == sleeping && world.armed == armed && world.appCycleRunning == appCycleRunning
    }

    /** The labels recorded since `start` lead from `was` to here; `own` are the loop's. */
    ghost predicate Since(was: World, start: seq<Label>)
      reads this`world, this`trace, this`own
    {
      start <= trace && Run(was, trace[|start|..]) == Some(world) && own == OwnLabels(trace)
    }

    constructor (state: OsState, booted: Option<Deployment>, staged: Option<Deployment>)
      ensures Valid() && Start(world) && trace == own == []
    {
      this.state, frozen, sleeping, armed, appCycleRunning := state, false, 0, 0, false;
      world := World(state, Idle, false, 0, 0, false, None, booted, staged, 0, 0, 0);
      trace, own := [], [];
    }

    /** Takes the step of the transition system that the surrounding code has just taken. */
    ghost method Record(was: World, start: seq<Label>, l: Label)
      requires Since(was, start) && Step(world, l).Some?
      modifies this`world, this`trace, this`own
      ensures Since(was, start)
      ensures Some(world) == Step(old(world), l)
      ensures own == old(own) + (if OfOsLoop(l) then [l] else [])
    {
      RunSnoc(was, trace[|start|..], l);
      assert (trace + [l])[|start|..] == trace[|start|..] + [l];
      assert (trace + [l])[..|trace|] == trace;
      world := Step(world, l).value;
      trace := trace + [l];
      own := own + (if OfOsLoop(l) then [l] else []);
    }

    /** Timers and application ticks that run while the loop is suspended; those that cannot happen are skipped. */
    method Others(ghost was: World, ghost start: seq<Label>, labels: seq<Label>)
      requires Valid() && Since(was, start)
      modifies this
      ensures Valid() && Since(was, start)
      ensures world.pc == old(world.pc) && state == old(state) && own == old(own)
    {
      var n := 0;
      while n < |labels|
        invariant Valid() && Since(was, start)
        invariant world.pc == old(world.pc) && state == old(state) && own == old(own)
      {
        Other(was, start, labels[n]);
        n := n + 1;
      }
    }

    method Other(ghost was: World, ghost start: seq<Label>, l: Label)
      requires Valid() && Since(was, start)
      modifies this
      ensures Valid() && Since(was, start)
      ensures world.pc == old(world.pc) && state == old(state) && own == old(own)
    {
      match l
      case TimerFires =>
        if sleeping > 0 {
          sleeping, armed, frozen := sleeping - 1, armed + 1, true;
          Record(was, start, l);
        }
      case TimerApplies(ok) =>
        if armed > 0 {
          armed := armed - 1;
          Record(was, start, l);
        }
      case AppTick =>
        if !appCycleRunning {
          if !frozen {
            appCycleRunning := true;
          }
          Record(was, start, l);
        }
      case AppCycleEnds =>
        if appCycleRunning {
          appCycleRunning := false;
          Record(was, start, l);
        }
      case _ =>
    }

    /**
      One OS update cycle. Whatever its calls return and however the other tasks
      interleave with it, what happens is a run of the transition system.
     */
    method TrySwitch(i: Inputs) returns (ok: bool)
      requires Valid() && world.pc == Idle && own == OwnLabels(trace)
      modifies this
      ensures Valid() && world.pc == Idle
      ensures Since(old(world), old(trace))
      ensures own == old(own) + CycleLabels(i)
    {
      ghost var was, start := world, trace;
      assert trace[|start|..] == [];
      var next := ReadStatus(was, start, i);
      if next.None? {
        return i.status.Some?;
      }
      ok := AfterStatus(was, start, i);
    }

    /** Reads the status; a state is kept only if there is a booted deployment. */
    method ReadStatus(ghost was: World, ghost start: seq<Label>, i: Inputs) returns (next: Option<OsState>)
      requires Valid() && Since(was, start) && world.pc == Idle
      modifies this
      ensures Valid() && Since(was, start) && world.pc == (if next.None? then Idle else AwaitTarget)
      ensures next == ReadState(i.status)
      ensures next.Some? ==> state == next.value.(countdownStarted := old(state).countdownStarted)
      ensures own == old(own) + [StatusRead(i.status)]
    {
      Others(was, start, i.others(0));
      next := ReadState(i.status);
      if next.Some? {
        state := next.value.(countdownStarted := state.countdownStarted);
      }
      Record(was, start, StatusRead(i.status));
    }

    method AfterStatus(ghost was: World, ghost start: seq<Label>, i: Inputs) returns (ok: bool)
      requires Valid() && Since(was, start) && world.pc == AwaitTarget
      modifies this
      ensures Valid() && Since(was, start) && world.pc == Idle
      ensures own == old(own) + (if i.target.None? then [TargetRead(None)]
                                 else [TargetRead(i.target)] + LabelsTowards(old(state), i, i.target.value))
    {
      Others(was, start, i.others(1));
      if i.target.None? {
        Record(was, start, TargetRead(i.target));
        return false;
      }
      ok := TowardsTarget(was, start, i, i.target.value);
    }

    method TowardsTarget(ghost was: World, ghost start: seq<Label>, i: Inputs, target: Target) returns (ok: bool)
      requires Valid() && Since(was, start) && world.pc == AwaitTarget && i.target == Some(target)
      modifies this
      ensures Valid() && Since(was, start) && world.pc == Idle
      ensures own == old(own) + ([TargetRead(i.target)] + LabelsTowards(old(state), i, target))
    {
      if IsBooted(state, target.commitHash) {
        Record(was, start, TargetRead(i.target));
        ok := Report(was, start, i);
        return;
      }
      if IsStaged(state, target.commitHash) {
        ok := AlreadyStaged(was, start, i, target);
        return;
      }
      if target.immediate {
        frozen := true;
      }
      Record(was, start, TargetRead(i.target));
      ok := SwitchTo(was, start, i, target);
    }

    /** The image is staged: apply it if it has become immediate, and leave it to its timer otherwise. */
    method AlreadyStaged(ghost was: World, ghost start: seq<Label>, i: Inputs, target: Target) returns (ok: bool)
      requires Valid() && Since(was, start) && world.pc == AwaitTarget && i.target == Some(target)
      requires IsStaged(state, target.commitHash) && !IsBooted(state, target.commitHash)
      modifies this
      ensures Valid() && Since(was, start) && world.pc == Idle
      ensures own == old(own) + ([TargetRead(i.target)] + LabelsTowards(old(state), i, target))
    {
      if target.immediate {
        frozen := true;
        Record(was, start, TargetRead(i.target));
        ok := Apply(was, start, i);
      } else {
        Record(was, start, TargetRead(i.target));
        ok := true;
      }
    }

    method Report(ghost was: World, ghost start: seq<Label>, i: Inputs) returns (ok: bool)
      requires Valid() && Since(was, start) && world.pc.Reporting?
      modifies this
      ensures Valid() && Since(was, start) && world.pc == Idle
      ensures own == old(own) + [Reported(i.reportOk)]
    {
      Others(was, start, i.others(2));
      Record(was, start, Reported(i.reportOk));
      ok := i.reportOk;
    }

    method SwitchTo(ghost was: World, ghost start: seq<Label>, i: Inputs, target: Target) returns (ok: bool)
      requires Valid() && Since(was, start) && world.pc == Switching(target)
      modifies this
      ensures Valid() && Since(was, start) && world.pc == Idle
      ensures own == old(own) + SwitchLabels(i, target)
    {
      Others(was, start, i.others(2));
      if i.switched.Some? && !target.immediate {
        state := state.(countdownStarted := true);
      }
      Record(was, start, Switched(i.switched));
      if i.switched.None? {
        return false;
      }
      if target.immediate {
        ok := Apply(was, start, i);
      } else {
        ok := StartCountdown(was, start, i);
      }
    }

    /** After a deferred switch: read the status once more, and spawn the timer if that succeeds. */
    method StartCountdown(ghost was: World, ghost start: seq<Label>, i: Inputs) returns (ok: bool)
      requires Valid() && Since(was, start) && world.pc == Rechecking
      modifies this
      ensures Valid() && Since(was, start) && world.pc == Idle
      ensures own == old(own) + [StatusRead(i.recheck)]
    {
      Others(was, start, i.others(3));
      if i.recheck.Some? {
        sleeping := sleeping + 1;
      }
      Record(was, start, StatusRead(i.recheck));
      return i.recheck.Some?;
    }

    method Apply(ghost was: World, ghost start: seq<Label>, i: Inputs) returns (ok: bool)
      requires Valid() && Since(was, start) && world.pc == Applying
      modifies this
      ensures Valid() && Since(was, start) && world.pc == Idle
      ensures own == old(own) + [Applied(i.applyOk)]
    {
      Others(was, start, i.others(4));
      Record(was, start, Applied(i.applyOk));
      ok := i.applyOk;
    }
  }

  /**
    The main loop: cycles with other tasks running between them. From a process
    start it is a run of the transition system, so everything proved of runs
    holds of it.
   */
  method RunOsMainLoop(u: OsUpdater, cycles: seq<Inputs>)
    requires u.Valid() && Start(u.world) && u.trace == u.own == []
    modifies u
    ensures u.Valid() && Run(old(u.world), u.trace) == Some(u.world)
    ensures OwnLabels(u.trace) == AllCycleLabels(cycles)
    ensures Invariant(u.world)
  {
    ghost var was := u.world;
    var n := 0;
    while n < |cycles|
      invariant n <= |cycles|
      invariant u.Valid() && u.world.pc == Idle && Run(was, u.trace) == Some(u.world)
      invariant u.own == OwnLabels(u.trace) == AllCycleLabels(cycles[..n])
    {
      ghost var before := u.trace;
      assert cycles[..n + 1][..n] == cycles[..n];
      var ok := u.TrySwitch(cycles[n]);
      RunAppend(was, before, u.trace[|before|..]);
      assert u.trace == before + u.trace[|before|..];
      n := n + 1;
    }
    assert cycles[..n] == cycles;
    Reachable(was, u.trace);
  }

  lemma LastOfSum<T>(a: seq<T>, b: seq<T>)
    requires b != []
    ensures (a + b)[..|a + b| - 1] == a + b[..|b| - 1] && (a + b)[|a + b| - 1] == b[|b| - 1]
  {
  }

  lemma {:induction false} RunAppend(w: World, a: seq<Label>, b: seq<Label>)
    requires Run(w, a).Some?
    ensures Run(w, a + b) == Run(Run(w, a).value, b)
    decreases |b|
  {
    if b == [] {
      assert a + b == a;
    } else {
      var n := |b| - 1;
      RunAppend(w, a, b[..n]);
      LastOfSum(a, b);
    }
  }
}
