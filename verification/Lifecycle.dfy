/**
  The per-container lifecycle loop (orchestrator/src/application.rs,
  `run_lifecycle_loop`): its events and container calls as one trace.
 */
module Lifecycle {
  import opened Options

  datatype ContainerState = Stopped | Ambiguous | Running

  /**
    How the wait at the end of an iteration ends. A timeout is allowed in every
    state; the program disables it while a container keeps running.
   */
  datatype Wake = Timeout | Changed | WaitFailed | Delete(stopOk: bool, destroyOk: bool)

  /** What one iteration of the inner loop meets; no state means that reading it failed. */
  datatype Iteration = Iteration(state: Option<ContainerState>, startOk: bool, hasHandle: bool, wake: Wake)

  /** Lifecycle events, container calls and log registrations, in the order they happen. */
  datatype Output =
    | StateChange(was: Option<ContainerState>, now: ContainerState)
    | StoppedUnexpectedly
    | FailureThresholdReached(failures: nat)
    | AttemptingStart
    | FatalError
    | CallStart
    | CallStop
    | CallDestroy
    | Register(resumed: bool)

  /** The failure counter is a `u32`. */
  const U32 := 0x1_0000_0000

  const THRESHOLD := 10

  /** `counter += 1` on a `u32` that wraps around. */
  function Increment(n: nat): nat {
    if n + 1 == U32 then 0 else n + 1
  }

  /** What a wrapping counter shows after `n` increments. */
  function Shown(n: nat): nat {
    if n == 0 then 0 else Increment(Shown(n - 1))
  }

  lemma {:induction false} ShownIsModulo(n: nat)
    ensures Shown(n) == n % U32
  {
    if n > 0 {
      ShownIsModulo(n - 1);
      IncrementModulo(n - 1);
    }
  }

  lemma IncrementModulo(n: nat)
    ensures Increment(n % U32) == (n + 1) % U32
  {
  }

  /** The loop's variables between iterations. */
  datatype Loop = Loop(
    failures: nat, seen: Option<ContainerState>, hasHandle: bool, everRegistered: bool, deleted: bool)

  function Begin(): Loop {
    Loop(0, None, false, false, false)
  }

  predicate IsChange(l: Loop, s: ContainerState) {
    l.seen.Some? && l.seen.value != s
  }

  predicate IsNews(l: Loop, s: ContainerState) {
    l.seen != Some(s)
  }

  /** The iteration counts as a failure to start. */
  predicate Fails(l: Loop, s: ContainerState) {
    s == Ambiguous || (s == Stopped && l.seen.Some?)
  }

  function Announce(l: Loop, s: ContainerState): seq<Output> {
    if IsNews(l, s) then [StateChange(l.seen, s)] else []
  }

  function RegisterLogs(l: Loop, s: ContainerState, hasHandle: bool): (Loop, seq<Output>) {
    if s == Running && IsNews(l, s) then
      var h := l.hasHandle || hasHandle;
      if h then (l.(hasHandle := true, everRegistered := true), [Register(l.everRegistered)]) else (l, [])
    else (l, [])
  }

  function CountFailure(l: Loop, s: ContainerState): (Loop, seq<Output>) {
    if Fails(l, s) then
      var n := Increment(l.failures);
      (l.(failures := n), if n == THRESHOLD then [FailureThresholdReached(n)] else [])
    else if s == Running && !IsChange(l, s) then (l.(failures := 0), [])
    else (l, [])
  }

  function NextEpoch(l: Loop): Loop {
    l.(failures := 0, seen := None)
  }

  /** A running container cannot be destroyed, so it is stopped first; errors are only reported. */
  function Removal(stopOk: bool, destroyOk: bool): seq<Output> {
    [CallStop] + (if stopOk then [] else [FatalError]) + [CallDestroy] + (if destroyOk then [] else [FatalError])
  }

  function Await(l: Loop, wake: Wake): (Loop, seq<Output>) {
    match wake
    case Timeout => (l, [])
    case Changed => (l, [])
    case WaitFailed => (NextEpoch(l), [FatalError])
    case Delete(stopOk, destroyOk) =>
      (l.(deleted := true), Removal(stopOk, destroyOk))
  }

  /** What happens once the state is known and announced, up to the wait. */
  function React(l: Loop, s: ContainerState, startOk: bool): (Loop, seq<Output>) {
    var (l1, out) := CountFailure(l, s);
    if s == Stopped then
      (l1, out + (if l.seen == Some(Running) then [StoppedUnexpectedly] else []) + [CallStart] +
           (if startOk then [AttemptingStart] else []))
    else (l1, out)
  }

  function Body(l: Loop, s: ContainerState, i: Iteration): (Loop, seq<Output>) {
    var (l1, registered) := RegisterLogs(l, s, i.hasHandle);
    var (l2, reaction) := React(l1, s, i.startOk);
    (l2, registered + reaction)
  }

  /** A failed start breaks out of the inner loop; otherwise the iteration ends in the wait. */
  function End(l: Loop, s: ContainerState, i: Iteration): (Loop, seq<Output>) {
    if s == Stopped && !i.startOk then (NextEpoch(l), [FatalError])
    else Await(l.(seen := Some(s)), i.wake)
  }

  function Iterate(l: Loop, i: Iteration): (Loop, seq<Output>) {
    if l.deleted then (l, [])
    else if i.state.None? then (NextEpoch(l), [FatalError])
    else
      var s := i.state.value;
      var (l1, body) := Body(l, s, i);
      var (l2, ending) := End(l1, s, i);
      (l2, Announce(l, s) + body + ending)
  }

  function Run(its: seq<Iteration>): (Loop, seq<Output>) {
    if its == [] then (Begin(), [])
    else
      var (l, trace) := Run(its[..|its| - 1]);
      var (l', out) := Iterate(l, its[|its| - 1]);
      (l', trace + out)
  }

  // ------------------------------------------------------------ chains of states

  /** The last state announced since the last fatal error. */
  function LastAnnounced(trace: seq<Output>): Option<ContainerState> {
    if trace == [] then None
    else
      match trace[|trace| - 1]
      case StateChange(_, s) => Some(s)
      case FatalError => None
      case _ => LastAnnounced(trace[..|trace| - 1])
  }

  /** Each announcement starts where the last one of its epoch ended, and ends elsewhere. */
  ghost predicate Chained(trace: seq<Output>) {
    forall n | 0 <= n < |trace| && trace[n].StateChange? ::
      trace[n].was == LastAnnounced(trace[..n]) && trace[n].was != Some(trace[n].now)
  }

  predicate Quiet(o: Output) {
    !o.StateChange? && !o.FatalError?
  }

  lemma {:induction false} LastAnnouncedQuiet(trace: seq<Output>, out: seq<Output>)
    requires forall o | o in out :: Quiet(o)
    ensures LastAnnounced(trace + out) == LastAnnounced(trace)
    decreases |out|
  {
    if out == [] {
      assert trace + out == trace;
    } else {
      var init := out[..|out| - 1];
      LastAnnouncedQuiet(trace, init);
      assert (trace + out)[..|trace + out| - 1] == trace + init;
      assert out[|out| - 1] in out;
    }
  }

  lemma ChainedAppend(trace: seq<Output>, out: seq<Output>)
    requires Chained(trace)
    requires forall n | 0 <= n < |out| && out[n].StateChange? ::
      out[n].was == LastAnnounced(trace + out[..n]) && out[n].was != Some(out[n].now)
    ensures Chained(trace + out)
  {
    var all := trace + out;
    forall n | 0 <= n < |all| && all[n].StateChange?
      ensures all[n].was == LastAnnounced(all[..n]) && all[n].was != Some(all[n].now)
    {
      if n < |trace| {
        assert all[..n] == trace[..n];
      } else {
        assert all[..n] == trace + out[..n - |trace|];
      }
    }
  }

  // ---------------------------------------------------------------------- counts

  function Count(trace: seq<Output>, o: Output): nat {
    multiset(trace)[o]
  }

  /** The iteration breaks out of the inner loop: no state, no start, or no wait. */
  predicate BreaksOff(i: Iteration) {
    i.state.None? || (i.state == Some(Stopped) && !i.startOk) || i.wake.WaitFailed?
  }

  /** The container is in doubt, or found stopped other than at the first look; `seen` is the last state announced. */
  predicate CountsAsFailure(seen: Option<ContainerState>, i: Iteration) {
    i.state == Some(Ambiguous) || (i.state == Some(Stopped) && seen.Some?)
  }

  /** Failures since the counter was last reset: by a fatal error, or by a container seen running and not changed. */
  function FailuresSinceReset(its: seq<Iteration>): nat {
    if its == [] then 0
    else
      var before, i := its[..|its| - 1], its[|its| - 1];
      var seen := LastAnnounced(Run(before).1);
      if Run(before).0.deleted then FailuresSinceReset(before)
      else if BreaksOff(i) then 0
      else if CountsAsFailure(seen, i) then FailuresSinceReset(before) + 1
      else if i.state == Some(Running) && (seen == None || seen == Some(Running)) then 0
      else FailuresSinceReset(before)
  }

  /** Failures since the last reset as the iteration after `its` counts them, before anything it does can reset them. */
  function FailuresWith(its: seq<Iteration>, i: Iteration): nat {
    FailuresSinceReset(its) + (if CountsAsFailure(LastAnnounced(Run(its).1), i) then 1 else 0)
  }

  // ---------------------------------------------------------- over whole runs

  /** What holds after any run, as long as the container was not deleted. */
  ghost predicate Sound(its: seq<Iteration>, l: Loop, trace: seq<Output>) {
    && Chained(trace)
    && (!l.deleted ==> l.seen == LastAnnounced(trace))
    && l.failures == Shown(FailuresSinceReset(its))
    && (l.everRegistered <==> HasRegister(trace))
    && Count(trace, StoppedUnexpectedly) == Count(trace, FALL)
    && (!l.deleted ==> CallStop !in trace && CallDestroy !in trace)
  }

  lemma IterateChains(l: Loop, i: Iteration, trace: seq<Output>)
    requires Chained(trace) && !l.deleted && l.seen == LastAnnounced(trace)
    ensures var (l', out) := Iterate(l, i);
      && Chained(trace + out)
      && (!l'.deleted ==> l'.seen == LastAnnounced(trace + out))
  {
    if i.state.None? {
      EndsEpoch(trace);
    } else {
      var s := i.state.value;
      var head, body := Announce(l, s), Body(l, s, i).1;
      AnnounceChains(l, s, trace);
      BodyChains(l, s, i, trace + head);
      EndChains(Body(l, s, i).0, s, i, trace + head + body);
      Regroup(trace, head, body, End(Body(l, s, i).0, s, i).1);
    }
  }

  lemma Regroup(a: seq<Output>, b: seq<Output>, c: seq<Output>, d: seq<Output>)
    ensures a + (b + c + d) == a + b + c + d
  {
  }

  lemma BodyChains(l: Loop, s: ContainerState, i: Iteration, trace: seq<Output>)
    requires Chained(trace) && LastAnnounced(trace) == Some(s)
    ensures var (l', out) := Body(l, s, i);
      Chained(trace + out) && LastAnnounced(trace + out) == Some(s) && l'.deleted == l.deleted
  {
    var out := Body(l, s, i).1;
    BodyQuiet(l, s, i);
    LastAnnouncedQuiet(trace, out);
    QuietChains(trace, out);
  }

  lemma BodyQuiet(l: Loop, s: ContainerState, i: Iteration)
    ensures forall o | o in Body(l, s, i).1 :: Quiet(o)
    ensures Body(l, s, i).0.deleted == l.deleted
  {
  }

  lemma QuietChains(trace: seq<Output>, out: seq<Output>)
    requires Chained(trace) && forall o | o in out :: Quiet(o)
    ensures Chained(trace + out)
  {
    assert forall n | 0 <= n < |out| :: Quiet(out[n]);
    ChainedAppend(trace, out);
  }

  lemma EndChains(l: Loop, s: ContainerState, i: Iteration, trace: seq<Output>)
    requires Chained(trace) && LastAnnounced(trace) == Some(s)
    ensures var (l', out) := End(l, s, i);
      Chained(trace + out) && (!l'.deleted ==> l'.seen == LastAnnounced(trace + out))
  {
    var (l', out) := End(l, s, i);
    ChainedAppend(trace, out);
    if out == [FatalError] {
      EndsEpoch(trace);
    } else if out == [] {
      assert trace + out == trace;
    }
  }

  lemma AnnounceChains(l: Loop, s: ContainerState, trace: seq<Output>)
    requires Chained(trace) && l.seen == LastAnnounced(trace)
    ensures Chained(trace + Announce(l, s)) && LastAnnounced(trace + Announce(l, s)) == Some(s)
  {
    var head := Announce(l, s);
    if head == [] {
      assert trace + head == trace;
    } else {
      assert (trace + head)[..|trace|] == trace;
      assert trace + head[..0] == trace;
      ChainedAppend(trace, head);
    }
  }

  lemma EndsEpoch(trace: seq<Output>)
    requires Chained(trace)
    ensures Chained(trace + [FatalError]) && LastAnnounced(trace + [FatalError]) == None
  {
    ChainedAppend(trace, [FatalError]);
  }

  predicate HasRegister(trace: seq<Output>) {
    exists o :: o in trace && o.Register?
  }

  lemma CountAppend(a: seq<Output>, b: seq<Output>, o: Output)
    ensures Count(a + b, o) == Count(a, o) + Count(b, o)
  {
  }

  lemma HasRegisterAppend(a: seq<Output>, b: seq<Output>)
    ensures HasRegister(a + b) <==> HasRegister(a) || HasRegister(b)
  {
  }

  /** A fall from running to stopped, in the announcements or in the alarms. */
  const FALL := StateChange(Some(Running), Stopped)

  /** Outputs that are neither a fall, an alarm, a registration nor part of a removal. */
  predicate Plain(o: Output) {
    o != FALL && o != StoppedUnexpectedly && !o.Register? && o != CallStop && o != CallDestroy
  }

  lemma {:induction false} PlainCounts(out: seq<Output>)
    requires forall o | o in out :: Plain(o)
    ensures Count(out, FALL) == 0 && Count(out, StoppedUnexpectedly) == 0 && !HasRegister(out)
  {
    assert FALL !in out && StoppedUnexpectedly !in out;
    assert FALL !in multiset(out) && StoppedUnexpectedly !in multiset(out);
  }

  /** The alarm is raised in the iteration that sees the fall. */
  function Alarm(l: Loop, s: ContainerState): seq<Output> {
    if s == Stopped && l.seen == Some(Running) then [StoppedUnexpectedly] else []
  }

  function Launch(s: ContainerState, startOk: bool): seq<Output> {
    if s != Stopped then [] else if startOk then [CallStart, AttemptingStart] else [CallStart]
  }

  lemma BodySplits(l: Loop, s: ContainerState, i: Iteration)
    ensures Body(l, s, i).1 ==
      (RegisterLogs(l, s, i.hasHandle).1 + CountFailure(RegisterLogs(l, s, i.hasHandle).0, s).1)
      + Alarm(l, s) + Launch(s, i.startOk)
  {
  }

  lemma BodyCounts(l: Loop, s: ContainerState, i: Iteration)
    ensures Count(Body(l, s, i).1, FALL) == 0
    ensures Count(Body(l, s, i).1, StoppedUnexpectedly) == (if s == Stopped && l.seen == Some(Running) then 1 else 0)
  {
    var registered := RegisterLogs(l, s, i.hasHandle).1;
    var counted := CountFailure(RegisterLogs(l, s, i.hasHandle).0, s).1;
    BodySplits(l, s, i);
    AlarmCounts(registered, counted, Alarm(l, s), Launch(s, i.startOk));
  }

  lemma AlarmCounts(registered: seq<Output>, counted: seq<Output>, alarm: seq<Output>, launch: seq<Output>)
    requires forall o | o in registered :: o.Register?
    requires forall o | o in counted + launch :: Plain(o)
    requires alarm == [] || alarm == [StoppedUnexpectedly]
    ensures var out := registered + counted + alarm + launch;
      Count(out, FALL) == 0 && Count(out, StoppedUnexpectedly) == |alarm|
  {
    assert FALL !in registered && StoppedUnexpectedly !in registered;
    assert FALL !in multiset(registered) && StoppedUnexpectedly !in multiset(registered);
    assert (forall o | o in counted :: o in counted + launch) && (forall o | o in launch :: o in counted + launch);
    PlainCounts(counted);
    PlainCounts(launch);
    SumCounts(registered, counted, alarm, launch, FALL);
    SumCounts(registered, counted, alarm, launch, StoppedUnexpectedly);
  }

  lemma BodyRegisters(l: Loop, s: ContainerState, i: Iteration)
    ensures Body(l, s, i).0.everRegistered <==> l.everRegistered || HasRegister(Body(l, s, i).1)
  {
    var registered := RegisterLogs(l, s, i.hasHandle).1;
    var reaction := React(RegisterLogs(l, s, i.hasHandle).0, s, i.startOk).1;
    HasRegisterAppend(registered, reaction);
    assert !HasRegister(reaction);
    if registered != [] {
      assert registered[0].Register?;
    }
  }

  lemma SumCounts(a: seq<Output>, b: seq<Output>, c: seq<Output>, d: seq<Output>, o: Output)
    ensures Count(a + b + c + d, o) == Count(a, o) + Count(b, o) + Count(c, o) + Count(d, o)
  {
  }

  lemma BodyRemovesNothing(l: Loop, s: ContainerState, i: Iteration)
    ensures CallStop !in Body(l, s, i).1 && CallDestroy !in Body(l, s, i).1
    ensures Body(l, s, i).0.deleted == l.deleted
  {
  }

  lemma EndCounts(l: Loop, s: ContainerState, i: Iteration)
    ensures var (l', out) := End(l, s, i);
      && Count(out, FALL) == 0 && Count(out, StoppedUnexpectedly) == 0 && !HasRegister(out)
      && (!l'.deleted ==> CallStop !in out && CallDestroy !in out)
      && l'.everRegistered == l.everRegistered
  {
    var out := End(l, s, i).1;
    EndOutputs(l, s, i);
    assert FALL !in multiset(out) && StoppedUnexpectedly !in multiset(out);
  }

  lemma EndOutputs(l: Loop, s: ContainerState, i: Iteration)
    ensures var (l', out) := End(l, s, i);
      && (forall o | o in out :: o.FatalError? || (l'.deleted && (o.CallStop? || o.CallDestroy?)))
      && l'.everRegistered == l.everRegistered
  {
  }

  lemma IterateCounts(l: Loop, i: Iteration)
    ensures var (l', out) := Iterate(l, i);
      && Count(out, StoppedUnexpectedly) == Count(out, FALL)
      && (l'.everRegistered <==> l.everRegistered || HasRegister(out))
      && (!l'.deleted ==> CallStop !in out && CallDestroy !in out)
  {
    if !l.deleted && i.state.Some? {
      var s := i.state.value;
      var head := Announce(l, s);
      var (l1, body) := Body(l, s, i);
      var (l2, ending) := End(l1, s, i);
      BodyCounts(l, s, i);
      BodyRegisters(l, s, i);
      BodyRemovesNothing(l, s, i);
      EndCounts(l1, s, i);
      HeadCounts(l, s);
      CountAppend(head + body, ending, FALL);
      CountAppend(head + body, ending, StoppedUnexpectedly);
      CountAppend(head, body, FALL);
      CountAppend(head, body, StoppedUnexpectedly);
      HasRegisterAppend(head + body, ending);
      HasRegisterAppend(head, body);
    }
  }

  lemma HeadCounts(l: Loop, s: ContainerState)
    ensures var head := Announce(l, s);
      && Count(head, FALL) == (if s == Stopped && l.seen == Some(Running) then 1 else 0)
      && Count(head, StoppedUnexpectedly) == 0 && !HasRegister(head)
      && CallStop !in head && CallDestroy !in head
  {
  }

  lemma FailuresStep(its: seq<Iteration>, l: Loop)
    requires its != [] && l == Run(its[..|its| - 1]).0
    requires !l.deleted ==> l.seen == LastAnnounced(Run(its[..|its| - 1]).1)
    requires l.failures == Shown(FailuresSinceReset(its[..|its| - 1]))
    ensures Run(its).0.failures == Shown(FailuresSinceReset(its))
  {
    FailuresAfter(l, its[|its| - 1]);
    RunUnfold(its);
    FailuresUnfold(its);
    ShownNext(FailuresSinceReset(its[..|its| - 1]));
  }

  lemma ShownNext(n: nat)
    ensures Shown(n + 1) == Increment(Shown(n)) && Shown(0) == 0
  {
  }

  lemma RunUnfold(its: seq<Iteration>)
    requires its != []
    ensures var (l, trace) := Run(its[..|its| - 1]);
      Run(its) == (Iterate(l, its[|its| - 1]).0, trace + Iterate(l, its[|its| - 1]).1)
  {
  }

  lemma FailuresUnfold(its: seq<Iteration>)
    requires its != []
    ensures var before, i := its[..|its| - 1], its[|its| - 1];
      var (l, trace) := Run(before);
      FailuresSinceReset(its) ==
        if l.deleted then FailuresSinceReset(before)
        else if BreaksOff(i) then 0
        else if CountsAsFailure(LastAnnounced(trace), i) then FailuresSinceReset(before) + 1
        else if i.state == Some(Running) && (LastAnnounced(trace) == None || LastAnnounced(trace) == Some(Running))
        then 0
        else FailuresSinceReset(before)
  {
  }

  /** The loop variables after an iteration, without its trace. */
  lemma FailuresAfter(l: Loop, i: Iteration)
    ensures var l' := Iterate(l, i).0;
      l'.failures ==
        if l.deleted then l.failures
        else if BreaksOff(i) then 0
        else if CountsAsFailure(l.seen, i) then Increment(l.failures)
        else if i.state == Some(Running) && (l.seen == None || l.seen == Some(Running)) then 0
        else l.failures
  {
  }

  /**
    Every run of the loop, whatever the container does: state changes form a
    chain of distinct adjacent states within each epoch; `StoppedUnexpectedly` is
    sent as often as a fall from running to stopped is announced; the counter is
    the number of failures since the last reset; and while the container is not
    deleted it is neither stopped nor destroyed.
   */
  lemma {:induction false} TraceIsSound(its: seq<Iteration>)
    ensures Sound(its, Run(its).0, Run(its).1)
    decreases |its|
  {
    if its != [] {
      var n := |its| - 1;
      var (l, trace) := Run(its[..n]);
      TraceIsSound(its[..n]);
      if l.deleted {
        assert trace + [] == trace;
      } else {
        var (l', out) := Iterate(l, its[n]);
        IterateChains(l, its[n], trace);
        IterateCounts(l, its[n]);
        CountAppend(trace, out, FALL);
        CountAppend(trace, out, StoppedUnexpectedly);
        HasRegisterAppend(trace, out);
      }
      FailuresStep(its, l);
    }
  }

  /**
    The threshold event is sent in an iteration if and only if that iteration
    fails and brings the failures since the last reset to ten, counted modulo
    2^32; it always carries ten.
   */
  lemma ThresholdExactly(its: seq<Iteration>, i: Iteration, n: nat)
    ensures FailureThresholdReached(n) in Iterate(Run(its).0, i).1 <==>
      && n == 10 && !Run(its).0.deleted && CountsAsFailure(LastAnnounced(Run(its).1), i)
      && FailuresWith(its, i) % U32 == 10
  {
    TraceIsSound(its);
    ShownIsModulo(FailuresWith(its, i));
    ThresholdInIteration(Run(its).0, i, n);
  }

  lemma ThresholdInIteration(l: Loop, i: Iteration, n: nat)
    ensures FailureThresholdReached(n) in Iterate(l, i).1 <==>
      n == THRESHOLD && !l.deleted && CountsAsFailure(l.seen, i) && Increment(l.failures) == THRESHOLD
  {
  }

  /** None of the iterations `more` after `its` resets the counter. */
  predicate NoReset(its: seq<Iteration>, more: seq<Iteration>)
    decreases |more|
  {
    more == [] ||
    (var before := more[..|more| - 1];
     && NoReset(its, before)
     && FailuresSinceReset(its + more) > 0
     && FailuresSinceReset(its + more) >= FailuresSinceReset(its + before))
  }

  lemma {:induction false} NoResetGrows(its: seq<Iteration>, more: seq<Iteration>)
    requires NoReset(its, more)
    ensures FailuresSinceReset(its) <= FailuresSinceReset(its + more)
    decreases |more|
  {
    if more == [] {
      assert its + more == its;
    } else {
      NoResetGrows(its, more[..|more| - 1]);
    }
  }

  /**
    Two threshold events are separated by a reset of the counter, unless at
    least 2^32 failures lie between them.
   */
  lemma ThresholdsSeparatedByReset(its: seq<Iteration>, i: Iteration, more: seq<Iteration>, j: Iteration)
    ensures ReachesThreshold(its, i) && ReachesThreshold(its + [i] + more, j) ==>
      || FailuresSinceReset(its + [i]) == 0 || !NoReset(its + [i], more)
      || FailuresWith(its + [i] + more, j) - FailuresWith(its, i) >= U32
  {
    var all := its + [i] + more;
    ThresholdExactly(its, i, THRESHOLD);
    ThresholdExactly(all, j, THRESHOLD);
    if ReachesThreshold(its, i) && FailuresSinceReset(its + [i]) > 0 && NoReset(its + [i], more) {
      CountedAfter(its, i);
      NoResetGrows(its + [i], more);
      if ReachesThreshold(all, j) {
        SameRemainder(FailuresWith(its, i), FailuresWith(all, j));
      }
    }
  }

  /** The iteration after `its` sends the threshold event. */
  predicate ReachesThreshold(its: seq<Iteration>, i: Iteration) {
    FailureThresholdReached(THRESHOLD) in Iterate(Run(its).0, i).1
  }

  lemma CountedAfter(its: seq<Iteration>, i: Iteration)
    requires !Run(its).0.deleted && FailuresSinceReset(its + [i]) > 0
    requires CountsAsFailure(LastAnnounced(Run(its).1), i)
    ensures FailuresSinceReset(its + [i]) == FailuresWith(its, i)
  {
  }

  lemma SameRemainder(a: nat, b: nat)
    requires a < b && a % U32 == b % U32
    ensures b - a >= U32
  {
  }

  /**
    Over every run the container is destroyed at most once, directly after being
    stopped, and nothing is called or sent after that but a report of the two
    calls' errors.
   */
  lemma {:induction false} RemovalComesLast(its: seq<Iteration>)
    requires Run(its).0.deleted
    ensures exists before, stopOk, destroyOk :: Removed(Run(its).1, before, stopOk, destroyOk)
    decreases |its|
  {
    var n := |its| - 1;
    var (l, trace) := Run(its[..n]);
    if l.deleted {
      RemovalComesLast(its[..n]);
      assert trace + [] == trace;
    } else {
      TraceIsSound(its[..n]);
      RemovedNow(l, its[n], trace);
    }
  }

  ghost predicate Removed(trace: seq<Output>, before: seq<Output>, stopOk: bool, destroyOk: bool) {
    && trace == before + [CallStop] + (if stopOk then [] else [FatalError])
                + [CallDestroy] + (if destroyOk then [] else [FatalError])
    && CallStop !in before && CallDestroy !in before
  }

  lemma RemovedNow(l: Loop, i: Iteration, trace: seq<Output>)
    requires !l.deleted && Iterate(l, i).0.deleted && CallStop !in trace && CallDestroy !in trace
    ensures exists before, stopOk, destroyOk :: Removed(trace + Iterate(l, i).1, before, stopOk, destroyOk)
  {
    var s := i.state.value;
    var head, body := Announce(l, s), Body(l, s, i).1;
    BodyRemovesNothing(l, s, i);
    var before := trace + head + body;
    assert CallStop !in before && CallDestroy !in before;
    RemovalParts(before, i.wake.stopOk, i.wake.destroyOk);
    Regroup(trace, head, body, Removal(i.wake.stopOk, i.wake.destroyOk));
    assert Removed(trace + Iterate(l, i).1, before, i.wake.stopOk, i.wake.destroyOk);
  }

  lemma RemovalParts(before: seq<Output>, stopOk: bool, destroyOk: bool)
    ensures before + Removal(stopOk, destroyOk) ==
      before + [CallStop] + (if stopOk then [] else [FatalError])
      + [CallDestroy] + (if destroyOk then [] else [FatalError])
  {
  }

  /** A registration resumes the log exactly when there was one before it. */
  ghost predicate Resumes(trace: seq<Output>) {
    forall n | 0 <= n < |trace| && trace[n].Register? :: trace[n].resumed <==> HasRegister(trace[..n])
  }

  lemma ResumesAppend(trace: seq<Output>, out: seq<Output>)
    requires Resumes(trace)
    requires forall n | 0 <= n < |out| && out[n].Register? :: out[n].resumed <==> HasRegister(trace + out[..n])
    ensures Resumes(trace + out)
  {
    var all := trace + out;
    forall n | 0 <= n < |all| && all[n].Register?
      ensures all[n].resumed <==> HasRegister(all[..n])
    {
      if n < |trace| {
        assert all[..n] == trace[..n];
      } else {
        assert all[..n] == trace + out[..n - |trace|];
      }
    }
  }

  lemma NoRegisterResumes(trace: seq<Output>, out: seq<Output>)
    requires Resumes(trace) && !HasRegister(out)
    ensures Resumes(trace + out) && (HasRegister(trace + out) <==> HasRegister(trace))
  {
    assert forall n | 0 <= n < |out| :: out[n] in out;
    ResumesAppend(trace, out);
    HasRegisterAppend(trace, out);
  }

  lemma IterateResumes(l: Loop, i: Iteration, trace: seq<Output>)
    requires Resumes(trace) && (l.everRegistered <==> HasRegister(trace)) && !l.deleted
    ensures Resumes(trace + Iterate(l, i).1)
  {
    if i.state.None? {
      NoRegisterResumes(trace, [FatalError]);
    } else {
      var s := i.state.value;
      var head := Announce(l, s);
      var (l1, registered) := RegisterLogs(l, s, i.hasHandle);
      var (l2, reaction) := React(l1, s, i.startOk);
      var ending := End(l2, s, i).1;
      NoRegisterResumes(trace, head);
      RegisterResumes(l, s, i.hasHandle, trace + head);
      ReactionHasNoRegister(l1, l2, s, i);
      NoRegisterResumes(trace + head + registered, reaction);
      NoRegisterResumes(trace + head + registered + reaction, ending);
      Regroup(trace, head, registered + reaction, ending);
      Regroup3(trace + head, registered, reaction);
    }
  }

  lemma RegisterResumes(l: Loop, s: ContainerState, hasHandle: bool, trace: seq<Output>)
    requires Resumes(trace) && (l.everRegistered <==> HasRegister(trace))
    ensures Resumes(trace + RegisterLogs(l, s, hasHandle).1)
  {
    var registered := RegisterLogs(l, s, hasHandle).1;
    if registered != [] {
      assert trace + registered[..0] == trace;
      ResumesAppend(trace, registered);
    } else {
      assert trace + registered == trace;
    }
  }

  lemma ReactionHasNoRegister(l1: Loop, l2: Loop, s: ContainerState, i: Iteration)
    ensures !HasRegister(React(l1, s, i.startOk).1) && !HasRegister(End(l2, s, i).1)
  {
  }

  lemma Regroup3<T>(a: seq<T>, b: seq<T>, c: seq<T>)
    ensures a + (b + c) == a + b + c
  {
  }

  /** Over every run, logs are picked up from the start the first time and from then on afterwards. */
  lemma {:induction false} LogsResume(its: seq<Iteration>)
    ensures Resumes(Run(its).1)
    decreases |its|
  {
    if its != [] {
      var n := |its| - 1;
      var (l, trace) := Run(its[..n]);
      LogsResume(its[..n]);
      RegisteredBefore(its[..n]);
      if l.deleted {
        assert trace + [] == trace;
      } else {
        IterateResumes(l, its[n], trace);
      }
    }
  }

  lemma RegisteredBefore(its: seq<Iteration>)
    ensures Run(its).0.everRegistered <==> HasRegister(Run(its).1)
  {
    TraceIsSound(its);
  }

  // --------------------------------------------------- outputs from history alone

  /** The state is announced if it differs from the last one announced since the last fatal error. */
  function Announcement(seen: Option<ContainerState>, s: ContainerState): seq<Output> {
    if seen == Some(s) then [] else [StateChange(seen, s)]
  }

  /** A log is registered when the container turns out running, if it has a log handle or had one before. */
  function Registration(trace: seq<Output>, seen: Option<ContainerState>, i: Iteration): seq<Output> {
    if i.state == Some(Running) && seen != Some(Running) && (i.hasHandle || HasRegister(trace))
    then [Register(HasRegister(trace))] else []
  }

  function Alert(failures: nat, seen: Option<ContainerState>, i: Iteration): seq<Output> {
    if CountsAsFailure(seen, i) && failures % U32 == 10 then [FailureThresholdReached(10)] else []
  }

  /** A stopped container is started every time, with an alarm before if it was last seen running. */
  function Restart(seen: Option<ContainerState>, i: Iteration): seq<Output> {
    if i.state != Some(Stopped) then []
    else (if seen == Some(Running) then [StoppedUnexpectedly] else []) + [CallStart] +
         (if i.startOk then [AttemptingStart] else [])
  }

  /** The iteration ends with a failed start, or else with its wait. */
  function Conclusion(i: Iteration): seq<Output> {
    if i.state == Some(Stopped) && !i.startOk then [FatalError]
    else
      match i.wake
      case Timeout => []
      case Changed => []
      case WaitFailed => [FatalError]
      case Delete(stopOk, destroyOk) =>
        [CallStop] + (if stopOk then [] else [FatalError]) + [CallDestroy] + (if destroyOk then [] else [FatalError])
  }

  /** What an iteration puts out after `trace`, when it makes `failures` since the last reset. */
  function Expected(trace: seq<Output>, i: Iteration, failures: nat): seq<Output> {
    var seen := LastAnnounced(trace);
    if i.state.None? then [FatalError]
    else
      Announcement(seen, i.state.value) + Registration(trace, seen, i) + Alert(failures, seen, i)
      + Restart(seen, i) + Conclusion(i)
  }

  lemma {:induction false} HandleIsKept(its: seq<Iteration>)
    ensures Run(its).0.hasHandle == Run(its).0.everRegistered
    decreases |its|
  {
    if its != [] {
      HandleIsKept(its[..|its| - 1]);
      RunUnfold(its);
      HandleStep(Run(its[..|its| - 1]).0, its[|its| - 1]);
    }
  }

  lemma HandleStep(l: Loop, i: Iteration)
    requires l.hasHandle == l.everRegistered
    ensures Iterate(l, i).0.hasHandle == Iterate(l, i).0.everRegistered
  {
  }

  /**
    Each iteration, given in full by what has been announced, registered and
    counted before it, without any of the loop's variables; and it is the last
    one exactly if its wait ends in a request to delete.
   */
  lemma IterationFromHistory(its: seq<Iteration>, i: Iteration)
    requires !Run(its).0.deleted
    ensures Iterate(Run(its).0, i).1 == Expected(Run(its).1, i, FailuresWith(its, i))
    ensures Iterate(Run(its).0, i).0.deleted <==> !BreaksOff(i) && i.wake.Delete?
  {
    TraceIsSound(its);
    HandleIsKept(its);
    var (l, trace) := Run(its);
    IterateFromHistory(l, trace, i, FailuresSinceReset(its), FailuresWith(its, i));
  }

  lemma IterateFromHistory(l: Loop, trace: seq<Output>, i: Iteration, failures: nat, n: nat)
    requires n == failures + (if CountsAsFailure(l.seen, i) then 1 else 0)
    requires !l.deleted && l.failures == Shown(failures) && l.hasHandle == l.everRegistered
    requires l.seen == LastAnnounced(trace) && (l.everRegistered <==> HasRegister(trace))
    ensures Iterate(l, i).1 == Expected(trace, i, n)
    ensures Iterate(l, i).0.deleted <==> !BreaksOff(i) && i.wake.Delete?
  {
    if i.state.Some? {
      var s := i.state.value;
      BodyFromHistory(l, i, failures);
      EndFromHistory(Body(l, s, i).0, s, i);
      IterateParts(l, i);
      JoinParts(Announce(l, s), Registration(trace, l.seen, i), Alert(n, l.seen, i), Restart(l.seen, i), Conclusion(i));
    }
  }

  lemma IterateParts(l: Loop, i: Iteration)
    requires !l.deleted && i.state.Some?
    ensures var s := i.state.value;
      var (l1, body) := Body(l, s, i);
      Iterate(l, i) == (End(l1, s, i).0, Announce(l, s) + body + End(l1, s, i).1)
  {
  }

  lemma JoinParts<T>(a: seq<T>, b: seq<T>, c: seq<T>, d: seq<T>, e: seq<T>)
    ensures a + (b + (c + d)) + e == a + b + c + d + e
  {
  }

  lemma BodyFromHistory(l: Loop, i: Iteration, failures: nat)
    requires i.state.Some? && l.failures == Shown(failures) && l.hasHandle == l.everRegistered
    ensures var n := failures + (if CountsAsFailure(l.seen, i) then 1 else 0);
      Body(l, i.state.value, i).1 ==
        (if i.state == Some(Running) && l.seen != Some(Running) && (i.hasHandle || l.everRegistered)
         then [Register(l.everRegistered)] else [])
        + (Alert(n, l.seen, i) + Restart(l.seen, i))
    ensures Body(l, i.state.value, i).0.deleted == l.deleted
  {
    ShownIsModulo(failures);
    ShownIsModulo(failures + 1);
    ReactionParts(RegisterLogs(l, i.state.value, i.hasHandle).0, i);
  }

  lemma ReactionParts(l: Loop, i: Iteration)
    requires i.state.Some?
    ensures React(l, i.state.value, i.startOk).1 == CountFailure(l, i.state.value).1 + Restart(l.seen, i)
  {
  }

  lemma EndFromHistory(l: Loop, s: ContainerState, i: Iteration)
    requires i.state == Some(s)
    ensures End(l, s, i).1 == Conclusion(i)
    ensures End(l, s, i).0.deleted <==> l.deleted || (!BreaksOff(i) && i.wake.Delete?)
  {
  }

  /**
    A container is started exactly when it is found stopped, once in that
    iteration; the call is followed at once by the report that it was attempted,
    or by its error. And a log is registered exactly when the container turns out
    running and a handle is known.
   */
  lemma StoppedIsStarted(its: seq<Iteration>, i: Iteration)
    requires !Run(its).0.deleted
    ensures Count(Iterate(Run(its).0, i).1, CallStart) == (if i.state == Some(Stopped) then 1 else 0)
    ensures StartIsReported(Iterate(Run(its).0, i).1, i)
    ensures HasRegister(Iterate(Run(its).0, i).1) <==>
      && i.state == Some(Running) && LastAnnounced(Run(its).1) != Some(Running)
      && (i.hasHandle || HasRegister(Run(its).1))
  {
    var trace, n := Run(its).1, FailuresWith(its, i);
    IterationFromHistory(its, i);
    if i.state.Some? {
      StartsOnce(trace, i, n);
      ReportsStart(trace, i, n);
      Registers(trace, i, n);
    } else {
      assert CallStart !in multiset([FatalError]);
    }
  }

  /** The attempt is reported if and only if it succeeded; either way what follows the call says how it went. */
  ghost predicate StartIsReported(out: seq<Output>, i: Iteration) {
    && (AttemptingStart in out <==> i.state == Some(Stopped) && i.startOk)
    && (forall k | 0 <= k < |out| && out[k] == CallStart ::
          k + 1 < |out| && out[k + 1] == if i.startOk then AttemptingStart else FatalError)
  }

  /** What an iteration puts out before it deals with a stopped container. */
  function Opening(trace: seq<Output>, i: Iteration, failures: nat): seq<Output>
    requires i.state.Some?
  {
    var seen := LastAnnounced(trace);
    Announcement(seen, i.state.value) + Registration(trace, seen, i) + Alert(failures, seen, i)
  }

  lemma OpeningIs(trace: seq<Output>, i: Iteration, failures: nat)
    requires i.state.Some?
    ensures forall o | o in Opening(trace, i, failures) ::
      o.StateChange? || o.Register? || o.FailureThresholdReached?
    ensures HasRegister(Opening(trace, i, failures)) <==> Registration(trace, LastAnnounced(trace), i) != []
  {
    var seen := LastAnnounced(trace);
    var announced, registered := Announcement(seen, i.state.value), Registration(trace, seen, i);
    HasRegisterAppend(announced + registered, Alert(failures, seen, i));
    HasRegisterAppend(announced, registered);
    assert registered != [] ==> registered[0].Register?;
  }

  lemma ConclusionIs(i: Iteration)
    ensures forall o | o in Conclusion(i) :: o.FatalError? || o.CallStop? || o.CallDestroy?
  {
  }

  lemma ExpectedParts(trace: seq<Output>, i: Iteration, failures: nat)
    requires i.state.Some?
    ensures Expected(trace, i, failures) ==
      Opening(trace, i, failures) + Restart(LastAnnounced(trace), i) + Conclusion(i)
  {
  }

  lemma StartsOnce(trace: seq<Output>, i: Iteration, failures: nat)
    requires i.state.Some?
    ensures Count(Expected(trace, i, failures), CallStart) == (if i.state == Some(Stopped) then 1 else 0)
  {
    ExpectedParts(trace, i, failures);
    OpeningIs(trace, i, failures);
    ConclusionIs(i);
    RestartStarts(LastAnnounced(trace), i);
    StartsInTheMiddle(Opening(trace, i, failures), Restart(LastAnnounced(trace), i), Conclusion(i));
  }

  lemma StartsInTheMiddle(opening: seq<Output>, restart: seq<Output>, conclusion: seq<Output>)
    requires CallStart !in opening && CallStart !in conclusion
    ensures Count(opening + restart + conclusion, CallStart) == Count(restart, CallStart)
  {
    assert CallStart !in multiset(opening) && CallStart !in multiset(conclusion);
    CountAppend(opening + restart, conclusion, CallStart);
    CountAppend(opening, restart, CallStart);
  }

  lemma RestartStarts(seen: Option<ContainerState>, i: Iteration)
    ensures Count(Restart(seen, i), CallStart) == (if i.state == Some(Stopped) then 1 else 0)
  {
    var alarm := if seen == Some(Running) then [StoppedUnexpectedly] else [];
    var report := if i.startOk then [AttemptingStart] else [];
    CountAppend(alarm + [CallStart], report, CallStart);
    CountAppend(alarm, [CallStart], CallStart);
  }

  lemma ReportsStart(trace: seq<Output>, i: Iteration, failures: nat)
    requires i.state.Some?
    ensures StartIsReported(Expected(trace, i, failures), i)
  {
    ExpectedParts(trace, i, failures);
    OpeningIs(trace, i, failures);
    ConclusionIs(i);
    ReportsInTheMiddle(Opening(trace, i, failures), LastAnnounced(trace), i, Conclusion(i));
  }

  lemma ReportsInTheMiddle(opening: seq<Output>, seen: Option<ContainerState>, i: Iteration, conclusion: seq<Output>)
    requires CallStart !in opening && AttemptingStart !in opening
    requires CallStart !in conclusion && AttemptingStart !in conclusion
    requires i.state == Some(Stopped) && !i.startOk ==> conclusion == [FatalError]
    ensures StartIsReported(opening + Restart(seen, i) + conclusion, i)
  {
    var restart := Restart(seen, i);
    var out, n, m := opening + restart + conclusion, |opening|, |opening + restart|;
    assert forall k | 0 <= k < n :: out[k] == opening[k] && opening[k] in opening;
    assert forall k | m <= k < |out| :: out[k] == conclusion[k - m] && conclusion[k - m] in conclusion;
    assert forall k | n <= k < m :: out[k] == restart[k - n];
    assert restart != [] && i.startOk ==> restart[|restart| - 1] in restart && restart[|restart| - 1] in out;
  }

  lemma Registers(trace: seq<Output>, i: Iteration, failures: nat)
    requires i.state.Some?
    ensures HasRegister(Expected(trace, i, failures)) <==>
      && i.state == Some(Running) && LastAnnounced(trace) != Some(Running) && (i.hasHandle || HasRegister(trace))
  {
    var opening, restart := Opening(trace, i, failures), Restart(LastAnnounced(trace), i);
    OpeningIs(trace, i, failures);
    ConclusionIs(i);
    HasRegisterAppend(opening + restart, Conclusion(i));
    HasRegisterAppend(opening, restart);
  }

  // -------------------------------------------------------------------- the loop

  /** The nested loops, over any finite sequence of what the container does. */
  method RunLifecycleLoop(its: seq<Iteration>) returns (trace: seq<Output>)
    ensures trace == Run(its).1
    ensures Chained(trace) && Resumes(trace)
    ensures Count(trace, StoppedUnexpectedly) == Count(trace, FALL)
  {
    trace := [];
    var l := Begin();
    var n := 0;
    while n < |its| && !l.deleted
      invariant n <= |its| && Run(its[..n]) == (l, trace)
      invariant n < |its| && !l.deleted ==> l == NextEpoch(l)
      decreases |its| - n
    {
      l := NextEpoch(l);
      var failed := false;
      ghost var entry := n;
      while n < |its| && !l.deleted && !failed
        invariant n <= |its| && Run(its[..n]) == (l, trace)
        invariant failed ==> l == NextEpoch(l)
        invariant entry < n || (n == entry && !failed && !l.deleted)
        decreases |its| - n
      {
        RunNext(its, n, l, trace);
        var out;
        l, out, failed := OneIteration(l, its[n]);
        trace := trace + out;
        n := n + 1;
      }
    }
    DeletedStays(its, n);
    TraceIsSound(its);
    LogsResume(its);
  }

  /** The body of the inner loop; `failed` when it breaks out to the outer one. */
  method OneIteration(l: Loop, i: Iteration) returns (l': Loop, out: seq<Output>, failed: bool)
    requires !l.deleted
    ensures (l', out) == Iterate(l, i)
    ensures failed ==> l' == NextEpoch(l')
  {
    if i.state.None? {
      return NextEpoch(l), [FatalError], true;
    }
    var state := i.state.value;
    var head: seq<Output> := [];
    if l.seen.None? || l.seen.value != state {
      head := [StateChange(l.seen, state)];
    }
    var registered, reaction;
    l', registered := RegisterStream(l, state, i.hasHandle);
    l', reaction := Respond(l', state, i.startOk);
    if state == Stopped && !i.startOk {
      return NextEpoch(l'), head + (registered + reaction) + [FatalError], true;
    }
    var ending;
    l', ending, failed := AwaitWake(l'.(seen := Some(state)), i.wake);
    out := head + (registered + reaction) + ending;
  }

  /** The `select!` at the end of an iteration. */
  method AwaitWake(l: Loop, wake: Wake) returns (l': Loop, out: seq<Output>, failed: bool)
    ensures (l', out) == Await(l, wake)
    ensures failed ==> l' == NextEpoch(l')
  {
    match wake
    case Timeout => return l, [], false;
    case Changed => return l, [], false;
    case WaitFailed => return NextEpoch(l), [FatalError], true;
    case Delete(stopOk, destroyOk) =>
      out := [CallStop];
      out := out + (if stopOk then [] else [FatalError]);
      out := out + [CallDestroy];
      out := out + (if destroyOk then [] else [FatalError]);
      return l.(deleted := true), out, false;
  }

  /** (Re-)registers the log stream whenever the container becomes running. */
  method RegisterStream(l: Loop, state: ContainerState, hasHandle: bool) returns (l': Loop, out: seq<Output>)
    ensures (l', out) == RegisterLogs(l, state, hasHandle)
  {
    l', out := l, [];
    var stateChanged := l.seen.Some? && l.seen.value != state;
    if state == Running && (l.seen.None? || stateChanged) {
      if !l'.hasHandle && hasHandle {
        l' := l'.(hasHandle := true);
      }
      if l'.hasHandle {
        out := [Register(l'.everRegistered)];
        l' := l'.(everRegistered := true);
      }
    }
  }

  /** Counts failures, raises alarms and tries to start the container. */
  method Respond(l: Loop, state: ContainerState, startOk: bool) returns (l': Loop, out: seq<Output>)
    ensures (l', out) == React(l, state, startOk)
  {
    l', out := l, [];
    match state {
      case Stopped =>
        if l.seen.Some? {
          l', out := IncreaseFailures(l);
        }
        out := out + (if l.seen == Some(Running) then [StoppedUnexpectedly] else []);
        out := out + [CallStart];
        out := out + (if startOk then [AttemptingStart] else []);
      case Ambiguous =>
        l', out := IncreaseFailures(l);
      case Running =>
        if !(l.seen.Some? && l.seen.value != state) {
          l' := l.(failures := 0);
        }
    }
  }

  method IncreaseFailures(l: Loop) returns (l': Loop, out: seq<Output>)
    ensures l' == l.(failures := Increment(l.failures))
    ensures out == if l'.failures == THRESHOLD then [FailureThresholdReached(l'.failures)] else []
  {
    l', out := l.(failures := Increment(l.failures)), [];
    if l'.failures == THRESHOLD {
      out := [FailureThresholdReached(l'.failures)];
    }
  }

  lemma RunNext(its: seq<Iteration>, n: nat, l: Loop, trace: seq<Output>)
    requires n < |its| && Run(its[..n]) == (l, trace)
    ensures Run(its[..n + 1]) == (Iterate(l, its[n]).0, trace + Iterate(l, its[n]).1)
  {
    assert its[..n + 1][..n] == its[..n];
  }

  lemma {:induction false} DeletedStays(its: seq<Iteration>, n: nat)
    requires n <= |its| && (n == |its| || Run(its[..n]).0.deleted)
    ensures Run(its) == Run(its[..n])
    decreases |its|
  {
    if n == |its| {
      assert its[..n] == its;
    } else {
      var m := |its| - 1;
      assert its[..m][..n] == its[..n];
      DeletedStays(its[..m], n);
      assert Run(its[..m]).1 + [] == Run(its[..m]).1;
    }
  }
}
