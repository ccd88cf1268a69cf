/**
  Application reconciliation (orchestrator/src/loop_apps.rs): a merge-join over
  the running and the target applications that emits actions by index, and the
  loop that applies them to the very vector those indices point into.
 */
module Reconcile {
  import opened Options
  import opened References
  import opened Sorting

  /** A supervised application; `container` identifies the container and its lifecycle task. */
  datatype Application = Application(
    container: nat, name: string, config: Option<string>,
    reference: string, digest: string, applicationId: int, configId: Option<int>)

  /** A target whose image has been pulled; `config` is what the container is created with. */
  datatype TargetApp = TargetApp(
    reference: string, digest: string, name: string, config: Option<string>, applicationId: int, configId: int)

  datatype CurrentAppEntry = CurrentAppEntry(name: string, digest: string, configId: Option<int>, index: nat)

  datatype Action =
    | Create(image: TargetApp)
    | Update(index: nat, image: TargetApp)
    | Remove(index: nat)

  function AppRef(a: Application): string { a.reference }

  function TargetRef(t: TargetApp): string { t.reference }

  predicate SameName(a: Application, t: TargetApp) {
    Strip(a.reference) == Strip(t.reference)
  }

  /** The application runs exactly what the target asks for. */
  predicate Matches(a: Application, t: TargetApp) {
    SameName(a, t) && a.digest == t.digest && a.configId == Some(t.configId)
  }

  ghost predicate DistinctApps(apps: seq<Application>) {
    forall i, j | 0 <= i < j < |apps| :: Strip(apps[i].reference) != Strip(apps[j].reference)
  }

  ghost predicate DistinctTargets(targets: seq<TargetApp>) {
    forall i, j | 0 <= i < j < |targets| :: Strip(targets[i].reference) != Strip(targets[j].reference)
  }

  // ---------------------------------------------------------------- the merge

  /** Entries of the current applications, last index first. */
  function Entries(apps: seq<Application>): (r: seq<CurrentAppEntry>)
    ensures |r| == |apps|
  {
    if apps == [] then [] else
    var i := |apps| - 1;
    var a := apps[i];
    [CurrentAppEntry(Strip(a.reference), a.digest, a.configId, i)] + Entries(apps[..i])
  }

  /** Targets keyed by name, last one first. */
  function Keyed(targets: seq<TargetApp>): (r: seq<(string, TargetApp)>)
    ensures |r| == |targets|
  {
    if targets == [] then [] else
    var i := |targets| - 1;
    [(Strip(targets[i].reference), targets[i])] + Keyed(targets[..i])
  }

  /** Every action the iterator still has to emit. */
  function Merge(current: seq<CurrentAppEntry>, target: seq<(string, TargetApp)>): seq<Action>
    decreases |current| + |target|
  {
    if current == [] && target == [] then []
    else if current == [] then [Create(target[0].1)] + Merge(current, target[1..])
    else if target == [] then [Remove(current[0].index)] + Merge(current[1..], target)
    else if Less(current[0].name, target[0].0) then [Create(target[0].1)] + Merge(current, target[1..])
    else if Less(target[0].0, current[0].name) then [Remove(current[0].index)] + Merge(current[1..], target)
    else if current[0].digest != target[0].1.digest || current[0].configId != Some(target[0].1.configId) then
      [Update(current[0].index, target[0].1)] + Merge(current[1..], target[1..])
    else Merge(current[1..], target[1..])
  }

  function Actions(apps: seq<Application>, targets: seq<TargetApp>): seq<Action> {
    Merge(Entries(apps), Keyed(targets))
  }

  class ReconcileIterator {
    var current: seq<CurrentAppEntry>
    var target: seq<(string, TargetApp)>

    /** A build with debug assertions checks that both lists are in strict order; any other build does not. */
    constructor (apps: seq<Application>, targets: seq<TargetApp>, ghost debugAssertions: bool)
      requires debugAssertions ==> StrictByName(AppRef, apps) && StrictByName(TargetRef, targets)
      ensures current == Entries(apps) && target == Keyed(targets)
    {
      current := Entries(apps);
      target := Keyed(targets);
    }

    ghost function Remaining(): seq<Action>
      reads this
    {
      Merge(current, target)
    }

    /** Emits the first remaining action, or reports that none is left. */
    method Next() returns (r: Option<Action>)
      modifies this
      ensures r.None? ==> old(Remaining()) == [] && Remaining() == []
      ensures r.Some? ==> old(Remaining()) == [r.value] + Remaining()
      ensures |current| + |target| <= old(|current| + |target|)
      ensures r.Some? ==> |current| + |target| < old(|current| + |target|)
    {
      while true
        invariant Remaining() == old(Remaining())
        invariant |current| + |target| <= old(|current| + |target|)
        decreases |current| + |target|
      {
        if current == [] && target == [] {
          return None;
        } else if current == [] {
          r := Some(Create(target[0].1));
          target := target[1..];
          return;
        } else if target == [] {
          r := Some(Remove(current[0].index));
          current := current[1..];
          return;
        }
        var c, t := current[0], target[0];
        if Less(c.name, t.0) {
          target := target[1..];
          return Some(Create(t.1));
        } else if Less(t.0, c.name) {
          current := current[1..];
          return Some(Remove(c.index));
        } else {
          current, target := current[1..], target[1..];
          if c.digest != t.1.digest || c.configId != Some(t.1.configId) {
            return Some(Update(c.index, t.1));
          }
        }
      }
    }
  }

  // --------------------------------------------- applying actions to the vector

  /**
    The device as the loop sees it: the live vector, the next fresh container,
    and every application taken out of the vector so far, in order.
   */
  datatype Device = Device(apps: seq<Application>, nextContainer: nat, released: seq<Application>)

  /** Whether the awaited teardown and launch of one action succeed. */
  datatype Outcome = Outcome(removed: bool, launched: bool)

  /** `Panicked` stands for an index out of range in `swap_remove`. */
  datatype Status = Finished | Failed | Panicked

  function SwapRemove<T>(v: seq<T>, i: nat): (r: seq<T>)
    requires i < |v|
    ensures |r| == |v| - 1
  {
    v[i := v[|v| - 1]][..|v| - 1]
  }

  function Release(d: Device, i: nat): Device
    requires i < |d.apps|
  {
    d.(apps := SwapRemove(d.apps, i), released := d.released + [d.apps[i]])
  }

  function Started(t: TargetApp, container: nat): Application {
    Application(container, t.name, t.config, t.reference, t.digest, t.applicationId, Some(t.configId))
  }

  function Launch(d: Device, t: TargetApp): Device {
    d.(apps := d.apps + [Started(t, d.nextContainer)], nextContainer := d.nextContainer + 1)
  }

  /** One action: the new device and how it ended. */
  function Apply(d: Device, a: Action, o: Outcome): (Device, Status) {
    match a
    case Create(t) => if o.launched then (Launch(d, t), Finished) else (d, Failed)
    case Update(i, t) =>
      if i >= |d.apps| then (d, Panicked)
      else if !o.removed || !o.launched then (Release(d, i), Failed)
      else (Launch(Release(d, i), t), Finished)
    case Remove(i) =>
      if i >= |d.apps| then (d, Panicked)
      else if !o.removed then (Release(d, i), Failed)
      else (Release(d, i), Finished)
  }

  /** All actions in order, stopping at the first that does not finish; `k` counts the actions before. */
  function Execute(d: Device, actions: seq<Action>, outcome: nat -> Outcome, k: nat): (Device, Status)
    decreases |actions|
  {
    if actions == [] then (d, Finished) else
    var (d', s) := Apply(d, actions[0], outcome(k));
    if s != Finished then (d', s) else Execute(d', actions[1..], outcome, k + 1)
  }

  // ------------------------------------------------------- what a cycle achieves

  /** Every application came from `old` untouched or was launched for one of `targets` in this cycle. */
  ghost predicate Provenance(before: Device, targets: seq<TargetApp>, after: Device) {
    forall x | x in after.apps ::
      || x in before.apps
      || (before.nextContainer <= x.container && exists t :: t in targets && LaunchedFor(x, t))
  }

  /** The application carries all that the target asks for. */
  predicate LaunchedFor(x: Application, t: TargetApp) {
    && x.name == t.name && x.config == t.config && x.reference == t.reference && x.digest == t.digest
    && x.applicationId == t.applicationId && x.configId == Some(t.configId)
  }

  ghost predicate Wanted(a: Application, targets: seq<TargetApp>) {
    exists t :: t in targets && Matches(a, t)
  }

  ghost predicate Served(t: TargetApp, apps: seq<Application>) {
    exists x :: x in apps && Matches(x, t)
  }

  /** No application that already matched a target was touched. */
  ghost predicate KeepsMatching(before: Device, targets: seq<TargetApp>, after: Device) {
    forall a | a in before.apps && Wanted(a, targets) :: a in after.apps
  }

  /** The applications at index `from` and above that match no target, last index first. */
  ghost function Unwanted(apps: seq<Application>, targets: seq<TargetApp>, from: nat): seq<Application>
    requires from <= |apps|
    decreases |apps| - from
  {
    if from == |apps| then []
    else Unwanted(apps, targets, from + 1) + (if Wanted(apps[from], targets) then [] else [apps[from]])
  }

  /** Exactly one application per target, running what it asks for, and nothing else. */
  ghost predicate Converged(targets: seq<TargetApp>, apps: seq<Application>) {
    && |apps| == |targets|
    && DistinctApps(apps)
    && Paired(apps, targets)
  }

  /** Containers are numbered from those already handed out, each number held by at most one application. */
  ghost predicate ContainersOk(d: Device) {
    && (forall x | x in d.apps :: x.container < d.nextContainer)
    && (forall x, y | x in d.apps && y in d.apps && x.container == y.container :: x == y)
  }

  /** Names stay distinct, and every application is an old one or one launched for a target. */
  ghost predicate Owned(before: Device, targets: seq<TargetApp>, after: Device) {
    && DistinctApps(after.apps)
    && Provenance(before, targets, after)
    && ContainersOk(after)
    && before.nextContainer <= after.nextContainer
  }

  /** What holds of the device after any number of actions, whether or not the cycle then fails. */
  ghost predicate Sound(before: Device, targets: seq<TargetApp>, after: Device) {
    && Owned(before, targets, after)
    && KeepsMatching(before, targets, after)
    && before.released <= after.released
    && after.released <= before.released + Unwanted(before.apps, targets, 0)
  }

  // ------------------------------------------------------------ the loop invariant

  /**
    With `apps[..i]` and `targets[..j]` still to be merged, the vector is
    `apps[..i]`, untouched and in place, followed by exactly one application for
    each merged target.
   */
  ghost predicate Halfway(start: Device, targets: seq<TargetApp>, i: nat, j: nat, d: Device) {
    && i <= |start.apps| && j <= |targets| && |d.apps| == i + |targets| - j
    && d.apps[..i] == start.apps[..i]
    && (forall k, l | 0 <= k < i && j <= l < |targets| :: !SameName(start.apps[k], targets[l]))
    && Paired(d.apps[i..], targets[j..])
    && Retained(start.apps, targets, i, d.apps[i..])
    && Owned(start, targets, d)
    && d.released == start.released + Unwanted(start.apps, targets, i)
  }

  /** Every application is wanted and every target is served. */
  ghost predicate Paired(apps: seq<Application>, targets: seq<TargetApp>) {
    && (forall x {:trigger Wanted(x, targets)} | x in apps :: Wanted(x, targets))
    && (forall t {:trigger Served(t, apps)} | t in targets :: Served(t, apps))
  }

  /** The original applications from index `i` on that match a target are among `tail`. */
  ghost predicate Retained(apps: seq<Application>, targets: seq<TargetApp>, i: nat, tail: seq<Application>) {
    forall k | i <= k < |apps| && Wanted(apps[k], targets) :: apps[k] in tail
  }

  lemma HalfwayIsSound(start: Device, targets: seq<TargetApp>, i: nat, j: nat, d: Device)
    requires Halfway(start, targets, i, j, d)
    ensures Sound(start, targets, d)
  {
    forall a | a in start.apps && Wanted(a, targets)
      ensures a in d.apps
    {
      var k :| 0 <= k < |start.apps| && start.apps[k] == a;
      if k < i {
        assert d.apps[..i][k] == a;
      }
    }
    UnwantedPrefix(start.apps, targets, 0, i);
  }

  lemma {:induction false} UnwantedPrefix(apps: seq<Application>, targets: seq<TargetApp>, i: nat, j: nat)
    requires i <= j <= |apps|
    ensures Unwanted(apps, targets, j) <= Unwanted(apps, targets, i)
    decreases j - i
  {
    if i < j {
      UnwantedPrefix(apps, targets, i + 1, j);
    }
  }

  lemma SwapRemoveTail<T>(v: seq<T>, i: nat)
    requires i < |v|
    ensures SwapRemove(v, i)[..i] == v[..i]
    ensures forall j | 0 <= j < |v| - 1 :: SwapRemove(v, i)[j] == if j == i then v[|v| - 1] else v[j]
    ensures forall x :: x in SwapRemove(v, i)[i..] <==> x in v[i + 1..]
  {
    var w := SwapRemove(v, i);
    var n := |v| - 1;
    forall x | x in w[i..]
      ensures x in v[i + 1..]
    {
      var k :| 0 <= k < |w[i..]| && w[i..][k] == x;
      assert w[i + k] == x;
      if k == 0 {
        assert v[i + 1..][n - i - 1] == x;
      } else {
        assert v[i + 1..][k - 1] == x;
      }
    }
    forall x | x in v[i + 1..]
      ensures x in w[i..]
    {
      var k :| 0 <= k < |v[i + 1..]| && v[i + 1..][k] == x;
      if i + 1 + k == n {
        assert w[i..][0] == x;
      } else {
        assert w[i..][k + 1] == x;
      }
    }
  }

  lemma ReleaseOwned(start: Device, targets: seq<TargetApp>, d: Device, i: nat)
    requires Owned(start, targets, d) && i < |d.apps|
    ensures Owned(start, targets, Release(d, i))
  {
  }

  lemma LaunchOwned(start: Device, targets: seq<TargetApp>, d: Device, t: TargetApp)
    requires Owned(start, targets, d) && t in targets
    requires forall x | x in d.apps :: !SameName(x, t)
    ensures Owned(start, targets, Launch(d, t))
  {
    var d' := Launch(d, t);
    var n := |d.apps|;
    assert d'.apps[n] == Started(t, d.nextContainer);
    forall i, j | 0 <= i < j < |d'.apps|
      ensures Strip(d'.apps[i].reference) != Strip(d'.apps[j].reference)
    {
      assert d'.apps[i] == d.apps[i];
      if j == n {
        assert !SameName(d.apps[i], t);
      } else {
        assert d'.apps[j] == d.apps[j];
      }
    }
  }

  lemma RemoveStep(start: Device, targets: seq<TargetApp>, i: nat, j: nat, d: Device)
    requires Halfway(start, targets, i, j, d) && 0 < i
    requires !Wanted(start.apps[i - 1], targets)
    ensures d.apps[i - 1] == start.apps[i - 1]
    ensures Halfway(start, targets, i - 1, j, Release(d, i - 1))
  {
    assert d.apps[i - 1] == d.apps[..i][i - 1];
    SwapRemoveTail(d.apps, i - 1);
    ReleaseOwned(start, targets, d, i - 1);
    TakeTake(start.apps, d.apps, i);
    PairedMembers(targets[j..], d.apps[i..], Release(d, i - 1).apps[i - 1..]);
  }

  lemma TakeTake<T>(a: seq<T>, b: seq<T>, i: nat)
    requires 0 < i <= |a| && i <= |b| && b[..i] == a[..i]
    ensures b[..i - 1] == a[..i - 1]
  {
  }

  lemma PairedMembers(targets: seq<TargetApp>, v: seq<Application>, w: seq<Application>)
    requires Paired(v, targets) && forall x :: x in w <==> x in v
    ensures Paired(w, targets)
  {
    ServedByMembers(targets, v, w);
    forall t | t in targets
      ensures Served(t, w)
    {
      assert Served(t, v);
    }
  }

  lemma PairedCons(targets: seq<TargetApp>, v: seq<Application>, w: seq<Application>, x: Application, t: TargetApp)
    requires Paired(v, targets) && Matches(x, t)
    requires forall y :: y in w <==> y == x || y in v
    ensures Paired(w, [t] + targets)
  {
    WantedByMembers(v, targets, [t] + targets);
    ServedByMembers(targets, v, w);
    assert t in [t] + targets && x in w;
    forall y | y in w
      ensures Wanted(y, [t] + targets)
    {
      assert y == x || Wanted(y, targets);
    }
    forall u | u in [t] + targets
      ensures Served(u, w)
    {
      assert u == t || Served(u, v);
    }
  }

  lemma ServedByMembers(targets: seq<TargetApp>, v: seq<Application>, w: seq<Application>)
    requires forall x | x in v :: x in w
    ensures forall t | t in targets && Served(t, v) :: Served(t, w)
  {
  }

  lemma WantedByMembers(apps: seq<Application>, s: seq<TargetApp>, r: seq<TargetApp>)
    requires forall t | t in s :: t in r
    ensures forall x | x in apps && Wanted(x, s) :: Wanted(x, r)
  {
  }

  lemma CreateStep(start: Device, targets: seq<TargetApp>, i: nat, j: nat, d: Device)
    requires Halfway(start, targets, i, j, d) && 0 < j
    requires DistinctTargets(targets)
    requires forall k | 0 <= k < i :: !SameName(start.apps[k], targets[j - 1])
    ensures Halfway(start, targets, i, j - 1, Launch(d, targets[j - 1]))
  {
    var t := targets[j - 1];
    var x := Started(t, d.nextContainer);
    var d' := Launch(d, t);
    var v, w := d.apps[i..], d'.apps[i..];
    assert w == v + [x];
    assert targets[j - 1..] == [t] + targets[j..];
    PairedCons(targets[j..], v, w, x, t);
    forall k | 0 <= k < |d.apps|
      ensures !SameName(d.apps[k], t)
    {
      if k < i {
        assert d.apps[k] == d.apps[..i][k];
      } else {
        assert v[k - i] in v;
        NameFresh(targets, j, v[k - i]);
      }
    }
    LaunchOwned(start, targets, d, t);
    assert d'.apps[..i] == d.apps[..i];
  }

  lemma NameFresh(targets: seq<TargetApp>, j: nat, x: Application)
    requires 0 < j <= |targets| && DistinctTargets(targets)
    requires Wanted(x, targets[j..])
    ensures !SameName(x, targets[j - 1])
  {
  }

  lemma KeepStep(start: Device, targets: seq<TargetApp>, i: nat, j: nat, d: Device)
    requires Halfway(start, targets, i, j, d) && 0 < i && 0 < j
    requires DistinctApps(start.apps)
    requires Matches(start.apps[i - 1], targets[j - 1])
    ensures Halfway(start, targets, i - 1, j - 1, d)
  {
    var a, t := start.apps[i - 1], targets[j - 1];
    assert d.apps[i - 1] == d.apps[..i][i - 1] == a;
    var v, w := d.apps[i..], d.apps[i - 1..];
    assert w == [a] + v;
    assert targets[j - 1..] == [t] + targets[j..];
    PairedCons(targets[j..], v, w, a, t);
    TakeTake(start.apps, d.apps, i);
    forall k | 0 <= k < i - 1
      ensures !SameName(start.apps[k], t)
    {
      assert start.apps[i - 1] == a;
    }
    assert Wanted(a, targets) by {
      assert t in targets;
    }
  }

  // ------------------------------------------------------------- one whole cycle

  /** The next action, read off the last unmerged application and target. */
  lemma ActionsUnfold(apps: seq<Application>, targets: seq<TargetApp>, i: nat, j: nat)
    requires i <= |apps| && j <= |targets|
    ensures Actions(apps[..i], targets[..j]) ==
      if i == 0 && j == 0 then []
      else if i == 0 || (0 < j && Less(Strip(apps[i - 1].reference), Strip(targets[j - 1].reference))) then
        [Create(targets[j - 1])] + Actions(apps[..i], targets[..j - 1])
      else if j == 0 || Less(Strip(targets[j - 1].reference), Strip(apps[i - 1].reference)) then
        [Remove(i - 1)] + Actions(apps[..i - 1], targets[..j])
      else if apps[i - 1].digest != targets[j - 1].digest || apps[i - 1].configId != Some(targets[j - 1].configId) then
        [Update(i - 1, targets[j - 1])] + Actions(apps[..i - 1], targets[..j - 1])
      else Actions(apps[..i - 1], targets[..j - 1])
  {
    if 0 < i {
      assert apps[..i][..i - 1] == apps[..i - 1];
      var a := apps[i - 1];
      var e := Entries(apps[..i]);
      assert e == [CurrentAppEntry(Strip(a.reference), a.digest, a.configId, i - 1)] + Entries(apps[..i - 1]);
      assert e[1..] == Entries(apps[..i - 1]);
    }
    if 0 < j {
      assert targets[..j][..j - 1] == targets[..j - 1];
      var t := targets[j - 1];
      var q := Keyed(targets[..j]);
      assert q == [(Strip(t.reference), t)] + Keyed(targets[..j - 1]);
      assert q[1..] == Keyed(targets[..j - 1]);
    }
  }

  lemma ExecuteCons(d: Device, a: Action, rest: seq<Action>, outcome: nat -> Outcome, k: nat)
    ensures Execute(d, [a] + rest, outcome, k) ==
      var (d', s) := Apply(d, a, outcome(k));
      if s != Finished then (d', s) else Execute(d', rest, outcome, k + 1)
  {
  }

  /** If the last of the first `i` names is below `name`, so are all of them. */
  lemma BelowAll<T>(ref: T -> string, s: seq<T>, i: nat, name: string)
    requires StrictByName(ref, s) && i <= |s|
    requires 0 < i ==> Less(Strip(ref(s[i - 1])), name)
    ensures forall k | 0 <= k < i :: Strip(ref(s[k])) != name
  {
    forall k | 0 <= k < i
      ensures Strip(ref(s[k])) != name
    {
      LessTrichotomy(Strip(ref(s[k])), name);
      if k < i - 1 {
        LessTransitive(Strip(ref(s[k])), Strip(ref(s[i - 1])), name);
      }
    }
  }

  lemma StrictIsDistinct(apps: seq<Application>, targets: seq<TargetApp>)
    requires StrictByName(AppRef, apps) && StrictByName(TargetRef, targets)
    ensures DistinctApps(apps) && DistinctTargets(targets)
  {
    forall i, j | 0 <= i < j < |apps|
      ensures Strip(apps[i].reference) != Strip(apps[j].reference)
    {
      assert Less(Strip(AppRef(apps[i])), Strip(AppRef(apps[j])));
      LessTrichotomy(Strip(apps[i].reference), Strip(apps[j].reference));
    }
    forall i, j | 0 <= i < j < |targets|
      ensures Strip(targets[i].reference) != Strip(targets[j].reference)
    {
      assert Less(Strip(TargetRef(targets[i])), Strip(TargetRef(targets[j])));
      LessTrichotomy(Strip(targets[i].reference), Strip(targets[j].reference));
    }
  }

  ghost predicate Progress(start: Device, targets: seq<TargetApp>, r: (Device, Status)) {
    && r.1 != Panicked
    && Sound(start, targets, r.0)
    && (r.1 == Finished ==> Halfway(start, targets, 0, 0, r.0))
  }

  lemma ActionProgress(
    start: Device, targets: seq<TargetApp>, d: Device, a: Action, rest: seq<Action>, outcome: nat -> Outcome, k: nat)
    requires !a.Create? ==> a.index < |d.apps|
    requires Sound(start, targets, if a.Create? then d else Release(d, a.index))
    requires Progress(start, targets, Execute(Apply(d, a, Outcome(true, true)).0, rest, outcome, k + 1))
    ensures Progress(start, targets, Execute(d, [a] + rest, outcome, k))
  {
  }

  /**
    The heart of the argument: from any halfway point, running the remaining
    actions never leaves the vector's bounds, is sound wherever it stops, and if
    it finishes has merged everything.
   */
  lemma {:induction false} ExecuteProgress(
    start: Device, targets: seq<TargetApp>, i: nat, j: nat, d: Device, outcome: nat -> Outcome, k: nat)
    requires StrictByName(AppRef, start.apps) && StrictByName(TargetRef, targets)
    requires Halfway(start, targets, i, j, d)
    ensures Progress(start, targets, Execute(d, Actions(start.apps[..i], targets[..j]), outcome, k))
    decreases i + j
  {
    StrictIsDistinct(start.apps, targets);
    ActionsUnfold(start.apps, targets, i, j);
    if i == 0 && j == 0 {
      DoneProgress(start, targets, d);
    } else if i == 0 || (0 < j && Less(Strip(start.apps[i - 1].reference), Strip(targets[j - 1].reference))) {
      CreateProgress(start, targets, i, j, d, outcome, k);
    } else if j == 0 || Less(Strip(targets[j - 1].reference), Strip(start.apps[i - 1].reference)) {
      RemoveProgress(start, targets, i, j, d, outcome, k);
    } else {
      LessTrichotomy(Strip(start.apps[i - 1].reference), Strip(targets[j - 1].reference));
      if Matches(start.apps[i - 1], targets[j - 1]) {
        KeepProgress(start, targets, i, j, d, outcome, k);
      } else {
        UpdateProgress(start, targets, i, j, d, outcome, k);
      }
    }
  }

  lemma DoneProgress(start: Device, targets: seq<TargetApp>, d: Device)
    requires Halfway(start, targets, 0, 0, d)
    ensures Progress(start, targets, (d, Finished))
  {
  }

  lemma KeepProgress(
    start: Device, targets: seq<TargetApp>, i: nat, j: nat, d: Device, outcome: nat -> Outcome, k: nat)
    requires StrictByName(AppRef, start.apps) && StrictByName(TargetRef, targets) && DistinctApps(start.apps)
    requires Halfway(start, targets, i, j, d) && 0 < i && 0 < j
    requires Matches(start.apps[i - 1], targets[j - 1])
    ensures Progress(start, targets, Execute(d, Actions(start.apps[..i - 1], targets[..j - 1]), outcome, k))
    decreases i + j, 0
  {
    KeepStep(start, targets, i, j, d);
    ExecuteProgress(start, targets, i - 1, j - 1, d, outcome, k);
  }

  lemma CreateProgress(
    start: Device, targets: seq<TargetApp>, i: nat, j: nat, d: Device, outcome: nat -> Outcome, k: nat)
    requires StrictByName(AppRef, start.apps) && StrictByName(TargetRef, targets) && DistinctTargets(targets)
    requires Halfway(start, targets, i, j, d) && 0 < j
    requires 0 < i ==> Less(Strip(start.apps[i - 1].reference), Strip(targets[j - 1].reference))
    ensures Progress(start, targets,
      Execute(d, [Create(targets[j - 1])] + Actions(start.apps[..i], targets[..j - 1]), outcome, k))
    decreases i + j, 0
  {
    HalfwayIsSound(start, targets, i, j, d);
    CreateCase(start, targets, i, j, d);
    ExecuteProgress(start, targets, i, j - 1, Launch(d, targets[j - 1]), outcome, k + 1);
    ActionProgress(start, targets, d, Create(targets[j - 1]), Actions(start.apps[..i], targets[..j - 1]), outcome, k);
  }

  lemma RemoveProgress(
    start: Device, targets: seq<TargetApp>, i: nat, j: nat, d: Device, outcome: nat -> Outcome, k: nat)
    requires StrictByName(AppRef, start.apps) && StrictByName(TargetRef, targets)
    requires Halfway(start, targets, i, j, d) && 0 < i
    requires 0 < j ==> Less(Strip(targets[j - 1].reference), Strip(start.apps[i - 1].reference))
    ensures Progress(start, targets,
      Execute(d, [Remove(i - 1)] + Actions(start.apps[..i - 1], targets[..j]), outcome, k))
    decreases i + j, 0
  {
    RemoveCase(start, targets, i, j, d);
    HalfwayIsSound(start, targets, i - 1, j, Release(d, i - 1));
    ExecuteProgress(start, targets, i - 1, j, Release(d, i - 1), outcome, k + 1);
    ActionProgress(start, targets, d, Remove(i - 1), Actions(start.apps[..i - 1], targets[..j]), outcome, k);
  }

  lemma UpdateProgress(
    start: Device, targets: seq<TargetApp>, i: nat, j: nat, d: Device, outcome: nat -> Outcome, k: nat)
    requires StrictByName(AppRef, start.apps) && StrictByName(TargetRef, targets)
    requires DistinctApps(start.apps) && DistinctTargets(targets)
    requires Halfway(start, targets, i, j, d) && 0 < i && 0 < j
    requires SameName(start.apps[i - 1], targets[j - 1]) && !Matches(start.apps[i - 1], targets[j - 1])
    ensures Progress(start, targets,
      Execute(d, [Update(i - 1, targets[j - 1])] + Actions(start.apps[..i - 1], targets[..j - 1]), outcome, k))
    decreases i + j, 0
  {
    var t := targets[j - 1];
    UpdateCase(start, targets, i, j, d);
    HalfwayIsSound(start, targets, i - 1, j, Release(d, i - 1));
    ExecuteProgress(start, targets, i - 1, j - 1, Launch(Release(d, i - 1), t), outcome, k + 1);
    ActionProgress(start, targets, d, Update(i - 1, t), Actions(start.apps[..i - 1], targets[..j - 1]), outcome, k);
  }

  lemma CreateCase(start: Device, targets: seq<TargetApp>, i: nat, j: nat, d: Device)
    requires StrictByName(AppRef, start.apps) && DistinctTargets(targets)
    requires Halfway(start, targets, i, j, d) && 0 < j
    requires 0 < i ==> Less(Strip(start.apps[i - 1].reference), Strip(targets[j - 1].reference))
    ensures Halfway(start, targets, i, j - 1, Launch(d, targets[j - 1]))
  {
    BelowAll(AppRef, start.apps, i, Strip(targets[j - 1].reference));
    forall n | 0 <= n < i
      ensures !SameName(start.apps[n], targets[j - 1])
    {
      assert Strip(AppRef(start.apps[n])) != Strip(targets[j - 1].reference);
    }
    CreateStep(start, targets, i, j, d);
  }

  lemma RemoveCase(start: Device, targets: seq<TargetApp>, i: nat, j: nat, d: Device)
    requires StrictByName(TargetRef, targets)
    requires Halfway(start, targets, i, j, d) && 0 < i
    requires 0 < j ==> Less(Strip(targets[j - 1].reference), Strip(start.apps[i - 1].reference))
    ensures d.apps[i - 1] == start.apps[i - 1]
    ensures Halfway(start, targets, i - 1, j, Release(d, i - 1))
  {
    var a := start.apps[i - 1];
    BelowAll(TargetRef, targets, j, Strip(a.reference));
    forall l | 0 <= l < |targets|
      ensures !SameName(a, targets[l])
    {
      if l < j {
        assert Strip(TargetRef(targets[l])) != Strip(a.reference);
      }
    }
    RemoveStep(start, targets, i, j, d);
  }

  lemma UpdateCase(start: Device, targets: seq<TargetApp>, i: nat, j: nat, d: Device)
    requires DistinctApps(start.apps) && DistinctTargets(targets)
    requires Halfway(start, targets, i, j, d) && 0 < i && 0 < j
    requires SameName(start.apps[i - 1], targets[j - 1]) && !Matches(start.apps[i - 1], targets[j - 1])
    ensures d.apps[i - 1] == start.apps[i - 1]
    ensures Halfway(start, targets, i - 1, j, Release(d, i - 1))
    ensures Halfway(start, targets, i - 1, j - 1, Launch(Release(d, i - 1), targets[j - 1]))
  {
    var a := start.apps[i - 1];
    forall l | 0 <= l < |targets|
      ensures !Matches(a, targets[l])
    {
      if SameName(a, targets[l]) {
        assert l == j - 1;
      }
    }
    RemoveStep(start, targets, i, j, d);
    CreateStep(start, targets, i - 1, j, Release(d, i - 1));
  }

  /** The device after `apps.sort_by(order_reference)`. */
  function Arranged(d: Device): Device {
    d.(apps := Sort(ByReference(AppRef), d.apps))
  }

  function Planned(d: Device, targets: seq<TargetApp>): seq<Action> {
    Actions(Arranged(d).apps, Sort(ByReference(TargetRef), targets))
  }

  function Cycle(d: Device, targets: seq<TargetApp>, outcome: nat -> Outcome): (Device, Status) {
    Execute(Arranged(d), Planned(d, targets), outcome, 0)
  }

  ghost predicate Ready(d: Device) {
    Mergeable(AppRef, d.apps) && ContainersOk(d)
  }

  lemma {:induction false} UnwantedMembers(apps: seq<Application>, s: seq<TargetApp>, r: seq<TargetApp>, i: nat)
    requires i <= |apps| && forall t :: t in s <==> t in r
    ensures Unwanted(apps, s, i) == Unwanted(apps, r, i)
    decreases |apps| - i
  {
    if i < |apps| {
      UnwantedMembers(apps, s, r, i + 1);
      assert Wanted(apps[i], s) <==> Wanted(apps[i], r);
    }
  }

  /**
    Convergence and failure safety of one cycle, for every device, target list
    and pattern of failures: no index is ever out of range; wherever the cycle
    stops the device is sound; and a finished cycle leaves exactly one matching
    application per target, having released precisely the applications that
    match none, last index first.
   */
  lemma CycleConverges(d: Device, targets: seq<TargetApp>, outcome: nat -> Outcome)
    requires Ready(d) && Mergeable(TargetRef, targets)
    ensures var (d', s) := Cycle(d, targets, outcome);
      && s != Panicked
      && Sound(Arranged(d), targets, d')
      && (s == Finished ==> Converged(targets, d'.apps))
      && (s == Finished ==> d'.released == d.released + Unwanted(Arranged(d).apps, targets, 0))
  {
    var start := Arranged(d);
    var ts := Sort(ByReference(TargetRef), targets);
    SortBridge(AppRef, d.apps);
    SortBridge(TargetRef, targets);
    ArrangedContainers(d);
    Members(ts, targets);
    SortedCycle(start, ts, outcome);
    var (d', s) := Cycle(d, targets, outcome);
    SoundMembers(start, ts, targets, d');
    if s == Finished {
      PairedByMembers(d'.apps, ts, targets);
      UnwantedMembers(start.apps, ts, targets, 0);
    }
  }

  lemma ArrangedContainers(d: Device)
    requires ContainersOk(d)
    ensures ContainersOk(Arranged(d))
  {
    Members(Arranged(d).apps, d.apps);
  }

  lemma SortedCycle(start: Device, ts: seq<TargetApp>, outcome: nat -> Outcome)
    requires StrictByName(AppRef, start.apps) && StrictByName(TargetRef, ts) && ContainersOk(start)
    ensures var (d', s) := Execute(start, Actions(start.apps, ts), outcome, 0);
      && s != Panicked
      && Sound(start, ts, d')
      && (s == Finished ==> Converged(ts, d'.apps))
      && (s == Finished ==> d'.released == start.released + Unwanted(start.apps, ts, 0))
  {
    var n, m := |start.apps|, |ts|;
    StrictIsDistinct(start.apps, ts);
    assert start.apps[..n] == start.apps && ts[..m] == ts;
    StartsHalfway(start, ts);
    ExecuteProgress(start, ts, n, m, start, outcome, 0);
    var (d', s) := Execute(start, Actions(start.apps, ts), outcome, 0);
    assert d'.apps[0..] == d'.apps && ts[0..] == ts;
  }

  lemma StartsHalfway(start: Device, ts: seq<TargetApp>)
    requires DistinctApps(start.apps) && ContainersOk(start)
    ensures Halfway(start, ts, |start.apps|, |ts|, start)
  {
  }

  lemma PairedByMembers(apps: seq<Application>, s: seq<TargetApp>, r: seq<TargetApp>)
    requires Paired(apps, s) && forall t :: t in s <==> t in r
    ensures Paired(apps, r)
  {
    WantedByMembers(apps, s, r);
    forall x | x in apps
      ensures Wanted(x, r)
    {
      assert Wanted(x, s);
    }
  }

  lemma SoundMembers(start: Device, s: seq<TargetApp>, r: seq<TargetApp>, d: Device)
    requires Sound(start, s, d) && forall t :: t in s <==> t in r
    ensures Sound(start, r, d)
  {
    WantedByMembers(start.apps, r, s);
    UnwantedMembers(start.apps, s, r, 0);
    assert Provenance(start, r, d);
  }

  // ------------------------------------------------ whatever order the lists are in

  /** `served[k]` runs what `targets[k]` asks for, for every k. */
  predicate ServesInOrder(served: seq<Application>, targets: seq<TargetApp>) {
    |served| == |targets| && forall k | 0 <= k < |targets| :: Matches(served[k], targets[k])
  }

  /** The applications are one for each target, in some order, running what it asks for. */
  ghost predicate OneEach(targets: seq<TargetApp>, apps: seq<Application>) {
    exists served :: multiset(served) == multiset(apps) && ServesInOrder(served, targets)
  }

  lemma OneEachCons(targets: seq<TargetApp>, v: seq<Application>, w: seq<Application>, x: Application, t: TargetApp)
    requires OneEach(targets, v) && Matches(x, t) && multiset(w) == multiset{x} + multiset(v)
    ensures OneEach([t] + targets, w)
  {
    var served :| multiset(served) == multiset(v) && ServesInOrder(served, targets);
    ConsServes(t, targets, x, served);
  }

  lemma OneEachPaired(targets: seq<TargetApp>, apps: seq<Application>)
    requires OneEach(targets, apps)
    ensures |apps| == |targets| && Paired(apps, targets)
  {
    var served: seq<Application> :| multiset(served) == multiset(apps) && ServesInOrder(served, targets);
    assert |multiset(served)| == |multiset(apps)|;
    Members(served, apps);
    forall x | x in apps
      ensures Wanted(x, targets)
    {
      var k :| 0 <= k < |served| && served[k] == x;
      assert targets[k] in targets;
    }
    forall t | t in targets
      ensures Served(t, apps)
    {
      var k :| 0 <= k < |targets| && targets[k] == t;
      assert served[k] in served;
    }
  }

  /** With distinct target names, that is convergence. */
  lemma OneEachConverged(targets: seq<TargetApp>, apps: seq<Application>)
    requires OneEach(targets, apps) && DistinctTargets(targets)
    ensures Converged(targets, apps)
  {
    OneEachPaired(targets, apps);
    var served: seq<Application> :| multiset(served) == multiset(apps) && ServesInOrder(served, targets);
    forall i, j | 0 <= i < j < |served|
      ensures Strip(served[i].reference) != Strip(served[j].reference)
    {
      assert Matches(served[i], targets[i]) && Matches(served[j], targets[j]);
    }
    DistinctRearranged(served, apps);
  }

  lemma DistinctRearranged(served: seq<Application>, apps: seq<Application>)
    requires multiset(served) == multiset(apps) && DistinctApps(served)
    ensures DistinctApps(apps)
  {
    forall i, j | 0 <= i < j < |apps|
      ensures Strip(apps[i].reference) != Strip(apps[j].reference)
    {
      var k, l := TwoPlaces(served, apps, i, j);
    }
  }

  /** Two positions of a list are found at two positions of any rearrangement. */
  lemma TwoPlaces<T>(r: seq<T>, s: seq<T>, i: nat, j: nat) returns (k: nat, l: nat)
    requires multiset(r) == multiset(s) && i < j < |s|
    ensures k < |r| && l < |r| && k != l && r[k] == s[i] && r[l] == s[j]
  {
    assert s[i] in multiset(r);
    k :| 0 <= k < |r| && r[k] == s[i];
    WithoutMultiset(s, i);
    WithoutMultiset(r, k);
    SameRest(multiset(Without(r, k)), multiset(Without(s, i)), s[i]);
    assert Without(s, i)[j - 1] == s[j];
    assert s[j] in multiset(Without(r, k));
    var m :| 0 <= m < |Without(r, k)| && Without(r, k)[m] == s[j];
    l := if m < k then m else m + 1;
  }

  lemma SameRest<T>(a: multiset<T>, b: multiset<T>, x: T)
    requires multiset{x} + a == multiset{x} + b
    ensures a == b
  {
    assert a == (multiset{x} + a) - multiset{x};
    assert b == (multiset{x} + b) - multiset{x};
  }

  /** `OneEach` does not depend on the order of the targets. */
  lemma Rearrange(ts: seq<TargetApp>, targets: seq<TargetApp>, apps: seq<Application>)
    requires multiset(ts) == multiset(targets) && OneEach(ts, apps)
    ensures OneEach(targets, apps)
  {
    var served: seq<Application> :| multiset(served) == multiset(apps) && ServesInOrder(served, ts);
    var rearranged := RearrangeServed(ts, targets, served);
  }

  lemma {:induction false} RearrangeServed(ts: seq<TargetApp>, targets: seq<TargetApp>, served: seq<Application>)
    returns (r: seq<Application>)
    requires multiset(ts) == multiset(targets) && ServesInOrder(served, ts)
    ensures multiset(r) == multiset(served) && ServesInOrder(r, targets)
    decreases |targets|
  {
    if targets == [] {
      assert |multiset(ts)| == 0;
      r := served;
    } else {
      var k := FirstAmong(ts, targets);
      WithoutServes(ts, served, k);
      var rest := RearrangeServed(Without(ts, k), targets[1..], Without(served, k));
      ConsServes(targets[0], targets[1..], served[k], rest);
      r := [served[k]] + rest;
      assert [targets[0]] + targets[1..] == targets;
    }
  }

  /** Where the first target is in another arrangement of the same ones. */
  lemma FirstAmong<T>(ts: seq<T>, targets: seq<T>) returns (k: nat)
    requires multiset(ts) == multiset(targets) && targets != []
    ensures k < |ts| && ts[k] == targets[0] && multiset(Without(ts, k)) == multiset(targets[1..])
  {
    assert targets == [targets[0]] + targets[1..];
    assert targets[0] in multiset(ts);
    k :| 0 <= k < |ts| && ts[k] == targets[0];
    WithoutMultiset(ts, k);
    assert multiset(Without(ts, k)) == multiset(ts) - multiset{ts[k]};
    assert multiset(targets[1..]) == multiset(targets) - multiset{ts[k]};
  }

  lemma WithoutServes(ts: seq<TargetApp>, served: seq<Application>, k: nat)
    requires ServesInOrder(served, ts) && k < |ts|
    ensures ServesInOrder(Without(served, k), Without(ts, k))
    ensures Matches(served[k], ts[k]) && multiset(served) == multiset{served[k]} + multiset(Without(served, k))
  {
    WithoutMultiset(served, k);
  }

  lemma ConsServes(t: TargetApp, targets: seq<TargetApp>, x: Application, served: seq<Application>)
    requires ServesInOrder(served, targets) && Matches(x, t)
    ensures ServesInOrder([x] + served, [t] + targets)
    ensures multiset([x] + served) == multiset{x} + multiset(served)
  {
    var all, ts := [x] + served, [t] + targets;
    forall k | 0 <= k < |all|
      ensures Matches(all[k], ts[k])
    {
      assert k > 0 ==> all[k] == served[k - 1] && ts[k] == targets[k - 1];
    }
  }

  function Without<T>(s: seq<T>, k: nat): seq<T>
    requires k < |s|
  {
    s[..k] + s[k + 1..]
  }

  lemma WithoutMultiset<T>(s: seq<T>, k: nat)
    requires k < |s|
    ensures multiset(s) == multiset{s[k]} + multiset(Without(s, k))
  {
    assert s == s[..k] + [s[k]] + s[k + 1..];
  }

  lemma SwapRemoveMultiset<T>(v: seq<T>, i: nat)
    requires i < |v|
    ensures multiset(SwapRemove(v, i)[i..]) == multiset(v[i + 1..])
    ensures multiset(v) == multiset(SwapRemove(v, i)) + multiset{v[i]}
  {
    var w, n := SwapRemove(v, i), |v| - 1;
    if i < n {
      assert v[i + 1..] == v[i + 1..n] + [v[n]];
      assert w[i..] == [v[n]] + v[i + 1..n];
    } else {
      assert w[i..] == [] && v[i + 1..] == [];
    }
    assert v == v[..i] + [v[i]] + v[i + 1..];
    assert w == v[..i] + w[i..];
  }

  /** No application is lost track of: each is one of those at the start, or launched for a target, or released. */
  ghost predicate Tracked(before: Device, targets: seq<TargetApp>, after: Device) {
    && Provenance(before, targets, after)
    && before.nextContainer <= after.nextContainer
    && (forall a | a in before.apps :: a in after.apps || a in after.released)
  }

  lemma ReleaseTracked(start: Device, targets: seq<TargetApp>, d: Device, i: nat)
    requires Tracked(start, targets, d) && i < |d.apps|
    ensures Tracked(start, targets, Release(d, i))
  {
    SwapRemoveMultiset(d.apps, i);
    var d' := Release(d, i);
    forall a
      ensures a in d.apps <==> a in d'.apps || a == d.apps[i]
    {
      assert a in d.apps <==> a in multiset(d.apps);
      assert a in d'.apps <==> a in multiset(d'.apps);
    }
  }

  lemma LaunchTracked(start: Device, targets: seq<TargetApp>, d: Device, t: TargetApp)
    requires Tracked(start, targets, d) && t in targets
    ensures Tracked(start, targets, Launch(d, t))
  {
  }

  /** `Halfway` without what depends on the order of the names. */
  ghost predicate Partway(start: Device, targets: seq<TargetApp>, i: nat, j: nat, d: Device) {
    && i <= |start.apps| && j <= |targets| && i <= |d.apps|
    && d.apps[..i] == start.apps[..i]
    && OneEach(targets[j..], d.apps[i..])
    && Tracked(start, targets, d)
  }

  lemma ReleasePartway(start: Device, targets: seq<TargetApp>, i: nat, j: nat, d: Device)
    requires Partway(start, targets, i, j, d) && 0 < i
    ensures Partway(start, targets, i - 1, j, Release(d, i - 1))
  {
    SwapRemoveMultiset(d.apps, i - 1);
    ReleaseTracked(start, targets, d, i - 1);
    TakeTake(start.apps, d.apps, i);
    var served :| multiset(served) == multiset(d.apps[i..]) && ServesInOrder(served, targets[j..]);
    assert Release(d, i - 1).apps[..i - 1] == d.apps[..i - 1];
  }

  lemma LaunchPartway(start: Device, targets: seq<TargetApp>, i: nat, j: nat, d: Device)
    requires Partway(start, targets, i, j, d) && 0 < j
    ensures Partway(start, targets, i, j - 1, Launch(d, targets[j - 1]))
  {
    var t := targets[j - 1];
    var x := Started(t, d.nextContainer);
    LaunchTracked(start, targets, d, t);
    assert Launch(d, t).apps[i..] == d.apps[i..] + [x];
    assert Launch(d, t).apps[..i] == d.apps[..i];
    assert targets[j - 1..] == [t] + targets[j..];
    OneEachCons(targets[j..], d.apps[i..], Launch(d, t).apps[i..], x, t);
  }

  lemma KeepPartway(start: Device, targets: seq<TargetApp>, i: nat, j: nat, d: Device)
    requires Partway(start, targets, i, j, d) && 0 < i && 0 < j
    requires Matches(start.apps[i - 1], targets[j - 1])
    ensures Partway(start, targets, i - 1, j - 1, d)
  {
    var a, t := start.apps[i - 1], targets[j - 1];
    assert d.apps[i - 1] == d.apps[..i][i - 1] == a;
    assert d.apps[i - 1..] == [a] + d.apps[i..];
    assert targets[j - 1..] == [t] + targets[j..];
    TakeTake(start.apps, d.apps, i);
    OneEachCons(targets[j..], d.apps[i..], d.apps[i - 1..], a, t);
  }

  ghost predicate Lands(start: Device, targets: seq<TargetApp>, r: (Device, Status)) {
    r.1 != Panicked && Tracked(start, targets, r.0) && (r.1 == Finished ==> OneEach(targets, r.0.apps))
  }

  lemma ActionLands(
    start: Device, targets: seq<TargetApp>, d: Device, a: Action, rest: seq<Action>, outcome: nat -> Outcome, k: nat)
    requires Tracked(start, targets, d) && (!a.Create? ==> a.index < |d.apps|)
    requires Lands(start, targets, Execute(Apply(d, a, Outcome(true, true)).0, rest, outcome, k + 1))
    ensures Lands(start, targets, Execute(d, [a] + rest, outcome, k))
  {
    if !a.Create? {
      ReleaseTracked(start, targets, d, a.index);
    }
  }

  /** `ExecuteProgress` without any order: the indices and the final matching come from the descending walk alone. */
  lemma {:induction false} ExecuteLands(
    start: Device, targets: seq<TargetApp>, i: nat, j: nat, d: Device, outcome: nat -> Outcome, k: nat)
    requires Partway(start, targets, i, j, d)
    ensures Lands(start, targets, Execute(d, Actions(start.apps[..i], targets[..j]), outcome, k))
    decreases i + j
  {
    ActionsUnfold(start.apps, targets, i, j);
    if i == 0 && j == 0 {
      assert d.apps[0..] == d.apps && targets[0..] == targets;
    } else if i == 0 || (0 < j && Less(Strip(start.apps[i - 1].reference), Strip(targets[j - 1].reference))) {
      var t := targets[j - 1];
      LaunchPartway(start, targets, i, j, d);
      ExecuteLands(start, targets, i, j - 1, Launch(d, t), outcome, k + 1);
      ActionLands(start, targets, d, Create(t), Actions(start.apps[..i], targets[..j - 1]), outcome, k);
    } else if j == 0 || Less(Strip(targets[j - 1].reference), Strip(start.apps[i - 1].reference)) {
      ReleasePartway(start, targets, i, j, d);
      ExecuteLands(start, targets, i - 1, j, Release(d, i - 1), outcome, k + 1);
      ActionLands(start, targets, d, Remove(i - 1), Actions(start.apps[..i - 1], targets[..j]), outcome, k);
    } else {
      LessTrichotomy(Strip(start.apps[i - 1].reference), Strip(targets[j - 1].reference));
      PairLands(start, targets, i, j, d, outcome, k);
    }
  }

  lemma PairLands(
    start: Device, targets: seq<TargetApp>, i: nat, j: nat, d: Device, outcome: nat -> Outcome, k: nat)
    requires Partway(start, targets, i, j, d) && 0 < i && 0 < j && SameName(start.apps[i - 1], targets[j - 1])
    ensures var rest := Actions(start.apps[..i - 1], targets[..j - 1]);
      var t := targets[j - 1];
      Lands(start, targets,
        Execute(d, if Matches(start.apps[i - 1], t) then rest else [Update(i - 1, t)] + rest, outcome, k))
    decreases i + j, 0
  {
    var t := targets[j - 1];
    if Matches(start.apps[i - 1], t) {
      KeepPartway(start, targets, i, j, d);
      ExecuteLands(start, targets, i - 1, j - 1, d, outcome, k);
    } else {
      ReleasePartway(start, targets, i, j, d);
      LaunchPartway(start, targets, i - 1, j, Release(d, i - 1));
      ExecuteLands(start, targets, i - 1, j - 1, Launch(Release(d, i - 1), t), outcome, k + 1);
      ActionLands(start, targets, d, Update(i - 1, t), Actions(start.apps[..i - 1], targets[..j - 1]), outcome, k);
    }
  }

  /**
    Convergence of one cycle with no condition at all: any device, any target
    list, whatever clashes or repeats among their names, any pattern of failures.
    No index is ever out of range; wherever the cycle stops, every application is
    an old one or one launched for a target, and every old one is still there or
    was released; and a finished cycle leaves exactly one application for each
    target, running what it asks for, and nothing else. If the target names are
    distinct, so are the names it leaves.
   */
  lemma EveryCycleConverges(d: Device, targets: seq<TargetApp>, outcome: nat -> Outcome)
    ensures var (d', s) := Cycle(d, targets, outcome);
      && s != Panicked
      && Tracked(d, targets, d')
      && (s == Finished ==> OneEach(targets, d'.apps))
      && (s == Finished && DistinctTargets(targets) ==> Converged(targets, d'.apps))
  {
    var start := Arranged(d);
    var ts := Sort(ByReference(TargetRef), targets);
    var n, m := |start.apps|, |ts|;
    Members(start.apps, d.apps);
    Members(ts, targets);
    assert start.apps[..n] == start.apps && ts[..m] == ts;
    StartsPartway(start, ts);
    ExecuteLands(start, ts, n, m, start, outcome, 0);
    var (d', s) := Cycle(d, targets, outcome);
    TrackedMembers(start, ts, d, targets, d');
    if s == Finished {
      Rearrange(ts, targets, d'.apps);
      if DistinctTargets(targets) {
        OneEachConverged(targets, d'.apps);
      }
    }
  }

  lemma StartsPartway(start: Device, ts: seq<TargetApp>)
    ensures Partway(start, ts, |start.apps|, |ts|, start)
  {
    assert ServesInOrder([], ts[|ts|..]) && start.apps[|start.apps|..] == [];
  }

  lemma TrackedMembers(start: Device, ts: seq<TargetApp>, d: Device, targets: seq<TargetApp>, after: Device)
    requires Tracked(start, ts, after) && start.nextContainer == d.nextContainer
    requires (forall x :: x in start.apps <==> x in d.apps) && forall t :: t in ts <==> t in targets
    ensures Tracked(d, targets, after)
  {
  }

  // ------------------------------------------------------ how far a cycle gets

  /** One of the calls the action awaits fails. */
  predicate Fails(a: Action, o: Outcome) {
    (!a.Create? && !o.removed) || (!a.Remove? && !o.launched)
  }

  function Launches(actions: seq<Action>): nat {
    if actions == [] then 0 else (if actions[0].Remove? then 0 else 1) + Launches(actions[1..])
  }

  function Teardowns(actions: seq<Action>): nat {
    if actions == [] then 0 else (if actions[0].Create? then 0 else 1) + Teardowns(actions[1..])
  }

  /**
    The first `n` actions succeed and the next, if there is one, fails. All their
    launches and teardowns have happened, and the failing one has still taken its
    application out of the vector.
   */
  ghost predicate StopsAfter(
    d: Device, actions: seq<Action>, outcome: nat -> Outcome, k: nat, after: Device, s: Status, n: nat)
  {
    && n <= |actions|
    && (forall j | 0 <= j < n :: !Fails(actions[j], outcome(k + j)))
    && (s == Finished <==> n == |actions|)
    && (n < |actions| ==> s == Failed && Fails(actions[n], outcome(k + n)))
    && after.nextContainer == d.nextContainer + Launches(actions[..n])
    && |after.released| == |d.released| + Teardowns(if n < |actions| then actions[..n + 1] else actions)
    && |after.apps| + |after.released| == |d.apps| + |d.released| + Launches(actions[..n])
  }

  lemma {:induction false} ExecuteStops(d: Device, actions: seq<Action>, outcome: nat -> Outcome, k: nat)
    requires Execute(d, actions, outcome, k).1 != Panicked
    ensures var (after, s) := Execute(d, actions, outcome, k);
      exists n :: StopsAfter(d, actions, outcome, k, after, s, n)
    decreases |actions|
  {
    var (after, s) := Execute(d, actions, outcome, k);
    if actions == [] {
      assert StopsAfter(d, actions, outcome, k, after, s, 0);
    } else {
      var a, rest := actions[0], actions[1..];
      var (d', s') := Apply(d, a, outcome(k));
      if s' != Finished {
        assert actions[..1] == [a] && [a][1..] == [];
        assert StopsAfter(d, actions, outcome, k, after, s, 0);
      } else {
        ExecuteStops(d', rest, outcome, k + 1);
        var n :| StopsAfter(d', rest, outcome, k + 1, after, s, n);
        StopsLater(d, d', actions, outcome, k, after, s, n);
      }
    }
  }

  lemma StopsLater(
    d: Device, d': Device, actions: seq<Action>, outcome: nat -> Outcome, k: nat, after: Device, s: Status, n: nat)
    requires actions != [] && Apply(d, actions[0], outcome(k)) == (d', Finished)
    requires StopsAfter(d', actions[1..], outcome, k + 1, after, s, n)
    ensures StopsAfter(d, actions, outcome, k, after, s, n + 1)
  {
    var rest := actions[1..];
    assert forall j | 0 <= j < |rest| :: rest[j] == actions[j + 1];
    assert actions[..n + 1][1..] == rest[..n];
    if n < |rest| {
      assert actions[..n + 2][1..] == rest[..n + 1];
    }
    forall j | 0 <= j < n + 1
      ensures !Fails(actions[j], outcome(k + j))
    {
      assert j > 0 ==> !Fails(rest[j - 1], outcome(k + 1 + (j - 1)));
    }
  }

  /**
    Exactly how far a cycle gets, for every device, target list and pattern of
    failures: it runs its actions up to the first that fails. Every application
    it took out, the failing action's included, is gone from the vector and
    recorded; every one it launched before is in it.
   */
  lemma CycleStopsAtFirstFailure(d: Device, targets: seq<TargetApp>, outcome: nat -> Outcome)
    ensures var (after, s) := Cycle(d, targets, outcome);
      exists n :: StopsAfter(d, Planned(d, targets), outcome, 0, after, s, n)
  {
    EveryCycleConverges(d, targets, outcome);
    ExecuteStops(Arranged(d), Planned(d, targets), outcome, 0);
    var (after, s) := Cycle(d, targets, outcome);
    var n :| StopsAfter(Arranged(d), Planned(d, targets), outcome, 0, after, s, n);
    assert StopsAfter(d, Planned(d, targets), outcome, 0, after, s, n);
  }

  // --------------------------------------------------- which actions are emitted

  /** Nothing is emitted exactly when the two sorted lists match position by position. */
  lemma {:induction false} NothingToDo(apps: seq<Application>, targets: seq<TargetApp>)
    ensures Actions(apps, targets) == [] <==>
      |apps| == |targets| && forall k | 0 <= k < |apps| :: Matches(apps[k], targets[k])
    decreases |apps| + |targets|
  {
    var i, j := |apps|, |targets|;
    assert apps[..i] == apps && targets[..j] == targets;
    ActionsUnfold(apps, targets, i, j);
    if 0 < i && 0 < j {
      LessTrichotomy(Strip(apps[i - 1].reference), Strip(targets[j - 1].reference));
      if Matches(apps[i - 1], targets[j - 1]) {
        NothingToDo(apps[..i - 1], targets[..j - 1]);
      }
    }
  }

  /** What an action must be about, read directly off the two lists. */
  ghost predicate Justified(a: Action, apps: seq<Application>, targets: seq<TargetApp>) {
    match a
    case Create(t) => t in targets && forall x | x in apps :: !SameName(x, t)
    case Remove(n) => n < |apps| && forall t | t in targets :: !SameName(apps[n], t)
    case Update(n, t) =>
      && n < |apps| && t in targets && SameName(apps[n], t)
      && (apps[n].digest != t.digest || apps[n].configId != Some(t.configId))
  }

  /**
    The merge emits an action if and only if the two lists call for it: a target
    without an application, an application without a target, or a pair of the
    same name that differs in digest or config.
   */
  lemma EmitsExactlyJustified(apps: seq<Application>, targets: seq<TargetApp>, a: Action)
    requires StrictByName(AppRef, apps) && StrictByName(TargetRef, targets)
    ensures a in Actions(apps, targets) <==> Justified(a, apps, targets)
  {
    StrictIsDistinct(apps, targets);
    assert apps[..|apps|] == apps && targets[..|targets|] == targets;
    EmitsJustifiedUpTo(apps, targets, |apps|, |targets|, a);
  }

  /** `Justified` for the first `i` applications and `j` targets, by position. */
  ghost predicate JustifiedUpTo(a: Action, apps: seq<Application>, targets: seq<TargetApp>, i: nat, j: nat)
    requires i <= |apps| && j <= |targets|
  {
    match a
    case Create(t) => (exists l :: 0 <= l < j && targets[l] == t) && forall k | 0 <= k < i :: !SameName(apps[k], t)
    case Remove(n) => n < i && forall l | 0 <= l < j :: !SameName(apps[n], targets[l])
    case Update(n, t) =>
      n < i && (exists l :: 0 <= l < j && targets[l] == t) && SameName(apps[n], t) && !Matches(apps[n], t)
  }

  lemma {:induction false} EmitsJustifiedUpTo(
    apps: seq<Application>, targets: seq<TargetApp>, i: nat, j: nat, a: Action)
    requires StrictByName(AppRef, apps) && StrictByName(TargetRef, targets)
    requires DistinctApps(apps) && DistinctTargets(targets)
    requires i <= |apps| && j <= |targets|
    ensures a in Actions(apps[..i], targets[..j]) <==> JustifiedUpTo(a, apps, targets, i, j)
    decreases i + j
  {
    ActionsUnfold(apps, targets, i, j);
    if i == 0 && j == 0 {
      JustifiedNothing(apps, targets, a);
    } else if i == 0 || (0 < j && Less(Strip(apps[i - 1].reference), Strip(targets[j - 1].reference))) {
      EmitsAfterCreate(apps, targets, i, j, a);
    } else if j == 0 || Less(Strip(targets[j - 1].reference), Strip(apps[i - 1].reference)) {
      EmitsAfterRemove(apps, targets, i, j, a);
    } else {
      LessTrichotomy(Strip(apps[i - 1].reference), Strip(targets[j - 1].reference));
      EmitsAfterPair(apps, targets, i, j, a);
    }
  }

  lemma EmitsAfterCreate(apps: seq<Application>, targets: seq<TargetApp>, i: nat, j: nat, a: Action)
    requires StrictByName(AppRef, apps) && StrictByName(TargetRef, targets)
    requires DistinctApps(apps) && DistinctTargets(targets)
    requires i <= |apps| && 0 < j <= |targets|
    requires 0 < i ==> Less(Strip(apps[i - 1].reference), Strip(targets[j - 1].reference))
    ensures a in [Create(targets[j - 1])] + Actions(apps[..i], targets[..j - 1]) <==>
      JustifiedUpTo(a, apps, targets, i, j)
    decreases i + j, 0
  {
    EmitsJustifiedUpTo(apps, targets, i, j - 1, a);
    JustifiedCreate(apps, targets, i, j, a, Actions(apps[..i], targets[..j - 1]));
  }

  lemma EmitsAfterRemove(apps: seq<Application>, targets: seq<TargetApp>, i: nat, j: nat, a: Action)
    requires StrictByName(AppRef, apps) && StrictByName(TargetRef, targets)
    requires DistinctApps(apps) && DistinctTargets(targets)
    requires 0 < i <= |apps| && j <= |targets|
    requires 0 < j ==> Less(Strip(targets[j - 1].reference), Strip(apps[i - 1].reference))
    ensures a in [Remove(i - 1)] + Actions(apps[..i - 1], targets[..j]) <==> JustifiedUpTo(a, apps, targets, i, j)
    decreases i + j, 0
  {
    EmitsJustifiedUpTo(apps, targets, i - 1, j, a);
    JustifiedRemove(apps, targets, i, j, a, Actions(apps[..i - 1], targets[..j]));
  }

  lemma EmitsAfterPair(apps: seq<Application>, targets: seq<TargetApp>, i: nat, j: nat, a: Action)
    requires StrictByName(AppRef, apps) && StrictByName(TargetRef, targets)
    requires DistinctApps(apps) && DistinctTargets(targets)
    requires 0 < i <= |apps| && 0 < j <= |targets| && SameName(apps[i - 1], targets[j - 1])
    ensures var rest := Actions(apps[..i - 1], targets[..j - 1]);
      a in (if Matches(apps[i - 1], targets[j - 1]) then rest else [Update(i - 1, targets[j - 1])] + rest)
      <==> JustifiedUpTo(a, apps, targets, i, j)
    decreases i + j, 0
  {
    EmitsJustifiedUpTo(apps, targets, i - 1, j - 1, a);
    JustifiedPair(apps, targets, i, j, a, Actions(apps[..i - 1], targets[..j - 1]));
  }

  lemma JustifiedNothing(apps: seq<Application>, targets: seq<TargetApp>, a: Action)
    ensures !JustifiedUpTo(a, apps, targets, 0, 0)
  {
  }

  lemma NameBelow(apps: seq<Application>, targets: seq<TargetApp>, i: nat, j: nat)
    requires StrictByName(AppRef, apps) && i <= |apps| && 0 < j <= |targets|
    requires 0 < i ==> Less(Strip(apps[i - 1].reference), Strip(targets[j - 1].reference))
    ensures forall k | 0 <= k < i :: !SameName(apps[k], targets[j - 1])
  {
    BelowAll(AppRef, apps, i, Strip(targets[j - 1].reference));
    assert forall k | 0 <= k < i :: Strip(AppRef(apps[k])) == Strip(apps[k].reference);
  }

  lemma NameAbove(apps: seq<Application>, targets: seq<TargetApp>, i: nat, j: nat)
    requires StrictByName(TargetRef, targets) && 0 < i <= |apps| && j <= |targets|
    requires 0 < j ==> Less(Strip(targets[j - 1].reference), Strip(apps[i - 1].reference))
    ensures forall l | 0 <= l < j :: !SameName(apps[i - 1], targets[l])
  {
    BelowAll(TargetRef, targets, j, Strip(apps[i - 1].reference));
    assert forall l | 0 <= l < j :: Strip(TargetRef(targets[l])) == Strip(targets[l].reference);
  }

  lemma JustifiedCreate(
    apps: seq<Application>, targets: seq<TargetApp>, i: nat, j: nat, a: Action, rest: seq<Action>)
    requires StrictByName(AppRef, apps) && i <= |apps| && 0 < j <= |targets| && DistinctTargets(targets)
    requires 0 < i ==> Less(Strip(apps[i - 1].reference), Strip(targets[j - 1].reference))
    requires a in rest <==> JustifiedUpTo(a, apps, targets, i, j - 1)
    ensures a in [Create(targets[j - 1])] + rest <==> JustifiedUpTo(a, apps, targets, i, j)
  {
    NameBelow(apps, targets, i, j);
    if JustifiedUpTo(a, apps, targets, i, j) && !a.Remove? {
      var l :| 0 <= l < j && targets[l] == a.image;
    }
  }

  lemma JustifiedRemove(
    apps: seq<Application>, targets: seq<TargetApp>, i: nat, j: nat, a: Action, rest: seq<Action>)
    requires StrictByName(TargetRef, targets) && 0 < i <= |apps| && j <= |targets|
    requires 0 < j ==> Less(Strip(targets[j - 1].reference), Strip(apps[i - 1].reference))
    requires a in rest <==> JustifiedUpTo(a, apps, targets, i - 1, j)
    ensures a in [Remove(i - 1)] + rest <==> JustifiedUpTo(a, apps, targets, i, j)
  {
    NameAbove(apps, targets, i, j);
    if a.Create? && JustifiedUpTo(a, apps, targets, i - 1, j) {
      var l :| 0 <= l < j && targets[l] == a.image;
      assert !SameName(apps[i - 1], targets[l]);
    }
  }

  lemma JustifiedPair(
    apps: seq<Application>, targets: seq<TargetApp>, i: nat, j: nat, a: Action, rest: seq<Action>)
    requires 0 < i <= |apps| && 0 < j <= |targets| && DistinctApps(apps) && DistinctTargets(targets)
    requires SameName(apps[i - 1], targets[j - 1])
    requires a in rest <==> JustifiedUpTo(a, apps, targets, i - 1, j - 1)
    ensures
      a in (if Matches(apps[i - 1], targets[j - 1]) then rest else [Update(i - 1, targets[j - 1])] + rest)
      <==> JustifiedUpTo(a, apps, targets, i, j)
  {
  }
}
