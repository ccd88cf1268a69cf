/**
  The application update loop (orchestrator/src/loop_apps.rs): one cycle as the
  program runs it, what a cycle right after a successful one does, and safety
  over whole runs of cycles that may fail at any point.
 */
module AppLoop {
  import opened Options
  import opened References
  import opened Reconcile
  import opened Sorting

  class AppLoop {
    const debugAssertions: bool
    var apps: seq<Application>
    var nextContainer: nat
    var released: seq<Application>

    constructor (found: seq<Application>, nextContainer: nat, debugAssertions: bool)
      ensures State() == Device(found, nextContainer, []) && this.debugAssertions == debugAssertions
    {
      this.debugAssertions := debugAssertions;
      this.apps, this.nextContainer, this.released := found, nextContainer, [];
    }

    ghost function State(): Device
      reads this
    {
      Device(apps, nextContainer, released)
    }

    /**
      One update cycle. `fetched` is the target list once every image is pulled,
      or nothing if the request or a pull failed; `outcome` decides the k-th
      action's awaited calls. The configs are reported only when every action
      finished, in the order the API listed them. Only a build with debug
      assertions demands anything of the references.
     */
    method TryUpdate(fetched: Option<seq<TargetApp>>, outcome: nat -> Outcome, reportOk: bool, pruneOk: bool)
      returns (ok: bool, reported: Option<seq<int>>)
      requires debugAssertions && fetched.Some? ==> Mergeable(AppRef, apps) && Mergeable(TargetRef, fetched.value)
      modifies this
      ensures fetched.None? ==> State() == old(State()) && !ok && reported.None?
      ensures fetched.Some? ==>
        var (d, s) := Cycle(old(State()), fetched.value, outcome);
        && State() == d && s != Panicked
        && Tracked(old(State()), fetched.value, d)
        && (ok <==> s == Finished && reportOk && pruneOk)
        && (reported.Some? <==> s == Finished)
        && (s == Finished ==> OneEach(fetched.value, apps))
        && (s == Finished && DistinctTargets(fetched.value) ==> Converged(fetched.value, apps))
        && (s == Finished ==> |reported.value| == |fetched.value|)
        && (s == Finished ==> forall i | 0 <= i < |fetched.value| :: reported.value[i] == fetched.value[i].configId)
      ensures fetched.Some? && Ready(old(State())) && Mergeable(TargetRef, fetched.value) ==>
        Sound(Arranged(old(State())), fetched.value, State())
    {
      if fetched.None? {
        return false, None;
      }
      var targets := fetched.value;
      var finished := RunCycle(targets, outcome);
      if !finished {
        return false, None;
      }
      reported := Some(ConfigIds(targets));
      ok := reportOk && pruneOk;
    }

    /** Sorts both lists, merges them and applies the actions. */
    method RunCycle(targets: seq<TargetApp>, outcome: nat -> Outcome) returns (finished: bool)
      requires debugAssertions ==> Mergeable(AppRef, apps) && Mergeable(TargetRef, targets)
      modifies this
      ensures (State(), if finished then Finished else Failed) == Cycle(old(State()), targets, outcome)
      ensures Tracked(old(State()), targets, State())
      ensures finished ==> OneEach(targets, apps)
      ensures finished && DistinctTargets(targets) ==> Converged(targets, apps)
      ensures Ready(old(State())) && Mergeable(TargetRef, targets) ==> Sound(Arranged(old(State())), targets, State())
    {
      EveryCycleConverges(State(), targets, outcome);
      if Ready(State()) && Mergeable(TargetRef, targets) {
        CycleConverges(State(), targets, outcome);
      }
      SortBridge(AppRef, apps);
      SortBridge(TargetRef, targets);
      var target := Sort(ByReference(TargetRef), targets);
      apps := Sort(ByReference(AppRef), apps);
      finished := ApplyActions(target, outcome);
    }

    /** The loop over the iterator, with the vector changing under it. */
    method ApplyActions(target: seq<TargetApp>, outcome: nat -> Outcome) returns (finished: bool)
      requires debugAssertions ==> StrictByName(AppRef, apps) && StrictByName(TargetRef, target)
      requires Execute(State(), Actions(apps, target), outcome, 0).1 != Panicked
      modifies this
      ensures (State(), if finished then Finished else Failed) ==
              Execute(old(State()), Actions(old(apps), target), outcome, 0)
    {
      ghost var whole := Execute(State(), Actions(apps, target), outcome, 0);
      var it := new ReconcileIterator(apps, target, debugAssertions);
      var k := 0;
      while true
        invariant fresh(it)
        invariant Execute(State(), it.Remaining(), outcome, k) == whole
        decreases |it.current| + |it.target|
      {
        ghost var before, todo := State(), it.Remaining();
        var action := it.Next();
        if action.None? {
          return true;
        }
        ExecuteCons(before, action.value, it.Remaining(), outcome, k);
        finished := Perform(action.value, outcome(k));
        if !finished {
          return;
        }
        k := k + 1;
      }
    }

    method Perform(action: Action, o: Outcome) returns (ok: bool)
      requires Reconcile.Apply(State(), action, o).1 != Panicked
      modifies this
      ensures (State(), if ok then Finished else Failed) == Reconcile.Apply(old(State()), action, o)
    {
      match action
      case Create(image) =>
        if !o.launched { return false; }
        LaunchFromImage(image);
        return true;
      case Update(index, image) =>
        TakeOut(index);
        if !o.removed { return false; }
        if !o.launched { return false; }
        LaunchFromImage(image);
        return true;
      case Remove(index) =>
        TakeOut(index);
        return o.removed;
    }

    method TakeOut(index: nat)
      requires index < |apps|
      modifies this
      ensures State() == Release(old(State()), index)
    {
      released := released + [apps[index]];
      apps := SwapRemove(apps, index);
    }

    method LaunchFromImage(image: TargetApp)
      modifies this
      ensures State() == Launch(old(State()), image)
    {
      apps := apps + [Started(image, nextContainer)];
      nextContainer := nextContainer + 1;
    }
  }

  /** What is reported: the config ids, in the order the API listed the targets. */
  function ConfigIds(targets: seq<TargetApp>): (r: seq<int>)
    ensures |r| == |targets| && forall i | 0 <= i < |targets| :: r[i] == targets[i].configId
  {
    seq(|targets|, i requires 0 <= i < |targets| => targets[i].configId)
  }

  // -------------------------------------------------------------- idempotence

  lemma {:induction false} Aligned(apps: seq<Application>, targets: seq<TargetApp>)
    requires StrictByName(AppRef, apps) && StrictByName(TargetRef, targets) && Paired(apps, targets)
    ensures |apps| == |targets| && forall k | 0 <= k < |apps| :: Matches(apps[k], targets[k])
    decreases |apps|
  {
    PairedEmpty(apps, targets);
    if apps != [] {
      LastAligned(apps, targets);
      var n, m := |apps| - 1, |targets| - 1;
      StrictPrefix(AppRef, apps);
      StrictPrefix(TargetRef, targets);
      PairedPrefix(apps, targets);
      Aligned(apps[..n], targets[..m]);
    }
  }

  lemma PairedEmpty(apps: seq<Application>, targets: seq<TargetApp>)
    requires Paired(apps, targets)
    ensures targets != [] ==> apps != []
  {
    if targets != [] {
      assert Served(targets[0], apps);
    }
  }

  lemma StrictPrefix<T>(ref: T -> string, s: seq<T>)
    requires s != [] && StrictByName(ref, s)
    ensures StrictByName(ref, s[..|s| - 1])
  {
  }

  lemma LastAligned(apps: seq<Application>, targets: seq<TargetApp>)
    requires StrictByName(AppRef, apps) && StrictByName(TargetRef, targets)
    requires apps != [] && Paired(apps, targets)
    ensures targets != [] && Matches(apps[|apps| - 1], targets[|targets| - 1])
  {
    var a := apps[|apps| - 1];
    assert Wanted(a, targets);
    var t :| t in targets && Matches(a, t);
    var l :| 0 <= l < |targets| && targets[l] == t;
    var u := targets[|targets| - 1];
    assert Served(u, apps);
    var x :| x in apps && Matches(x, u);
    var k :| 0 <= k < |apps| && apps[k] == x;
    if l < |targets| - 1 {
      assert Less(Strip(TargetRef(targets[l])), Strip(TargetRef(u)));
      assert k < |apps| - 1 ==> Less(Strip(AppRef(apps[k])), Strip(AppRef(a)));
      LessTrichotomy(Strip(t.reference), Strip(u.reference));
    }
  }

  lemma PairedPrefix(apps: seq<Application>, targets: seq<TargetApp>)
    requires StrictByName(AppRef, apps) && StrictByName(TargetRef, targets)
    requires apps != [] && targets != [] && Paired(apps, targets)
    requires Matches(apps[|apps| - 1], targets[|targets| - 1])
    ensures Paired(apps[..|apps| - 1], targets[..|targets| - 1])
  {
    StrictIsDistinct(apps, targets);
    var n, m := |apps| - 1, |targets| - 1;
    forall x | x in apps[..n]
      ensures Wanted(x, targets[..m])
    {
      var k :| 0 <= k < n && apps[k] == x;
      assert Wanted(x, targets);
      var t :| t in targets && Matches(x, t);
      var l :| 0 <= l < |targets| && targets[l] == t;
      assert l != m;
      assert targets[..m][l] == t;
    }
    forall t | t in targets[..m]
      ensures Served(t, apps[..n])
    {
      var l :| 0 <= l < m && targets[l] == t;
      assert Served(t, apps);
      var x :| x in apps && Matches(x, t);
      var k :| 0 <= k < |apps| && apps[k] == x;
      assert k != n;
      assert apps[..n][k] == x;
    }
  }

  /**
    A cycle right after a finished one, with the same targets, plans no action:
    it finishes whatever would have failed, and touches no application.
   */
  lemma SecondCycleIsIdle(d: Device, targets: seq<TargetApp>, outcome: nat -> Outcome)
    requires Ready(d) && Mergeable(TargetRef, targets) && Converged(targets, d.apps)
    ensures Planned(d, targets) == []
    ensures Cycle(d, targets, outcome) == (Arranged(d), Finished)
  {
    var apps := Arranged(d).apps;
    var ts := Sort(ByReference(TargetRef), targets);
    SortBridge(AppRef, d.apps);
    SortBridge(TargetRef, targets);
    Members(apps, d.apps);
    Members(ts, targets);
    PairedByMembers(d.apps, targets, ts);
    PairedMembers(ts, d.apps, apps);
    ServedByMembers(ts, d.apps, apps);
    Aligned(apps, ts);
    NothingToDo(apps, ts);
  }

  /** Every application carries the full reference of a target it matches. */
  ghost predicate CarryReferences(apps: seq<Application>, targets: seq<TargetApp>) {
    forall x | x in apps :: exists t :: t in targets && Matches(x, t) && x.reference == t.reference
  }

  /**
    The same holds whatever the references, even if they clash, when every
    application carries its target's full reference: then both lists sort alike.
   */
  lemma SameReferencesAreIdle(d: Device, targets: seq<TargetApp>, outcome: nat -> Outcome)
    requires DistinctTargets(targets) && Converged(targets, d.apps) && CarryReferences(d.apps, targets)
    ensures Planned(d, targets) == []
    ensures Cycle(d, targets, outcome) == (Arranged(d), Finished)
  {
    var apps, ts := Arranged(d).apps, Sort(ByReference(TargetRef), targets);
    SortAlike(d.apps, targets);
    forall k | 0 <= k < |apps|
      ensures Matches(apps[k], ts[k])
    {
      InArrangement(d.apps, targets, k);
      SameReferenceMatches(targets, apps[k], ts[k]);
    }
    NothingToDo(apps, ts);
  }

  lemma SortAlike(apps: seq<Application>, targets: seq<TargetApp>)
    requires DistinctTargets(targets) && Converged(targets, apps) && CarryReferences(apps, targets)
    ensures var r, ts := Sort(ByReference(AppRef), apps), Sort(ByReference(TargetRef), targets);
      |r| == |ts| && forall k | 0 <= k < |r| :: r[k].reference == ts[k].reference
  {
    var r, ts := Sort(ByReference(AppRef), apps), Sort(ByReference(TargetRef), targets);
    CarriedBothWays(apps, targets);
    ReferencesAscend(AppRef, apps);
    ReferencesAscend(TargetRef, targets);
    Members(r, apps);
    Members(ts, targets);
    SameCarried(r, apps);
    SameTargeted(ts, targets);
    SortedAlike(r, ts);
  }

  lemma SameCarried(r: seq<Application>, apps: seq<Application>)
    requires forall x :: x in r <==> x in apps
    ensures forall ref :: Carried(ref, r) <==> Carried(ref, apps)
  {
  }

  lemma SameTargeted(ts: seq<TargetApp>, targets: seq<TargetApp>)
    requires forall t :: t in ts <==> t in targets
    ensures forall ref :: Targeted(ref, ts) <==> Targeted(ref, targets)
  {
  }

  lemma InArrangement(apps: seq<Application>, targets: seq<TargetApp>, k: nat)
    requires k < |apps| && k < |targets|
    ensures Sort(ByReference(AppRef), apps)[k] in apps && Sort(ByReference(TargetRef), targets)[k] in targets
  {
    Members(Sort(ByReference(AppRef), apps), apps);
    Members(Sort(ByReference(TargetRef), targets), targets);
  }

  lemma SameReferenceMatches(targets: seq<TargetApp>, x: Application, t: TargetApp)
    requires DistinctTargets(targets) && t in targets && x.reference == t.reference
    requires exists u :: u in targets && Matches(x, u) && x.reference == u.reference
    ensures Matches(x, t)
  {
    var u :| u in targets && Matches(x, u) && x.reference == u.reference;
    SameNameSameTarget(targets, t, u);
  }

  lemma SortedAlike(apps: seq<Application>, ts: seq<TargetApp>)
    requires Ascending(RefsOf(AppRef, apps)) && Ascending(RefsOf(TargetRef, ts))
    requires forall r :: Carried(r, apps) <==> Targeted(r, ts)
    ensures |apps| == |ts| && forall k | 0 <= k < |apps| :: apps[k].reference == ts[k].reference
  {
    var a, b := RefsOf(AppRef, apps), RefsOf(TargetRef, ts);
    forall r
      ensures r in a <==> r in b
    {
      SameReferenceMembers(r, apps, ts);
    }
    AscendingSame(a, b);
    forall k | 0 <= k < |apps|
      ensures apps[k].reference == ts[k].reference
    {
      assert a[k] == AppRef(apps[k]) && b[k] == TargetRef(ts[k]);
    }
  }

  function RefsOf<T>(ref: T -> string, s: seq<T>): (r: seq<string>)
    ensures |r| == |s| && forall k | 0 <= k < |s| :: r[k] == ref(s[k])
  {
    seq(|s|, k requires 0 <= k < |s| => ref(s[k]))
  }

  predicate Ascending(s: seq<string>) {
    forall i, j | 0 <= i < j < |s| :: Less(s[i], s[j])
  }

  lemma ReferencesAscend<T(!new)>(ref: T -> string, s: seq<T>)
    requires DistinctBy(Name(ref), s)
    ensures Ascending(RefsOf(ref, Sort(ByReference(ref), s)))
  {
    var r := Sort(ByReference(ref), s);
    ByReferenceIsTotal(ref);
    SortSorts(ByReference(ref), s);
    SortDistinct(ByReference(ref), Name(ref), s);
    forall i, j | 0 <= i < j < |r|
      ensures Less(ref(r[i]), ref(r[j]))
    {
      assert ByReference(ref)(r[i], r[j]) && Name(ref)(r[i]) != Name(ref)(r[j]);
      LessTrichotomy(ref(r[i]), ref(r[j]));
    }
  }

  lemma {:induction false} AscendingSame(a: seq<string>, b: seq<string>)
    requires Ascending(a) && Ascending(b) && forall r :: r in a <==> r in b
    ensures a == b
    decreases |a|
  {
    if a == [] {
      assert forall k | 0 <= k < |b| :: b[k] in b;
    } else {
      var n, m := |a| - 1, |b| - 1;
      assert a[n] in b;
      LastIsLargest(a, b);
      LastIsLargest(b, a);
      LessTrichotomy(a[n], b[m]);
      forall r
        ensures r in a[..n] <==> r in b[..m]
      {
        InInit(a, r);
        InInit(b, r);
      }
      AscendingSame(a[..n], b[..m]);
      assert a == a[..n] + [a[n]] && b == b[..m] + [b[m]];
    }
  }

  lemma LastIsLargest(a: seq<string>, b: seq<string>)
    requires a != [] && b != [] && Ascending(b) && a[|a| - 1] in b
    ensures !Less(b[|b| - 1], a[|a| - 1])
  {
    var k :| 0 <= k < |b| && b[k] == a[|a| - 1];
    LessTrichotomy(b[k], b[|b| - 1]);
  }

  lemma InInit(a: seq<string>, r: string)
    requires a != [] && Ascending(a)
    ensures r in a[..|a| - 1] <==> r in a && r != a[|a| - 1]
  {
    var n := |a| - 1;
    assert a == a[..n] + [a[n]];
    if r in a[..n] {
      var k :| 0 <= k < n && a[..n][k] == r;
      LessTrichotomy(a[k], a[n]);
    }
  }

  /** Whether or not names clash: each old match that a cycle keeps decides its target's full reference. */
  lemma KeptDecideReferences(d: Device, targets: seq<TargetApp>, outcome: nat -> Outcome)
    requires DistinctTargets(targets) && Cycle(d, targets, outcome).1 == Finished
    ensures (forall t | t in targets :: RunsExactly(t, Cycle(d, targets, outcome).0.apps)) <==>
      SameTags(d.apps, targets, Cycle(d, targets, outcome).0.apps)
  {
    var d' := Cycle(d, targets, outcome).0;
    EveryCycleConverges(d, targets, outcome);
    if forall t | t in targets :: RunsExactly(t, d'.apps) {
      forall a, t | a in d.apps && a in d'.apps && t in targets && Matches(a, t)
        ensures a.reference == t.reference
      {
        assert RunsExactly(t, d'.apps);
        var x :| x in d'.apps && Matches(x, t) && x.reference == t.reference;
        SameNameSameApp(d'.apps, x, a);
      }
    }
    if SameTags(d.apps, targets, d'.apps) {
      forall t | t in targets
        ensures RunsExactly(t, d'.apps)
      {
        assert Served(t, d'.apps);
        var x :| x in d'.apps && Matches(x, t);
        if x !in d.apps {
          var u :| u in targets && LaunchedFor(x, u);
          SameNameSameTarget(targets, t, u);
        }
      }
    }
  }

  /**
    An unchanged application keeps the reference it was launched with, so a
    finished cycle leaves every target's full reference running exactly when no
    old application it kept matches a target under another tag. Without clashes
    it keeps every match, so that can be seen before the cycle.
   */
  lemma FullReferenceUpToDate(d: Device, targets: seq<TargetApp>, outcome: nat -> Outcome)
    requires DistinctTargets(targets) && Cycle(d, targets, outcome).1 == Finished
    ensures var after := Cycle(d, targets, outcome).0.apps;
      var upToDate := forall t | t in targets :: RunsExactly(t, after);
      && (upToDate <==> SameTags(d.apps, targets, after))
      && (SameTags(d.apps, targets, d.apps) ==> upToDate)
      && (Ready(d) && Mergeable(TargetRef, targets) ==> (upToDate <==> SameTags(d.apps, targets, d.apps)))
  {
    var d' := Cycle(d, targets, outcome).0;
    KeptDecideReferences(d, targets, outcome);
    if Ready(d) && Mergeable(TargetRef, targets) {
      CycleConverges(d, targets, outcome);
      Members(Arranged(d).apps, d.apps);
      forall a, t | a in d.apps && t in targets && Matches(a, t)
        ensures a in d'.apps
      {
        assert Wanted(a, targets);
      }
    }
  }

  /** Those of `apps` that are among `kept` match targets under the targets' own full references only. */
  ghost predicate SameTags(apps: seq<Application>, targets: seq<TargetApp>, kept: seq<Application>) {
    forall a, t | a in apps && a in kept && t in targets && Matches(a, t) :: a.reference == t.reference
  }

  ghost predicate RunsExactly(t: TargetApp, apps: seq<Application>) {
    exists x :: x in apps && Matches(x, t) && x.reference == t.reference
  }

  lemma CarriedBothWays(apps: seq<Application>, targets: seq<TargetApp>)
    requires DistinctTargets(targets) && Converged(targets, apps) && CarryReferences(apps, targets)
    ensures DistinctBy(Name(AppRef), apps) && DistinctBy(Name(TargetRef), targets)
    ensures forall r :: Carried(r, apps) <==> Targeted(r, targets)
  {
    DistinctNames(apps, targets);
    forall t | t in targets
      ensures Carried(t.reference, apps)
    {
      assert Served(t, apps);
      var x :| x in apps && Matches(x, t);
      var u :| u in targets && Matches(x, u) && x.reference == u.reference;
      SameNameSameTarget(targets, t, u);
    }
  }

  /** Some application, or some target, has this full reference. */
  ghost predicate Carried(r: string, apps: seq<Application>) {
    exists x :: x in apps && x.reference == r
  }

  ghost predicate Targeted(r: string, targets: seq<TargetApp>) {
    exists t :: t in targets && t.reference == r
  }

  lemma DistinctNames(apps: seq<Application>, targets: seq<TargetApp>)
    ensures DistinctApps(apps) ==> DistinctBy(Name(AppRef), apps)
    ensures DistinctTargets(targets) ==> DistinctBy(Name(TargetRef), targets)
  {
    if DistinctApps(apps) {
      forall i, j | 0 <= i < j < |apps|
        ensures Name(AppRef)(apps[i]) != Name(AppRef)(apps[j])
      {
        assert Name(AppRef)(apps[i]) == Strip(AppRef(apps[i]));
        assert Name(AppRef)(apps[j]) == Strip(AppRef(apps[j]));
      }
    }
    if DistinctTargets(targets) {
      forall i, j | 0 <= i < j < |targets|
        ensures Name(TargetRef)(targets[i]) != Name(TargetRef)(targets[j])
      {
        assert Name(TargetRef)(targets[i]) == Strip(TargetRef(targets[i]));
        assert Name(TargetRef)(targets[j]) == Strip(TargetRef(targets[j]));
      }
    }
  }

  lemma SameReferenceMembers(r: string, apps: seq<Application>, ts: seq<TargetApp>)
    requires Carried(r, apps) <==> Targeted(r, ts)
    ensures r in RefsOf(AppRef, apps) <==> r in RefsOf(TargetRef, ts)
  {
    ReferenceIn(AppRef, apps, r);
    ReferenceIn(TargetRef, ts, r);
    if Carried(r, apps) {
      var x :| x in apps && x.reference == r;
      var k :| 0 <= k < |apps| && apps[k] == x;
      assert AppRef(apps[k]) == r;
    }
    if Targeted(r, ts) {
      var t :| t in ts && t.reference == r;
      var k :| 0 <= k < |ts| && ts[k] == t;
      assert TargetRef(ts[k]) == r;
    }
  }

  lemma ReferenceIn<T>(ref: T -> string, s: seq<T>, r: string)
    ensures r in RefsOf(ref, s) <==> exists k :: 0 <= k < |s| && ref(s[k]) == r
  {
  }

  lemma SameNameSameApp(apps: seq<Application>, x: Application, y: Application)
    requires DistinctApps(apps) && x in apps && y in apps && Strip(x.reference) == Strip(y.reference)
    ensures x == y
  {
  }

  lemma SameNameSameTarget(targets: seq<TargetApp>, x: TargetApp, y: TargetApp)
    requires DistinctTargets(targets) && x in targets && y in targets && Strip(x.reference) == Strip(y.reference)
    ensures x == y
  {
  }

  // --------------------------------------------------------------- whole runs

  /** What one poll of the loop meets: the fetched targets and the fate of each action. */
  datatype Poll = Poll(fetched: Option<seq<TargetApp>>, outcome: nat -> Outcome)

  /** The device after a run of polls, or nothing if some cycle panicked. */
  function Run(d: Device, polls: seq<Poll>): Option<Device>
    decreases |polls|
  {
    if polls == [] then Some(d) else
    var p := polls[0];
    if p.fetched.None? then Run(d, polls[1..]) else
    var (d', s) := Cycle(d, p.fetched.value, p.outcome);
    if s == Panicked then None else Run(d', polls[1..])
  }

  /** References that may be used together: none clashes with another. */
  ghost predicate ClashFree(pool: set<string>) {
    forall a, b | a in pool && b in pool :: !Clash(a, b)
  }

  ghost predicate TargetsFrom(pool: set<string>, targets: seq<TargetApp>) {
    DistinctTargets(targets) && forall t | t in targets :: t.reference in pool
  }

  ghost predicate DeviceFrom(pool: set<string>, d: Device) {
    DistinctApps(d.apps) && ContainersOk(d) && forall x | x in d.apps :: x.reference in pool
  }

  ghost predicate PollsFrom(pool: set<string>, polls: seq<Poll>) {
    forall p | p in polls && p.fetched.Some? :: TargetsFrom(pool, p.fetched.value)
  }

  lemma PoolIsMergeable(pool: set<string>, d: Device, targets: seq<TargetApp>)
    ensures ClashFree(pool) && DeviceFrom(pool, d) ==> Ready(d)
    ensures ClashFree(pool) && TargetsFrom(pool, targets) ==> Mergeable(TargetRef, targets)
  {
    DistinctNames(d.apps, targets);
  }

  /** A cycle, finished or failed, leaves a device the next cycle can start from. */
  lemma CycleKeepsPool(pool: set<string>, d: Device, targets: seq<TargetApp>, outcome: nat -> Outcome)
    requires ClashFree(pool) && DeviceFrom(pool, d) && TargetsFrom(pool, targets)
    ensures var (d', s) := Cycle(d, targets, outcome); s != Panicked && DeviceFrom(pool, d')
  {
    PoolIsMergeable(pool, d, targets);
    CycleConverges(d, targets, outcome);
    Members(Arranged(d).apps, d.apps);
  }

  /**
    Over any run of polls, whatever fails and wherever and whatever the references,
    no cycle goes out of bounds. If the references come from a pool without
    clashes, the device moreover stays one from which the next cycle can start
    with strictly ordered lists, so that the debug assertions hold too.
   */
  lemma {:induction false} RunIsSafe(pool: set<string>, d: Device, polls: seq<Poll>)
    ensures Run(d, polls).Some?
    ensures Pooled(pool, d, polls) ==> DeviceFrom(pool, Run(d, polls).value)
    decreases |polls|
  {
    if polls != [] {
      var p := polls[0];
      assert p in polls;
      var next := if p.fetched.None? then d else Cycle(d, p.fetched.value, p.outcome).0;
      PollKeepsPool(pool, d, polls);
      if p.fetched.Some? {
        EveryCycleConverges(d, p.fetched.value, p.outcome);
      }
      RunIsSafe(pool, next, polls[1..]);
    }
  }

  ghost predicate Pooled(pool: set<string>, d: Device, polls: seq<Poll>) {
    ClashFree(pool) && DeviceFrom(pool, d) && PollsFrom(pool, polls)
  }

  lemma PollKeepsPool(pool: set<string>, d: Device, polls: seq<Poll>)
    requires polls != []
    ensures Pooled(pool, d, polls) ==>
      var p := polls[0];
      Pooled(pool, if p.fetched.None? then d else Cycle(d, p.fetched.value, p.outcome).0, polls[1..])
  {
    var p := polls[0];
    assert p in polls && forall q | q in polls[1..] :: q in polls;
    if Pooled(pool, d, polls) && p.fetched.Some? {
      CycleKeepsPool(pool, d, p.fetched.value, p.outcome);
    }
  }

  /** A tick of the main loop: the flag it finds, and what a cycle would meet. */
  datatype Tick = Tick(frozen: bool, poll: Poll, reportOk: bool, pruneOk: bool)

  /** The polls of the ticks that found the flag down. */
  function Unfrozen(ticks: seq<Tick>): seq<Poll> {
    if ticks == [] then [] else (if ticks[0].frozen then [] else [ticks[0].poll]) + Unfrozen(ticks[1..])
  }

  /** The ticks contribute one by one, in order; each its poll if and only if it finds the flag down. */
  lemma {:induction false} UnfrozenInOrder(before: seq<Tick>, t: Tick, after: seq<Tick>)
    ensures Unfrozen(before + [t] + after) ==
      Unfrozen(before) + (if t.frozen then [] else [t.poll]) + Unfrozen(after)
    decreases |before|
  {
    if before == [] {
      assert before + [t] + after == [t] + after && ([t] + after)[1..] == after;
    } else {
      assert (before + [t] + after)[0] == before[0] && (before + [t] + after)[1..] == before[1..] + [t] + after;
      UnfrozenInOrder(before[1..], t, after);
    }
  }

  /**
    The main loop. A frozen tick does nothing and an error is only logged, so
    the loop is a run from whatever device it starts with. A build with debug
    assertions needs references that do not clash.
   */
  method RunAppsMainLoop(loop: AppLoop, ticks: seq<Tick>, ghost pool: set<string>)
    requires loop.debugAssertions ==> Pooled(pool, loop.State(), Unfrozen(ticks))
    modifies loop
    ensures Run(old(loop.State()), Unfrozen(ticks)) == Some(loop.State())
    ensures Pooled(pool, old(loop.State()), Unfrozen(ticks)) ==> DeviceFrom(pool, loop.State())
  {
    var n := 0;
    assert ticks[0..] == ticks;
    RunIsSafe(pool, loop.State(), Unfrozen(ticks));
    while n < |ticks|
      invariant n <= |ticks|
      invariant loop.debugAssertions ==> Pooled(pool, loop.State(), Unfrozen(ticks[n..]))
      invariant Run(loop.State(), Unfrozen(ticks[n..])) == Run(old(loop.State()), Unfrozen(ticks))
    {
      var t := ticks[n];
      assert ticks[n..][0] == t && ticks[n..][1..] == ticks[n + 1..];
      ghost var rest := Unfrozen(ticks[n + 1..]);
      if !t.frozen {
        UnfrozenCons(ticks[n..]);
        PollKeepsPool(pool, loop.State(), [t.poll] + rest);
        if t.poll.fetched.Some? {
          PoolIsMergeable(pool, loop.State(), t.poll.fetched.value);
          EveryCycleConverges(loop.State(), t.poll.fetched.value, t.poll.outcome);
        }
        assert t.poll in [t.poll] + rest;
        var ok, reported := loop.TryUpdate(t.poll.fetched, t.poll.outcome, t.reportOk, t.pruneOk);
      } else {
        assert Unfrozen(ticks[n..]) == rest;
      }
      n := n + 1;
    }
  }

  lemma UnfrozenCons(ticks: seq<Tick>)
    requires ticks != [] && !ticks[0].frozen
    ensures Unfrozen(ticks) == [ticks[0].poll] + Unfrozen(ticks[1..])
    ensures ([ticks[0].poll] + Unfrozen(ticks[1..]))[1..] == Unfrozen(ticks[1..])
  {
  }

  /**
    Recovery: whatever happened in earlier polls, the next cycle that finishes
    leaves one application for each target, and converges if the target names are
    distinct. If the references come from a pool without clashes, the cycle after
    it, with the same targets, does nothing.
   */
  lemma RunRecovers(pool: set<string>, d: Device, polls: seq<Poll>, targets: seq<TargetApp>,
                    outcome: nat -> Outcome, next: nat -> Outcome)
    ensures Run(d, polls).Some?
    ensures var (d', s) := Cycle(Run(d, polls).value, targets, outcome);
      && s != Panicked
      && (s == Finished ==> OneEach(targets, d'.apps))
      && (s == Finished && DistinctTargets(targets) ==> Converged(targets, d'.apps))
      && (s == Finished && Pooled(pool, d, polls) && TargetsFrom(pool, targets) ==>
            Cycle(d', targets, next) == (Arranged(d'), Finished))
  {
    RunIsSafe(pool, d, polls);
    var mid := Run(d, polls).value;
    EveryCycleConverges(mid, targets, outcome);
    var (d', s) := Cycle(mid, targets, outcome);
    if s == Finished && Pooled(pool, d, polls) && TargetsFrom(pool, targets) {
      PoolIsMergeable(pool, mid, targets);
      CycleConverges(mid, targets, outcome);
      CycleKeepsPool(pool, mid, targets, outcome);
      PoolIsMergeable(pool, d', targets);
      SecondCycleIsIdle(d', targets, next);
    }
  }

  /**
    Why the condition matters: with two targets of different names in sorted
    order, the merge tears down and relaunches an application that already
    matches the first one if and only if their references clash.
   */
  lemma ClashRestartsUnchanged(app: Application, kept: TargetApp, other: TargetApp)
    requires Sorted(ByReference(TargetRef), [kept, other]) && Strip(kept.reference) != Strip(other.reference)
    requires Matches(app, kept)
    ensures Actions([app], [kept, other]) ==
      if Clash(other.reference, kept.reference) then [Remove(0), Create(other), Create(kept)] else [Create(other)]
  {
    NamesBackwardsIff(kept, other);
    LessTrichotomy(Strip(other.reference), Strip(kept.reference));
    if Clash(other.reference, kept.reference) {
      BackwardsPair(app, kept, other);
    } else {
      ForwardsPair(app, kept, other);
    }
  }

  lemma BackwardsPair(app: Application, kept: TargetApp, other: TargetApp)
    requires Less(Strip(other.reference), Strip(kept.reference)) && Matches(app, kept)
    ensures Actions([app], [kept, other]) == [Remove(0), Create(other), Create(kept)]
  {
    var targets := [kept, other];
    LessTrichotomy(Strip(other.reference), Strip(kept.reference));
    assert [app][..1] == [app] && [app][..0] == [] && targets[..2] == targets;
    ActionsUnfold([app], targets, 1, 2);
    ActionsUnfold([app], targets, 0, 2);
    ActionsUnfold([app], targets, 0, 1);
    ActionsUnfold([app], targets, 0, 0);
  }

  lemma ForwardsPair(app: Application, kept: TargetApp, other: TargetApp)
    requires Less(Strip(kept.reference), Strip(other.reference)) && Matches(app, kept)
    ensures Actions([app], [kept, other]) == [Create(other)]
  {
    var targets := [kept, other];
    assert [app][..1] == [app] && targets[..2] == targets && targets[..1] == [kept];
    ActionsUnfold([app], targets, 1, 2);
    NothingToDo([app], [kept]);
  }

  lemma NamesBackwardsIff(kept: TargetApp, other: TargetApp)
    requires Sorted(ByReference(TargetRef), [kept, other]) && Strip(kept.reference) != Strip(other.reference)
    ensures Less(Strip(other.reference), Strip(kept.reference)) <==> Clash(other.reference, kept.reference)
  {
    assert TargetRef(kept) == kept.reference && TargetRef(other) == other.reference;
    assert ByReference(TargetRef)([kept, other][0], [kept, other][1]);
    assert !Less(other.reference, kept.reference);
    PairOrder(other.reference, kept.reference);
    if Clash(other.reference, kept.reference) {
      ClashSortsBackwards(other.reference, kept.reference);
    }
    if Clash(kept.reference, other.reference) {
      ClashSortsBackwards(kept.reference, other.reference);
    }
    LessTrichotomy(other.reference, kept.reference);
    LessTrichotomy(Strip(other.reference), Strip(kept.reference));
  }

  // ------------------------------------------------ when matches are left alone

  /** No cycle over references of the pool, however its calls end, touches an application that matches a target. */
  ghost predicate MatchesAreSafe(pool: set<string>) {
    forall d, targets, outcome | DeviceFrom(pool, d) && TargetsFrom(pool, targets) ::
      KeepsMatching(Arranged(d), targets, Cycle(d, targets, outcome).0)
  }

  /**
    Exactly when no matching application is touched on the way: for any pool of
    references, in every cycle of every device and target list drawn from it, if
    and only if no two of its references clash.
   */
  lemma MatchesAreSafeIff(pool: set<string>)
    ensures MatchesAreSafe(pool) <==> ClashFree(pool)
  {
    if ClashFree(pool) {
      forall d, targets, outcome | DeviceFrom(pool, d) && TargetsFrom(pool, targets)
        ensures KeepsMatching(Arranged(d), targets, Cycle(d, targets, outcome).0)
      {
        PoolIsMergeable(pool, d, targets);
        CycleConverges(d, targets, outcome);
      }
    } else {
      var a, b :| a in pool && b in pool && Clash(a, b);
      ClashUnsafe(pool, a, b);
    }
  }

  lemma ClashUnsafe(pool: set<string>, a: string, b: string)
    requires a in pool && b in pool && Clash(a, b)
    ensures !MatchesAreSafe(pool)
  {
    var kept, other := TargetApp(b, "", "", None, 0, 0), TargetApp(a, "", "", None, 0, 1);
    var outcome := (k: nat) => Outcome(true, true);
    ClashInOrder(kept, other);
    ClashTouchesMatch(kept, other, outcome);
    MatchIsLost(kept, other, Cycle(Device([Started(kept, 0)], 1, []), [kept, other], outcome).0);
    assert DeviceFrom(pool, Device([Started(kept, 0)], 1, []));
    assert TargetsFrom(pool, [kept, other]);
  }

  lemma MatchIsLost(kept: TargetApp, other: TargetApp, after: Device)
    requires after.apps == [Started(other, 1), Started(kept, 2)]
    ensures !KeepsMatching(Device([Started(kept, 0)], 1, []), [kept, other], after)
  {
    var app := Started(kept, 0);
    assert app == [app][0] && kept == [kept, other][0] && Matches(app, kept);
    assert Wanted(app, [kept, other]);
    assert app !in after.apps;
  }

  /** A device that runs just what the first of two clashing targets asks for comes out with another container. */
  lemma ClashTouchesMatch(kept: TargetApp, other: TargetApp, outcome: nat -> Outcome)
    requires Clash(other.reference, kept.reference) && forall k :: outcome(k) == Outcome(true, true)
    ensures var d := Device([Started(kept, 0)], 1, []);
      && Arranged(d) == d
      && Cycle(d, [kept, other], outcome).0.apps == [Started(other, 1), Started(kept, 2)]
  {
    var d, targets := Device([Started(kept, 0)], 1, []), [kept, other];
    ClashInOrder(kept, other);
    SortOfSorted(ByReference(TargetRef), targets);
    SortOfSorted(ByReference(AppRef), d.apps);
    ClashRestartsUnchanged(d.apps[0], kept, other);
    ThreeActions(d, kept, other, outcome);
  }

  lemma ClashInOrder(kept: TargetApp, other: TargetApp)
    requires Clash(other.reference, kept.reference)
    ensures Sorted(ByReference(TargetRef), [kept, other]) && Strip(kept.reference) != Strip(other.reference)
  {
    ClashSortsBackwards(other.reference, kept.reference);
    LessTrichotomy(other.reference, kept.reference);
    assert TargetRef(kept) == kept.reference && TargetRef(other) == other.reference;
    assert ByReference(TargetRef)(kept, other);
  }

  lemma ThreeActions(d: Device, kept: TargetApp, other: TargetApp, outcome: nat -> Outcome)
    requires |d.apps| == 1 && d.nextContainer == 1 && forall k :: outcome(k) == Outcome(true, true)
    ensures Execute(d, [Remove(0), Create(other), Create(kept)], outcome, 0).0.apps ==
      [Started(other, 1), Started(kept, 2)]
  {
    var d1 := Release(d, 0);
    assert d1.apps == [];
    assert [Remove(0), Create(other), Create(kept)] == [Remove(0)] + [Create(other), Create(kept)];
    ExecuteCons(d, Remove(0), [Create(other), Create(kept)], outcome, 0);
    assert [Create(other), Create(kept)] == [Create(other)] + [Create(kept)];
    ExecuteCons(d1, Create(other), [Create(kept)], outcome, 1);
    assert [Create(kept)] == [Create(kept)] + [];
    ExecuteCons(Launch(d1, other), Create(kept), [], outcome, 2);
  }
}
