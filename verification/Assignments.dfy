/**
  Effective-assignment resolution for one device
  (api-server/src/api_v1/db/application_assignments.rs, os_assignments.rs and
  routes/device/apps.rs): sort, filter through a set of seen applications, page,
  and look the configs up. Only the device or the group of a row is set.
 */
module Assignments {
  import opened Options
  import opened Sorting
  import opened VersionedTable

  /** An assignment; its `scope` is the application config it assigns. */
  type Assignment = Row<()>

  /** An application config; its `scope` is the application. */
  type Config = Row<string>

  predicate AppliesTo<P>(r: Row<P>, device: int, group: Option<int>) {
    r.device == Some(device) || (group.Some? && r.group == group)
  }

  predicate Candidate<P>(r: Row<P>, device: int, group: Option<int>) {
    Active(r) && AppliesTo(r, device, group)
  }

  /** `ORDER BY device_id DESC, id ASC`; where NULLs sort is up to the database. */
  predicate Before<P>(nullsFirst: bool, a: Row<P>, b: Row<P>) {
    if a.device == b.device then a.id <= b.id
    else if a.device.Some? && b.device.Some? then a.device.value > b.device.value
    else nullsFirst == a.device.None?
  }

  function ByPrecedence<P>(nullsFirst: bool): (Row<P>, Row<P>) -> bool {
    (a: Row<P>, b: Row<P>) => Before(nullsFirst, a, b)
  }

  lemma PrecedenceIsTotal<P(!new)>(nullsFirst: bool)
    ensures TotalPreorder(ByPrecedence<P>(nullsFirst))
  {
  }

  function Candidates<P(!new)>(rows: seq<Row<P>>, device: int, group: Option<int>): (r: seq<Row<P>>)
    ensures forall x :: x in r <==> x in rows && Candidate(x, device, group)
    decreases |rows|
  {
    if rows == [] then []
    else
      var n := |rows| - 1;
      assert rows == rows[..n] + [rows[n]];
      Candidates(rows[..n], device, group) + (if Candidate(rows[n], device, group) then [rows[n]] else [])
  }

  /** The candidates in the order the query yields them. */
  function Ranked<P(!new)>(rows: seq<Row<P>>, device: int, group: Option<int>, nullsFirst: bool): seq<Row<P>> {
    Sort(ByPrecedence<P>(nullsFirst), Candidates(rows, device, group))
  }

  lemma RankedMembers<P(!new)>(rows: seq<Row<P>>, device: int, group: Option<int>, nullsFirst: bool)
    ensures forall x :: x in Ranked(rows, device, group, nullsFirst) <==> x in rows && Candidate(x, device, group)
    ensures Sorted(ByPrecedence<P>(nullsFirst), Ranked(rows, device, group, nullsFirst))
  {
    PrecedenceIsTotal<P>(nullsFirst);
    SortSorts(ByPrecedence<P>(nullsFirst), Candidates(rows, device, group));
    var ranked, candidates := Ranked(rows, device, group, nullsFirst), Candidates(rows, device, group);
    forall x: Row<P>
      ensures x in ranked <==> x in rows && Candidate(x, device, group)
    {
      assert x in ranked <==> x in multiset(ranked);
      assert x in candidates <==> x in multiset(candidates);
    }
  }

  // ---------------------------------------------------------------- precedence

  /** The row for the device itself beats a row for its group; among equals the older row wins. */
  predicate Beats<P>(a: Row<P>, b: Row<P>) {
    if a.device.Some? == b.device.Some? then a.id <= b.id else a.device.Some?
  }

  /** The same with device and group exchanged. */
  predicate BeatsGroupFirst<P>(a: Row<P>, b: Row<P>) {
    if a.device.Some? == b.device.Some? then a.id <= b.id else b.device.Some?
  }

  /** Among the candidates of one device, query order is precedence; which precedence depends on the NULLs. */
  lemma OrderIsPrecedence<P>(a: Row<P>, b: Row<P>, device: int, group: Option<int>, nullsFirst: bool)
    requires Candidate(a, device, group) && Candidate(b, device, group)
    requires Exclusive(a.device, a.group) && Exclusive(b.device, b.group)
    ensures Before(nullsFirst, a, b) <==> if nullsFirst then BeatsGroupFirst(a, b) else Beats(a, b)
  {
  }

  /**
    Why only one of device and group may be set: a group row that also names
    another device sorts ahead of the device's own row if and only if that
    device's id is larger.
   */
  lemma RowWithBothOutranks<P>(own: Row<P>, other: Row<P>, device: int, group: Option<int>, nullsFirst: bool)
    requires Candidate(own, device, group) && own.device == Some(device)
    requires Candidate(other, device, group) && other.device.Some? && other.device != Some(device)
    ensures other.group == group
    ensures Before(nullsFirst, other, own) && !Before(nullsFirst, own, other) <==> other.device.value > device
  {
  }

  // --------------------------------------------------------------- deduplication

  /** The application an assignment resolves to, if its config is active. */
  function AppOf(configs: seq<Config>, m: Assignment): Option<int> {
    match FindActive(configs, m.scope)
    case None => None
    case Some(k) => Some(configs[k].scope)
  }

  /** Rows whose application was not seen before, first come first kept. */
  function Dedup(ranked: seq<Assignment>, configs: seq<Config>): seq<Assignment>
    decreases |ranked|
  {
    if ranked == [] then []
    else
      var n := |ranked| - 1;
      var kept := Dedup(ranked[..n], configs);
      if AppOf(configs, ranked[n]).Some? && AppOf(configs, ranked[n]) !in AppsOf(ranked[..n], configs)
      then kept + [ranked[n]] else kept
  }

  function AppsOf(rows: seq<Assignment>, configs: seq<Config>): set<Option<int>> {
    set m | m in rows :: AppOf(configs, m)
  }

  /** The first row of `ranked` for its application. */
  ghost predicate FirstOfApp(ranked: seq<Assignment>, configs: seq<Config>, i: nat)
    requires i < |ranked|
  {
    AppOf(configs, ranked[i]).Some? && forall k | 0 <= k < i :: AppOf(configs, ranked[k]) != AppOf(configs, ranked[i])
  }

  lemma {:induction false} DedupKeepsFirsts(ranked: seq<Assignment>, configs: seq<Config>, m: Assignment)
    ensures m in Dedup(ranked, configs) <==>
      exists i :: 0 <= i < |ranked| && ranked[i] == m && FirstOfApp(ranked, configs, i)
    decreases |ranked|
  {
    if ranked != [] {
      var n := |ranked| - 1;
      DedupKeepsFirsts(ranked[..n], configs, m);
      if m in Dedup(ranked[..n], configs) {
        var i :| 0 <= i < n && ranked[..n][i] == m && FirstOfApp(ranked[..n], configs, i);
        assert FirstOfApp(ranked, configs, i);
      }
      if i :| 0 <= i < |ranked| && ranked[i] == m && FirstOfApp(ranked, configs, i) {
        if i < n {
          assert FirstOfApp(ranked[..n], configs, i);
        }
      }
    }
  }

  /** No two kept rows resolve to the same application. */
  ghost predicate DistinctApps(rows: seq<Assignment>, configs: seq<Config>) {
    && (forall m | m in rows :: AppOf(configs, m).Some?)
    && (forall i, j | 0 <= i < j < |rows| :: AppOf(configs, rows[i]) != AppOf(configs, rows[j]))
  }

  lemma {:induction false} DedupIsDistinct(ranked: seq<Assignment>, configs: seq<Config>)
    ensures DistinctApps(Dedup(ranked, configs), configs)
    ensures forall m | m in Dedup(ranked, configs) :: m in ranked
    ensures AppsOf(Dedup(ranked, configs), configs) == AppsOf(ranked, configs) - {None}
    decreases |ranked|
  {
    if ranked != [] {
      var n := |ranked| - 1;
      DedupIsDistinct(ranked[..n], configs);
      assert ranked == ranked[..n] + [ranked[n]];
      AppsOfSnoc(ranked[..n], ranked[n], configs);
      AppsOfSnoc(Dedup(ranked[..n], configs), ranked[n], configs);
      var kept := Dedup(ranked[..n], configs);
      forall i | 0 <= i < |kept|
        ensures AppOf(configs, kept[i]) in AppsOf(ranked[..n], configs)
      {
        assert kept[i] in kept;
      }
    }
  }

  lemma AppsOfSnoc(rows: seq<Assignment>, m: Assignment, configs: seq<Config>)
    ensures AppsOf(rows + [m], configs) == AppsOf(rows, configs) + {AppOf(configs, m)}
  {
  }

  /** `m` is what the device is to run for its application: no candidate for that application beats it. */
  ghost predicate Effective(
    rows: seq<Assignment>, configs: seq<Config>, device: int, group: Option<int>, nullsFirst: bool, m: Assignment)
  {
    && m in rows && Candidate(m, device, group) && AppOf(configs, m).Some?
    && forall c | c in rows && Candidate(c, device, group) && AppOf(configs, c) == AppOf(configs, m) ::
         if nullsFirst then BeatsGroupFirst(m, c) else Beats(m, c)
  }

  ghost predicate UniqueIds<P>(rows: seq<Row<P>>) {
    forall x, y | x in rows && y in rows && x.id == y.id :: x == y
  }

  /**
    The sort and the seen-set refine the plain specification, for all tables: a
    row is returned if and only if it is the effective assignment of its
    application, and every application with a candidate gets exactly one row.
    With NULLs last that is the device's own row over the group's; with NULLs
    first it is the other way round.
   */
  lemma DedupIsEffective(
    rows: seq<Assignment>, configs: seq<Config>, device: int, group: Option<int>, nullsFirst: bool, m: Assignment)
    requires AllExclusive(rows) && UniqueIds(rows)
    ensures m in Dedup(Ranked(rows, device, group, nullsFirst), configs)
      <==> Effective(rows, configs, device, group, nullsFirst, m)
  {
    var ranked := Ranked(rows, device, group, nullsFirst);
    DedupKeepsFirsts(ranked, configs, m);
    if i :| 0 <= i < |ranked| && ranked[i] == m && FirstOfApp(ranked, configs, i) {
      FirstIsEffective(rows, configs, device, group, nullsFirst, i);
    }
    if Effective(rows, configs, device, group, nullsFirst, m) {
      EffectiveIsFirst(rows, configs, device, group, nullsFirst, m);
    }
  }

  lemma RankedOrder(rows: seq<Assignment>, device: int, group: Option<int>, nullsFirst: bool, i: nat, j: nat)
    requires AllExclusive(rows) && i <= j < |Ranked(rows, device, group, nullsFirst)|
    ensures var a, b := Ranked(rows, device, group, nullsFirst)[i], Ranked(rows, device, group, nullsFirst)[j];
      && a in rows && b in rows && Candidate(a, device, group) && Candidate(b, device, group)
      && if nullsFirst then BeatsGroupFirst(a, b) else Beats(a, b)
  {
    var ranked := Ranked(rows, device, group, nullsFirst);
    RankedMembers(rows, device, group, nullsFirst);
    var a, b := ranked[i], ranked[j];
    assert a in ranked && b in ranked;
    assert Exclusive(a.device, a.group) && Exclusive(b.device, b.group);
    assert i < j ==> ByPrecedence<()>(nullsFirst)(a, b);
    OrderIsPrecedence(a, b, device, group, nullsFirst);
  }

  lemma FirstIsEffective(
    rows: seq<Assignment>, configs: seq<Config>, device: int, group: Option<int>, nullsFirst: bool, i: nat)
    requires AllExclusive(rows) && i < |Ranked(rows, device, group, nullsFirst)|
    requires FirstOfApp(Ranked(rows, device, group, nullsFirst), configs, i)
    ensures Effective(rows, configs, device, group, nullsFirst, Ranked(rows, device, group, nullsFirst)[i])
  {
    var ranked := Ranked(rows, device, group, nullsFirst);
    RankedOrder(rows, device, group, nullsFirst, i, i);
    RankedMembers(rows, device, group, nullsFirst);
    forall c | c in rows && Candidate(c, device, group) && AppOf(configs, c) == AppOf(configs, ranked[i])
      ensures if nullsFirst then BeatsGroupFirst(ranked[i], c) else Beats(ranked[i], c)
    {
      assert c in ranked;
      var j :| 0 <= j < |ranked| && ranked[j] == c;
      RankedOrder(rows, device, group, nullsFirst, i, j);
    }
  }

  lemma EffectiveIsFirst(
    rows: seq<Assignment>, configs: seq<Config>, device: int, group: Option<int>, nullsFirst: bool, m: Assignment)
    requires AllExclusive(rows) && UniqueIds(rows) && Effective(rows, configs, device, group, nullsFirst, m)
    ensures var ranked := Ranked(rows, device, group, nullsFirst);
      exists i :: 0 <= i < |ranked| && ranked[i] == m && FirstOfApp(ranked, configs, i)
  {
    var ranked := Ranked(rows, device, group, nullsFirst);
    RankedMembers(rows, device, group, nullsFirst);
    assert m in ranked;
    var i := FirstIndex(ranked, configs, m);
    var j :| 0 <= j < |ranked| && ranked[j] == m;
    RankedOrder(rows, device, group, nullsFirst, i, j);
    assert ranked[i].id == m.id;
  }

  lemma {:induction false} FirstIndex(ranked: seq<Assignment>, configs: seq<Config>, m: Assignment) returns (i: nat)
    requires m in ranked && AppOf(configs, m).Some?
    ensures i < |ranked| && FirstOfApp(ranked, configs, i) && AppOf(configs, ranked[i]) == AppOf(configs, m)
    ensures forall j | 0 <= j < |ranked| && ranked[j] == m :: i <= j
  {
    i := 0;
    while AppOf(configs, ranked[i]) != AppOf(configs, m)
      invariant i < |ranked|
      invariant forall k | 0 <= k < i :: AppOf(configs, ranked[k]) != AppOf(configs, m)
      decreases |ranked| - i
    {
      var j :| 0 <= j < |ranked| && ranked[j] == m;
      assert i < j;
      i := i + 1;
    }
  }

  // ---------------------------------------------------------------------- paging

  /** `usize` and `u64` arithmetic wraps at 2^64. */
  const U64_RANGE := 0x1_0000_0000_0000_0000

  const U64_MAX := U64_RANGE - 1

  function Drop<T>(s: seq<T>, n: nat): seq<T> {
    if n <= |s| then s[n..] else []
  }

  function Take<T>(s: seq<T>, n: nat): seq<T> {
    if n <= |s| then s[..n] else s
  }

  /** `skip(page * page_size).take(page_size)` */
  function Page<T>(s: seq<T>, page: nat, pageSize: nat): seq<T> {
    Take(Drop(s, (page * pageSize) % U64_RANGE), pageSize)
  }

  /** As long as the product does not wrap, successive pages continue one another without gap or overlap. */
  lemma PagesTile<T>(s: seq<T>, page: nat, pageSize: nat)
    requires page * pageSize < U64_RANGE
    ensures Take(s, page * pageSize) + Page(s, page, pageSize) == Take(s, (page + 1) * pageSize)
  {
    assert (page + 1) * pageSize == page * pageSize + pageSize;
    assert (page * pageSize) % U64_RANGE == page * pageSize;
  }

  /** The whole list as one page, as the device routes ask for it. */
  lemma FirstPageIsAll<T>(s: seq<T>)
    requires |s| <= U64_MAX
    ensures Page(s, 0, U64_MAX) == s
  {
  }

  // ------------------------------------------------------------------ the queries

  /** The map from config ids to application ids, over the active configs. */
  method ConfigIdToAppId(configs: seq<Config>, ids: set<int>) returns (m: map<int, int>)
    requires WellFormed(configs, ExactlyOne)
    ensures forall a: Assignment | a.scope in ids ::
      AppOf(configs, a) == if a.scope in m then Some(m[a.scope]) else None
  {
    m := map[];
    var n := 0;
    while n < |configs|
      invariant n <= |configs|
      invariant forall id | id in m ::
        1 <= id <= n && id in ids && Active(configs[id - 1]) && m[id] == configs[id - 1].scope
      invariant forall k | 0 <= k < n && Active(configs[k]) && k + 1 in ids :: k + 1 in m
    {
      assert RowOk(configs, n, ExactlyOne);
      if Active(configs[n]) && configs[n].id in ids {
        m := m[configs[n].id := configs[n].scope];
      }
      n := n + 1;
    }
    forall a: Assignment | a.scope in ids
      ensures AppOf(configs, a) == if a.scope in m then Some(m[a.scope]) else None
    {
      if 1 <= a.scope <= |configs| {
        FindById(configs, a.scope - 1);
      } else {
        FindOutside(configs, a.scope);
      }
    }
  }

  lemma FindById(configs: seq<Config>, k: nat)
    requires WellFormed(configs, ExactlyOne) && k < |configs|
    ensures FindActive(configs, k + 1) == if Active(configs[k]) then Some(k) else None
  {
    var found := FindActive(configs, k + 1);
    assert RowOk(configs, k, ExactlyOne);
    if found.Some? {
      assert RowOk(configs, found.value, ExactlyOne);
    }
  }

  lemma FindOutside(configs: seq<Config>, id: int)
    requires WellFormed(configs, ExactlyOne) && !(1 <= id <= |configs|)
    ensures FindActive(configs, id).None?
  {
    var found := FindActive(configs, id);
    assert found.None? || RowOk(configs, found.value, ExactlyOne);
  }

  /**
    `list_application_assignments_for_device`: one page of the deduplicated rows
    and their total number.
   */
  method ListForDevice(rows: seq<Assignment>, configs: seq<Config>, device: int, group: Option<int>,
                       configId: Option<int>, nullsFirst: bool, page: nat, pageSize: nat)
    returns (paged: seq<Assignment>, total: nat)
    requires WellFormed(configs, ExactlyOne)
    ensures var all := Dedup(Ranked(OfConfig(rows, configId), device, group, nullsFirst), configs);
      paged == Page(all, page, pageSize) && total == |all|
  {
    var all := Ranked(OfConfig(rows, configId), device, group, nullsFirst);
    var ids := set m | m in all :: m.scope;
    var configIdToAppId := ConfigIdToAppId(configs, ids);
    var seen: set<int> := {};
    var kept: seq<Assignment> := [];
    var n := 0;
    while n < |all|
      invariant n <= |all|
      invariant kept == Dedup(all[..n], configs)
      invariant forall app :: app in seen <==> Some(app) in AppsOf(all[..n], configs)
    {
      var m := all[n];
      assert m in all;
      DedupNext(all, n, configs);
      if m.scope in configIdToAppId {
        var app := configIdToAppId[m.scope];
        if app !in seen {
          kept := kept + [m];
        }
        seen := seen + {app};
      }
      n := n + 1;
    }
    assert all[..n] == all;
    total := |kept|;
    paged := Page(kept, page, pageSize);
  }

  lemma DedupNext(all: seq<Assignment>, n: nat, configs: seq<Config>)
    requires n < |all|
    ensures AppsOf(all[..n + 1], configs) == AppsOf(all[..n], configs) + {AppOf(configs, all[n])}
    ensures Dedup(all[..n + 1], configs) == Dedup(all[..n], configs) +
      (if AppOf(configs, all[n]).Some? && AppOf(configs, all[n]) !in AppsOf(all[..n], configs) then [all[n]] else [])
  {
    assert all[..n + 1][..n] == all[..n];
    assert all[..n + 1] == all[..n] + [all[n]];
    AppsOfSnoc(all[..n], all[n], configs);
  }

  /** The optional filter on the application config. */
  function OfConfig(rows: seq<Assignment>, configId: Option<int>): (r: seq<Assignment>)
    ensures forall m :: m in r <==> m in rows && (configId.None? || m.scope == configId.value)
    decreases |rows|
  {
    if configId.None? then rows
    else if rows == [] then []
    else
      var n := |rows| - 1;
      assert rows == rows[..n] + [rows[n]];
      OfConfig(rows[..n], configId) + (if rows[n].scope == configId.value then [rows[n]] else [])
  }

  /**
    `apps_get_assigned`: the configs the device is told to run. Its lookup never
    drops one: there is a config for every effective assignment, and no two are
    for the same application.
   */
  method AppsGetAssigned(rows: seq<Assignment>, configs: seq<Config>, device: int, group: Option<int>, nullsFirst: bool)
    returns (result: seq<Config>)
    requires WellFormed(configs, ExactlyOne)
    requires AllExclusive(rows) && UniqueIds(rows)
    requires |Dedup(Ranked(rows, device, group, nullsFirst), configs)| <= U64_MAX
    ensures forall i, j | 0 <= i < j < |result| :: result[i].scope != result[j].scope
    ensures forall c :: c in result <==> Assigned(rows, configs, device, group, nullsFirst, c)
    ensures |result| == |Dedup(Ranked(rows, device, group, nullsFirst), configs)|
  {
    var assignments, total := ListForDevice(rows, configs, device, group, None, nullsFirst, 0, U64_MAX);
    ghost var all := Dedup(Ranked(rows, device, group, nullsFirst), configs);
    FirstPageIsAll(all);
    DedupIsDistinct(Ranked(rows, device, group, nullsFirst), configs);
    result := LookUpConfigs(assignments, configs);
    AssignedAreEffective(rows, configs, device, group, nullsFirst, result);
    AssignedAreDistinct(all, configs, result);
  }

  /**
    End to end: over every key-preserving run of the assignments and every run of
    the configs, the tables are such that the rows a device is given are exactly
    the effective ones, one per application, each with a config to look up.
   */
  lemma AssignmentsOverRuns(assignmentOps: seq<Op<()>>, configOps: seq<Op<string>>,
                            device: int, group: Option<int>, nullsFirst: bool)
    requires AllKeepKey(assignmentOps, AtLeastOne)
    ensures var rows, configs := Run(assignmentOps, AtLeastOne), Run(configOps, ExactlyOne);
      var all := Dedup(Ranked(rows, device, group, nullsFirst), configs);
      && WellFormed(configs, ExactlyOne) && AllExclusive(rows) && UniqueIds(rows)
      && DistinctApps(all, configs)
      && (forall m :: m in all <==> Effective(rows, configs, device, group, nullsFirst, m))
      && (forall m | m in all :: exists c :: LooksUp(configs, m, c))
  {
    var rows, configs := Run(assignmentOps, AtLeastOne), Run(configOps, ExactlyOne);
    var all := Dedup(Ranked(rows, device, group, nullsFirst), configs);
    AlwaysWellFormed(assignmentOps, AtLeastOne);
    AlwaysWellFormed(configOps, ExactlyOne);
    AtMostOneActive(assignmentOps, AtLeastOne);
    PositionsAreIds(rows, AtLeastOne);
    DedupIsDistinct(Ranked(rows, device, group, nullsFirst), configs);
    forall m
      ensures m in all <==> Effective(rows, configs, device, group, nullsFirst, m)
    {
      DedupIsEffective(rows, configs, device, group, nullsFirst, m);
    }
    forall m | m in all
      ensures exists c :: LooksUp(configs, m, c)
    {
      assert LooksUp(configs, m, configs[FindActive(configs, m.scope).value]);
    }
  }

  lemma PositionsAreIds<P>(rows: seq<Row<P>>, rule: Rule)
    requires WellFormed(rows, rule)
    ensures UniqueIds(rows)
  {
    forall x, y | x in rows && y in rows && x.id == y.id
      ensures x == y
    {
      var i :| 0 <= i < |rows| && rows[i] == x;
      var j :| 0 <= j < |rows| && rows[j] == y;
      assert RowOk(rows, i, rule) && RowOk(rows, j, rule);
    }
  }

  method LookUpConfigs(assignments: seq<Assignment>, configs: seq<Config>) returns (result: seq<Config>)
    requires forall m | m in assignments :: AppOf(configs, m).Some?
    ensures LookedUp(configs, assignments, result)
  {
    result := [];
    var n := 0;
    while n < |assignments|
      invariant n <= |assignments| && |result| == n
      invariant forall i | 0 <= i < n :: LooksUp(configs, assignments[i], result[i])
    {
      assert assignments[n] in assignments;
      var k := FindActive(configs, assignments[n].scope);
      if k.Some? {
        result := result + [configs[k.value]];
      }
      n := n + 1;
    }
  }

  /** One config per assignment, each the one it assigns. */
  ghost predicate LookedUp(configs: seq<Config>, assignments: seq<Assignment>, result: seq<Config>) {
    |result| == |assignments| && forall i | 0 <= i < |result| :: LooksUp(configs, assignments[i], result[i])
  }

  lemma AssignedAreEffective(rows: seq<Assignment>, configs: seq<Config>, device: int, group: Option<int>,
                             nullsFirst: bool, result: seq<Config>)
    requires AllExclusive(rows) && UniqueIds(rows) && WellFormed(configs, ExactlyOne)
    requires LookedUp(configs, Dedup(Ranked(rows, device, group, nullsFirst), configs), result)
    ensures forall c :: c in result <==> Assigned(rows, configs, device, group, nullsFirst, c)
  {
    var all := Dedup(Ranked(rows, device, group, nullsFirst), configs);
    forall c
      ensures c in result <==> Assigned(rows, configs, device, group, nullsFirst, c)
    {
      if c in result {
        var i :| 0 <= i < |result| && result[i] == c;
        DedupIsEffective(rows, configs, device, group, nullsFirst, all[i]);
        assert LooksUp(configs, all[i], c);
      }
      if m :| Effective(rows, configs, device, group, nullsFirst, m) && LooksUp(configs, m, c) {
        DedupIsEffective(rows, configs, device, group, nullsFirst, m);
        var i :| 0 <= i < |all| && all[i] == m;
        SameLookUp(configs, m, c, result[i]);
      }
    }
  }

  lemma SameLookUp(configs: seq<Config>, m: Assignment, c: Config, d: Config)
    requires WellFormed(configs, ExactlyOne) && LooksUp(configs, m, c) && LooksUp(configs, m, d)
    ensures c == d
  {
    var i :| 0 <= i < |configs| && configs[i] == c;
    var j :| 0 <= j < |configs| && configs[j] == d;
    assert RowOk(configs, i, ExactlyOne) && RowOk(configs, j, ExactlyOne);
  }

  lemma AssignedAreDistinct(all: seq<Assignment>, configs: seq<Config>, result: seq<Config>)
    requires DistinctApps(all, configs) && LookedUp(configs, all, result)
    ensures forall i, j | 0 <= i < j < |result| :: result[i].scope != result[j].scope
  {
  }

  /** The device is to run `c`: it is the active config of some application's effective assignment. */
  ghost predicate Assigned(rows: seq<Assignment>, configs: seq<Config>, device: int, group: Option<int>,
                           nullsFirst: bool, c: Config) {
    exists m :: Effective(rows, configs, device, group, nullsFirst, m) && LooksUp(configs, m, c)
  }

  /** `c` is the active config that `m` assigns. */
  ghost predicate LooksUp(configs: seq<Config>, m: Assignment, c: Config) {
    c in configs && Active(c) && c.id == m.scope && AppOf(configs, m) == Some(c.scope)
  }

  // ------------------------------------------- what changing a config does to them

  /** An accepted change to the configs that makes the one with this id inactive. */
  predicate Withdraws(configs: seq<Config>, op: Op<string>, id: int) {
    && Perform(configs, op, ExactlyOne).Ok?
    && match op
       case Add(scope, device, group, _) =>
         1 <= id <= |configs| && Replaces(scope, device, group, configs[id - 1])
       case Update(target, _, _, _, _) => id == target
       case Delete(target) => id == target
  }

  /**
    An assignment names one row of the configs, and the row that replaces it has
    another id. So of the assignments that resolve, exactly those of the configs
    that are superseded or deleted cease to, and the others resolve as before.
   */
  lemma WithdrawsIff(configs: seq<Config>, op: Op<string>, m: Assignment)
    requires WellFormed(configs, ExactlyOne) && AppOf(configs, m).Some?
    ensures AppOf(Step(configs, op, ExactlyOne), m) ==
      if Withdraws(configs, op, m.scope) then None else AppOf(configs, m)
  {
    var after := Step(configs, op, ExactlyOne);
    StepWellFormed(configs, op, ExactlyOne);
    if !(1 <= m.scope <= |configs|) {
      FindOutside(configs, m.scope);
    }
    FindById(configs, m.scope - 1);
    FindById(after, m.scope - 1);
    if !op.Add? && 1 <= op.id <= |configs| {
      FindById(configs, op.id - 1);
    }
  }

  /** Once withdrawn, a config's assignments never resolve again, whatever else happens to the configs. */
  lemma WithdrawnForGood(configOps: seq<Op<string>>, n: nat, m: Assignment)
    requires n <= |configOps| && 1 <= m.scope <= |Run(configOps[..n], ExactlyOne)|
    requires AppOf(Run(configOps[..n], ExactlyOne), m).None?
    ensures AppOf(Run(configOps, ExactlyOne), m).None?
  {
    AlwaysWellFormed(configOps[..n], ExactlyOne);
    AlwaysWellFormed(configOps, ExactlyOne);
    HistoryIsKept(configOps, n, ExactlyOne);
    FindById(Run(configOps[..n], ExactlyOne), m.scope - 1);
    FindById(Run(configOps, ExactlyOne), m.scope - 1);
  }

  /** Every assignment names a config that exists, as a foreign key sees to. */
  ghost predicate NamesConfigs(rows: seq<Assignment>, configs: seq<Config>) {
    forall m | m in rows :: 1 <= m.scope <= |configs|
  }

  /**
    Over every run of both tables: of the assignments listed for a device, a
    change to the configs unlists exactly those whose config it supersedes or
    deletes. In particular an updated config is withdrawn from every device until
    it is assigned again.
   */
  lemma ConfigChangeUnlistsIff(assignmentOps: seq<Op<()>>, configOps: seq<Op<string>>, op: Op<string>,
                               device: int, group: Option<int>, nullsFirst: bool, m: Assignment)
    requires AllKeepKey(assignmentOps, AtLeastOne)
    requires NamesConfigs(Run(assignmentOps, AtLeastOne), Run(configOps, ExactlyOne))
    ensures var rows, configs := Run(assignmentOps, AtLeastOne), Run(configOps, ExactlyOne);
      var ranked := Ranked(rows, device, group, nullsFirst);
      m in Dedup(ranked, configs) ==>
        (m in Dedup(ranked, Step(configs, op, ExactlyOne)) <==> !Withdraws(configs, op, m.scope))
  {
    var rows, configs := Run(assignmentOps, AtLeastOne), Run(configOps, ExactlyOne);
    AlwaysWellFormed(assignmentOps, AtLeastOne);
    AlwaysWellFormed(configOps, ExactlyOne);
    AtMostOneActive(assignmentOps, AtLeastOne);
    PositionsAreIds(rows, AtLeastOne);
    DedupIsEffective(rows, configs, device, group, nullsFirst, m);
    DedupIsEffective(rows, Step(configs, op, ExactlyOne), device, group, nullsFirst, m);
    if Effective(rows, configs, device, group, nullsFirst, m) {
      ChangeUnlistsIff(rows, configs, op, device, group, nullsFirst, m);
    }
  }

  lemma ChangeUnlistsIff(rows: seq<Assignment>, configs: seq<Config>, op: Op<string>,
                         device: int, group: Option<int>, nullsFirst: bool, m: Assignment)
    requires WellFormed(configs, ExactlyOne) && NamesConfigs(rows, configs)
    requires Effective(rows, configs, device, group, nullsFirst, m)
    ensures Effective(rows, Step(configs, op, ExactlyOne), device, group, nullsFirst, m)
      <==> !Withdraws(configs, op, m.scope)
  {
    var after := Step(configs, op, ExactlyOne);
    WithdrawsIff(configs, op, m);
    forall c | c in rows && AppOf(after, c).Some?
      ensures AppOf(configs, c) == AppOf(after, c)
    {
      ResolvedBefore(configs, op, c);
    }
  }

  /** What resolves after a change to the configs resolved to the same application before. */
  lemma ResolvedBefore(configs: seq<Config>, op: Op<string>, m: Assignment)
    requires WellFormed(configs, ExactlyOne) && 1 <= m.scope <= |configs|
    requires AppOf(Step(configs, op, ExactlyOne), m).Some?
    ensures AppOf(configs, m) == AppOf(Step(configs, op, ExactlyOne), m)
  {
    StepWellFormed(configs, op, ExactlyOne);
    FindById(configs, m.scope - 1);
    FindById(Step(configs, op, ExactlyOne), m.scope - 1);
  }

  // --------------------------------------------------------------- OS assignments

  /** `list_os_assignments_for_device`: the first row in query order, if any. */
  function OsWinner<P(!new)>(rows: seq<Row<P>>, device: int, group: Option<int>, nullsFirst: bool): Option<Row<P>> {
    var ranked := Ranked(rows, device, group, nullsFirst);
    if ranked == [] then None else Some(ranked[0])
  }

  /** The winner beats every other candidate, and there is one whenever there is a candidate. */
  lemma OsWinnerBeatsAll<P(!new)>(rows: seq<Row<P>>, device: int, group: Option<int>, nullsFirst: bool)
    requires AllExclusive(rows)
    ensures match OsWinner(rows, device, group, nullsFirst)
      case None => forall c | c in rows :: !Candidate(c, device, group)
      case Some(w) =>
        && w in rows && Candidate(w, device, group)
        && forall c | c in rows && Candidate(c, device, group) ::
             if nullsFirst then BeatsGroupFirst(w, c) else Beats(w, c)
  {
    var ranked := Ranked(rows, device, group, nullsFirst);
    RankedMembers(rows, device, group, nullsFirst);
    assert forall x | x in rows :: Exclusive(x.device, x.group);
    if ranked != [] {
      var w := ranked[0];
      assert w in ranked;
      forall c | c in rows && Candidate(c, device, group)
        ensures if nullsFirst then BeatsGroupFirst(w, c) else Beats(w, c)
      {
        assert c in ranked;
        var j :| 0 <= j < |ranked| && ranked[j] == c;
        assert 0 < j ==> ByPrecedence<P>(nullsFirst)(ranked[0], ranked[j]);
        OrderIsPrecedence(w, c, device, group, nullsFirst);
      }
    } else {
      forall c | c in rows
        ensures !Candidate(c, device, group)
      {
        assert c !in ranked;
      }
    }
  }

  /**
    End to end, with NULLs last: over every run of adds, deletes and
    key-preserving updates of the OS table (one scope), the device gets its own
    active row if it has one, and otherwise its group's active row.
   */
  lemma OsAssignmentOverRuns<P(!new)>(ops: seq<Op<P>>, device: int, group: Option<int>, r: Row<P>)
    requires AllKeepKey(ops, ExactlyOne)
    requires forall x | x in Run(ops, ExactlyOne) :: x.scope == 0
    requires r in Run(ops, ExactlyOne) && Active(r)
    ensures var rows := Run(ops, ExactlyOne);
      OsWinner(rows, device, group, false) == Some(r) <==>
        || r.device == Some(device)
        || (group.Some? && r.group == group && forall x | x in rows && Active(x) :: x.device != Some(device))
  {
    AtMostOneActive(ops, ExactlyOne);
    OsWinnerOfUnique(Run(ops, ExactlyOne), device, group, r);
  }

  lemma OsWinnerOfUnique<P(!new)>(rows: seq<Row<P>>, device: int, group: Option<int>, r: Row<P>)
    requires UniqueActive(rows) && AllExclusive(rows) && (forall x | x in rows :: x.scope == 0)
    requires r in rows && Active(r)
    ensures OsWinner(rows, device, group, false) == Some(r) <==>
      || r.device == Some(device)
      || (group.Some? && r.group == group && forall x | x in rows && Active(x) :: x.device != Some(device))
  {
    OsWinnerBeatsAll(rows, device, group, false);
    var w := OsWinner(rows, device, group, false);
    if w.Some? {
      SameKeySameRow(rows, r, w.value);
      assert forall x | x in rows :: Exclusive(x.device, x.group);
    }
  }

  lemma SameKeySameRow<P(!new)>(rows: seq<Row<P>>, a: Row<P>, b: Row<P>)
    requires UniqueActive(rows) && a in rows && b in rows && Active(a) && Active(b)
    ensures SharesKey(a, b) ==> a == b
  {
  }

  // ------------------------------------------------- effective configs of a device

  /** What `list_application_configs_for_device` looks at: every row of the device or its group, active or not. */
  predicate Listed(c: Config, device: int, group: Option<int>) {
    AppliesTo(c, device, group)
  }

  /** Row `k` is the newest device config of its application, or the newest group config if the device has none. */
  ghost predicate Resolved(rows: seq<Config>, device: int, group: Option<int>, k: nat)
    requires k < |rows|
  {
    && Listed(rows[k], device, group)
    && forall j | 0 <= j < |rows| && rows[j].scope == rows[k].scope && Listed(rows[j], device, group) ::
         if rows[j].device == Some(device) then rows[k].device == Some(device) && j <= k
         else rows[k].device == Some(device) || j <= k
  }

  /** One of the two passes over the rows: the last matching row of each application stays in the map. */
  method InsertAll(rows: seq<Config>, device: int, group: Option<int>, forDevice: bool, before: map<int, nat>)
    returns (byApplication: map<int, nat>)
    ensures forall app | app in before :: app in byApplication
    ensures forall app | app in byApplication ::
      Inserted(rows, device, group, forDevice, before, app, byApplication[app])
    ensures forall j | 0 <= j < |rows| && Selected(rows[j], device, group, forDevice) :: rows[j].scope in byApplication
  {
    byApplication := before;
    var n := 0;
    while n < |rows|
      invariant n <= |rows|
      invariant forall app | app in before :: app in byApplication
      invariant forall app | app in byApplication ::
        Inserted(rows[..n], device, group, forDevice, before, app, byApplication[app])
      invariant forall j | 0 <= j < n && Selected(rows[j], device, group, forDevice) :: rows[j].scope in byApplication
    {
      forall app | app in byApplication && !(Selected(rows[n], device, group, forDevice) && rows[n].scope == app)
        ensures Inserted(rows[..n + 1], device, group, forDevice, before, app, byApplication[app])
      {
        InsertedLater(rows, n, device, group, forDevice, before, app, byApplication[app]);
      }
      if Selected(rows[n], device, group, forDevice) {
        byApplication := byApplication[rows[n].scope := n];
        assert Inserted(rows[..n + 1], device, group, forDevice, before, rows[n].scope, n);
      }
      n := n + 1;
    }
    assert rows[..n] == rows;
  }

  lemma InsertedLater(rows: seq<Config>, n: nat, device: int, group: Option<int>, forDevice: bool,
                      before: map<int, nat>, app: int, k: nat)
    requires n < |rows| && Inserted(rows[..n], device, group, forDevice, before, app, k)
    requires !(Selected(rows[n], device, group, forDevice) && rows[n].scope == app)
    ensures Inserted(rows[..n + 1], device, group, forDevice, before, app, k)
  {
  }

  /** The rows a pass inserts: those of the device, or those of the group. */
  predicate Selected(c: Config, device: int, group: Option<int>, forDevice: bool) {
    if forDevice then c.device == Some(device) else Listed(c, device, group) && c.group.Some?
  }

  /** The entry for `app` is its last selected row, or is left over from before if it has none. */
  ghost predicate Inserted(rows: seq<Config>, device: int, group: Option<int>, forDevice: bool,
                           before: map<int, nat>, app: int, k: nat) {
    || (k < |rows| && rows[k].scope == app && Selected(rows[k], device, group, forDevice)
        && forall j | 0 <= j < |rows| && rows[j].scope == app && Selected(rows[j], device, group, forDevice) :: j <= k)
    || (app in before && before[app] == k
        && forall j | 0 <= j < |rows| && rows[j].scope == app :: !Selected(rows[j], device, group, forDevice))
  }

  /** The map from application to row that the two passes fill: a row is in it exactly when it is the resolved one. */
  method ResolveEach(rows: seq<Config>, device: int, group: Option<int>) returns (byApplication: map<int, nat>)
    requires AllExclusive(rows)
    ensures forall app | app in byApplication ::
      && byApplication[app] < |rows|
      && rows[byApplication[app]].scope == app
      && Resolved(rows, device, group, byApplication[app])
    ensures forall k | 0 <= k < |rows| && Resolved(rows, device, group, k) ::
      rows[k].scope in byApplication && byApplication[rows[k].scope] == k
  {
    var groups := InsertAll(rows, device, group, false, map[]);
    byApplication := InsertAll(rows, device, group, true, groups);
    forall app | app in byApplication
      ensures byApplication[app] < |rows| && rows[byApplication[app]].scope == app
      ensures Resolved(rows, device, group, byApplication[app])
    {
      assert Inserted(rows, device, group, true, groups, app, byApplication[app]);
      if app in groups {
        assert Inserted(rows, device, group, false, map[], app, groups[app]);
      }
    }
    forall k | 0 <= k < |rows| && Resolved(rows, device, group, k)
      ensures rows[k].scope in byApplication && byApplication[rows[k].scope] == k
    {
      assert Exclusive(rows[k].device, rows[k].group);
      assert Selected(rows[k], device, group, false) || Selected(rows[k], device, group, true);
      var other := byApplication[rows[k].scope];
      assert Resolved(rows, device, group, other);
    }
  }

  function ById(): (Config, Config) -> bool {
    (a: Config, b: Config) => a.id <= b.id
  }

  function ScopeOf(): Config -> int {
    (c: Config) => c.scope
  }

  /** The map's values, in whatever order it is walked. */
  method Values(rows: seq<Config>, byApplication: map<int, nat>) returns (configs: seq<Config>)
    requires forall app | app in byApplication ::
      byApplication[app] < |rows| && rows[byApplication[app]].scope == app
    ensures forall c :: c in configs <==> c.scope in byApplication && c == rows[byApplication[c.scope]]
    ensures DistinctBy(ScopeOf(), configs)
  {
    configs := [];
    var left := byApplication.Keys;
    while left != {}
      invariant left <= byApplication.Keys
      invariant forall c :: c in configs <==>
        c.scope in byApplication && c.scope !in left && c == rows[byApplication[c.scope]]
      invariant DistinctBy(ScopeOf(), configs)
      decreases |left|
    {
      var app := AnyOf(left);
      var c := rows[byApplication[app]];
      assert forall i | 0 <= i < |configs| :: configs[i] in configs;
      configs := configs + [c];
      left := left - {app};
    }
  }

  /**
    `list_application_configs_for_device`: the resolved rows, no two of one
    application, in ascending order of id.
   */
  method ConfigsForDevice(rows: seq<Config>, device: int, group: Option<int>) returns (result: seq<Config>)
    requires WellFormed(rows, ExactlyOne)
    ensures forall k | 0 <= k < |rows| :: rows[k] in result <==> Resolved(rows, device, group, k)
    ensures forall c | c in result :: c in rows
    ensures forall i, j | 0 <= i < j < |result| :: result[i].id < result[j].id && result[i].scope != result[j].scope
  {
    AllForOneTarget(rows);
    var byApplication := ResolveEach(rows, device, group);
    var configs := Values(rows, byApplication);
    SortedById(rows, configs);
    result := Sort(ById(), configs);
  }

  lemma AllForOneTarget(rows: seq<Config>)
    requires WellFormed(rows, ExactlyOne)
    ensures AllExclusive(rows) && UniqueIds(rows)
    ensures forall i, j | 0 <= i < |rows| && 0 <= j < |rows| && rows[i] == rows[j] :: i == j
  {
    PositionsAreIds(rows, ExactlyOne);
    forall k | 0 <= k < |rows|
      ensures Exclusive(rows[k].device, rows[k].group) && rows[k].id == k + 1
    {
      assert RowOk(rows, k, ExactlyOne);
    }
  }

  lemma SortedById(rows: seq<Config>, configs: seq<Config>)
    requires UniqueIds(rows) && DistinctBy(ScopeOf(), configs) && forall c | c in configs :: c in rows
    ensures var r := Sort(ById(), configs);
      && (forall c :: c in r <==> c in configs)
      && (forall i, j | 0 <= i < j < |r| :: r[i].id < r[j].id && r[i].scope != r[j].scope)
  {
    var r := Sort(ById(), configs);
    SortOrders(configs);
    forall c: Config
      ensures c in r <==> c in configs
    {
      assert c in r <==> c in multiset(r);
      assert c in configs <==> c in multiset(configs);
    }
    StrictById(rows, r);
  }

  lemma SortOrders(configs: seq<Config>)
    requires DistinctBy(ScopeOf(), configs)
    ensures Sorted(ById(), Sort(ById(), configs)) && DistinctBy(ScopeOf(), Sort(ById(), configs))
  {
    IdOrderIsTotal();
    SortSorts(ById(), configs);
    SortDistinct(ById(), ScopeOf(), configs);
  }

  lemma IdOrderIsTotal()
    ensures TotalPreorder(ById())
  {
  }

  lemma StrictById(rows: seq<Config>, r: seq<Config>)
    requires UniqueIds(rows) && forall c | c in r :: c in rows
    requires Sorted(ById(), r) && DistinctBy(ScopeOf(), r)
    ensures forall i, j | 0 <= i < j < |r| :: r[i].id < r[j].id && r[i].scope != r[j].scope
  {
  }

  // ---------------------------------------------- what that listing should return

  /** The device's own active config of the application, or failing that its group's active one. */
  ghost predicate InForce(rows: seq<Config>, device: int, group: Option<int>, k: nat)
    requires k < |rows|
  {
    && Active(rows[k]) && Listed(rows[k], device, group)
    && (rows[k].device == Some(device) ||
        forall j | 0 <= j < |rows| && Active(rows[j]) && rows[j].scope == rows[k].scope ::
          rows[j].device != Some(device))
  }

  /** Row `j` is of the key the device resolves its application by: its own if it ever had one, else its group's. */
  ghost predicate Decisive(rows: seq<Config>, device: int, group: Option<int>, j: nat)
    requires j < |rows|
  {
    && Listed(rows[j], device, group)
    && (rows[j].device == Some(device) ||
        forall i | 0 <= i < |rows| && rows[i].scope == rows[j].scope :: rows[i].device != Some(device))
  }

  /** Each such key still has an active row. */
  ghost predicate NothingWithdrawn(rows: seq<Config>, device: int, group: Option<int>) {
    forall j | 0 <= j < |rows| && Decisive(rows, device, group, j) ::
      exists k :: 0 <= k < |rows| && Active(rows[k]) && SameKey(rows[k], rows[j])
  }

  ghost predicate ListsOnlyActive(rows: seq<Config>, device: int, group: Option<int>) {
    forall k | 0 <= k < |rows| && Resolved(rows, device, group, k) :: Active(rows[k])
  }

  ghost predicate ListsWhatIsInForce(rows: seq<Config>, device: int, group: Option<int>) {
    forall k | 0 <= k < |rows| :: Resolved(rows, device, group, k) <==> InForce(rows, device, group, k)
  }

  /**
    The listing looks neither at deletion nor at supersession. Over every
    key-preserving run it never returns a superseded config; it returns only
    active ones, and then exactly those in force, if and only if nothing was
    withdrawn: each application the device has ever had a config for, its own or
    else its group's, still has an active one there.
   */
  lemma ListingIsCurrentIff(ops: seq<Op<string>>, device: int, group: Option<int>)
    requires AllKeepKey(ops, ExactlyOne)
    ensures var rows := Run(ops, ExactlyOne);
      && (forall k | 0 <= k < |rows| && Resolved(rows, device, group, k) :: rows[k].supersededBy.None?)
      && (ListsOnlyActive(rows, device, group) <==> NothingWithdrawn(rows, device, group))
      && (ListsWhatIsInForce(rows, device, group) <==> NothingWithdrawn(rows, device, group))
  {
    var rows := Run(ops, ExactlyOne);
    AlwaysWellFormed(ops, ExactlyOne);
    AlwaysKeepsEdges(ops, ExactlyOne);
    AtMostOneActive(ops, ExactlyOne);
    AlwaysOnlyNewest(ops, ExactlyOne);
    ResolvedNotSuperseded(rows, device, group);
    if ListsOnlyActive(rows, device, group) {
      OnlyActiveNothingWithdrawn(rows, device, group);
    }
    if NothingWithdrawn(rows, device, group) {
      NothingWithdrawnInForce(rows, device, group);
    }
  }

  lemma ResolvedNotSuperseded(rows: seq<Config>, device: int, group: Option<int>)
    requires WellFormed(rows, ExactlyOne) && EdgesKeepKey(rows)
    ensures forall k | 0 <= k < |rows| && Resolved(rows, device, group, k) :: rows[k].supersededBy.None?
  {
    forall k | 0 <= k < |rows| && Resolved(rows, device, group, k)
      ensures rows[k].supersededBy.None?
    {
      assert RowOk(rows, k, ExactlyOne);
    }
  }

  /** Every application with a listed row has a resolved one. */
  lemma {:induction false} SomeRowResolves(rows: seq<Config>, device: int, group: Option<int>, j: nat)
    requires j < |rows| && Listed(rows[j], device, group)
    ensures exists k :: 0 <= k < |rows| && rows[k].scope == rows[j].scope && Resolved(rows, device, group, k)
    decreases |rows|
  {
    var n, app := |rows| - 1, rows[j].scope;
    if i :| 0 <= i < n && rows[i].scope == app && Listed(rows[i], device, group) {
      SomeRowResolves(rows[..n], device, group, i);
      var k :| 0 <= k < n && rows[..n][k].scope == app && Resolved(rows[..n], device, group, k);
      var last := rows[n];
      if last.scope == app && Listed(last, device, group)
         && (last.device == Some(device) || rows[k].device != Some(device)) {
        NewestResolves(rows, device, group, k);
      } else {
        OldestResolves(rows, device, group, k);
      }
    } else {
      assert j == n && Resolved(rows, device, group, n);
    }
  }

  lemma NewestResolves(rows: seq<Config>, device: int, group: Option<int>, k: nat)
    requires rows != [] && k < |rows| - 1 && Resolved(rows[..|rows| - 1], device, group, k)
    requires var last := rows[|rows| - 1];
      && last.scope == rows[k].scope && Listed(last, device, group)
      && (last.device == Some(device) || rows[k].device != Some(device))
    ensures Resolved(rows, device, group, |rows| - 1)
  {
  }

  lemma OldestResolves(rows: seq<Config>, device: int, group: Option<int>, k: nat)
    requires rows != [] && k < |rows| - 1 && Resolved(rows[..|rows| - 1], device, group, k)
    requires var last := rows[|rows| - 1];
      !(last.scope == rows[k].scope && Listed(last, device, group)
        && (last.device == Some(device) || rows[k].device != Some(device)))
    ensures Resolved(rows, device, group, k)
  {
  }

  lemma OnlyActiveNothingWithdrawn(rows: seq<Config>, device: int, group: Option<int>)
    requires AllExclusive(rows) && ListsOnlyActive(rows, device, group)
    ensures NothingWithdrawn(rows, device, group)
  {
    forall j | 0 <= j < |rows| && Decisive(rows, device, group, j)
      ensures exists k :: 0 <= k < |rows| && Active(rows[k]) && SameKey(rows[k], rows[j])
    {
      SomeRowResolves(rows, device, group, j);
      var k :| 0 <= k < |rows| && rows[k].scope == rows[j].scope && Resolved(rows, device, group, k);
      assert Exclusive(rows[k].device, rows[k].group) && Exclusive(rows[j].device, rows[j].group);
      assert SameKey(rows[k], rows[j]);
    }
  }

  lemma NothingWithdrawnInForce(rows: seq<Config>, device: int, group: Option<int>)
    requires AllExclusive(rows) && OnlyNewestActive(rows) && NothingWithdrawn(rows, device, group)
    ensures ListsOnlyActive(rows, device, group) && ListsWhatIsInForce(rows, device, group)
  {
    forall k | 0 <= k < |rows| && Resolved(rows, device, group, k)
      ensures InForce(rows, device, group, k)
    {
      ResolvedInForce(rows, device, group, k);
    }
    forall k | 0 <= k < |rows| && InForce(rows, device, group, k)
      ensures Resolved(rows, device, group, k)
    {
      InForceResolved(rows, device, group, k);
    }
  }

  lemma ResolvedInForce(rows: seq<Config>, device: int, group: Option<int>, k: nat)
    requires OnlyNewestActive(rows) && NothingWithdrawn(rows, device, group)
    requires k < |rows| && AllExclusive(rows) && Resolved(rows, device, group, k)
    ensures InForce(rows, device, group, k)
  {
  }

  lemma InForceResolved(rows: seq<Config>, device: int, group: Option<int>, k: nat)
    requires OnlyNewestActive(rows) && NothingWithdrawn(rows, device, group)
    requires k < |rows| && AllExclusive(rows) && InForce(rows, device, group, k)
    ensures Resolved(rows, device, group, k)
  {
  }

  /**
    How a superseded config comes to be returned: when an update moves it to a
    key that does not take its place for this device. The row that was resolved
    before is superseded now, and still resolved if and only if the new row is
    not for its application, not for this device, or only for the group where
    the old one was the device's own.
   */
  lemma MovedConfigStaysResolvedIff(rows: seq<Config>, op: Op<string>, device: int, group: Option<int>, k: nat)
    requires op.Update? && FindActive(rows, op.id) == Some(k) && Perform(rows, op, ExactlyOne).Ok?
    requires Resolved(rows, device, group, k)
    ensures var after := Step(rows, op, ExactlyOne);
      && |after| == |rows| + 1 && after[k].supersededBy.Some?
      && (Resolved(after, device, group, k) <==>
            || op.scope != rows[k].scope
            || !(op.device == Some(device) || (group.Some? && op.group == group))
            || (rows[k].device == Some(device) && op.device != Some(device)))
  {
  }

  /** How a deleted config comes to be returned: deleting one leaves every resolution as it was. */
  lemma DeletedConfigStaysResolved(rows: seq<Config>, device: int, group: Option<int>, id: nat, k: nat)
    requires k < |rows|
    ensures |Step(rows, Op<string>.Delete(id), ExactlyOne)| == |rows|
    ensures Resolved(Step(rows, Op<string>.Delete(id), ExactlyOne), device, group, k)
      <==> Resolved(rows, device, group, k)
  {
    var after := Step(rows, Op<string>.Delete(id), ExactlyOne);
    assert forall j | 0 <= j < |rows| ::
      after[j].scope == rows[j].scope && after[j].device == rows[j].device && after[j].group == rows[j].group;
  }
}
