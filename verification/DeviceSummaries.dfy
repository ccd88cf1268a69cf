/**
  Assembling device summaries (api-server/src/api_v1/db/device_summaries.rs):
  rows of two reports are grouped by device in hash maps, joined, and taken out
  of the maps again, device by device.
 */
module DeviceSummaries {
  import opened Options

  datatype Device = Device(id: int, tenantId: int)

  /** A reported OS version, joined with the version it names, if that exists. */
  datatype OsRow = OsRow(id: int, deviceId: int, version: Option<string>)

  /** A reported application, joined with its config, if that exists. */
  datatype AppRow = AppRow(id: int, deviceId: int, config: Option<AppConfig>)

  datatype AppConfig = AppConfig(applicationId: int, image: string)

  /** A row as the summary shows it. */
  datatype OsItem = OsItem(id: int, version: string)

  datatype AppItem = AppItem(id: int, application: Option<string>, image: Option<string>)

  datatype Summary = Summary(device: Device, tenant: Option<string>, os: seq<OsItem>, apps: seq<AppItem>)

  function Group<V>(m: map<int, seq<V>>, k: int): seq<V> {
    if k in m then m[k] else []
  }

  /** The application's name goes through the config to the application table. */
  function ShowApp(r: AppRow, applications: map<int, string>): AppItem {
    AppItem(r.id,
      if r.config.Some? then Find(applications, r.config.value.applicationId) else None,
      if r.config.Some? then Some(r.config.value.image) else None)
  }

  // -------------------------------------------------------- the plain description

  /** The rows of one device that have a version, in row order. */
  function OsOf(rows: seq<OsRow>, device: int): seq<OsItem> {
    if rows == [] then []
    else
      var init, last := rows[..|rows| - 1], rows[|rows| - 1];
      OsOf(init, device) +
      (if last.deviceId == device && last.version.Some? then [OsItem(last.id, last.version.value)] else [])
  }

  /** The rows of one device, in row order. */
  function AppsOf(rows: seq<AppRow>, device: int, applications: map<int, string>): seq<AppItem> {
    if rows == [] then []
    else
      var init, last := rows[..|rows| - 1], rows[|rows| - 1];
      AppsOf(init, device, applications) + (if last.deviceId == device then [ShowApp(last, applications)] else [])
  }

  /** The device's tenant, if it exists, and exactly its own rows. */
  predicate Shows(s: Summary, d: Device, os: seq<OsRow>, apps: seq<AppRow>, applications: map<int, string>,
                  tenants: map<int, string>)
  {
    && s.device == d
    && s.tenant == (if d.tenantId in tenants then Some(tenants[d.tenantId]) else None)
    && s.os == OsOf(os, d.id)
    && s.apps == AppsOf(apps, d.id, applications)
  }

  ghost predicate DistinctIds(devices: seq<Device>) {
    forall i, j | 0 <= i < j < |devices| :: devices[i].id != devices[j].id
  }

  // ------------------------------------------------------------------ the assembly

  method GroupOs(rows: seq<OsRow>) returns (byDevice: map<int, seq<OsItem>>)
    ensures forall d: int :: Group(byDevice, d) == OsOf(rows, d)
  {
    byDevice := map[];
    var n := 0;
    while n < |rows|
      invariant n <= |rows|
      invariant forall d: int :: Group(byDevice, d) == OsOf(rows[..n], d)
    {
      assert rows[..n + 1][..n] == rows[..n];
      var r := rows[n];
      if r.version.Some? {
        byDevice := byDevice[r.deviceId := Group(byDevice, r.deviceId) + [OsItem(r.id, r.version.value)]];
      }
      n := n + 1;
    }
    assert rows[..n] == rows;
  }

  method GroupApps(rows: seq<AppRow>, applications: map<int, string>) returns (byDevice: map<int, seq<AppItem>>)
    ensures forall d: int :: Group(byDevice, d) == AppsOf(rows, d, applications)
  {
    byDevice := map[];
    var n := 0;
    while n < |rows|
      invariant n <= |rows|
      invariant forall d: int :: Group(byDevice, d) == AppsOf(rows[..n], d, applications)
    {
      assert rows[..n + 1][..n] == rows[..n];
      var r := rows[n];
      byDevice := byDevice[r.deviceId := Group(byDevice, r.deviceId) + [ShowApp(r, applications)]];
      n := n + 1;
    }
    assert rows[..n] == rows;
  }

  /** The application ids that are looked up: those of the configs that exist. */
  method ApplicationsById(rows: seq<AppRow>, table: map<int, string>) returns (byId: map<int, string>)
    ensures forall r | r in rows :: ShowApp(r, byId) == ShowApp(r, table)
  {
    var ids: set<int> := set r | r in rows && r.config.Some? :: r.config.value.applicationId;
    byId := map id | id in ids && id in table :: table[id];
  }

  /**
    The summaries of a page of devices: one per device, in order, each showing
    exactly the device's own rows in row order, whatever the maps do in between.
   */
  method Assemble(devices: seq<Device>, os: seq<OsRow>, apps: seq<AppRow>, applications: map<int, string>,
                  tenants: map<int, string>)
    returns (summaries: seq<Summary>)
    requires DistinctIds(devices)
    ensures |summaries| == |devices|
    ensures forall i | 0 <= i < |devices| :: Shows(summaries[i], devices[i], os, apps, applications, tenants)
  {
    var osByDevice := GroupOs(os);
    var appById := ApplicationsById(apps, applications);
    AppsByTable(apps, appById, applications);
    var appsByDevice := GroupApps(apps, appById);
    summaries := [];
    ghost var osOf, appsOf := (d: int) => OsOf(os, d), (d: int) => AppsOf(apps, d, applications);
    var n := 0;
    while n < |devices|
      invariant n <= |devices| && |summaries| == n
      invariant Untaken(devices, n, osByDevice, osOf) && Untaken(devices, n, appsByDevice, appsOf)
      invariant forall i | 0 <= i < n :: Shows(summaries[i], devices[i], os, apps, applications, tenants)
    {
      var d := devices[n];
      var osItems, appItems := Group(osByDevice, d.id), Group(appsByDevice, d.id);
      TakeOut(devices, n, osByDevice, osOf);
      TakeOut(devices, n, appsByDevice, appsOf);
      osByDevice := osByDevice - {d.id};
      appsByDevice := appsByDevice - {d.id};
      summaries := summaries + [Summary(d, Find(tenants, d.tenantId), osItems, appItems)];
      n := n + 1;
    }
  }

  /** The groups of the devices from position `n` on are all still in the map. */
  ghost predicate Untaken<V>(devices: seq<Device>, n: nat, byDevice: map<int, seq<V>>, of: int -> seq<V>) {
    forall i | n <= i < |devices| :: Group(byDevice, devices[i].id) == of(devices[i].id)
  }

  lemma TakeOut<V>(devices: seq<Device>, n: nat, byDevice: map<int, seq<V>>, of: int -> seq<V>)
    requires n < |devices| && DistinctIds(devices) && Untaken(devices, n, byDevice, of)
    ensures Group(byDevice, devices[n].id) == of(devices[n].id)
    ensures Untaken(devices, n + 1, byDevice - {devices[n].id}, of)
  {
  }

  lemma {:induction false} AppsByTable(rows: seq<AppRow>, a: map<int, string>, b: map<int, string>)
    requires forall r | r in rows :: ShowApp(r, a) == ShowApp(r, b)
    ensures forall d: int :: AppsOf(rows, d, a) == AppsOf(rows, d, b)
  {
    if rows != [] {
      var init, last := rows[..|rows| - 1], rows[|rows| - 1];
      assert last in rows && forall r | r in init :: r in rows;
      AppsByTable(init, a, b);
    }
  }

  /** No report is lost or shown twice: every row with a version is shown by its own device, and only there. */
  lemma {:induction false} OsRowShownOnce(rows: seq<OsRow>, device: int, item: OsItem)
    ensures item in OsOf(rows, device) <==>
      exists r :: r in rows && r.deviceId == device && r.version.Some? && item == OsItem(r.id, r.version.value)
    decreases |rows|
  {
    if rows != [] {
      var init, last := rows[..|rows| - 1], rows[|rows| - 1];
      OsRowShownOnce(init, device, item);
      assert rows == init + [last];
    }
  }

  /** Each row adds, in its place, what its own device shows of it; a row without a version adds nothing. */
  lemma {:induction false} OsRowInPlace(before: seq<OsRow>, r: OsRow, after: seq<OsRow>, device: int)
    ensures OsOf(before + [r] + after, device) == OsOf(before, device)
      + (if r.deviceId == device && r.version.Some? then [OsItem(r.id, r.version.value)] else []) + OsOf(after, device)
    decreases |after|
  {
    if after == [] {
      assert before + [r] + after == before + [r] && (before + [r])[..|before|] == before;
    } else {
      var all, init := before + [r] + after, after[..|after| - 1];
      assert all[..|all| - 1] == before + [r] + init && all[|all| - 1] == after[|after| - 1];
      OsRowInPlace(before, r, init, device);
    }
  }

  /** The same for the applications, with the name and image that the row's config leads to, if it has one. */
  lemma {:induction false} AppRowInPlace(
    before: seq<AppRow>, r: AppRow, after: seq<AppRow>, device: int, applications: map<int, string>)
    ensures var name := if r.config.Some? && r.config.value.applicationId in applications
        then Some(applications[r.config.value.applicationId]) else None;
      var image := if r.config.Some? then Some(r.config.value.image) else None;
      AppsOf(before + [r] + after, device, applications) == AppsOf(before, device, applications)
        + (if r.deviceId == device then [AppItem(r.id, name, image)] else []) + AppsOf(after, device, applications)
    decreases |after|
  {
    if after == [] {
      assert before + [r] + after == before + [r] && (before + [r])[..|before|] == before;
    } else {
      var all, init := before + [r] + after, after[..|after| - 1];
      assert all[..|all| - 1] == before + [r] + init && all[|all| - 1] == after[|after| - 1];
      AppRowInPlace(before, r, init, device, applications);
    }
  }
}
