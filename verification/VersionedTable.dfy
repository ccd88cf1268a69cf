/**
  The append-only tables of the cloud store (api-server/src/api_v1/db):
  `application_configs`, `application_assignments` and `os_assignments`. A row is
  never removed or rewritten; it is superseded by a newer one or marked deleted.
  The three tables share one shape: `scope` is the application id, the
  application config id, or a constant for OS assignments; `version` and
  `configVersion` are columns of `application_configs` alone.
 */
module VersionedTable {
  import opened Options

  /** Row ids are handed out in order from 1, so row `id` is at index `id - 1`. */
  datatype Row<P> = Row(
    id: nat, scope: int, device: Option<int>, group: Option<int>, version: nat, configVersion: int, payload: P,
    deleted: bool, supersededBy: Option<nat>)

  /** What `before_save` demands of device and group. */
  datatype Rule = ExactlyOne | AtLeastOne

  datatype DbError = Rejected | NotFound

  datatype Op<P> =
    | Add(scope: int, device: Option<int>, group: Option<int>, payload: P)
    | Update(id: nat, scope: int, device: Option<int>, group: Option<int>, payload: P)
    | Delete(id: nat)

  predicate Exclusive(device: Option<int>, group: Option<int>) {
    device.Some? != group.Some?
  }

  predicate Accepts(rule: Rule, device: Option<int>, group: Option<int>) {
    match rule
    case ExactlyOne => Exclusive(device, group)
    case AtLeastOne => device.Some? || group.Some?
  }

  predicate Active<P>(r: Row<P>) {
    !r.deleted && r.supersededBy.None?
  }

  /** The active rows an `add` supersedes: same scope, and same device, or failing that same group. */
  predicate Replaces<P>(scope: int, device: Option<int>, group: Option<int>, r: Row<P>) {
    && Active(r) && r.scope == scope
    && (if device.Some? then r.device == device else if group.Some? then r.group == group else true)
  }

  /** Index of the active row with this id. */
  function FindActive<P>(rows: seq<Row<P>>, id: int): (r: Option<nat>)
    ensures r.Some? ==> r.value < |rows| && rows[r.value].id == id && Active(rows[r.value])
    ensures r.None? ==> forall k | 0 <= k < |rows| && rows[k].id == id :: !Active(rows[k])
    decreases |rows|
  {
    if rows == [] then None
    else
      var n := |rows| - 1;
      if rows[n].id == id && Active(rows[n]) then Some(n) else FindActive(rows[..n], id)
  }

  /** The largest version among the rows an `add` supersedes, or 0. */
  function MaxVersion<P>(rows: seq<Row<P>>, scope: int, device: Option<int>, group: Option<int>): (v: nat)
    ensures forall k | 0 <= k < |rows| && Replaces(scope, device, group, rows[k]) :: rows[k].version <= v
    ensures v == 0 || exists k :: 0 <= k < |rows| && Replaces(scope, device, group, rows[k]) && rows[k].version == v
    decreases |rows|
  {
    if rows == [] then 0
    else
      var n := |rows| - 1;
      var v := MaxVersion(rows[..n], scope, device, group);
      if Replaces(scope, device, group, rows[n]) && rows[n].version > v then rows[n].version else v
  }

  /** The config version of the first row an `add` supersedes, or 1. */
  function CarriedConfigVersion<P>(rows: seq<Row<P>>, scope: int, device: Option<int>, group: Option<int>): int {
    if rows == [] then 1
    else if Replaces(scope, device, group, rows[0]) then rows[0].configVersion
    else CarriedConfigVersion(rows[1..], scope, device, group)
  }

  function SupersedeMatching<P>(rows: seq<Row<P>>, scope: int, device: Option<int>, group: Option<int>, newId: nat)
    : (r: seq<Row<P>>)
    ensures |r| == |rows|
  {
    seq(|rows|, k requires 0 <= k < |rows| =>
      if Replaces(scope, device, group, rows[k]) then rows[k].(supersededBy := Some(newId)) else rows[k])
  }

  /** The table after an operation, or why it was refused; a refused operation changes nothing. */
  function Perform<P>(rows: seq<Row<P>>, op: Op<P>, rule: Rule): Result<seq<Row<P>>, DbError> {
    var id := |rows| + 1;
    match op
    case Add(scope, device, group, payload) =>
      if !Accepts(rule, device, group) then Err(Rejected)
      else
        var version := MaxVersion(rows, scope, device, group) + 1;
        var configVersion := CarriedConfigVersion(rows, scope, device, group);
        Ok(SupersedeMatching(rows, scope, device, group, id)
           + [Row(id, scope, device, group, version, configVersion, payload, false, None)])
    case Update(target, scope, device, group, payload) =>
      (match FindActive(rows, target)
       case None => Err(NotFound)
       case Some(k) =>
         if !Accepts(rule, device, group) then Err(Rejected)
         else
           Ok(rows[k := rows[k].(supersededBy := Some(id))]
              + [Row(id, scope, device, group, rows[k].version + 1, rows[k].configVersion, payload, false, None)]))
    case Delete(target) =>
      (match FindActive(rows, target)
       case None => Ok(rows)
       case Some(k) => Ok(rows[k := rows[k].(deleted := true)]))
  }

  function Step<P>(rows: seq<Row<P>>, op: Op<P>, rule: Rule): seq<Row<P>> {
    var r := Perform(rows, op, rule);
    if r.Ok? then r.value else rows
  }

  function Run<P>(ops: seq<Op<P>>, rule: Rule): seq<Row<P>> {
    if ops == [] then [] else Step(Run(ops[..|ops| - 1], rule), ops[|ops| - 1], rule)
  }

  // ------------------------------------------------------- what each operation does

  /** The row holds what the operation asks for. */
  ghost predicate ContentOf<P>(op: Op<P>, r: Row<P>) {
    !op.Delete? && r.scope == op.scope && r.device == op.device && r.group == op.group && r.payload == op.payload
  }

  ghost predicate InsertedBy<P>(op: Op<P>, r: Row<P>) {
    ContentOf(op, r) && Active(r)
  }

  /** What is refused: an update of a row that is not active, and a device and group other than demanded. */
  lemma AcceptedIff<P>(rows: seq<Row<P>>, op: Op<P>, rule: Rule)
    ensures var demanded := !op.Delete? ==>
        if rule.ExactlyOne? then op.device.Some? != op.group.Some? else op.device.Some? || op.group.Some?;
      var found := op.Update? ==> exists k :: 0 <= k < |rows| && rows[k].id == op.id && Active(rows[k]);
      && (Perform(rows, op, rule).Ok? <==> demanded && found)
      && (!found ==> Perform(rows, op, rule) == Err(NotFound))
      && (found && !demanded ==> Perform(rows, op, rule) == Err(Rejected))
  {
  }

  /**
    An accepted add inserts the row asked for, superseding by it exactly the
    active rows of its scope that are for the same device, or failing a device for
    the same group; all else stays.
   */
  lemma AddInserts<P>(rows: seq<Row<P>>, op: Op<P>, rule: Rule)
    requires op.Add? && Perform(rows, op, rule).Ok?
    ensures var after := Step(rows, op, rule);
      && |after| == |rows| + 1 && InsertedBy(op, after[|rows|]) && after[|rows|].id == |rows| + 1
      && forall k | 0 <= k < |rows| ::
        var same := if op.device.Some? then rows[k].device == op.device else rows[k].group == op.group;
        after[k] == if Active(rows[k]) && rows[k].scope == op.scope && same
                    then rows[k].(supersededBy := Some(|rows| + 1)) else rows[k]
  {
  }

  /** An accepted update inserts the row asked for, superseding by it exactly the row it names. */
  lemma UpdateInserts<P>(rows: seq<Row<P>>, op: Op<P>, rule: Rule)
    requires WellFormed(rows, rule) && op.Update? && Perform(rows, op, rule).Ok?
    ensures var after := Step(rows, op, rule);
      && |after| == |rows| + 1 && InsertedBy(op, after[|rows|]) && after[|rows|].id == |rows| + 1
      && forall k | 0 <= k < |rows| ::
        after[k] == if rows[k].id == op.id then rows[k].(supersededBy := Some(|rows| + 1)) else rows[k]
  {
    var found := FindActive(rows, op.id).value;
    forall k | 0 <= k < |rows|
      ensures rows[k].id == op.id <==> k == found
    {
      assert RowOk(rows, k, rule) && RowOk(rows, found, rule);
    }
  }

  /** A delete marks exactly the active row it names. */
  lemma DeleteMarks<P>(rows: seq<Row<P>>, op: Op<P>, rule: Rule)
    requires WellFormed(rows, rule) && op.Delete?
    ensures var after := Step(rows, op, rule);
      && |after| == |rows|
      && forall k | 0 <= k < |rows| ::
        after[k] == if rows[k].id == op.id && Active(rows[k]) then rows[k].(deleted := true) else rows[k]
  {
    var found := FindActive(rows, op.id);
    forall k | 0 <= k < |rows|
      ensures rows[k].id == op.id && Active(rows[k]) <==> found == Some(k)
    {
      assert RowOk(rows, k, rule) && (found.Some? ==> RowOk(rows, found.value, rule));
    }
  }

  /** The adds and updates that were accepted, in order. */
  function Insertions<P>(ops: seq<Op<P>>, rule: Rule): seq<Op<P>> {
    if ops == [] then []
    else
      var before, op := ops[..|ops| - 1], ops[|ops| - 1];
      Insertions(before, rule) + (if !op.Delete? && Perform(Run(before, rule), op, rule).Ok? then [op] else [])
  }

  /** Over every run, the rows are what the accepted adds and updates asked for, one each, in order. */
  lemma {:induction false} RowsAreInsertions<P>(ops: seq<Op<P>>, rule: Rule)
    ensures |Run(ops, rule)| == |Insertions(ops, rule)|
    ensures forall i | 0 <= i < |Run(ops, rule)| :: ContentOf(Insertions(ops, rule)[i], Run(ops, rule)[i])
    decreases |ops|
  {
    if ops != [] {
      var before, op := ops[..|ops| - 1], ops[|ops| - 1];
      RowsAreInsertions(before, rule);
      AlwaysWellFormed(before, rule);
      StepKeepsContent(Run(before, rule), op, rule);
    }
  }

  lemma StepKeepsContent<P>(rows: seq<Row<P>>, op: Op<P>, rule: Rule)
    requires WellFormed(rows, rule)
    ensures var after := Step(rows, op, rule);
      && |after| == |rows| + (if !op.Delete? && Perform(rows, op, rule).Ok? then 1 else 0)
      && (forall k | 0 <= k < |rows| :: SameContent(after[k], rows[k]))
      && (|after| > |rows| ==> ContentOf(op, after[|rows|]))
  {
    StepWellFormed(rows, op, rule);
  }

  // ------------------------------------------------------------ supersede chains

  ghost predicate WellFormed<P>(rows: seq<Row<P>>, rule: Rule) {
    forall i | 0 <= i < |rows| :: RowOk(rows, i, rule)
  }

  /** Ids are positions; edges go to a later row with a larger version; no row is both deleted and superseded. */
  ghost predicate RowOk<P>(rows: seq<Row<P>>, i: nat, rule: Rule)
    requires i < |rows|
  {
    var r := rows[i];
    && r.id == i + 1
    && 1 <= r.version
    && Accepts(rule, r.device, r.group)
    && !(r.deleted && r.supersededBy.Some?)
    && (r.supersededBy.Some? ==>
          i + 1 < r.supersededBy.value <= |rows| && r.version < rows[r.supersededBy.value - 1].version)
  }

  /** The columns written once. */
  ghost predicate SameContent<P>(a: Row<P>, b: Row<P>) {
    a.(deleted := false, supersededBy := None) == b.(deleted := false, supersededBy := None)
  }

  /** Only growth: old rows keep their content, and an inactive one is frozen as it is. */
  ghost predicate Extends<P>(before: seq<Row<P>>, after: seq<Row<P>>) {
    && |before| <= |after|
    && forall i | 0 <= i < |before| ::
      SameContent(before[i], after[i]) && (!Active(before[i]) ==> after[i] == before[i])
  }

  lemma StepWellFormed<P>(rows: seq<Row<P>>, op: Op<P>, rule: Rule)
    requires WellFormed(rows, rule)
    ensures WellFormed(Step(rows, op, rule), rule) && Extends(rows, Step(rows, op, rule))
  {
    var after := Step(rows, op, rule);
    forall i | 0 <= i < |after|
      ensures RowOk(after, i, rule)
    {
      if i < |rows| {
        assert RowOk(rows, i, rule);
      }
    }
  }

  /** Over every run, edges lead strictly forward in id and version, and no row is both deleted and superseded. */
  lemma {:induction false} AlwaysWellFormed<P>(ops: seq<Op<P>>, rule: Rule)
    ensures WellFormed(Run(ops, rule), rule)
    decreases |ops|
  {
    if ops != [] {
      var n := |ops| - 1;
      AlwaysWellFormed(ops[..n], rule);
      StepWellFormed(Run(ops[..n], rule), ops[n], rule);
    }
  }

  /** Over every run, history is only added to, and an inactive row never becomes active again. */
  lemma {:induction false} HistoryIsKept<P>(ops: seq<Op<P>>, n: nat, rule: Rule)
    requires n <= |ops|
    ensures Extends(Run(ops[..n], rule), Run(ops, rule))
    decreases |ops|
  {
    if n == |ops| {
      assert ops[..n] == ops;
    } else {
      var m := |ops| - 1;
      assert ops[..m][..n] == ops[..n];
      HistoryIsKept(ops[..m], n, rule);
      AlwaysWellFormed(ops[..m], rule);
      StepWellFormed(Run(ops[..m], rule), ops[m], rule);
      ExtendsTransitive(Run(ops[..n], rule), Run(ops[..m], rule), Run(ops, rule));
    }
  }

  lemma ExtendsTransitive<P>(a: seq<Row<P>>, b: seq<Row<P>>, c: seq<Row<P>>)
    requires Extends(a, b) && Extends(b, c)
    ensures Extends(a, c)
  {
  }

  /** The end of the chain of edges from row `i`. */
  function Latest<P>(rows: seq<Row<P>>, i: nat, rule: Rule): (k: nat)
    requires WellFormed(rows, rule) && i < |rows|
    ensures i <= k < |rows| && rows[k].supersededBy.None?
    ensures rows[i].version + (if k == i then 0 else 1) <= rows[k].version
    decreases |rows| - i
  {
    assert RowOk(rows, i, rule);
    match rows[i].supersededBy
    case None => i
    case Some(next) => Latest(rows, next - 1, rule)
  }

  // ---------------------------------------------------- one active row per key

  /** Two rows are assigned to the same device, or to the same group, in the same scope. */
  predicate SharesKey<P>(a: Row<P>, b: Row<P>) {
    a.scope == b.scope && ((a.device.Some? && a.device == b.device) || (a.group.Some? && a.group == b.group))
  }

  ghost predicate UniqueActive<P>(rows: seq<Row<P>>) {
    forall i, j | 0 <= i < j < |rows| && Active(rows[i]) && Active(rows[j]) :: !SharesKey(rows[i], rows[j])
  }

  ghost predicate AllExclusive<P>(rows: seq<Row<P>>) {
    forall i | 0 <= i < |rows| :: Exclusive(rows[i].device, rows[i].group)
  }

  /** An update that keeps scope, device and group; an add for a device or for a group, as the API offers it. */
  predicate KeepsKey<P>(rows: seq<Row<P>>, op: Op<P>) {
    match op
    case Add(_, device, group, _) => Exclusive(device, group)
    case Update(target, scope, device, group, _) =>
      var k := FindActive(rows, target);
      k.Some? ==> rows[k.value].scope == scope && rows[k.value].device == device && rows[k.value].group == group
    case Delete(_) => true
  }

  /**
    An accepted update keeps the active rows unique exactly when no active row
    other than the updated one already has the new key; nothing in the update
    itself sees to that.
   */
  lemma UpdateKeepsUniqueIff<P>(rows: seq<Row<P>>, op: Op<P>, rule: Rule)
    requires op.Update? && UniqueActive(rows) && Perform(rows, op, rule).Ok?
    ensures UniqueActive(Step(rows, op, rule)) <==>
      forall j | 0 <= j < |rows| && j != FindActive(rows, op.id).value && Active(rows[j]) ::
        !SharesKey(rows[j], Row(|rows| + 1, op.scope, op.device, op.group, 0, 0, op.payload, false, None))
  {
    var after := Step(rows, op, rule);
    var n, k := |rows|, FindActive(rows, op.id).value;
    var added := Row(n + 1, op.scope, op.device, op.group, 0, 0, op.payload, false, None);
    if UniqueActive(after) {
      forall j | 0 <= j < n && j != k && Active(rows[j])
        ensures !SharesKey(rows[j], added)
      {
        assert after[j] == rows[j] && !SharesKey(after[j], after[n]);
      }
    }
    if forall j | 0 <= j < n && j != k && Active(rows[j]) :: !SharesKey(rows[j], added) {
      forall i, j | 0 <= i < j < |after| && Active(after[i]) && Active(after[j])
        ensures !SharesKey(after[i], after[j])
      {
        assert i != k && after[i] == rows[i];
        if j < n {
          assert after[j] == rows[j];
        } else {
          assert !SharesKey(rows[i], added);
        }
      }
    }
  }

  lemma StepKeepsUnique<P>(rows: seq<Row<P>>, op: Op<P>, rule: Rule)
    requires UniqueActive(rows) && AllExclusive(rows) && KeepsKey(rows, op)
    ensures UniqueActive(Step(rows, op, rule)) && AllExclusive(Step(rows, op, rule))
  {
  }

  ghost predicate AllKeepKey<P>(ops: seq<Op<P>>, rule: Rule) {
    forall n | 0 <= n < |ops| :: KeepsKey(Run(ops[..n], rule), ops[n])
  }

  /**
    Over every run of adds, deletes and key-preserving updates, each device and
    each group has at most one active row per scope.
   */
  lemma {:induction false} AtMostOneActive<P>(ops: seq<Op<P>>, rule: Rule)
    requires AllKeepKey(ops, rule)
    ensures UniqueActive(Run(ops, rule)) && AllExclusive(Run(ops, rule))
    decreases |ops|
  {
    if ops != [] {
      var m := |ops| - 1;
      AllKeepKeyPrefix(ops, rule);
      AtMostOneActive(ops[..m], rule);
      StepKeepsUnique(Run(ops[..m], rule), ops[m], rule);
    }
  }

  predicate SameKey<P>(a: Row<P>, b: Row<P>) {
    a.scope == b.scope && a.device == b.device && a.group == b.group
  }

  ghost predicate EdgesKeepKey<P>(rows: seq<Row<P>>) {
    forall i | 0 <= i < |rows| && rows[i].supersededBy.Some? && 1 <= rows[i].supersededBy.value <= |rows| ::
      SameKey(rows[i], rows[rows[i].supersededBy.value - 1])
  }

  lemma StepKeepsEdges<P>(rows: seq<Row<P>>, op: Op<P>, rule: Rule)
    requires WellFormed(rows, rule) && AllExclusive(rows) && EdgesKeepKey(rows) && KeepsKey(rows, op)
    ensures EdgesKeepKey(Step(rows, op, rule))
  {
    var after := Step(rows, op, rule);
    forall i | 0 <= i < |after| && after[i].supersededBy.Some? && 1 <= after[i].supersededBy.value <= |after|
      ensures SameKey(after[i], after[after[i].supersededBy.value - 1])
    {
      assert i < |rows| && RowOk(rows, i, rule) && Exclusive(rows[i].device, rows[i].group);
    }
  }

  lemma {:induction false} AlwaysKeepsEdges<P>(ops: seq<Op<P>>, rule: Rule)
    requires AllKeepKey(ops, rule)
    ensures EdgesKeepKey(Run(ops, rule))
    decreases |ops|
  {
    if ops != [] {
      var m := |ops| - 1;
      AllKeepKeyPrefix(ops, rule);
      AlwaysKeepsEdges(ops[..m], rule);
      AlwaysWellFormed(ops[..m], rule);
      AtMostOneActive(ops[..m], rule);
      StepKeepsEdges(Run(ops[..m], rule), ops[m], rule);
    }
  }

  lemma AllKeepKeyPrefix<P>(ops: seq<Op<P>>, rule: Rule)
    requires ops != [] && AllKeepKey(ops, rule)
    ensures AllKeepKey(ops[..|ops| - 1], rule) && KeepsKey(Run(ops[..|ops| - 1], rule), ops[|ops| - 1])
  {
    var m := |ops| - 1;
    forall n | 0 <= n < m
      ensures KeepsKey(Run(ops[..m][..n], rule), ops[..m][n])
    {
      assert ops[..m][..n] == ops[..n];
    }
    assert KeepsKey(Run(ops[..m], rule), ops[m]);
  }

  lemma {:induction false} LatestKeepsKey<P>(rows: seq<Row<P>>, i: nat, rule: Rule)
    requires WellFormed(rows, rule) && EdgesKeepKey(rows) && i < |rows|
    ensures SameKey(rows[i], rows[Latest(rows, i, rule)])
    decreases |rows| - i
  {
    assert RowOk(rows, i, rule);
    if rows[i].supersededBy.Some? {
      LatestKeepsKey(rows, rows[i].supersededBy.value - 1, rule);
    }
  }

  /**
    Over every key-preserving run, following the edges from any row ends at a row
    of the same key; if that row is not deleted it is the key's one active row.
   */
  lemma LatestIsTheActiveRow<P>(ops: seq<Op<P>>, rule: Rule, i: nat, j: nat)
    requires AllKeepKey(ops, rule)
    requires var rows := Run(ops, rule); i < |rows| && j < |rows|
    ensures var rows := Run(ops, rule);
      && WellFormed(rows, rule)
      && (var k := Latest(rows, i, rule);
          && SameKey(rows[i], rows[k])
          && (!rows[k].deleted ==> (Active(rows[j]) && SharesKey(rows[i], rows[j]) <==> j == k)))
  {
    var rows := Run(ops, rule);
    AlwaysWellFormed(ops, rule);
    AlwaysKeepsEdges(ops, rule);
    AtMostOneActive(ops, rule);
    LatestKeepsKey(rows, i, rule);
    var k := Latest(rows, i, rule);
    assert Exclusive(rows[i].device, rows[i].group) && Exclusive(rows[k].device, rows[k].group);
    if !rows[k].deleted && Active(rows[j]) && SharesKey(rows[i], rows[j]) {
      assert if j < k then SharesKey(rows[j], rows[k]) else if k < j then SharesKey(rows[k], rows[j]) else true;
    }
  }

  /** Only the newest row of a key can be active. */
  ghost predicate OnlyNewestActive<P>(rows: seq<Row<P>>) {
    forall i, j | 0 <= i < j < |rows| && SharesKey(rows[i], rows[j]) :: !Active(rows[i])
  }

  lemma StepKeepsNewest<P>(rows: seq<Row<P>>, op: Op<P>, rule: Rule)
    requires OnlyNewestActive(rows) && AllExclusive(rows) && KeepsKey(rows, op)
    ensures OnlyNewestActive(Step(rows, op, rule))
  {
  }

  /** Over every key-preserving run, no row but the newest of its key is active. */
  lemma {:induction false} AlwaysOnlyNewest<P>(ops: seq<Op<P>>, rule: Rule)
    requires AllKeepKey(ops, rule)
    ensures OnlyNewestActive(Run(ops, rule))
    decreases |ops|
  {
    if ops != [] {
      var m := |ops| - 1;
      AllKeepKeyPrefix(ops, rule);
      AlwaysOnlyNewest(ops[..m], rule);
      AtMostOneActive(ops[..m], rule);
      StepKeepsNewest(Run(ops[..m], rule), ops[m], rule);
    }
  }

  // ------------------------------------------------------------ version numbers

  /** The version of row `n` is larger than those of all earlier rows of its key. */
  ghost predicate ExceedsEarlier<P>(rows: seq<Row<P>>, n: nat)
    requires n < |rows|
  {
    forall j | 0 <= j < n && SameKey(rows[j], rows[n]) :: rows[j].version < rows[n].version
  }

  /** Every deleted row of the key has an active one of at least its version beside it. */
  ghost predicate DeletedAreCovered<P>(rows: seq<Row<P>>, scope: int, device: Option<int>, group: Option<int>) {
    forall j | 0 <= j < |rows| && rows[j].deleted && HasKey(rows[j], scope, device, group) ::
      exists k :: 0 <= k < |rows| && Covers(rows[k], rows[j])
  }

  predicate HasKey<P>(r: Row<P>, scope: int, device: Option<int>, group: Option<int>) {
    r.scope == scope && r.device == device && r.group == group
  }

  predicate Covers<P>(r: Row<P>, older: Row<P>) {
    Active(r) && SameKey(r, older) && older.version <= r.version
  }

  /**
    When versions grow over the life of a key: over every key-preserving run,
    what the next add or update inserts has a larger version than every earlier
    row of its key if and only if, beforehand, every deleted row of that key is
    covered by an active one. In particular it does as long as nothing of the
    key was deleted.
   */
  lemma VersionsGrowIff<P>(ops: seq<Op<P>>, op: Op<P>, rule: Rule)
    requires AllKeepKey(ops, rule) && KeepsKey(Run(ops, rule), op) && !op.Delete?
    requires Perform(Run(ops, rule), op, rule).Ok?
    ensures var rows := Run(ops, rule);
      var after := Step(rows, op, rule);
      && |after| == |rows| + 1
      && (ExceedsEarlier(after, |rows|) <==> DeletedAreCovered(rows, op.scope, op.device, op.group))
  {
    var rows := Run(ops, rule);
    var after := Step(rows, op, rule);
    var n := |rows|;
    AlwaysWellFormed(ops, rule);
    AtMostOneActive(ops, rule);
    AlwaysKeepsEdges(ops, rule);
    NewVersionIs(rows, op, rule);
    if ExceedsEarlier(after, n) {
      forall j | 0 <= j < n && rows[j].deleted && HasKey(rows[j], op.scope, op.device, op.group)
        ensures exists k :: 0 <= k < n && Covers(rows[k], rows[j])
      {
        assert RowOk(rows, j, rule) && SameKey(after[j], after[n]);
        var k :| 0 <= k < n && Active(rows[k]) && SameKey(rows[k], after[n]) && rows[k].version + 1 == after[n].version;
        assert Covers(rows[k], rows[j]);
      }
    }
    if DeletedAreCovered(rows, op.scope, op.device, op.group) {
      forall j | 0 <= j < n && SameKey(after[j], after[n])
        ensures after[j].version < after[n].version
      {
        CoveredByActive(rows, j, op.scope, op.device, op.group, rule);
      }
    }
  }

  /** Where the deleted rows of a key are covered, so is every row: by the end of its chain or what covers that. */
  lemma CoveredByActive<P>(
    rows: seq<Row<P>>, j: nat, scope: int, device: Option<int>, group: Option<int>, rule: Rule)
    requires WellFormed(rows, rule) && EdgesKeepKey(rows) && DeletedAreCovered(rows, scope, device, group)
    requires j < |rows| && HasKey(rows[j], scope, device, group)
    ensures exists k :: 0 <= k < |rows| && Covers(rows[k], rows[j])
  {
    LatestKeepsKey(rows, j, rule);
    var k := Latest(rows, j, rule);
    if rows[k].deleted {
      var c :| 0 <= c < |rows| && Covers(rows[c], rows[k]);
      assert Covers(rows[c], rows[j]);
    } else {
      assert Covers(rows[k], rows[j]);
    }
  }

  /** The new row is one version above the active row of its key, or the first version if there is none. */
  lemma NewVersionIs<P>(rows: seq<Row<P>>, op: Op<P>, rule: Rule)
    requires UniqueActive(rows) && AllExclusive(rows) && KeepsKey(rows, op) && !op.Delete?
    requires WellFormed(rows, rule) && Perform(rows, op, rule).Ok?
    ensures var n := |rows|;
      var after := Step(rows, op, rule);
      && |after| == n + 1 && HasKey(after[n], op.scope, op.device, op.group)
      && (forall k | 0 <= k < n :: SameContent(after[k], rows[k]))
      && (forall k | 0 <= k < n && Active(rows[k]) && SameKey(rows[k], after[n]) :: rows[k].version < after[n].version)
      && (after[n].version == 1 ||
          exists k :: 0 <= k < n && Active(rows[k]) && SameKey(rows[k], after[n])
            && rows[k].version + 1 == after[n].version)
  {
  }

  /** No operation ever sets a config version but the first: every row of every run has 1. */
  lemma {:induction false} ConfigVersionStaysOne<P>(ops: seq<Op<P>>, rule: Rule)
    ensures forall k | 0 <= k < |Run(ops, rule)| :: Run(ops, rule)[k].configVersion == 1
    decreases |ops|
  {
    if ops != [] {
      var m := |ops| - 1;
      ConfigVersionStaysOne(ops[..m], rule);
      var op := ops[m];
      if op.Add? {
        CarriedOfOnes(Run(ops[..m], rule), op.scope, op.device, op.group);
      }
    }
  }

  lemma {:induction false} CarriedOfOnes<P>(rows: seq<Row<P>>, scope: int, device: Option<int>, group: Option<int>)
    requires forall k | 0 <= k < |rows| :: rows[k].configVersion == 1
    ensures CarriedConfigVersion(rows, scope, device, group) == 1
  {
    if rows != [] {
      CarriedOfOnes(rows[1..], scope, device, group);
    }
  }

  /**
    A deletion uncovers: deleting the active row of a key and adding the key
    again starts over at version 1.
   */
  lemma VersionRestartsAfterDelete<P>(rows: seq<Row<P>>, k: nat, payload: P, rule: Rule)
    requires WellFormed(rows, rule) && UniqueActive(rows) && AllExclusive(rows)
    requires k < |rows| && Active(rows[k])
    ensures var r := rows[k];
      var again := Step(Step(rows, Op<P>.Delete(r.id), rule), Add(r.scope, r.device, r.group, payload), rule);
      |again| == |rows| + 1 && again[|rows|].version == 1 <= r.version
  {
    var r := rows[k];
    assert RowOk(rows, k, rule);
    var found := FindActive(rows, r.id);
    assert found.Some? && RowOk(rows, found.value, rule);
    var without := Step(rows, Op<P>.Delete(r.id), rule);
    forall j | 0 <= j < |without|
      ensures !Replaces(r.scope, r.device, r.group, without[j])
    {
      if j != k && Active(without[j]) {
        assert if j < k then !SharesKey(rows[j], rows[k]) else !SharesKey(rows[k], rows[j]);
        assert Exclusive(rows[j].device, rows[j].group);
      }
    }
  }

  // ------------------------------------------------------------------- the table

  class Table<P> {
    const rule: Rule
    var rows: seq<Row<P>>

    constructor (rule: Rule)
      ensures this.rule == rule && rows == []
    {
      this.rule := rule;
      rows := [];
    }

    method AddRow(scope: int, device: Option<int>, group: Option<int>, payload: P)
      returns (r: Result<Row<P>, DbError>)
      modifies this
      ensures r.Ok? <==> Accepts(rule, device, group)
      ensures r.Ok? ==> Perform(old(rows), Add(scope, device, group, payload), rule) == Ok(rows)
      ensures r.Ok? ==> rows != [] && r.value == rows[|rows| - 1]
      ensures r.Err? ==> rows == old(rows)
    {
      var existing, version, configVersion := ToSupersede(scope, device, group);
      if !Accepts(rule, device, group) {
        return Err(Rejected);
      }
      var inserted := Row(|rows| + 1, scope, device, group, version + 1, configVersion, payload, false, None);
      InsertSuperseding(inserted, existing);
      return Ok(inserted);
    }

    method InsertSuperseding(inserted: Row<P>, existing: seq<nat>)
      requires Active(inserted)
      requires forall m | 0 <= m < |existing| :: existing[m] < |rows| && Superseded(inserted, rows[existing[m]])
      requires forall k | 0 <= k < |rows| && Superseded(inserted, rows[k]) :: k in existing
      modifies this
      ensures rows == SupersedeMatching(old(rows), inserted.scope, inserted.device, inserted.group, inserted.id)
                      + [inserted]
    {
      rows := rows + [inserted];
      SupersedeRows(existing, inserted.id);
      assert rows == SupersedeMatching(old(rows), inserted.scope, inserted.device, inserted.group, inserted.id)
                     + [inserted];
    }

    /** The add that inserts `r` supersedes `older`. */
    static predicate Superseded(r: Row<P>, older: Row<P>) {
      Replaces(r.scope, r.device, r.group, older)
    }

    /** The rows an `add` supersedes, and what it reads off them. */
    method ToSupersede(scope: int, device: Option<int>, group: Option<int>)
      returns (existing: seq<nat>, version: nat, configVersion: int)
      ensures forall m | 0 <= m < |existing| ::
        existing[m] < |rows| && Replaces(scope, device, group, rows[existing[m]])
      ensures forall k | 0 <= k < |rows| && Replaces(scope, device, group, rows[k]) :: k in existing
      ensures version == MaxVersion(rows, scope, device, group)
      ensures configVersion == CarriedConfigVersion(rows, scope, device, group)
    {
      existing := Existing(scope, device, group);
      configVersion := if existing == [] then 1 else rows[existing[0]].configVersion;
      version := LargestVersion(existing);
      MaxVersionIs(rows, scope, device, group, existing, version);
      CarriedIs(rows, scope, device, group, existing);
    }

    method LargestVersion(found: seq<nat>) returns (version: nat)
      requires forall m | 0 <= m < |found| :: found[m] < |rows|
      ensures forall m | 0 <= m < |found| :: rows[found[m]].version <= version
      ensures version == 0 || exists m :: 0 <= m < |found| && rows[found[m]].version == version
    {
      version := 0;
      var n := 0;
      while n < |found|
        invariant n <= |found|
        invariant forall m | 0 <= m < n :: rows[found[m]].version <= version
        invariant version == 0 || exists m :: 0 <= m < n && rows[found[m]].version == version
      {
        if rows[found[n]].version > version {
          version := rows[found[n]].version;
        }
        n := n + 1;
      }
    }

    /** Indices of the rows an `add` supersedes. */
    method Existing(scope: int, device: Option<int>, group: Option<int>) returns (found: seq<nat>)
      ensures forall m | 0 <= m < |found| :: found[m] < |rows| && Replaces(scope, device, group, rows[found[m]])
      ensures forall k | 0 <= k < |rows| && Replaces(scope, device, group, rows[k]) :: k in found
      ensures forall m, k | 0 <= m < k < |found| :: found[m] < found[k]
    {
      found := [];
      var k := 0;
      while k < |rows|
        invariant k <= |rows|
        invariant forall m | 0 <= m < |found| :: found[m] < k && Replaces(scope, device, group, rows[found[m]])
        invariant forall i | 0 <= i < k && Replaces(scope, device, group, rows[i]) :: i in found
        invariant forall m, i | 0 <= m < i < |found| :: found[m] < found[i]
      {
        if Replaces(scope, device, group, rows[k]) {
          found := found + [k];
        }
        k := k + 1;
      }
    }

    method SupersedeRows(found: seq<nat>, newId: nat)
      requires forall m | 0 <= m < |found| :: found[m] < |rows|
      modifies this
      ensures |rows| == |old(rows)|
      ensures forall k | 0 <= k < |rows| ::
        rows[k] == if k in found then old(rows)[k].(supersededBy := Some(newId)) else old(rows)[k]
    {
      var n := 0;
      while n < |found|
        invariant n <= |found| && |rows| == |old(rows)|
        invariant forall k | 0 <= k < |rows| ::
          rows[k] == if k in found[..n] then old(rows)[k].(supersededBy := Some(newId)) else old(rows)[k]
      {
        assert found[..n + 1] == found[..n] + [found[n]];
        rows := rows[found[n] := rows[found[n]].(supersededBy := Some(newId))];
        n := n + 1;
      }
      assert found[..n] == found;
    }

    method UpdateRow(id: nat, scope: int, device: Option<int>, group: Option<int>, payload: P)
      returns (r: Result<Row<P>, DbError>)
      modifies this
      ensures match Perform(old(rows), Update(id, scope, device, group, payload), rule)
              case Ok(after) => rows == after && r == Ok(rows[|rows| - 1])
              case Err(e) => rows == old(rows) && r == Err(e)
    {
      var current := FindActive(rows, id);
      if current.None? {
        return Err(NotFound);
      }
      if !Accepts(rule, device, group) {
        return Err(Rejected);
      }
      var k := current.value;
      var replaced := rows[k];
      var inserted := Row(
        |rows| + 1, scope, device, group, replaced.version + 1, replaced.configVersion, payload, false, None);
      rows := rows + [inserted];
      rows := rows[k := rows[k].(supersededBy := Some(inserted.id))];
      assert rows == old(rows)[k := old(rows)[k].(supersededBy := Some(inserted.id))] + [inserted];
      return Ok(inserted);
    }

    method DeleteRow(id: nat) returns (count: nat)
      modifies this
      ensures rows == Step(old(rows), Op<P>.Delete(id), rule)
      ensures count == if FindActive(old(rows), id).Some? then 1 else 0
    {
      var current := FindActive(rows, id);
      if current.None? {
        return 0;
      }
      rows := rows[current.value := rows[current.value].(deleted := true)];
      return 1;
    }
  }

  lemma MaxVersionIs<P>(rows: seq<Row<P>>, scope: int, device: Option<int>, group: Option<int>, found: seq<nat>, v: nat)
    requires forall m | 0 <= m < |found| :: found[m] < |rows| && Replaces(scope, device, group, rows[found[m]])
    requires forall k | 0 <= k < |rows| && Replaces(scope, device, group, rows[k]) :: k in found
    requires forall m | 0 <= m < |found| :: rows[found[m]].version <= v
    requires v == 0 || exists m :: 0 <= m < |found| && rows[found[m]].version == v
    ensures MaxVersion(rows, scope, device, group) == v
  {
  }

  lemma CarriedIs<P>(
    rows: seq<Row<P>>, scope: int, device: Option<int>, group: Option<int>, found: seq<nat>)
    requires forall m | 0 <= m < |found| :: found[m] < |rows| && Replaces(scope, device, group, rows[found[m]])
    requires forall k | 0 <= k < |rows| && Replaces(scope, device, group, rows[k]) :: k in found
    requires forall m, k | 0 <= m < k < |found| :: found[m] < found[k]
    ensures CarriedConfigVersion(rows, scope, device, group) ==
      if found == [] then 1 else rows[found[0]].configVersion
  {
    FirstCarried(rows, scope, device, group, if found == [] then |rows| else found[0]);
  }

  lemma {:induction false} FirstCarried<P>(
    rows: seq<Row<P>>, scope: int, device: Option<int>, group: Option<int>, k: nat)
    requires k <= |rows| && (forall j | 0 <= j < k :: !Replaces(scope, device, group, rows[j]))
    requires k < |rows| ==> Replaces(scope, device, group, rows[k])
    ensures CarriedConfigVersion(rows, scope, device, group) == if k == |rows| then 1 else rows[k].configVersion
  {
    if k > 0 {
      FirstCarried(rows[1..], scope, device, group, k - 1);
    }
  }
}
