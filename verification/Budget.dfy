/** Compatibility budgets: narrow scopes claim findings before broad ones. */
module Budget {
  import opened Prelude
  import opened Findings

  datatype Metric = Raw | Unsuppressed

  datatype Scope = Global | AxisScope(axis: Axis) | RuleScope(ruleId: string)

  datatype Entry = Entry(scope: Scope, severity: Option<Severity>, metric: Metric, limit: nat)

  /** An entry as the configuration file spells it. */
  datatype EntryFile = EntryFile(
    scope: string, axis: Option<Axis>, ruleId: Option<string>,
    severity: Option<Severity>, metric: Option<Metric>, limit: int)

  datatype Reported = Reported(ruleId: string, axes: seq<Axis>, finding: Finding, suppressed: bool)

  datatype Violation = Violation(scope: string, metric: Metric, severity: Option<Severity>, measured: nat, limit: nat)

  // ------------------------------------------------------------------
  // Reading the configuration
  // ------------------------------------------------------------------

  function AxisLabel(a: Axis): string {
    match a
    case StorageLayout => "storage_layout"
    case CallAbi => "call_abi"
    case EventIndexer => "event_indexer"
    case SourceLevel => "source_level"
    case RuntimeSurface => "runtime_surface"
  }

  function Label(s: Scope): string {
    match s
    case Global => "global"
    case AxisScope(a) => "axis:" + AxisLabel(a)
    case RuleScope(r) => "rule:" + r
  }

  lemma AxisLabelsDiffer(a: Axis, b: Axis)
    requires AxisLabel(a) == AxisLabel(b)
    ensures a == b
  {
  }

  /** Labels serve as keys: different scopes never share one. */
  lemma LabelsDiffer(s: Scope, t: Scope)
    requires Label(s) == Label(t)
    ensures s == t
  {
    assert Label(s)[0] == Label(t)[0];
    if s.AxisScope? && t.AxisScope? {
      assert Label(s)[5..] == AxisLabel(s.axis) && Label(t)[5..] == AxisLabel(t.axis);
      AxisLabelsDiffer(s.axis, t.axis);
    } else if s.RuleScope? && t.RuleScope? {
      assert Label(s)[5..] == s.ruleId && Label(t)[5..] == t.ruleId;
    }
  }

  /** The scope an entry spells, if it spells one. */
  function ParseScope(e: EntryFile, known: string -> bool): Option<Scope> {
    if e.scope == "global" then Some(Global)
    else if e.scope == "axis" then (if e.axis.Some? then Some(AxisScope(e.axis.value)) else None)
    else if e.scope == "rule" then
      (if e.ruleId.Some? && e.ruleId.value != "" && known(e.ruleId.value) then Some(RuleScope(e.ruleId.value)) else None)
    else None
  }

  predicate ReadsWell(e: EntryFile, known: string -> bool) {
    ParseScope(e, known).Some? && e.limit >= 0
  }

  function Normalize(e: EntryFile, known: string -> bool): Entry
    requires ReadsWell(e, known)
  {
    Entry(ParseScope(e, known).value, e.severity, if e.metric.Some? then e.metric.value else Unsuppressed, e.limit)
  }

  /** The file's entry spells this one, its scope and limit both in order. */
  ghost predicate Spells(e: EntryFile, known: string -> bool, x: Entry) {
    && e.limit >= 0 && x.limit == e.limit && x.severity == e.severity
    && (x.metric == Raw <==> e.metric == Some(Raw))
    && match x.scope
       case Global => e.scope == "global"
       case AxisScope(a) => e.scope == "axis" && e.axis == Some(a)
       case RuleScope(r) => e.scope == "rule" && e.ruleId == Some(r) && r != "" && known(r)
  }

  lemma EntryIsExact(e: EntryFile, known: string -> bool, x: Entry)
    ensures ReadsWell(e, known) && Normalize(e, known) == x <==> Spells(e, known, x)
  {
  }

  predicate SameKey(x: Entry, y: Entry) {
    x.scope == y.scope && x.severity == y.severity
  }

  /** Entries read, and none says two things about one scope and severity. */
  ghost predicate Consistent(raw: seq<EntryFile>, known: string -> bool) {
    && (forall e :: e in raw ==> ReadsWell(e, known))
    && forall e, f :: e in raw && f in raw && SameKey(Normalize(e, known), Normalize(f, known)) ==>
         Normalize(e, known) == Normalize(f, known)
  }

  function KeyFor(x: Entry): (string, Option<Severity>) {
    (Label(x.scope), x.severity)
  }

  lemma KeysAreExact(x: Entry, y: Entry)
    ensures KeyFor(x) == KeyFor(y) <==> SameKey(x, y)
  {
    if KeyFor(x) == KeyFor(y) {
      LabelsDiffer(x.scope, y.scope);
    }
  }

  ghost predicate OnePerKey(entries: seq<Entry>) {
    forall i, j :: 0 <= i < j < |entries| ==> !SameKey(entries[i], entries[j])
  }

  /** Everything read so far is represented. */
  ghost predicate Represents(entries: seq<Entry>, raw: seq<EntryFile>, known: string -> bool) {
    forall e :: e in raw ==> ReadsWell(e, known) && Normalize(e, known) in entries
  }

  /** x is read at position p, and nothing of its scope and severity before. */
  ghost predicate FirstAt(x: Entry, p: nat, raw: seq<EntryFile>, known: string -> bool) {
    && p < |raw| && ReadsWell(raw[p], known) && Normalize(raw[p], known) == x
    && forall j :: 0 <= j < p && ReadsWell(raw[j], known) ==> !SameKey(Normalize(raw[j], known), x)
  }

  /** The entries are first occurrences, at these positions of the file. */
  ghost predicate InFileOrder(entries: seq<Entry>, positions: seq<nat>, raw: seq<EntryFile>, known: string -> bool) {
    && |positions| == |entries|
    && (forall i, j :: 0 <= i < j < |positions| ==> positions[i] < positions[j])
    && forall i :: 0 <= i < |entries| ==> FirstAt(entries[i], positions[i], raw, known)
  }

  /** What reading has established so far. */
  ghost predicate ReadTo(raw: seq<EntryFile>, known: string -> bool, entries: seq<Entry>, positions: seq<nat>, failed: bool) {
    && (failed <==> !Consistent(raw, known)) && (!failed ==> Represents(entries, raw, known))
    && OnePerKey(entries) && InFileOrder(entries, positions, raw, known)
    && forall e :: e in raw && ReadsWell(e, known) ==> exists x :: x in entries && SameKey(x, Normalize(e, known))
  }

  lemma OrderStays(entries: seq<Entry>, positions: seq<nat>, raw: seq<EntryFile>, e: EntryFile, known: string -> bool)
    requires InFileOrder(entries, positions, raw, known)
    ensures InFileOrder(entries, positions, raw + [e], known)
  {
    hide ReadsWell, Normalize;
    forall i | 0 <= i < |entries| ensures FirstAt(entries[i], positions[i], raw + [e], known) {
      assert FirstAt(entries[i], positions[i], raw, known);
    }
  }

  lemma OrderGrows(entries: seq<Entry>, positions: seq<nat>, raw: seq<EntryFile>, e: EntryFile, known: string -> bool)
    requires InFileOrder(entries, positions, raw, known) && ReadsWell(e, known)
    requires forall f :: f in raw && ReadsWell(f, known) ==> !SameKey(Normalize(f, known), Normalize(e, known))
    ensures InFileOrder(entries + [Normalize(e, known)], positions + [|raw|], raw + [e], known)
  {
    hide ReadsWell, Normalize, SameKey;
    OrderStays(entries, positions, raw, e, known);
    assert FirstAt(Normalize(e, known), |raw|, raw + [e], known);
    forall i | 0 <= i < |positions| ensures positions[i] < |raw| {
      assert FirstAt(entries[i], positions[i], raw, known);
    }
  }

  lemma ReadBad(raw: seq<EntryFile>, e: EntryFile, known: string -> bool, entries: seq<Entry>, positions: seq<nat>, failed: bool)
    requires ReadTo(raw, known, entries, positions, failed) && !ReadsWell(e, known)
    ensures ReadTo(raw + [e], known, entries, positions, true)
  {
    assert e in raw + [e];
    assert forall f :: f in raw + [e] <==> f in raw || f == e;
    OrderStays(entries, positions, raw, e, known);
    hide InFileOrder, OnePerKey, Normalize, ReadsWell, SameKey;
  }

  lemma NewIsConsistent(raw: seq<EntryFile>, e: EntryFile, known: string -> bool)
    requires ReadsWell(e, known)
    requires forall f :: f in raw && ReadsWell(f, known) ==> !SameKey(Normalize(f, known), Normalize(e, known))
    ensures Consistent(raw + [e], known) <==> Consistent(raw, known)
  {
    assert forall f :: f in raw + [e] <==> f in raw || f == e;
    hide ReadsWell, Normalize;
  }

  lemma ReadNew(raw: seq<EntryFile>, e: EntryFile, known: string -> bool, entries: seq<Entry>, positions: seq<nat>, failed: bool)
    requires ReadTo(raw, known, entries, positions, failed) && ReadsWell(e, known)
    requires forall x :: x in entries ==> !SameKey(x, Normalize(e, known))
    ensures ReadTo(raw + [e], known, entries + [Normalize(e, known)], positions + [|raw|], failed)
  {
    assert forall f :: f in raw + [e] <==> f in raw || f == e;
    hide ReadsWell, Normalize;
    forall f | f in raw && ReadsWell(f, known) ensures !SameKey(Normalize(f, known), Normalize(e, known)) {
      var x :| x in entries && SameKey(x, Normalize(f, known));
    }
    NewIsConsistent(raw, e, known);
    OrderGrows(entries, positions, raw, e, known);
    hide InFileOrder, Consistent;
    assert Normalize(e, known) in entries + [Normalize(e, known)];
  }

  lemma OldIsConsistent(raw: seq<EntryFile>, f: EntryFile, e: EntryFile, known: string -> bool)
    requires ReadsWell(e, known) && f in raw && ReadsWell(f, known) && SameKey(Normalize(f, known), Normalize(e, known))
    ensures Consistent(raw + [e], known) <==> Consistent(raw, known) && Normalize(f, known) == Normalize(e, known)
  {
    assert forall g :: g in raw + [e] <==> g in raw || g == e;
    hide ReadsWell, Normalize;
  }

  lemma ReadOld(raw: seq<EntryFile>, e: EntryFile, known: string -> bool, entries: seq<Entry>, positions: seq<nat>, failed: bool, x: Entry)
    requires ReadTo(raw, known, entries, positions, failed) && ReadsWell(e, known)
    requires x in entries && SameKey(x, Normalize(e, known))
    ensures ReadTo(raw + [e], known, entries, positions, failed || x != Normalize(e, known))
  {
    hide ReadsWell, Normalize;
    var i :| 0 <= i < |entries| && entries[i] == x;
    assert FirstAt(x, positions[i], raw, known);
    OldIsConsistent(raw, raw[positions[i]], e, known);
    OrderStays(entries, positions, raw, e, known);
    assert forall f :: f in raw + [e] <==> f in raw || f == e;
    hide InFileOrder, Consistent, FirstAt, SameKey;
  }

  /** The map knows exactly the entries, each by its scope and severity. */
  ghost predicate Indexes(seen: map<(string, Option<Severity>), Entry>, entries: seq<Entry>) {
    && (forall x :: x in entries ==> KeyFor(x) in seen && seen[KeyFor(x)] == x)
    && forall k :: k in seen ==> seen[k] in entries && k == KeyFor(seen[k])
  }

  lemma Looked(seen: map<(string, Option<Severity>), Entry>, entries: seq<Entry>, y: Entry)
    requires Indexes(seen, entries)
    ensures KeyFor(y) in seen ==> seen[KeyFor(y)] in entries && SameKey(seen[KeyFor(y)], y)
    ensures KeyFor(y) !in seen ==> forall x :: x in entries ==> !SameKey(x, y)
    ensures KeyFor(y) !in seen ==> Indexes(seen[KeyFor(y) := y], entries + [y])
  {
    if KeyFor(y) in seen {
      KeysAreExact(seen[KeyFor(y)], y);
    } else {
      forall x | x in entries ensures !SameKey(x, y) {
        KeysAreExact(x, y);
      }
      hide KeyFor;
      assert forall x :: x in entries + [y] <==> x in entries || x == y;
    }
  }

  lemma NothingRead(known: string -> bool)
    ensures ReadTo([], known, [], [], false) && Indexes(map[], [])
  {
  }

  lemma WhatWasRead(raw: seq<EntryFile>, known: string -> bool, entries: seq<Entry>, positions: seq<nat>, failed: bool)
    requires ReadTo(raw, known, entries, positions, failed)
    ensures failed <==> !Consistent(raw, known)
    ensures !failed ==> Represents(entries, raw, known)
    ensures OnePerKey(entries) && InFileOrder(entries, positions, raw, known)
  {
  }

  /** The configuration is accepted iff every entry reads well and no two of
      them contradict; the accepted entries are the first occurrences, in file
      order, one per scope and severity.  Of the source's messages only their
      presence is kept. */
  method FromFileEntries(raw: seq<EntryFile>, known: string -> bool) returns (r: Option<seq<Entry>>)
    ensures r.Some? <==> Consistent(raw, known)
    ensures r.Some? ==> OnePerKey(r.value) && Represents(r.value, raw, known)
    ensures r.Some? ==> exists positions :: InFileOrder(r.value, positions, raw, known)
  {
    hide Label, KeyFor, Normalize, ReadsWell, SameKey, ReadTo, Indexes;
    var failed := false;
    var entries: seq<Entry> := [];
    var seen: map<(string, Option<Severity>), Entry> := map[];
    ghost var positions: seq<nat> := [];
    NothingRead(known);
    for i := 0 to |raw|
      invariant ReadTo(raw[..i], known, entries, positions, failed) && Indexes(seen, entries)
    {
      assert raw[..i + 1] == raw[..i] + [raw[i]];
      if !ReadsWell(raw[i], known) {
        ReadBad(raw[..i], raw[i], known, entries, positions, failed);
        failed := true;
        continue;
      }
      var entry := Normalize(raw[i], known);
      var key := KeyFor(entry);
      Looked(seen, entries, entry);
      if key !in seen {
        ReadNew(raw[..i], raw[i], known, entries, positions, failed);
        seen := seen[key := entry];
        entries := entries + [entry];
        positions := positions + [i];
      } else {
        ReadOld(raw[..i], raw[i], known, entries, positions, failed, seen[key]);
        if seen[key] != entry {
          failed := true;
        }
      }
    }
    assert raw[..|raw|] == raw;
    WhatWasRead(raw, known, entries, positions, failed);
    r := if failed then None else Some(entries);
  }

  // ------------------------------------------------------------------
  // Evaluation
  // ------------------------------------------------------------------

  datatype Claimant = ByRule | ByAxis(axis: Axis) | Unclaimed

  predicate HasScope(entries: seq<Entry>, s: Scope) {
    exists e :: e in entries && e.scope == s
  }

  function FirstAxis(entries: seq<Entry>, axes: seq<Axis>): Option<Axis> {
    if axes == [] then None
    else if HasScope(entries, AxisScope(axes[0])) then Some(axes[0])
    else FirstAxis(entries, axes[1..])
  }

  /** The narrowest scope that claims a finding. */
  function ClaimantOf(entries: seq<Entry>, f: Reported): Claimant {
    if HasScope(entries, RuleScope(f.ruleId)) then ByRule
    else
      var a := FirstAxis(entries, f.axes);
      if a.Some? then ByAxis(a.value) else Unclaimed
  }

  function Pool(findings: seq<Reported>, entries: seq<Entry>, c: Claimant): seq<Reported> {
    if findings == [] then []
    else
      var last := findings[|findings| - 1];
      Pool(findings[..|findings| - 1], entries, c) + if ClaimantOf(entries, last) == c then [last] else []
  }

  lemma PoolGrows(findings: seq<Reported>, entries: seq<Entry>, f: Reported, c: Claimant)
    ensures |Pool(findings + [f], entries, c)|
         == |Pool(findings, entries, c)| + if ClaimantOf(entries, f) == c then 1 else 0
  {
    assert (findings + [f])[..|findings|] == findings;
  }

  function PooledOnAxes(findings: seq<Reported>, entries: seq<Entry>): nat {
    |Pool(findings, entries, ByAxis(StorageLayout))| + |Pool(findings, entries, ByAxis(CallAbi))|
    + |Pool(findings, entries, ByAxis(EventIndexer))| + |Pool(findings, entries, ByAxis(SourceLevel))|
    + |Pool(findings, entries, ByAxis(RuntimeSurface))|
  }

  /** Each finding is in exactly one pool, so the sizes add up. */
  lemma {:induction false} PoolsPartition(findings: seq<Reported>, entries: seq<Entry>)
    ensures |Pool(findings, entries, ByRule)| + PooledOnAxes(findings, entries)
          + |Pool(findings, entries, Unclaimed)| == |findings|
  {
    if findings != [] {
      var rest, last := findings[..|findings| - 1], findings[|findings| - 1];
      PoolsPartition(rest, entries);
      assert findings == rest + [last];
      PoolGrows(rest, entries, last, ByRule);
      PoolGrows(rest, entries, last, Unclaimed);
      PoolGrows(rest, entries, last, ByAxis(StorageLayout));
      PoolGrows(rest, entries, last, ByAxis(CallAbi));
      PoolGrows(rest, entries, last, ByAxis(EventIndexer));
      PoolGrows(rest, entries, last, ByAxis(SourceLevel));
      PoolGrows(rest, entries, last, ByAxis(RuntimeSurface));
      hide Pool, ClaimantOf;
      match ClaimantOf(entries, last)
      case ByRule =>
      case Unclaimed =>
      case ByAxis(a) =>
        match a {
          case StorageLayout =>
          case CallAbi =>
          case EventIndexer =>
          case SourceLevel =>
          case RuntimeSurface =>
        }
    }
  }

  predicate Counts(e: Entry, f: Reported) {
    && (e.severity.None? || e.severity.value == f.finding.severity)
    && (e.metric == Raw || !f.suppressed)
  }

  /** Whether a finding is in the pool that an entry looks at. */
  predicate InScope(entries: seq<Entry>, e: Entry, f: Reported) {
    match e.scope
    case Global => ClaimantOf(entries, f) == Unclaimed
    case AxisScope(a) => ClaimantOf(entries, f) == ByAxis(a)
    case RuleScope(r) => ClaimantOf(entries, f) == ByRule && f.ruleId == r
  }

  /** What an entry measures: the findings it claims, filtered. */
  function Measured(findings: seq<Reported>, entries: seq<Entry>, e: Entry): nat {
    if findings == [] then 0
    else
      var last := findings[|findings| - 1];
      Measured(findings[..|findings| - 1], entries, e)
      + if InScope(entries, e, last) && Counts(e, last) then 1 else 0
  }

  function Violations(findings: seq<Reported>, entries: seq<Entry>, n: nat): seq<Violation>
    requires n <= |entries|
  {
    if n == 0 then []
    else
      var e := entries[n - 1];
      var measured := Measured(findings, entries, e);
      Violations(findings, entries, n - 1)
      + if measured > e.limit then [Violation(Label(e.scope), e.metric, e.severity, measured, e.limit)] else []
  }

  class Pools {
    var byRule: seq<Reported>
    var byAxis: map<Axis, seq<Reported>>
    var unclaimed: seq<Reported>

    constructor ()
      ensures byRule == [] && byAxis == map[] && unclaimed == []
    {
      byRule, byAxis, unclaimed := [], map[], [];
    }

    function OnAxis(a: Axis): seq<Reported>
      reads this
    {
      if a in byAxis then byAxis[a] else []
    }

    ghost predicate Hold(findings: seq<Reported>, entries: seq<Entry>)
      reads this
    {
      && byRule == Pool(findings, entries, ByRule)
      && (forall a :: OnAxis(a) == Pool(findings, entries, ByAxis(a)))
      && unclaimed == Pool(findings, entries, Unclaimed)
    }

    method Claim(entries: seq<Entry>, f: Reported, ghost before: seq<Reported>)
      requires Hold(before, entries)
      modifies this
      ensures Hold(before + [f], entries)
    {
      assert (before + [f])[..|before|] == before;
      if HasScope(entries, RuleScope(f.ruleId)) {
        byRule := byRule + [f];
        return;
      }
      var i := 0;
      while i < |f.axes|
        invariant i <= |f.axes| && FirstAxis(entries, f.axes) == FirstAxis(entries, f.axes[i..])
      {
        if HasScope(entries, AxisScope(f.axes[i])) {
          byAxis := byAxis[f.axes[i] := OnAxis(f.axes[i]) + [f]];
          return;
        }
        assert f.axes[i..][1..] == f.axes[i + 1..];
        i := i + 1;
      }
      unclaimed := unclaimed + [f];
    }
  }

  function CountIn(pool: seq<Reported>, e: Entry): nat {
    if pool == [] then 0
    else
      var last := pool[|pool| - 1];
      CountIn(pool[..|pool| - 1], e)
      + if Counts(e, last) && (e.scope.RuleScope? ==> last.ruleId == e.scope.ruleId) then 1 else 0
  }

  function ClaimantFor(s: Scope): Claimant {
    match s
    case Global => Unclaimed
    case AxisScope(a) => ByAxis(a)
    case RuleScope(_) => ByRule
  }

  lemma InScopeIsPooled(entries: seq<Entry>, e: Entry, f: Reported)
    ensures InScope(entries, e, f)
       <==> ClaimantOf(entries, f) == ClaimantFor(e.scope) && (e.scope.RuleScope? ==> f.ruleId == e.scope.ruleId)
  {
    hide ClaimantOf;
  }

  lemma {:induction false} CountIsMeasured(findings: seq<Reported>, entries: seq<Entry>, e: Entry)
    ensures CountIn(Pool(findings, entries, ClaimantFor(e.scope)), e) == Measured(findings, entries, e)
  {
    if findings != [] {
      var n, c := |findings| - 1, ClaimantFor(e.scope);
      CountIsMeasured(findings[..n], entries, e);
      InScopeIsPooled(entries, e, findings[n]);
      hide InScope, ClaimantOf, ClaimantFor, Counts;
      var pool := Pool(findings[..n], entries, c);
      assert (pool + [findings[n]])[..|pool|] == pool;
      assert pool + [] == pool;
    }
  }

  method CountPool(pool: seq<Reported>, e: Entry) returns (n: nat)
    ensures n == CountIn(pool, e)
  {
    n := 0;
    for i := 0 to |pool|
      invariant n == CountIn(pool[..i], e)
    {
      assert pool[..i + 1][..i] == pool[..i];
      if (e.scope.RuleScope? ==> pool[i].ruleId == e.scope.ruleId) && Counts(e, pool[i]) {
        n := n + 1;
      }
    }
    assert pool[..|pool|] == pool;
  }

  method Partition(findings: seq<Reported>, entries: seq<Entry>) returns (pools: Pools)
    ensures fresh(pools) && pools.Hold(findings, entries)
  {
    pools := new Pools();
    for i := 0 to |findings|
      invariant fresh(pools) && pools.Hold(findings[..i], entries)
    {
      assert findings[..i + 1] == findings[..i] + [findings[i]];
      pools.Claim(entries, findings[i], findings[..i]);
    }
    assert findings[..|findings|] == findings;
  }

  // ------------------------------------------------------------------
  // The verdict, told by which entry a finding is charged to
  // ------------------------------------------------------------------

  ghost predicate IsFirstAxis(entries: seq<Entry>, axes: seq<Axis>, a: Axis) {
    && (exists e :: e in entries && e.scope == AxisScope(a))
    && exists k :: 0 <= k < |axes| && axes[k] == a && forall j :: 0 <= j < k ==> forall e :: e in entries ==> e.scope != AxisScope(axes[j])
  }

  /** The narrowest scope with an entry: the finding's rule, else the first of
      its axes to have one, else everything. */
  ghost predicate NarrowestIs(entries: seq<Entry>, s: Scope, f: Reported) {
    var ruled := exists e :: e in entries && e.scope == RuleScope(f.ruleId);
    match s
    case RuleScope(r) => ruled && r == f.ruleId
    case AxisScope(a) => !ruled && IsFirstAxis(entries, f.axes, a)
    case Global => !ruled && forall e :: e in entries && e.scope.AxisScope? ==> e.scope.axis !in f.axes
  }

  /** The finding is charged to the entry's scope, and passes its filters. */
  ghost predicate Charged(entries: seq<Entry>, e: Entry, f: Reported) {
    && NarrowestIs(entries, e.scope, f)
    && (e.severity == None || e.severity == Some(f.finding.severity))
    && (e.metric == Raw || !f.suppressed)
  }

  ghost function Charges(findings: seq<Reported>, entries: seq<Entry>, e: Entry): set<int> {
    set i | 0 <= i < |findings| && Charged(entries, e, findings[i])
  }

  lemma FirstAxisStep(entries: seq<Entry>, axes: seq<Axis>, a: Axis)
    requires axes != []
    ensures IsFirstAxis(entries, axes, a) <==>
      if HasScope(entries, AxisScope(axes[0])) then a == axes[0] else IsFirstAxis(entries, axes[1..], a)
  {
    if IsFirstAxis(entries, axes, a) {
      var k :| 0 <= k < |axes| && axes[k] == a && forall j :: 0 <= j < k ==> forall e :: e in entries ==> e.scope != AxisScope(axes[j]);
      if k > 0 {
        assert axes[1..][k - 1] == a && forall j :: 0 <= j < k - 1 ==> axes[1..][j] == axes[j + 1];
      }
    }
    if !HasScope(entries, AxisScope(axes[0])) && IsFirstAxis(entries, axes[1..], a) {
      var k :| 0 <= k < |axes| - 1 && axes[1..][k] == a && forall j :: 0 <= j < k ==> forall e :: e in entries ==> e.scope != AxisScope(axes[1..][j]);
      assert axes[k + 1] == a;
      forall j | 0 <= j < k + 1 ensures forall e :: e in entries ==> e.scope != AxisScope(axes[j]) {
        if j > 0 {
          assert axes[1..][j - 1] == axes[j];
        }
      }
    }
  }

  lemma {:induction false} FirstAxisIsExact(entries: seq<Entry>, axes: seq<Axis>)
    ensures forall a :: FirstAxis(entries, axes) == Some(a) <==> IsFirstAxis(entries, axes, a)
    ensures FirstAxis(entries, axes) == None <==> forall e :: e in entries && e.scope.AxisScope? ==> e.scope.axis !in axes
  {
    if axes != [] {
      FirstAxisIsExact(entries, axes[1..]);
      assert axes == [axes[0]] + axes[1..];
      forall a ensures FirstAxis(entries, axes) == Some(a) <==> IsFirstAxis(entries, axes, a) {
        FirstAxisStep(entries, axes, a);
      }
    }
  }

  /** The pool a finding is put into is that of its narrowest scope. */
  lemma ClaimantIsNarrowest(entries: seq<Entry>, e: Entry, f: Reported)
    ensures InScope(entries, e, f) <==> NarrowestIs(entries, e.scope, f)
  {
    FirstAxisIsExact(entries, f.axes);
    assert HasScope(entries, RuleScope(f.ruleId)) <==> exists x :: x in entries && x.scope == RuleScope(f.ruleId);
    hide FirstAxis, IsFirstAxis, HasScope;
  }

  /** An entry measures the number of findings charged to it. */
  lemma {:induction false} MeasuredIsExact(findings: seq<Reported>, entries: seq<Entry>, e: Entry)
    ensures Measured(findings, entries, e) == |Charges(findings, entries, e)|
  {
    if findings == [] {
      assert Charges(findings, entries, e) == {};
    } else {
      var n := |findings| - 1;
      var before, after := Charges(findings[..n], entries, e), Charges(findings, entries, e);
      MeasuredIsExact(findings[..n], entries, e);
      ClaimantIsNarrowest(entries, e, findings[n]);
      hide InScope, NarrowestIs;
      if Charged(entries, e, findings[n]) {
        assert after == before + {n};
      } else {
        assert after == before;
      }
    }
  }

  /** The entry is exceeded, and this is how it is told. */
  ghost predicate Exceeds(findings: seq<Reported>, entries: seq<Entry>, e: Entry, v: Violation) {
    var n := |Charges(findings, entries, e)|;
    n > e.limit && v == Violation(Label(e.scope), e.metric, e.severity, n, e.limit)
  }

  /** The violations are those of the exceeded entries, at these positions and
      in that order, and of no others. */
  ghost predicate TellsExceeded(findings: seq<Reported>, entries: seq<Entry>, n: nat, violations: seq<Violation>, at: seq<nat>) {
    && |at| == |violations|
    && (forall i, j :: 0 <= i < j < |at| ==> at[i] < at[j])
    && (forall i :: 0 <= i < |at| ==> at[i] < n <= |entries| && Exceeds(findings, entries, entries[at[i]], violations[i]))
    && forall k :: 0 <= k < n <= |entries| && k !in at ==> |Charges(findings, entries, entries[k])| <= entries[k].limit
  }

  lemma TellsNothing(findings: seq<Reported>, entries: seq<Entry>)
    ensures TellsExceeded(findings, entries, 0, Violations(findings, entries, 0), [])
  {
    hide Charges, Exceeds;
  }

  lemma TellsNoMore(findings: seq<Reported>, entries: seq<Entry>, n: nat, violations: seq<Violation>, at: seq<nat>)
    requires n < |entries| && TellsExceeded(findings, entries, n, violations, at)
    requires |Charges(findings, entries, entries[n])| <= entries[n].limit
    ensures TellsExceeded(findings, entries, n + 1, violations, at)
  {
    hide Charges, Exceeds;
  }

  lemma TellsOneMore(findings: seq<Reported>, entries: seq<Entry>, n: nat, violations: seq<Violation>, at: seq<nat>, v: Violation)
    requires n < |entries| && TellsExceeded(findings, entries, n, violations, at)
    requires Exceeds(findings, entries, entries[n], v)
    ensures TellsExceeded(findings, entries, n + 1, violations + [v], at + [n])
  {
    hide Charges, Exceeds;
    assert forall i :: 0 <= i < |at| ==> (at + [n])[i] == at[i] && (violations + [v])[i] == violations[i];
    assert forall k :: k in at + [n] <==> k in at || k == n;
  }

  lemma ViolationsStep(findings: seq<Reported>, entries: seq<Entry>, n: nat, v: Violation)
    requires n < |entries|
    ensures |Charges(findings, entries, entries[n])| <= entries[n].limit ==>
      Violations(findings, entries, n + 1) == Violations(findings, entries, n)
    ensures Exceeds(findings, entries, entries[n], v) ==>
      Violations(findings, entries, n + 1) == Violations(findings, entries, n) + [v]
  {
    MeasuredIsExact(findings, entries, entries[n]);
    hide Charges, Label, Measured;
  }

  lemma TellsNext(findings: seq<Reported>, entries: seq<Entry>, n: nat, at: seq<nat>) returns (after: seq<nat>)
    requires n < |entries| && TellsExceeded(findings, entries, n, Violations(findings, entries, n), at)
    ensures TellsExceeded(findings, entries, n + 1, Violations(findings, entries, n + 1), after)
  {
    hide TellsExceeded, Charges, Label, Violations, Measured;
    var e, before := entries[n], Violations(findings, entries, n);
    var measured := |Charges(findings, entries, e)|;
    var v := Violation(Label(e.scope), e.metric, e.severity, measured, e.limit);
    ViolationsStep(findings, entries, n, v);
    if measured > e.limit {
      TellsOneMore(findings, entries, n, before, at, v);
      after := at + [n];
    } else {
      TellsNoMore(findings, entries, n, before, at);
      after := at;
    }
  }

  lemma {:induction false} ViolationsAreExceeded(findings: seq<Reported>, entries: seq<Entry>, n: nat) returns (at: seq<nat>)
    requires n <= |entries|
    ensures TellsExceeded(findings, entries, n, Violations(findings, entries, n), at)
  {
    TellsNothing(findings, entries);
    hide TellsExceeded, Violations;
    at := [];
    if n > 0 {
      at := ViolationsAreExceeded(findings, entries, n - 1);
      at := TellsNext(findings, entries, n - 1, at);
    }
  }

  /** One violation per entry whose measured count exceeds its limit, in entry
      order. */
  method Evaluate(findings: seq<Reported>, entries: seq<Entry>) returns (violations: seq<Violation>)
    ensures violations == Violations(findings, entries, |entries|)
    ensures exists at :: TellsExceeded(findings, entries, |entries|, violations, at)
  {
    hide Pool, ClaimantOf, InScope, Counts, Label, Measured, CountIn, TellsExceeded;
    violations := [];
    if entries == [] {
      ghost var none := ViolationsAreExceeded(findings, entries, 0);
      return;
    }
    var pools := Partition(findings, entries);
    for i := 0 to |entries|
      invariant pools.Hold(findings, entries)
      invariant violations == Violations(findings, entries, i)
    {
      var e := entries[i];
      var pool := match e.scope
        case Global => pools.unclaimed
        case AxisScope(a) => pools.OnAxis(a)
        case RuleScope(_) => pools.byRule;
      assert pool == Pool(findings, entries, ClaimantFor(e.scope));
      var measured := CountPool(pool, e);
      CountIsMeasured(findings, entries, e);
      if measured > e.limit {
        violations := violations + [Violation(Label(e.scope), e.metric, e.severity, measured, e.limit)];
      }
    }
    ghost var at := ViolationsAreExceeded(findings, entries, |entries|);
  }

  // ------------------------------------------------------------------
  // Adding entries
  // ------------------------------------------------------------------

  ghost predicate Extends(entries: seq<Entry>, more: seq<Entry>) {
    forall e :: e in entries ==> e in more
  }

  lemma {:induction false} FirstAxisExtends(entries: seq<Entry>, more: seq<Entry>, axes: seq<Axis>, a: Axis)
    requires Extends(entries, more) && HasScope(entries, AxisScope(a))
    requires FirstAxis(more, axes) == Some(a)
    ensures FirstAxis(entries, axes) == Some(a)
  {
    if !HasScope(more, AxisScope(axes[0])) {
      assert !HasScope(entries, AxisScope(axes[0]));
      FirstAxisExtends(entries, more, axes[1..], a);
    }
  }

  lemma {:induction false} NoAxisExtends(entries: seq<Entry>, more: seq<Entry>, axes: seq<Axis>)
    requires Extends(entries, more) && FirstAxis(more, axes).None?
    ensures FirstAxis(entries, axes).None?
  {
    if axes != [] {
      assert !HasScope(more, AxisScope(axes[0]));
      assert !HasScope(entries, AxisScope(axes[0]));
      NoAxisExtends(entries, more, axes[1..]);
    }
  }

  lemma ScopeShrinks(entries: seq<Entry>, more: seq<Entry>, e: Entry, f: Reported)
    requires Extends(entries, more) && e in entries && InScope(more, e, f)
    ensures InScope(entries, e, f)
  {
    assert HasScope(entries, e.scope);
    assert HasScope(entries, RuleScope(f.ruleId)) ==> HasScope(more, RuleScope(f.ruleId));
    match e.scope
    case Global => NoAxisExtends(entries, more, f.axes);
    case AxisScope(a) => FirstAxisExtends(entries, more, f.axes, a);
    case RuleScope(_) =>
  }

  /** Adding entries, anywhere, never raises what an existing one measures. */
  lemma {:induction false} AddingEntriesNeverRaises(findings: seq<Reported>, entries: seq<Entry>, more: seq<Entry>, e: Entry)
    requires Extends(entries, more) && e in entries
    ensures Measured(findings, more, e) <= Measured(findings, entries, e)
  {
    if findings != [] {
      var last := findings[|findings| - 1];
      AddingEntriesNeverRaises(findings[..|findings| - 1], entries, more, e);
      if InScope(more, e, last) {
        ScopeShrinks(entries, more, e, last);
      }
    }
  }
}
