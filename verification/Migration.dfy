/** Declared migrations checked against the findings they claim to resolve. */
module Migration {
  import opened Prelude
  import opened Findings
  import opened Ordering

  datatype CoverageClaim = CoverageClaim(category: string, target: Option<string>, change: Option<string>)

  datatype Declaration = Declaration(
    id: string, migrates: set<string>, runsBeforeRead: bool, contracts: set<string>, covers: seq<CoverageClaim>)

  datatype Coverage = Coverage(migration: string, via: Option<string>)

  datatype DiagnosticKind =
    | OrderingUnattested | NoTypesDeclared | StaleClaim | ClaimOutsideScope
    | NotMigratable | DuplicateClaim | CoverageGap | NoFindingsForType

  datatype Diagnostic = Diagnostic(kind: DiagnosticKind, migration: Option<string>, category: Option<string>, target: Option<string>)

  predicate AppliesTo(m: Declaration, contract: Option<string>) {
    m.contracts == {} || (contract.Some? && contract.value in m.contracts)
  }

  predicate Addresses(c: CoverageClaim, f: Finding) {
    c.category == f.category && c.target == f.target
  }

  predicate ChangeMatches(c: CoverageClaim, f: Finding) {
    c.change.None? || f.change == c.change
  }

  predicate NeedsMigration(f: Finding) {
    f.severity != Info
  }

  /** A migration that can cover anything at all. */
  predicate IsVerified(m: Declaration, contract: Option<string>) {
    AppliesTo(m, contract) && m.runsBeforeRead && m.migrates != {}
  }

  /** The claim holds of the finding: category, target, change pin, and a type
      that the migration declares. */
  predicate Claims(m: Declaration, c: CoverageClaim, f: Finding) {
    Addresses(c, f) && ChangeMatches(c, f) && f.typeName.Some? && f.typeName.value in m.migrates
  }

  function VerifiedOf(ms: seq<Declaration>, contract: Option<string>): seq<Declaration> {
    if ms == [] then []
    else
      VerifiedOf(ms[..|ms| - 1], contract)
      + if IsVerified(ms[|ms| - 1], contract) then [ms[|ms| - 1]] else []
  }

  /** The ids claiming f among the first n claims of m. */
  function ClaimedBy(m: Declaration, n: nat, f: Finding): seq<string>
    requires n <= |m.covers|
  {
    if n == 0 then []
    else ClaimedBy(m, n - 1, f) + if Claims(m, m.covers[n - 1], f) then [m.id] else []
  }

  /** The ids claiming f among the first n verified migrations, with repeats. */
  function Claimants(verified: seq<Declaration>, n: nat, f: Finding): seq<string>
    requires n <= |verified|
  {
    if n == 0 then []
    else Claimants(verified, n - 1, f) + ClaimedBy(verified[n - 1], |verified[n - 1].covers|, f)
  }

  /** Coverage by claims alone. */
  function DirectCoverage(verified: seq<Declaration>, f: Finding): Option<Coverage> {
    var ids := Claimants(verified, |verified|, f);
    if |ids| == 1 then Some(Coverage(ids[0], None)) else None
  }

  // ------------------------------------------------------------------
  // The terms of the audit, field by field
  // ------------------------------------------------------------------

  /** Stored data breaks: the finding is critical or a warning. */
  predicate IsBreaking(f: Finding) {
    f.severity == Critical || f.severity == Warning
  }

  ghost predicate IsFor(m: Declaration, contract: Option<string>) {
    m.contracts == {} || exists c :: c in m.contracts && contract == Some(c)
  }

  /** For this contract, run before the first read, and listing some type. */
  ghost predicate IsActive(m: Declaration, contract: Option<string>) {
    IsFor(m, contract) && m.runsBeforeRead && exists t :: t in m.migrates
  }

  /** Same category, same target, and the same change if the claim pins one. */
  ghost predicate IsAbout(c: CoverageClaim, f: Finding) {
    f.category == c.category && f.target == c.target && (c.change == None || c.change == f.change)
  }

  /** A critical or warning finding on the type. */
  ghost predicate Breaks(f: Finding, typeName: string) {
    f.typeName == Some(typeName) && (f.severity == Critical || f.severity == Warning)
  }

  ghost predicate Lists(m: Declaration, f: Finding) {
    exists t :: t in m.migrates && f.typeName == Some(t)
  }

  // ------------------------------------------------------------------
  // Direct coverage means exactly one claim
  // ------------------------------------------------------------------

  /** Migration i's claim number k holds of f. */
  ghost predicate IsClaim(ms: seq<Declaration>, contract: Option<string>, f: Finding, i: nat, k: nat) {
    i < |ms| && IsActive(ms[i], contract) && k < |ms[i].covers| && IsAbout(ms[i].covers[k], f) && Lists(ms[i], f)
  }

  /** The claim at (i, k) holds and no other claim does. */
  ghost predicate OnlyClaim(ms: seq<Declaration>, contract: Option<string>, f: Finding, i: nat, k: nat) {
    IsClaim(ms, contract, f, i, k) && forall j: nat, l: nat :: IsClaim(ms, contract, f, j, l) ==> j == i && l == k
  }

  type Site = (nat, nat)

  /** Where migration i claims f, among its first n claims. */
  ghost function SitesIn(m: Declaration, i: nat, n: nat, f: Finding): seq<Site>
    requires n <= |m.covers|
  {
    if n == 0 then []
    else SitesIn(m, i, n - 1, f) + if IsAbout(m.covers[n - 1], f) && Lists(m, f) then [(i, n - 1)] else []
  }

  ghost function Sites(ms: seq<Declaration>, contract: Option<string>, f: Finding): seq<Site> {
    if ms == [] then []
    else
      var n := |ms| - 1;
      Sites(ms[..n], contract, f)
      + if IsActive(ms[n], contract) then SitesIn(ms[n], n, |ms[n].covers|, f) else []
  }

  lemma {:induction false} SitesInExact(m: Declaration, i: nat, n: nat, f: Finding)
    requires n <= |m.covers|
    ensures NoDup(SitesIn(m, i, n, f))
    ensures forall x: Site :: x in SitesIn(m, i, n, f) <==> x.0 == i && x.1 < n && IsAbout(m.covers[x.1], f) && Lists(m, f)
    ensures |ClaimedBy(m, n, f)| == |SitesIn(m, i, n, f)|
    ensures forall id :: id in ClaimedBy(m, n, f) ==> id == m.id
  {
    if n > 0 { SitesInExact(m, i, n - 1, f); }
  }

  /** Every claim is listed once. */
  lemma {:induction false} SitesExact(ms: seq<Declaration>, contract: Option<string>, f: Finding)
    ensures NoDup(Sites(ms, contract, f))
    ensures forall x: Site :: x in Sites(ms, contract, f) <==> IsClaim(ms, contract, f, x.0, x.1)
  {
    if ms != [] {
      var n := |ms| - 1;
      SitesExact(ms[..n], contract, f);
      SitesInExact(ms[n], n, |ms[n].covers|, f);
      forall x: Site ensures x in Sites(ms, contract, f) <==> IsClaim(ms, contract, f, x.0, x.1) {
        assert x.0 < n ==> (IsClaim(ms, contract, f, x.0, x.1) <==> IsClaim(ms[..n], contract, f, x.0, x.1));
      }
    }
  }

  ghost predicate IdsAt(ms: seq<Declaration>, ids: seq<string>, sites: seq<Site>) {
    |ids| == |sites| && forall j :: 0 <= j < |ids| ==> sites[j].0 < |ms| && ids[j] == ms[sites[j].0].id
  }

  lemma AppendSites(ms: seq<Declaration>, ids: seq<string>, sites: seq<Site>, moreIds: seq<string>, moreSites: seq<Site>)
    requires ms != [] && IdsAt(ms[..|ms| - 1], ids, sites) && |moreIds| == |moreSites|
    requires forall id :: id in moreIds ==> id == ms[|ms| - 1].id
    requires forall x: Site :: x in moreSites ==> x.0 == |ms| - 1
    ensures IdsAt(ms, ids + moreIds, sites + moreSites)
  {
    forall j | 0 <= j < |ids + moreIds|
      ensures (sites + moreSites)[j].0 < |ms| && (ids + moreIds)[j] == ms[(sites + moreSites)[j].0].id
    {
      if j >= |ids| {
        assert moreIds[j - |ids|] in moreIds && moreSites[j - |ids|] in moreSites;
      }
    }
  }

  ghost function ClaimantIds(ms: seq<Declaration>, contract: Option<string>, f: Finding): seq<string> {
    Claimants(VerifiedOf(ms, contract), |VerifiedOf(ms, contract)|, f)
  }

  lemma {:induction false} ClaimantsPrefix(v: seq<Declaration>, w: seq<Declaration>, n: nat, f: Finding)
    requires n <= |v|
    ensures Claimants(v + w, n, f) == Claimants(v, n, f)
  {
    if n > 0 { ClaimantsPrefix(v, w, n - 1, f); }
  }

  lemma LastClaimants(ms: seq<Declaration>, contract: Option<string>, f: Finding)
    requires ms != []
    ensures
      var m := ms[|ms| - 1];
      ClaimantIds(ms, contract, f) == ClaimantIds(ms[..|ms| - 1], contract, f)
        + if IsVerified(m, contract) then ClaimedBy(m, |m.covers|, f) else []
  {
    var n := |ms| - 1;
    var v := VerifiedOf(ms[..n], contract);
    if IsVerified(ms[n], contract) {
      ClaimantsPrefix(v, [ms[n]], |v|, f);
      assert (v + [ms[n]])[|v|] == ms[n];
    } else {
      assert v + [] == v;
    }
  }

  /** The ids stand in the same places as the claims they come from. */
  lemma {:induction false} IdsMatchSites(ms: seq<Declaration>, contract: Option<string>, f: Finding)
    ensures IdsAt(ms, ClaimantIds(ms, contract, f), Sites(ms, contract, f))
  {
    if ms != [] {
      var n := |ms| - 1;
      IdsMatchSites(ms[..n], contract, f);
      LastClaimants(ms, contract, f);
      if IsVerified(ms[n], contract) {
        SitesInExact(ms[n], n, |ms[n].covers|, f);
        AppendSites(ms, ClaimantIds(ms[..n], contract, f), Sites(ms[..n], contract, f),
                    ClaimedBy(ms[n], |ms[n].covers|, f), SitesIn(ms[n], n, |ms[n].covers|, f));
      }
    }
  }

  lemma OneSiteOnlyClaim(ms: seq<Declaration>, contract: Option<string>, f: Finding)
    requires |Sites(ms, contract, f)| == 1
    ensures OnlyClaim(ms, contract, f, Sites(ms, contract, f)[0].0, Sites(ms, contract, f)[0].1)
  {
    SitesExact(ms, contract, f);
    var sites := Sites(ms, contract, f);
    assert sites[0] in sites;
    forall j: nat, l: nat | IsClaim(ms, contract, f, j, l) ensures (j, l) == sites[0] {
      assert (j, l) in sites;
    }
  }

  lemma OnlyClaimOneSite(ms: seq<Declaration>, contract: Option<string>, f: Finding, i: nat, k: nat)
    requires OnlyClaim(ms, contract, f, i, k)
    ensures Sites(ms, contract, f) == [(i, k)]
  {
    SitesExact(ms, contract, f);
    var sites := Sites(ms, contract, f);
    assert |sites| > 1 ==> sites[0] != sites[1];
    assert (i, k) in sites;
    forall j | 0 <= j < |sites| ensures sites[j] == (i, k) {
      assert sites[j] in sites;
      assert IsClaim(ms, contract, f, sites[j].0, sites[j].1);
    }
  }

  /** A finding is covered directly exactly when one claim, of all claims of all
      verified migrations, holds of it; the coverage names that migration. */
  lemma DirectCoverageIsExact(ms: seq<Declaration>, contract: Option<string>, f: Finding)
    ensures DirectCoverage(VerifiedOf(ms, contract), f).Some? <==> exists i: nat, k: nat :: OnlyClaim(ms, contract, f, i, k)
    ensures forall i: nat, k: nat :: OnlyClaim(ms, contract, f, i, k) ==>
      DirectCoverage(VerifiedOf(ms, contract), f) == Some(Coverage(ms[i].id, None))
  {
    IdsMatchSites(ms, contract, f);
    if |Sites(ms, contract, f)| == 1 {
      OneSiteOnlyClaim(ms, contract, f);
    }
    hide OnlyClaim, Sites, Claimants;
    forall i: nat, k: nat | OnlyClaim(ms, contract, f, i, k)
      ensures ClaimantIds(ms, contract, f) == [ms[i].id]
    {
      OnlyClaimOneSite(ms, contract, f, i, k);
    }
  }

  // ------------------------------------------------------------------
  // Cascades
  // ------------------------------------------------------------------

  predicate IsOn(f: Finding, typeName: string) {
    f.typeName == Some(typeName) && IsBreaking(f)
  }

  /** The root type has a breaking finding, and all of them are covered. */
  ghost predicate FullyCovered(findings: seq<Finding>, coverage: seq<Option<Coverage>>, root: string)
    requires |findings| == |coverage|
  {
    && (exists i :: 0 <= i < |findings| && IsOn(findings[i], root))
    && forall i :: 0 <= i < |findings| && IsOn(findings[i], root) ==> coverage[i].Some?
  }

  function FirstOn(findings: seq<Finding>, root: string): (i: nat)
    ensures i <= |findings|
    ensures i < |findings| ==> IsOn(findings[i], root)
    ensures forall j :: 0 <= j < i ==> !IsOn(findings[j], root)
  {
    if findings == [] || IsOn(findings[0], root) then 0 else 1 + FirstOn(findings[1..], root)
  }

  /** Coverage after the cascade pass, finding by finding, as a function of the
      coverage before it: no order of visits enters. */
  ghost function Inherited(findings: seq<Finding>, before: seq<Option<Coverage>>, i: nat): Option<Coverage>
    requires i < |findings| == |before|
  {
    if before[i].Some? || findings[i].rootTarget.None? then before[i]
    else
      var root := findings[i].rootTarget.value;
      if FullyCovered(findings, before, root)
      then Some(Coverage(before[FirstOn(findings, root)].value.migration, Some(root)))
      else None
  }

  /** Inheriting, field by field: coverage that was there stays; a finding without
      any gains some iff it names a root that has critical or warning findings, all
      of them covered before; and it is that of the first of these. */
  lemma InheritanceIsExact(findings: seq<Finding>, before: seq<Option<Coverage>>, i: nat)
    requires i < |findings| == |before|
    ensures before[i].Some? ==> Inherited(findings, before, i) == before[i]
    ensures before[i].None? ==>
      (Inherited(findings, before, i).Some? <==>
        exists root, j :: findings[i].rootTarget == Some(root) && 0 <= j < |findings|
          && Breaks(findings[j], root) && forall k :: 0 <= k < |findings| && Breaks(findings[k], root) ==> before[k].Some?)
    ensures before[i].None? && Inherited(findings, before, i).Some? ==>
      exists root, j :: findings[i].rootTarget == Some(root) && 0 <= j < |findings|
        && Breaks(findings[j], root) && (forall k :: 0 <= k < j ==> !Breaks(findings[k], root))
        && before[j].Some? && Inherited(findings, before, i) == Some(Coverage(before[j].value.migration, Some(root)))
  {
    if before[i].None? && findings[i].rootTarget.Some? {
      var root := findings[i].rootTarget.value;
      assert forall k :: 0 <= k < |findings| ==> (Breaks(findings[k], root) <==> IsOn(findings[k], root));
      if FullyCovered(findings, before, root) {
        assert Breaks(findings[FirstOn(findings, root)], root);
      }
    }
  }

  /** The first covered breaking finding on the root from position k on, in the
      array as it is; its length if there is none. */
  function LookUp(findings: seq<Finding>, coverage: seq<Option<Coverage>>, root: string, k: nat): (r: nat)
    requires k <= |findings| == |coverage|
    ensures k <= r <= |findings|
    decreases |findings| - k
  {
    if k == |findings| || (IsOn(findings[k], root) && coverage[k].Some?) then k
    else LookUp(findings, coverage, root, k + 1)
  }

  /** One visit of the pass: it reads the array that earlier visits wrote. */
  ghost function VisitOne(findings: seq<Finding>, before: seq<Option<Coverage>>, now: seq<Option<Coverage>>, i: nat): (r: seq<Option<Coverage>>)
    requires i < |findings| == |before| == |now|
    ensures |r| == |now|
  {
    if now[i].Some? || findings[i].rootTarget.None? || !FullyCovered(findings, before, findings[i].rootTarget.value) then now
    else
      var k := LookUp(findings, now, findings[i].rootTarget.value, 0);
      if k < |now| && now[k].Some?
      then now[i := Some(Coverage(now[k].value.migration, findings[i].rootTarget))]
      else now
  }

  /** Visits in the given order. */
  ghost function Visits(findings: seq<Finding>, before: seq<Option<Coverage>>, order: seq<nat>): (r: seq<Option<Coverage>>)
    requires |findings| == |before| && forall k :: 0 <= k < |order| ==> order[k] < |findings|
    ensures |r| == |before|
  {
    if order == [] then before
    else VisitOne(findings, before, Visits(findings, before, order[..|order| - 1]), order[|order| - 1])
  }

  lemma {:induction false} LooksUpFirst(findings: seq<Finding>, before: seq<Option<Coverage>>, now: seq<Option<Coverage>>, root: string, k: nat)
    requires k <= |findings| == |before| == |now| && FullyCovered(findings, before, root)
    requires forall j :: 0 <= j < |findings| && before[j].Some? ==> now[j] == before[j]
    requires k <= FirstOn(findings, root)
    ensures LookUp(findings, now, root, k) == FirstOn(findings, root) < |findings|
    decreases |findings| - k
  {
    if k < FirstOn(findings, root) {
      LooksUpFirst(findings, before, now, root, k + 1);
    }
  }

  /** After some visits each finding is as inheritance has it if it was visited,
      and as it was if not: coverage inherited on the way changes nothing. */
  lemma {:induction false} VisitsArePointwise(findings: seq<Finding>, before: seq<Option<Coverage>>, order: seq<nat>, j: nat)
    requires |findings| == |before| && j < |findings| && forall k :: 0 <= k < |order| ==> order[k] < |findings|
    ensures Visits(findings, before, order)[j] == if j in order then Inherited(findings, before, j) else before[j]
  {
    if order != [] {
      var rest, i := order[..|order| - 1], order[|order| - 1];
      assert order == rest + [i];
      var now := Visits(findings, before, rest);
      forall k | 0 <= k < |findings|
        ensures now[k] == if k in rest then Inherited(findings, before, k) else before[k]
      {
        VisitsArePointwise(findings, before, rest, k);
      }
      if findings[i].rootTarget.Some? && FullyCovered(findings, before, findings[i].rootTarget.value) {
        LooksUpFirst(findings, before, now, findings[i].rootTarget.value, 0);
      }
    }
  }

  /** The order visits exactly the first n positions, some perhaps repeatedly. */
  ghost predicate VisitsAll(order: seq<nat>, n: nat) {
    && (forall k :: 0 <= k < |order| ==> order[k] < n)
    && forall i: nat :: i < n ==> i in order
  }

  /** Any order of visits that reaches every finding gives the same coverage. */
  lemma OrderDoesNotMatter(findings: seq<Finding>, before: seq<Option<Coverage>>, order: seq<nat>, other: seq<nat>)
    requires |findings| == |before|
    requires VisitsAll(order, |findings|) && VisitsAll(other, |findings|)
    ensures Visits(findings, before, order) == Visits(findings, before, other)
  {
    forall j | 0 <= j < |findings| ensures Visits(findings, before, order)[j] == Visits(findings, before, other)[j] {
      VisitsArePointwise(findings, before, order, j);
      VisitsArePointwise(findings, before, other, j);
    }
  }

  /** Roots are ultimate: no breaking finding on a root names a further root. */
  ghost predicate RootsAreUltimate(findings: seq<Finding>) {
    forall i, j :: 0 <= i < |findings| && 0 <= j < |findings|
      && findings[i].rootTarget.Some? && IsOn(findings[j], findings[i].rootTarget.value)
      ==> findings[j].rootTarget.None?
  }

  /** With ultimate roots one pass is enough: another changes nothing. */
  lemma OnePassIsEnough(findings: seq<Finding>, before: seq<Option<Coverage>>, after: seq<Option<Coverage>>, i: nat)
    requires RootsAreUltimate(findings) && i < |findings| == |before| == |after|
    requires forall j :: 0 <= j < |findings| ==> after[j] == Inherited(findings, before, j)
    ensures Inherited(findings, after, i) == after[i]
  {
    if after[i].None? && findings[i].rootTarget.Some? {
      var root := findings[i].rootTarget.value;
      assert forall j :: 0 <= j < |findings| && IsOn(findings[j], root) ==> after[j] == before[j];
      assert FullyCovered(findings, after, root) <==> FullyCovered(findings, before, root);
    }
  }

  /** Breaking findings on a type among the first n, and how many of them are
      covered: what the pass counts up front. */
  function Total(findings: seq<Finding>, root: string, n: nat): nat
    requires n <= |findings|
  {
    if n == 0 then 0 else Total(findings, root, n - 1) + if IsOn(findings[n - 1], root) then 1 else 0
  }

  function Covered(findings: seq<Finding>, coverage: seq<Option<Coverage>>, root: string, n: nat): nat
    requires n <= |findings| == |coverage|
  {
    if n == 0 then 0
    else
      Covered(findings, coverage, root, n - 1)
      + if IsOn(findings[n - 1], root) && coverage[n - 1].Some? then 1 else 0
  }

  lemma {:induction false} CountsAreExact(findings: seq<Finding>, coverage: seq<Option<Coverage>>, root: string, n: nat)
    requires n <= |findings| == |coverage|
    ensures Covered(findings, coverage, root, n) <= Total(findings, root, n)
    ensures Total(findings, root, n) > 0 <==> exists i :: 0 <= i < n && IsOn(findings[i], root)
    ensures Covered(findings, coverage, root, n) == Total(findings, root, n)
       <==> forall i :: 0 <= i < n && IsOn(findings[i], root) ==> coverage[i].Some?
  {
    if n > 0 { CountsAreExact(findings, coverage, root, n - 1); }
  }

  // ------------------------------------------------------------------
  // The audit
  // ------------------------------------------------------------------

  type Totals = map<string, (nat, nat)>

  ghost predicate TotalsOf(totals: Totals, findings: seq<Finding>, coverage: seq<Option<Coverage>>, n: nat)
    requires n <= |findings| == |coverage|
  {
    forall t :: (if t in totals then totals[t] else (0, 0)) == (Total(findings, t, n), Covered(findings, coverage, t, n))
  }

  method CountTotals(findings: seq<Finding>, coverage: array<Option<Coverage>>) returns (totals: Totals)
    requires coverage.Length == |findings|
    ensures TotalsOf(totals, findings, coverage[..], |findings|)
  {
    totals := map[];
    for i := 0 to |findings|
      invariant TotalsOf(totals, findings, coverage[..], i)
    {
      var f := findings[i];
      if f.typeName.Some? && NeedsMigration(f) {
        var t := f.typeName.value;
        var entry := if t in totals then totals[t] else (0, 0);
        totals := totals[t := (entry.0 + 1, entry.1 + if coverage[i].Some? then 1 else 0)];
      }
    }
  }

  /** The first covered breaking finding on the root, in the array as it is. */
  method FindRoot(findings: seq<Finding>, coverage: array<Option<Coverage>>, ghost before: seq<Option<Coverage>>, root: string)
    returns (k: nat)
    requires coverage.Length == |findings| == |before|
    requires FullyCovered(findings, before, root)
    requires forall j :: 0 <= j < |findings| && before[j].Some? ==> coverage[j] == before[j]
    ensures k == FirstOn(findings, root) < |findings|
    ensures before[k].Some? && coverage[k] == before[k]
  {
    k := 0;
    while k < |findings| && !(findings[k].typeName == Some(root) && NeedsMigration(findings[k]) && coverage[k].Some?)
      invariant k <= |findings|
      invariant forall j :: 0 <= j < k ==> !IsOn(findings[j], root)
    {
      k := k + 1;
    }
  }

  /** Dependents inherit in place: the array that is read is also written. */
  method InheritThroughCascades(findings: seq<Finding>, coverage: array<Option<Coverage>>)
    requires coverage.Length == |findings|
    modifies coverage
    ensures forall i :: 0 <= i < |findings| ==> coverage[i] == Inherited(findings, old(coverage[..]), i)
  {
    ghost var before := coverage[..];
    var totals := CountTotals(findings, coverage);
    for i := 0 to |findings|
      invariant forall j :: 0 <= j < i ==> coverage[j] == Inherited(findings, before, j)
      invariant forall j :: i <= j < |findings| ==> coverage[j] == before[j]
    {
      if coverage[i].None? && findings[i].rootTarget.Some? {
        var root := findings[i].rootTarget.value;
        CountsAreExact(findings, before, root, |findings|);
        if root in totals && totals[root].0 > 0 && totals[root].0 == totals[root].1 {
          var k := FindRoot(findings, coverage, before, root);
          if k < |findings| {
            coverage[i] := Some(Coverage(coverage[k].value.migration, Some(root)));
          }
        }
      }
    }
  }

  function AboutMigration(kind: DiagnosticKind, m: Declaration): Diagnostic {
    Diagnostic(kind, Some(m.id), None, None)
  }

  function AboutFinding(kind: DiagnosticKind, m: Declaration, f: Finding): Diagnostic {
    Diagnostic(kind, Some(m.id), Some(f.category), f.target)
  }

  /** The claim matches f but may not cover it: no stored type, or a type the
      migration does not list. */
  ghost predicate RejectedFor(m: Declaration, c: CoverageClaim, f: Finding, kind: DiagnosticKind) {
    && IsAbout(c, f) && !Lists(m, f)
    && kind == if f.typeName.None? then NotMigratable else ClaimOutsideScope
  }

  ghost predicate IsStale(findings: seq<Finding>, c: CoverageClaim) {
    forall f :: f in findings ==> !IsAbout(c, f)
  }

  // Each kind of diagnostic, with exactly when it is raised.

  /** An applicable migration that can cover nothing: its ordering is not
      attested, or it lists no types. */
  ghost predicate TurnedAway(m: Declaration, contract: Option<string>, d: Diagnostic) {
    && IsFor(m, contract)
    && ((!m.runsBeforeRead && d == AboutMigration(OrderingUnattested, m))
        || (m.runsBeforeRead && m.migrates == {} && d == AboutMigration(NoTypesDeclared, m)))
  }

  ghost predicate SelectionDiagnostic(ms: seq<Declaration>, contract: Option<string>, d: Diagnostic) {
    exists m :: m in ms && TurnedAway(m, contract, d)
  }

  lemma AppliesIsFor(m: Declaration, contract: Option<string>)
    ensures AppliesTo(m, contract) <==> IsFor(m, contract)
  {
  }

  lemma NothingSelected(contract: Option<string>)
    ensures forall d :: !SelectionDiagnostic([], contract, d)
  {
  }

  lemma SplitSelection(ms: seq<Declaration>, m: Declaration, contract: Option<string>)
    ensures forall d :: SelectionDiagnostic(ms + [m], contract, d) <==> SelectionDiagnostic(ms, contract, d) || TurnedAway(m, contract, d)
  {
    assert forall x :: x in ms + [m] <==> x in ms || x == m;
  }

  ghost predicate ClaimDiagnostic(findings: seq<Finding>, m: Declaration, c: CoverageClaim, d: Diagnostic) {
    || (IsStale(findings, c) && d == Diagnostic(StaleClaim, Some(m.id), Some(c.category), c.target))
    || (exists f, kind :: f in findings && RejectedFor(m, c, f, kind) && d == AboutFinding(kind, m, f))
  }

  ghost predicate ClaimsDiagnostic(findings: seq<Finding>, ms: seq<Declaration>, d: Diagnostic) {
    exists m, c :: m in ms && c in m.covers && ClaimDiagnostic(findings, m, c, d)
  }

  ghost predicate DuplicateDiagnostic(findings: seq<Finding>, verified: seq<Declaration>, d: Diagnostic) {
    exists f :: f in findings && |Claimants(verified, |verified|, f)| > 1
      && d == Diagnostic(DuplicateClaim, None, Some(f.category), f.target)
  }

  /** A breaking finding on a listed type that ended up uncovered. */
  ghost predicate IsGap(findings: seq<Finding>, coverage: seq<Option<Coverage>>, m: Declaration, i: nat)
    requires |findings| == |coverage|
  {
    i < |findings| && Lists(m, findings[i]) && IsBreaking(findings[i]) && coverage[i].None?
  }

  ghost predicate GapDiagnostic(findings: seq<Finding>, coverage: seq<Option<Coverage>>, m: Declaration, d: Diagnostic)
    requires |findings| == |coverage|
  {
    || (exists i :: 0 <= i < |findings| && IsGap(findings, coverage, m, i) && d == AboutFinding(CoverageGap, m, findings[i]))
    || (exists t :: t in m.migrates && (forall f :: f in findings ==> f.typeName != Some(t)) && d == AboutMigration(NoFindingsForType, m))
  }

  ghost predicate GapsDiagnostic(findings: seq<Finding>, coverage: seq<Option<Coverage>>, ms: seq<Declaration>, d: Diagnostic)
    requires |findings| == |coverage|
  {
    exists m :: m in ms && GapDiagnostic(findings, coverage, m, d)
  }

  ghost predicate OpenOn(findings: seq<Finding>, coverage: seq<Option<Coverage>>, m: Declaration, t: string, n: nat, d: Diagnostic)
    requires n <= |findings| == |coverage|
  {
    exists i :: 0 <= i < n && IsOn(findings[i], t) && coverage[i].None? && d == AboutFinding(CoverageGap, m, findings[i])
  }

  ghost predicate TypeGap(findings: seq<Finding>, coverage: seq<Option<Coverage>>, m: Declaration, t: string, n: nat, d: Diagnostic)
    requires n <= |findings| == |coverage|
  {
    || OpenOn(findings, coverage, m, t, n, d)
    || ((forall k :: 0 <= k < n ==> findings[k].typeName != Some(t)) && d == AboutMigration(NoFindingsForType, m))
  }

  lemma GapByType(findings: seq<Finding>, coverage: seq<Option<Coverage>>, m: Declaration)
    requires |findings| == |coverage|
    ensures forall d :: GapDiagnostic(findings, coverage, m, d) <==> exists t :: t in m.migrates && TypeGap(findings, coverage, m, t, |findings|, d)
  {
    forall d | GapDiagnostic(findings, coverage, m, d)
      ensures exists t :: t in m.migrates && TypeGap(findings, coverage, m, t, |findings|, d)
    {
      if i :| 0 <= i < |findings| && IsGap(findings, coverage, m, i) && d == AboutFinding(CoverageGap, m, findings[i]) {
        assert TypeGap(findings, coverage, m, findings[i].typeName.value, |findings|, d);
      } else {
        var t :| t in m.migrates && (forall f :: f in findings ==> f.typeName != Some(t)) && d == AboutMigration(NoFindingsForType, m);
        assert TypeGap(findings, coverage, m, t, |findings|, d);
      }
    }
    forall d, t | t in m.migrates && TypeGap(findings, coverage, m, t, |findings|, d)
      ensures GapDiagnostic(findings, coverage, m, d)
    {
      if OpenOn(findings, coverage, m, t, |findings|, d) {
        var i :| 0 <= i < |findings| && IsOn(findings[i], t) && coverage[i].None? && d == AboutFinding(CoverageGap, m, findings[i]);
        assert IsGap(findings, coverage, m, i);
      }
    }
  }

  lemma SplitClaims(findings: seq<Finding>, ms: seq<Declaration>, m: Declaration)
    ensures forall d :: ClaimsDiagnostic(findings, ms + [m], d) <==>
      ClaimsDiagnostic(findings, ms, d) || exists c :: c in m.covers && ClaimDiagnostic(findings, m, c, d)
  {
    hide ClaimDiagnostic;
    assert forall x :: x in ms + [m] <==> x in ms || x == m;
  }

  lemma SplitGaps(findings: seq<Finding>, coverage: seq<Option<Coverage>>, ms: seq<Declaration>, m: Declaration)
    requires |findings| == |coverage|
    ensures forall d :: GapsDiagnostic(findings, coverage, ms + [m], d) <==>
      GapsDiagnostic(findings, coverage, ms, d) || GapDiagnostic(findings, coverage, m, d)
  {
    hide GapDiagnostic;
    assert forall x :: x in ms + [m] <==> x in ms || x == m;
  }

  predicate Matches(c: CoverageClaim, f: Finding) {
    Addresses(c, f) && ChangeMatches(c, f)
  }

  ghost predicate ListsMatches(findings: seq<Finding>, c: CoverageClaim, matched: seq<nat>, n: nat) {
    && (forall k: nat :: k in matched <==> k < n && k < |findings| && Matches(c, findings[k]))
    && forall x, y :: 0 <= x < y < |matched| ==> matched[x] < matched[y]
  }

  /** The findings a claim addresses, then those among them whose change is the
      pinned one, in order. */
  method MatchedBy(findings: seq<Finding>, c: CoverageClaim) returns (matched: seq<nat>)
    ensures ListsMatches(findings, c, matched, |findings|)
  {
    matched := [];
    for i := 0 to |findings|
      invariant ListsMatches(findings, c, matched, i)
    {
      if Addresses(c, findings[i]) && ChangeMatches(c, findings[i]) {
        assert forall x :: 0 <= x < |matched| ==> matched[x] in matched;
        matched := matched + [i];
      }
    }
  }

  /** Where the x-th match is; past the end, the end. */
  function Limit(matched: seq<nat>, x: nat, end: nat): nat
    requires x <= |matched|
  {
    if x < |matched| then matched[x] else end
  }

  ghost predicate RejectedAt(findings: seq<Finding>, m: Declaration, c: CoverageClaim, k: nat, d: Diagnostic) {
    k < |findings| && exists kind :: RejectedFor(m, c, findings[k], kind) && d == AboutFinding(kind, m, findings[k])
  }

  ghost predicate RejectedBefore(findings: seq<Finding>, m: Declaration, c: CoverageClaim, n: nat, d: Diagnostic) {
    exists k :: 0 <= k < n && RejectedAt(findings, m, c, k, d)
  }

  lemma NotBetween(matched: seq<nat>, x: nat, k: nat, end: nat)
    requires forall i, j :: 0 <= i < j < |matched| ==> matched[i] < matched[j]
    requires x < |matched| && matched[x] < k < Limit(matched, x + 1, end)
    ensures k !in matched
  {
    forall y | 0 <= y < |matched| ensures matched[y] != k {
      if y <= x {
        assert matched[y] <= matched[x];
      } else {
        assert matched[x + 1] <= matched[y];
      }
    }
  }

  /** Between one match and the next nothing is rejected or claimed. */
  lemma RejectedStep(findings: seq<Finding>, m: Declaration, c: CoverageClaim, matched: seq<nat>, x: nat)
    requires ListsMatches(findings, c, matched, |findings|) && x < |matched|
    ensures x + 1 < |matched| ==> matched[x] < matched[x + 1]
    ensures matched[x] < |findings|
    ensures forall k :: matched[x] < k < Limit(matched, x + 1, |findings|) ==> k < |findings| && !Matches(c, findings[k])
    ensures forall d ::
      RejectedBefore(findings, m, c, Limit(matched, x + 1, |findings|), d)
      <==> RejectedBefore(findings, m, c, matched[x], d) || RejectedAt(findings, m, c, matched[x], d)
  {
    assert matched[x] in matched;
    assert x + 1 < |matched| ==> matched[x + 1] in matched;
    var limit := Limit(matched, x + 1, |findings|);
    assert limit <= |findings|;
    forall k: nat | matched[x] < k < limit ensures !Matches(c, findings[k]) {
      NotBetween(matched, x, k, |findings|);
    }
  }

  lemma RejectedAll(findings: seq<Finding>, m: Declaration, c: CoverageClaim)
    requires !IsStale(findings, c)
    ensures forall d :: RejectedBefore(findings, m, c, |findings|, d) <==> ClaimDiagnostic(findings, m, c, d)
  {
    forall d | ClaimDiagnostic(findings, m, c, d) ensures RejectedBefore(findings, m, c, |findings|, d) {
      var f, kind :| f in findings && RejectedFor(m, c, f, kind) && d == AboutFinding(kind, m, f);
      var k :| 0 <= k < |findings| && findings[k] == f;
      assert RejectedAt(findings, m, c, k, d);
    }
  }

  lemma NoMatchIsStale(findings: seq<Finding>, m: Declaration, c: CoverageClaim)
    requires ListsMatches(findings, c, [], |findings|)
    ensures forall d :: ClaimDiagnostic(findings, m, c, d) <==> d == Diagnostic(StaleClaim, Some(m.id), Some(c.category), c.target)
    ensures forall i :: 0 <= i < |findings| ==> !Claims(m, c, findings[i])
  {
    forall i: nat | i < |findings| ensures !Matches(c, findings[i]) {
      assert i !in [];
    }
    assert IsStale(findings, c);
  }

  lemma MatchIsNotStale(findings: seq<Finding>, c: CoverageClaim, i: nat)
    requires i < |findings| && Addresses(c, findings[i]) && ChangeMatches(c, findings[i])
    ensures !IsStale(findings, c)
  {
    assert findings[i] in findings;
  }

  class Auditor {
    const findings: seq<Finding>
    const claimants: array<seq<string>>
    const coverage: array<Option<Coverage>>
    var diagnostics: seq<Diagnostic>

    ghost predicate Shaped() {
      claimants.Length == |findings| && coverage.Length == |findings|
    }

    constructor (findings: seq<Finding>)
      ensures Shaped() && this.findings == findings && diagnostics == []
      ensures fresh(claimants) && fresh(coverage)
      ensures forall i :: 0 <= i < |findings| ==> claimants[i] == []
      ensures forall i :: 0 <= i < |findings| ==> coverage[i] == None
    {
      this.findings := findings;
      claimants := new seq<string>[|findings|](_ => []);
      coverage := new Option<Coverage>[|findings|](_ => None);
      diagnostics := [];
    }

    method Select(ms: seq<Declaration>, contract: Option<string>) returns (verified: seq<Declaration>)
      modifies this
      ensures verified == VerifiedOf(ms, contract)
      ensures forall d :: d in diagnostics <==> d in old(diagnostics) || SelectionDiagnostic(ms, contract, d)
    {
      hide AppliesTo, IsFor, AboutMigration, SelectionDiagnostic;
      verified := [];
      assert forall d :: !SelectionDiagnostic([], contract, d) by { NothingSelected(contract); }
      for i := 0 to |ms|
        invariant verified == VerifiedOf(ms[..i], contract)
        invariant forall d :: d in diagnostics <==> d in old(diagnostics) || SelectionDiagnostic(ms[..i], contract, d)
      {
        var m := ms[i];
        assert ms[..i + 1] == ms[..i] + [m] && ms[..i + 1][..i] == ms[..i];
        SplitSelection(ms[..i], m, contract);
        AppliesIsFor(m, contract);
        if AppliesTo(m, contract) {
          if !m.runsBeforeRead {
            diagnostics := diagnostics + [AboutMigration(OrderingUnattested, m)];
          } else if m.migrates == {} {
            diagnostics := diagnostics + [AboutMigration(NoTypesDeclared, m)];
          } else {
            verified := verified + [m];
          }
        }
      }
      assert ms[..|ms|] == ms;
    }

    /** Match one claim against the findings. */
    method RecordClaim(m: Declaration, c: CoverageClaim)
      requires Shaped()
      modifies this, claimants
      ensures forall i :: 0 <= i < |findings| ==>
        claimants[i] == old(claimants[i]) + if Claims(m, c, findings[i]) then [m.id] else []
      ensures forall d :: d in diagnostics <==> d in old(diagnostics) || ClaimDiagnostic(findings, m, c, d)
    {
      var matched := MatchedBy(findings, c);
      if matched == [] {
        diagnostics := diagnostics + [Diagnostic(StaleClaim, Some(m.id), Some(c.category), c.target)];
        NoMatchIsStale(findings, m, c);
        return;
      }
      assert matched[0] in matched;
      MatchIsNotStale(findings, c, matched[0]);
      for x := 0 to |matched|
        invariant forall i :: 0 <= i < |findings| ==>
          claimants[i] == old(claimants[i]) + if i < Limit(matched, x, |findings|) && Claims(m, c, findings[i]) then [m.id] else []
        invariant forall d :: d in diagnostics <==> d in old(diagnostics) || RejectedBefore(findings, m, c, Limit(matched, x, |findings|), d)
      {
        ghost var before := diagnostics;
        assert matched[x] in matched;
        RecordMatch(m, matched[x]);
        RejectedStep(findings, m, c, matched, x);
        assert forall d :: d in diagnostics <==> d in before || RejectedAt(findings, m, c, matched[x], d);
      }
      RejectedAll(findings, m, c);
    }

    /** A matched finding is claimed, or the claim on it is turned down. */
    method RecordMatch(m: Declaration, i: nat)
      requires Shaped() && i < |findings|
      modifies this, claimants
      ensures forall j :: 0 <= j < |findings| && j != i ==> claimants[j] == old(claimants[j])
      ensures
        var t := findings[i].typeName;
        && claimants[i] == old(claimants[i]) + (if t.Some? && t.value in m.migrates then [m.id] else [])
        && diagnostics == old(diagnostics)
             + if t.None? then [AboutFinding(NotMigratable, m, findings[i])]
               else if t.value !in m.migrates then [AboutFinding(ClaimOutsideScope, m, findings[i])]
               else []
    {
      var f := findings[i];
      if f.typeName.None? {
        diagnostics := diagnostics + [AboutFinding(NotMigratable, m, f)];
      } else if f.typeName.value !in m.migrates {
        diagnostics := diagnostics + [AboutFinding(ClaimOutsideScope, m, f)];
      } else {
        claimants[i] := claimants[i] + [m.id];
      }
    }

    /** Every claim of every verified migration. */
    method RecordClaims(verified: seq<Declaration>)
      requires Shaped()
      requires forall i :: 0 <= i < |findings| ==> claimants[i] == []
      modifies this, claimants
      ensures forall i :: 0 <= i < |findings| ==> claimants[i] == Claimants(verified, |verified|, findings[i])
      ensures forall d :: d in diagnostics <==> d in old(diagnostics) || ClaimsDiagnostic(findings, verified, d)
    {
      for j := 0 to |verified|
        invariant forall i :: 0 <= i < |findings| ==> claimants[i] == Claimants(verified, j, findings[i])
        invariant forall d :: d in diagnostics <==> d in old(diagnostics) || ClaimsDiagnostic(findings, verified[..j], d)
      {
        var m := verified[j];
        assert verified[..j + 1] == verified[..j] + [m];
        RecordClaimsOf(m);
        SplitClaims(findings, verified[..j], m);
      }
      assert verified[..|verified|] == verified;
    }

    method RecordClaimsOf(m: Declaration)
      requires Shaped()
      modifies this, claimants
      ensures forall i :: 0 <= i < |findings| ==> claimants[i] == old(claimants[i]) + ClaimedBy(m, |m.covers|, findings[i])
      ensures forall d :: d in diagnostics <==> d in old(diagnostics) || exists c :: c in m.covers && ClaimDiagnostic(findings, m, c, d)
    {
      hide ClaimDiagnostic;
      for k := 0 to |m.covers|
        invariant forall i :: 0 <= i < |findings| ==> claimants[i] == old(claimants[i]) + ClaimedBy(m, k, findings[i])
        invariant forall d :: d in diagnostics <==> d in old(diagnostics) || exists c :: c in m.covers[..k] && ClaimDiagnostic(findings, m, c, d)
      {
        assert m.covers[..k + 1] == m.covers[..k] + [m.covers[k]];
        RecordClaim(m, m.covers[k]);
      }
      assert m.covers[..|m.covers|] == m.covers;
    }

    /** One claimant covers; several cover nothing and are reported. */
    method Resolve(verified: seq<Declaration>)
      requires Shaped()
      requires forall i :: 0 <= i < |findings| ==> claimants[i] == Claimants(verified, |verified|, findings[i])
      requires forall i :: 0 <= i < |findings| ==> coverage[i] == None
      modifies this`diagnostics, coverage
      ensures forall i :: 0 <= i < |findings| ==> coverage[i] == DirectCoverage(verified, findings[i])
      ensures forall d :: d in diagnostics <==> d in old(diagnostics) || DuplicateDiagnostic(findings, verified, d)
    {
      hide Claimants;
      for i := 0 to |findings|
        invariant forall j :: 0 <= j < i ==> coverage[j] == DirectCoverage(verified, findings[j])
        invariant forall j :: i <= j < |findings| ==> coverage[j] == None
        invariant forall d :: d in diagnostics <==> d in old(diagnostics) || DuplicateDiagnostic(findings[..i], verified, d)
      {
        assert findings[..i + 1] == findings[..i] + [findings[i]];
        var ids := claimants[i];
        if |ids| == 1 {
          coverage[i] := Some(Coverage(ids[0], None));
        } else if |ids| > 1 {
          diagnostics := diagnostics + [Diagnostic(DuplicateClaim, None, Some(findings[i].category), findings[i].target)];
        }
      }
      assert findings[..|findings|] == findings;
    }

    /** Breaking findings on listed types that nothing covers. */
    method ReportGaps(verified: seq<Declaration>)
      requires Shaped()
      modifies this`diagnostics
      ensures forall d :: d in diagnostics <==> d in old(diagnostics) || GapsDiagnostic(findings, coverage[..], verified, d)
    {
      for j := 0 to |verified|
        invariant forall d :: d in diagnostics <==> d in old(diagnostics) || GapsDiagnostic(findings, coverage[..], verified[..j], d)
      {
        assert verified[..j + 1] == verified[..j] + [verified[j]];
        ReportGapsOf(verified[j]);
        SplitGaps(findings, coverage[..], verified[..j], verified[j]);
      }
      assert verified[..|verified|] == verified;
    }

    method ReportGapsOf(m: Declaration)
      requires Shaped()
      modifies this`diagnostics
      ensures forall d :: d in diagnostics <==> d in old(diagnostics) || GapDiagnostic(findings, coverage[..], m, d)
    {
      var rest := m.migrates;
      while rest != {}
        invariant rest <= m.migrates
        invariant forall d :: d in diagnostics <==> d in old(diagnostics) || exists t :: t in m.migrates - rest && TypeGap(findings, coverage[..], m, t, |findings|, d)
        decreases rest
      {
        var t :| t in rest;
        ReportGapsOn(m, t);
        assert m.migrates - (rest - {t}) == (m.migrates - rest) + {t};
        rest := rest - {t};
      }
      assert m.migrates - rest == m.migrates;
      GapByType(findings, coverage[..], m);
    }

    method ReportGapsOn(m: Declaration, t: string)
      requires Shaped()
      modifies this`diagnostics
      ensures forall d :: d in diagnostics <==> d in old(diagnostics) || TypeGap(findings, coverage[..], m, t, |findings|, d)
    {
      var seenAny := false;
      for i := 0 to |findings|
        invariant seenAny <==> exists k :: 0 <= k < i && findings[k].typeName == Some(t)
        invariant forall d :: d in diagnostics <==> d in old(diagnostics) || OpenOn(findings, coverage[..], m, t, i, d)
      {
        var f := findings[i];
        if f.typeName == Some(t) {
          seenAny := true;
          if NeedsMigration(f) && coverage[i].None? {
            diagnostics := diagnostics + [AboutFinding(CoverageGap, m, f)];
          }
        }
      }
      if !seenAny {
        diagnostics := diagnostics + [AboutMigration(NoFindingsForType, m)];
      }
    }
  }

  // ------------------------------------------------------------------
  // The whole audit
  // ------------------------------------------------------------------

  ghost function Direct(findings: seq<Finding>, ms: seq<Declaration>, contract: Option<string>): seq<Option<Coverage>> {
    seq(|findings|, i requires 0 <= i < |findings| => DirectCoverage(VerifiedOf(ms, contract), findings[i]))
  }

  /** Coverage at the end of the audit. */
  ghost function FinalCoverage(findings: seq<Finding>, ms: seq<Declaration>, contract: Option<string>): seq<Option<Coverage>> {
    var direct := Direct(findings, ms, contract);
    seq(|findings|, i requires 0 <= i < |findings| => Inherited(findings, direct, i))
  }

  ghost predicate Diagnosed(findings: seq<Finding>, ms: seq<Declaration>, contract: Option<string>, d: Diagnostic) {
    var verified := VerifiedOf(ms, contract);
    || SelectionDiagnostic(ms, contract, d)
    || ClaimsDiagnostic(findings, verified, d)
    || DuplicateDiagnostic(findings, verified, d)
    || GapsDiagnostic(findings, FinalCoverage(findings, ms, contract), verified, d)
  }

  /** By migration, then category, then target. */
  predicate DiagnosticLeq(d: Diagnostic, e: Diagnostic) {
    if d.migration != e.migration then TextLeq(d.migration, e.migration)
    else if d.category != e.category then TextLeq(d.category, e.category)
    else TextLeq(d.target, e.target)
  }

  ghost predicate ToldBefore(d: Diagnostic, e: Diagnostic) {
    || TextBefore(d.migration, e.migration)
    || (d.migration == e.migration && TextBefore(d.category, e.category))
    || (d.migration == e.migration && d.category == e.category && TextBefore(d.target, e.target))
  }

  ghost predicate ToldAlike(d: Diagnostic, e: Diagnostic) {
    d.migration == e.migration && d.category == e.category && d.target == e.target
  }

  /** Migrations in byte order, categories within one, targets within those;
      an absent text first. */
  ghost predicate InDiagnosticOrder(ds: seq<Diagnostic>) {
    forall i, j :: 0 <= i < j < |ds| ==> ToldBefore(ds[i], ds[j]) || ToldAlike(ds[i], ds[j])
  }

  lemma DiagnosticsAreOrdered(ds: seq<Diagnostic>)
    requires Sorted(ds, DiagnosticLeq)
    ensures InDiagnosticOrder(ds)
  {
    forall i, j | 0 <= i < j < |ds|
      ensures ToldBefore(ds[i], ds[j]) || ToldAlike(ds[i], ds[j])
    {
      assert DiagnosticLeq(ds[i], ds[j]);
      TextLeqIsExact(ds[i].migration, ds[j].migration);
      TextLeqIsExact(ds[i].category, ds[j].category);
      TextLeqIsExact(ds[i].target, ds[j].target);
      hide TextLeq, TextBefore;
    }
  }

  lemma DiagnosticTransitive(d: Diagnostic, e: Diagnostic, f: Diagnostic)
    requires DiagnosticLeq(d, e) && DiagnosticLeq(e, f)
    ensures DiagnosticLeq(d, f)
  {
    TextOrder();
    hide TextLeq;
  }

  lemma DiagnosticRanks()
    ensures Ranks(DiagnosticLeq)
  {
    forall d, e ensures DiagnosticLeq(d, e) || DiagnosticLeq(e, d) {
      TextOrder();
      hide TextLeq;
    }
    hide DiagnosticLeq;
    forall d, e, f | DiagnosticLeq(d, e) && DiagnosticLeq(e, f) ensures DiagnosticLeq(d, f) {
      DiagnosticTransitive(d, e, f);
    }
  }

  method SortDiagnostics(ds: seq<Diagnostic>) returns (r: seq<Diagnostic>)
    ensures InDiagnosticOrder(r) && multiset(r) == multiset(ds)
    ensures forall d :: d in r <==> d in ds
  {
    DiagnosticRanks();
    SortSorted(ds, DiagnosticLeq);
    r := Sort(ds, DiagnosticLeq);
    DiagnosticsAreOrdered(r);
    MultisetMembers(r, ds);
  }

  lemma {:induction false} VerifiedMember(ms: seq<Declaration>, contract: Option<string>, m: Declaration)
    ensures m in VerifiedOf(ms, contract) <==> m in ms && IsVerified(m, contract)
  {
    if ms != [] {
      VerifiedMember(ms[..|ms| - 1], contract, m);
      assert ms == ms[..|ms| - 1] + [ms[|ms| - 1]];
    }
  }

  /** No silent gap: a critical or warning finding on a type that an active
      migration lists is covered at the end, or the gap is reported. */
  lemma NoSilentGap(findings: seq<Finding>, ms: seq<Declaration>, contract: Option<string>, m: Declaration, i: nat, t: string)
    requires m in ms && m.runsBeforeRead && t in m.migrates
    requires m.contracts == {} || (contract.Some? && contract.value in m.contracts)
    requires i < |findings| && (findings[i].severity == Critical || findings[i].severity == Warning)
    requires findings[i].typeName == Some(t)
    ensures
      || FinalCoverage(findings, ms, contract)[i].Some?
      || Diagnosed(findings, ms, contract, Diagnostic(CoverageGap, Some(m.id), Some(findings[i].category), findings[i].target))
  {
    VerifiedMember(ms, contract, m);
    var coverage := FinalCoverage(findings, ms, contract);
    if coverage[i].None? {
      assert IsGap(findings, coverage, m, i);
      assert GapDiagnostic(findings, coverage, m, AboutFinding(CoverageGap, m, findings[i]));
    }
  }

  /** A gap report stands for an uncovered critical or warning finding on a type
      that an active migration lists. */
  lemma GapsAreReal(findings: seq<Finding>, ms: seq<Declaration>, contract: Option<string>, d: Diagnostic)
    returns (m: Declaration, i: nat, t: string)
    requires Diagnosed(findings, ms, contract, d) && d.kind == CoverageGap
    ensures m in ms && m.runsBeforeRead && t in m.migrates
    ensures m.contracts == {} || (contract.Some? && contract.value in m.contracts)
    ensures i < |findings| && (findings[i].severity == Critical || findings[i].severity == Warning)
    ensures findings[i].typeName == Some(t) && FinalCoverage(findings, ms, contract)[i].None?
    ensures d == Diagnostic(CoverageGap, Some(m.id), Some(findings[i].category), findings[i].target)
  {
    var coverage := FinalCoverage(findings, ms, contract);
    m :| m in VerifiedOf(ms, contract) && GapDiagnostic(findings, coverage, m, d);
    VerifiedMember(ms, contract, m);
    i :| 0 <= i < |findings| && IsGap(findings, coverage, m, i) && d == AboutFinding(CoverageGap, m, findings[i]);
    t :| t in m.migrates && findings[i].typeName == Some(t);
  }

  // ------------------------------------------------------------------
  // The audit, field by field
  // ------------------------------------------------------------------

  /** Some claim holds of f, and a different one does too. */
  ghost predicate ClaimedTwice(ms: seq<Declaration>, contract: Option<string>, f: Finding) {
    exists i: nat, k: nat, j: nat, l: nat ::
      IsClaim(ms, contract, f, i, k) && IsClaim(ms, contract, f, j, l) && (i != j || k != l)
  }

  lemma ClaimedTwiceIsExact(ms: seq<Declaration>, contract: Option<string>, f: Finding)
    ensures ClaimedTwice(ms, contract, f) <==> |ClaimantIds(ms, contract, f)| > 1
  {
    var sites := Sites(ms, contract, f);
    IdsMatchSites(ms, contract, f);
    SitesExact(ms, contract, f);
    hide Sites, ClaimantIds;
    if |sites| > 1 {
      assert IsClaim(ms, contract, f, sites[0].0, sites[0].1) by { assert sites[0] in sites; }
      assert IsClaim(ms, contract, f, sites[1].0, sites[1].1) by { assert sites[1] in sites; }
    }
    if ClaimedTwice(ms, contract, f) {
      var i: nat, k: nat, j: nat, l: nat :|
        IsClaim(ms, contract, f, i, k) && IsClaim(ms, contract, f, j, l) && (i != j || k != l);
      var x: Site, y: Site := (i, k), (j, l);
      assert x in sites && y in sites && x != y;
    }
  }

  /** Every kind of diagnostic and when it is raised, in the fields of the
      declarations, their claims and the findings. */
  ghost predicate Expected(findings: seq<Finding>, ms: seq<Declaration>, contract: Option<string>, coverage: seq<Option<Coverage>>, d: Diagnostic)
    requires |findings| == |coverage|
  {
    || (exists m :: m in ms && IsFor(m, contract) && !m.runsBeforeRead && d == Diagnostic(OrderingUnattested, Some(m.id), None, None))
    || (exists m :: m in ms && IsFor(m, contract) && m.runsBeforeRead && m.migrates == {} && d == Diagnostic(NoTypesDeclared, Some(m.id), None, None))
    || (exists m, c :: m in ms && IsActive(m, contract) && c in m.covers && (forall f :: f in findings ==> !IsAbout(c, f))
          && d == Diagnostic(StaleClaim, Some(m.id), Some(c.category), c.target))
    || (exists m, c, f :: m in ms && IsActive(m, contract) && c in m.covers && f in findings && IsAbout(c, f)
          && f.typeName == None && d == Diagnostic(NotMigratable, Some(m.id), Some(f.category), f.target))
    || (exists m, c, f :: m in ms && IsActive(m, contract) && c in m.covers && f in findings && IsAbout(c, f)
          && f.typeName != None && !Lists(m, f) && d == Diagnostic(ClaimOutsideScope, Some(m.id), Some(f.category), f.target))
    || (exists f :: f in findings && ClaimedTwice(ms, contract, f) && d == Diagnostic(DuplicateClaim, None, Some(f.category), f.target))
    || (exists m, i :: m in ms && IsActive(m, contract) && 0 <= i < |findings| && Lists(m, findings[i]) && IsBreaking(findings[i])
          && coverage[i] == None && d == Diagnostic(CoverageGap, Some(m.id), Some(findings[i].category), findings[i].target))
    || (exists m, t :: m in ms && IsActive(m, contract) && t in m.migrates && (forall f :: f in findings ==> f.typeName != Some(t))
          && d == Diagnostic(NoFindingsForType, Some(m.id), None, None))
  }

  lemma ActiveIsVerified(ms: seq<Declaration>, contract: Option<string>, m: Declaration)
    ensures m in VerifiedOf(ms, contract) <==> m in ms && IsActive(m, contract)
  {
    VerifiedMember(ms, contract, m);
  }

  /** Exactly one claim of all active migrations holds of f. */
  ghost predicate SolelyClaimed(ms: seq<Declaration>, contract: Option<string>, f: Finding) {
    exists j: nat, k: nat :: OnlyClaim(ms, contract, f, j, k)
  }

  lemma DirectIsSole(findings: seq<Finding>, ms: seq<Declaration>, contract: Option<string>, i: nat)
    requires i < |findings|
    ensures Direct(findings, ms, contract)[i].Some? <==> SolelyClaimed(ms, contract, findings[i])
  {
    DirectCoverageIsExact(ms, contract, findings[i]);
  }

  /** Exactly one claim holds of the finding, or it names a root that has critical
      or warning findings, each of them with exactly one claim. */
  ghost predicate IsCovered(findings: seq<Finding>, ms: seq<Declaration>, contract: Option<string>, i: nat)
    requires i < |findings|
  {
    || SolelyClaimed(ms, contract, findings[i])
    || exists root, j :: findings[i].rootTarget == Some(root) && 0 <= j < |findings| && Breaks(findings[j], root)
         && forall k :: 0 <= k < |findings| && Breaks(findings[k], root) ==> SolelyClaimed(ms, contract, findings[k])
  }

  /** Final coverage, told of the claims alone. */
  lemma CoverageIsExact(findings: seq<Finding>, ms: seq<Declaration>, contract: Option<string>, i: nat)
    requires i < |findings|
    ensures FinalCoverage(findings, ms, contract)[i].Some? <==> IsCovered(findings, ms, contract, i)
  {
    var direct := Direct(findings, ms, contract);
    forall k | 0 <= k < |findings| ensures direct[k].Some? <==> SolelyClaimed(ms, contract, findings[k]) {
      DirectIsSole(findings, ms, contract, k);
    }
    InheritanceIsExact(findings, direct, i);
    hide SolelyClaimed, Inherited, Breaks;
  }

  lemma SelectionIsExpected(ms: seq<Declaration>, contract: Option<string>, d: Diagnostic)
    ensures SelectionDiagnostic(ms, contract, d) <==>
      || (exists m :: m in ms && IsFor(m, contract) && !m.runsBeforeRead && d == Diagnostic(OrderingUnattested, Some(m.id), None, None))
      || (exists m :: m in ms && IsFor(m, contract) && m.runsBeforeRead && m.migrates == {} && d == Diagnostic(NoTypesDeclared, Some(m.id), None, None))
  {
    hide IsFor;
    if SelectionDiagnostic(ms, contract, d) {
      var m :| m in ms && TurnedAway(m, contract, d);
    }
    if m :| m in ms && IsFor(m, contract) && !m.runsBeforeRead && d == Diagnostic(OrderingUnattested, Some(m.id), None, None) {
      assert TurnedAway(m, contract, d);
    }
    if m :| m in ms && IsFor(m, contract) && m.runsBeforeRead && m.migrates == {} && d == Diagnostic(NoTypesDeclared, Some(m.id), None, None) {
      assert TurnedAway(m, contract, d);
    }
  }

  lemma ClaimsAreExpected(findings: seq<Finding>, ms: seq<Declaration>, d: Diagnostic)
    ensures ClaimsDiagnostic(findings, ms, d) <==>
      || (exists m, c :: m in ms && c in m.covers && (forall f :: f in findings ==> !IsAbout(c, f))
            && d == Diagnostic(StaleClaim, Some(m.id), Some(c.category), c.target))
      || (exists m, c, f :: m in ms && c in m.covers && f in findings && IsAbout(c, f)
            && f.typeName == None && d == Diagnostic(NotMigratable, Some(m.id), Some(f.category), f.target))
      || (exists m, c, f :: m in ms && c in m.covers && f in findings && IsAbout(c, f)
            && f.typeName != None && !Lists(m, f) && d == Diagnostic(ClaimOutsideScope, Some(m.id), Some(f.category), f.target))
  {
    hide IsAbout;
    if ClaimsDiagnostic(findings, ms, d) {
      var m, c :| m in ms && c in m.covers && ClaimDiagnostic(findings, m, c, d);
      if !IsStale(findings, c) || d != Diagnostic(StaleClaim, Some(m.id), Some(c.category), c.target) {
        var f, kind :| f in findings && RejectedFor(m, c, f, kind) && d == AboutFinding(kind, m, f);
      }
    }
    if m, c :| (m in ms && c in m.covers && (forall f :: f in findings ==> !IsAbout(c, f))
      && d == Diagnostic(StaleClaim, Some(m.id), Some(c.category), c.target)) {
      assert ClaimDiagnostic(findings, m, c, d);
    }
    if m, c, f :| (m in ms && c in m.covers && f in findings && IsAbout(c, f)
      && f.typeName == None && d == Diagnostic(NotMigratable, Some(m.id), Some(f.category), f.target)) {
      assert RejectedFor(m, c, f, NotMigratable) && d == AboutFinding(NotMigratable, m, f);
      assert ClaimDiagnostic(findings, m, c, d);
    }
    if m, c, f :| (m in ms && c in m.covers && f in findings && IsAbout(c, f)
      && f.typeName != None && !Lists(m, f) && d == Diagnostic(ClaimOutsideScope, Some(m.id), Some(f.category), f.target)) {
      assert RejectedFor(m, c, f, ClaimOutsideScope) && d == AboutFinding(ClaimOutsideScope, m, f);
      assert ClaimDiagnostic(findings, m, c, d);
    }
  }

  lemma GapsAreExpected(findings: seq<Finding>, coverage: seq<Option<Coverage>>, ms: seq<Declaration>, d: Diagnostic)
    requires |findings| == |coverage|
    ensures GapsDiagnostic(findings, coverage, ms, d) <==>
      || (exists m, i :: m in ms && 0 <= i < |findings| && Lists(m, findings[i]) && IsBreaking(findings[i])
            && coverage[i] == None && d == Diagnostic(CoverageGap, Some(m.id), Some(findings[i].category), findings[i].target))
      || (exists m, t :: m in ms && t in m.migrates && (forall f :: f in findings ==> f.typeName != Some(t))
            && d == Diagnostic(NoFindingsForType, Some(m.id), None, None))
  {
    hide Lists;
    if m, i :| (m in ms && 0 <= i < |findings| && Lists(m, findings[i]) && IsBreaking(findings[i])
      && coverage[i] == None && d == Diagnostic(CoverageGap, Some(m.id), Some(findings[i].category), findings[i].target)) {
      assert IsGap(findings, coverage, m, i) && d == AboutFinding(CoverageGap, m, findings[i]);
      assert GapDiagnostic(findings, coverage, m, d);
    }
    if m, t :| (m in ms && t in m.migrates && (forall f :: f in findings ==> f.typeName != Some(t))
      && d == Diagnostic(NoFindingsForType, Some(m.id), None, None)) {
      assert d == AboutMigration(NoFindingsForType, m);
      assert GapDiagnostic(findings, coverage, m, d);
    }
    if GapsDiagnostic(findings, coverage, ms, d) {
      var m :| m in ms && GapDiagnostic(findings, coverage, m, d);
      if i :| 0 <= i < |findings| && IsGap(findings, coverage, m, i) && d == AboutFinding(CoverageGap, m, findings[i]) {
      }
    }
  }

  /** What the audit reports is exactly what is expected. */
  lemma DiagnosticsAreExact(findings: seq<Finding>, ms: seq<Declaration>, contract: Option<string>, d: Diagnostic)
    ensures Diagnosed(findings, ms, contract, d) <==> Expected(findings, ms, contract, FinalCoverage(findings, ms, contract), d)
  {
    var coverage := FinalCoverage(findings, ms, contract);
    var verified := VerifiedOf(ms, contract);
    forall m ensures m in verified <==> m in ms && IsActive(m, contract) {
      ActiveIsVerified(ms, contract, m);
    }
    forall f ensures |Claimants(verified, |verified|, f)| > 1 <==> ClaimedTwice(ms, contract, f) {
      ClaimedTwiceIsExact(ms, contract, f);
    }
    hide FinalCoverage, VerifiedOf, Claimants, IsActive, IsAbout, ClaimedTwice, IsFor;
    SelectionIsExpected(ms, contract, d);
    ClaimsAreExpected(findings, verified, d);
    GapsAreExpected(findings, coverage, verified, d);
  }

  lemma AuditMeans(findings: seq<Finding>, ms: seq<Declaration>, contract: Option<string>)
    ensures forall i :: 0 <= i < |findings| ==> (FinalCoverage(findings, ms, contract)[i].Some? <==> IsCovered(findings, ms, contract, i))
    ensures forall d :: Diagnosed(findings, ms, contract, d) <==> Expected(findings, ms, contract, FinalCoverage(findings, ms, contract), d)
  {
    hide Expected, Diagnosed, IsCovered;
    forall d ensures Diagnosed(findings, ms, contract, d) <==> Expected(findings, ms, contract, FinalCoverage(findings, ms, contract), d) {
      DiagnosticsAreExact(findings, ms, contract, d);
    }
    forall i | 0 <= i < |findings| ensures FinalCoverage(findings, ms, contract)[i].Some? <==> IsCovered(findings, ms, contract, i) {
      CoverageIsExact(findings, ms, contract, i);
    }
  }

  /** Select, record, resolve, cascade, report.  The diagnostics are those of
      each phase, no more and no fewer, sorted for display; coverage and
      diagnostics are told of the fields of declarations and findings. */
  method Audit(findings: seq<Finding>, ms: seq<Declaration>, contract: Option<string>)
    returns (coverage: seq<Option<Coverage>>, diagnostics: seq<Diagnostic>, declared: bool)
    ensures coverage == FinalCoverage(findings, ms, contract)
    ensures forall d :: d in diagnostics <==> Diagnosed(findings, ms, contract, d)
    ensures |coverage| == |findings| && forall i :: 0 <= i < |findings| ==> (coverage[i].Some? <==> IsCovered(findings, ms, contract, i))
    ensures forall d :: d in diagnostics <==> Expected(findings, ms, contract, coverage, d)
    ensures InDiagnosticOrder(diagnostics)
    ensures declared <==> exists m :: m in ms && IsFor(m, contract)
  {
    hide SelectionDiagnostic, ClaimsDiagnostic, DuplicateDiagnostic, GapsDiagnostic, Claimants, DirectCoverage, Inherited, Expected, IsCovered, InDiagnosticOrder;
    var auditor := new Auditor(findings);
    var verified := auditor.Select(ms, contract);
    auditor.RecordClaims(verified);
    auditor.Resolve(verified);
    assert auditor.coverage[..] == Direct(findings, ms, contract);
    InheritThroughCascades(findings, auditor.coverage);
    coverage := auditor.coverage[..];
    assert coverage == FinalCoverage(findings, ms, contract);
    auditor.ReportGaps(verified);
    diagnostics := SortDiagnostics(auditor.diagnostics);
    declared := exists m :: m in ms && AppliesTo(m, contract);
    AuditMeans(findings, ms, contract);
  }
}
