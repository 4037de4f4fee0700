/** Breaking changes and what they reach: chains of calls that carry a finding,
    and what a search with one key per contract and finding has found. */
module Reachability {
  import opened Prelude
  import opened Findings
  import opened DependencyGraph

  const FUNCTION_CATEGORIES: seq<string> := [
    "Function Removed", "Function Signature Changed",
    "Parameter Renamed", "Parameter Reordered", "Parameter Type Changed", "Return Type Changed"]

  const STRUCT_CATEGORIES: seq<string> := [
    "Struct Removed", "Struct Field Removed", "Struct Field Reordered",
    "Struct Field Type Changed", "Struct Field Inserted"]

  const ENUM_CATEGORIES: seq<string> := [
    "Enum Removed", "Enum Case Removed", "Enum Case Value Changed",
    "Error Enum Removed", "Error Enum Case Removed", "Error Enum Case Value Changed"]

  const UNION_CATEGORIES: seq<string> := [
    "Union Removed", "Union Case Removed", "Union Case Reordered",
    "Union Case Type Changed", "Union Case Inserted"]

  /** The list of caller-visible categories, grouped by what they are about. */
  predicate IsVisibleCategory(c: string) {
    || c in FUNCTION_CATEGORIES
    || c in STRUCT_CATEGORIES
    || c in ENUM_CATEGORIES
    || c in UNION_CATEGORIES
    || c == "Cascading Layout Break"
  }

  predicate IsCallerVisible(f: Finding) {
    f.severity != Info && IsVisibleCategory(f.category)
  }

  function TargetText(f: Finding): string {
    if f.target.Some? then f.target.value else ""
  }

  function PropagationKey(contract: Name, f: Finding): string {
    contract + "|" + f.category + "|" + TargetText(f)
  }

  datatype CrossFinding = CrossFinding(changed: Name, affected: Name, finding: Finding, depth: nat)

  type Key = (Name, Name, string)

  function KeyOf(affected: Name, changed: Name, f: Finding): Key {
    (affected, changed, PropagationKey(changed, f))
  }

  function ItemKey(e: CrossFinding): Key {
    KeyOf(e.affected, e.changed, e.finding)
  }

  // ------------------------------------------------------------------
  // What a key tells apart
  // ------------------------------------------------------------------

  lemma FunctionCategoriesHaveNoBar(c: string)
    requires c in FUNCTION_CATEGORIES
    ensures '|' !in c
  {
  }

  lemma StructCategoriesHaveNoBar(c: string)
    requires c in STRUCT_CATEGORIES
    ensures '|' !in c
  {
  }

  lemma EnumCategoriesHaveNoBar(c: string)
    requires c in ENUM_CATEGORIES
    ensures '|' !in c
  {
  }

  lemma UnionCategoriesHaveNoBar(c: string)
    requires c in UNION_CATEGORIES
    ensures '|' !in c
  {
  }

  lemma CategoriesHaveNoBar(c: string)
    requires IsVisibleCategory(c)
    ensures '|' !in c
  {
    if c in FUNCTION_CATEGORIES {
      FunctionCategoriesHaveNoBar(c);
    } else if c in STRUCT_CATEGORIES {
      StructCategoriesHaveNoBar(c);
    } else if c in ENUM_CATEGORIES {
      EnumCategoriesHaveNoBar(c);
    } else if c in UNION_CATEGORIES {
      UnionCategoriesHaveNoBar(c);
    }
  }

  lemma BarSplit(a: string, b: string, r: string, s: string)
    requires '|' !in a && '|' !in b && a + "|" + r == b + "|" + s
    ensures a == b && r == s
  {
    var w := a + "|" + r;
    assert w[|a|] == '|' && w[|b|] == '|';
    assert forall i :: 0 <= i < |a| ==> w[i] == a[i];
    assert forall i :: 0 <= i < |b| ==> w[i] == b[i];
    assert |a| == |b|;
    assert a == w[..|a|] && b == w[..|b|] && r == w[|a| + 1..] && s == w[|b| + 1..];
  }

  /** Findings of one contract share a key exactly when category and target
      text agree, although names and targets may contain the separator. */
  lemma KeyIsExact(contract: Name, f: Finding, g: Finding)
    requires IsCallerVisible(f) && IsCallerVisible(g)
    ensures PropagationKey(contract, f) == PropagationKey(contract, g)
       <==> f.category == g.category && TargetText(f) == TargetText(g)
  {
    if PropagationKey(contract, f) == PropagationKey(contract, g) {
      var x, y := f.category + "|" + TargetText(f), g.category + "|" + TargetText(g);
      assert PropagationKey(contract, f) == (contract + "|") + x;
      assert PropagationKey(contract, g) == (contract + "|") + y;
      assert x == PropagationKey(contract, f)[|contract + "|"|..];
      assert y == PropagationKey(contract, g)[|contract + "|"|..];
      CategoriesHaveNoBar(f.category);
      CategoriesHaveNoBar(g.category);
      BarSplit(f.category, g.category, TargetText(f), TargetText(g));
    }
  }

  // ------------------------------------------------------------------
  // Reachability, independently of any search
  // ------------------------------------------------------------------

  type FindingsOf = map<Name, seq<Finding>>

  /** The caller depends on the callee in a way the finding touches. */
  ghost predicate Carries(edges: Edges, caller: Name, callee: Name, f: Finding) {
    var w := Watched(edges, caller, callee);
    w.Some? && FunctionIsWatched(f, w.value)
  }

  /** A chain of exactly n calls, all carrying the finding, leads from x to the
      changed contract. */
  ghost predicate Reaches(edges: Edges, changed: Name, f: Finding, x: Name, n: nat)
    decreases n
  {
    n > 0 &&
    (if n == 1 then Carries(edges, x, changed, f)
     else exists y :: Reaches(edges, changed, f, y, n - 1) && Carries(edges, x, y, f))
  }

  ghost predicate Propagated(findings: FindingsOf, changed: Name, f: Finding) {
    && changed in findings && f in findings[changed]
    && (f.severity == Critical || f.severity == Warning) && IsVisibleCategory(f.category)
  }

  /** A missing target and an empty one share a key (`KeyClash`).  Where one
      contract has both for one category, nobody may depend on all of it: that
      is when both findings propagate. */
  ghost predicate TargetsToldApart(edges: Edges, findings: FindingsOf) {
    forall c, f, g, x ::
      Propagated(findings, c, f) && Propagated(findings, c, g) && f.category == g.category
      && f.target == None && g.target == Some("")
      ==> Watched(edges, x, c) != Some([])
  }

  lemma KeyClash(category: string)
    ensures
      var f := Finding(Critical, [], category, "", None, None, None, None);
      var g := f.(target := Some(""));
      && KeyOf("a", "b", f) == KeyOf("a", "b", g)
      && !FunctionIsWatched(f, [""]) && FunctionIsWatched(g, [""])
  {
    assert "" in [""];
  }

  ghost predicate SameKind(f: Finding, g: Finding) {
    f.category == g.category && f.target == g.target
  }

  lemma {:induction false} ReachesByKind(edges: Edges, changed: Name, f: Finding, g: Finding, x: Name, n: nat)
    requires f.target == g.target && Reaches(edges, changed, f, x, n)
    ensures Reaches(edges, changed, g, x, n)
    decreases n
  {
    if n > 1 {
      var y :| Reaches(edges, changed, f, y, n - 1) && Carries(edges, x, y, f);
      ReachesByKind(edges, changed, f, g, y, n - 1);
      assert Carries(edges, x, y, g);
    }
  }

  /** Whatever reaches a contract started at a direct caller. */
  lemma {:induction false} FirstHop(edges: Edges, changed: Name, f: Finding, x: Name, n: nat) returns (y: Name)
    requires Reaches(edges, changed, f, x, n)
    ensures Carries(edges, y, changed, f)
    decreases n
  {
    if n == 1 {
      y := x;
    } else {
      var z :| Reaches(edges, changed, f, z, n - 1) && Carries(edges, x, z, f);
      y := FirstHop(edges, changed, f, z, n - 1);
    }
  }

  lemma NoTargetHidden(edges: Edges, findings: FindingsOf, changed: Name, f: Finding, g: Finding, x: Name, n: nat)
    requires TargetsToldApart(edges, findings) && Propagated(findings, changed, f) && Propagated(findings, changed, g)
    requires f.category == g.category && f.target == None && Reaches(edges, changed, f, x, n)
    ensures g.target != Some("")
  {
    var y := FirstHop(edges, changed, f, x, n);
    assert Watched(edges, y, changed) == Some([]);
  }

  /** Findings that both propagate share a key only if they are of one kind. */
  lemma SameKeySameKind(edges: Edges, findings: FindingsOf, changed: Name, f: Finding, g: Finding, x: Name, n: nat, y: Name, m: nat)
    requires TargetsToldApart(edges, findings) && Propagated(findings, changed, f) && Propagated(findings, changed, g)
    requires Reaches(edges, changed, f, x, n) && Reaches(edges, changed, g, y, m)
    ensures PropagationKey(changed, f) == PropagationKey(changed, g) <==> SameKind(f, g)
  {
    KeyIsExact(changed, f, g);
    hide TargetsToldApart, Reaches, PropagationKey, Propagated;
    if f.category == g.category && f.target == None {
      NoTargetHidden(edges, findings, changed, f, g, x, n);
    }
    if f.category == g.category && g.target == None {
      NoTargetHidden(edges, findings, changed, g, f, y, m);
    }
  }

  // ------------------------------------------------------------------
  // The state of the search: everything emitted so far, in order, of which
  // the first `done` have been expanded
  // ------------------------------------------------------------------

  type Items = seq<CrossFinding>

  ghost predicate Has(all: Items, k: Key, d: nat) {
    exists i :: 0 <= i < |all| && ItemKey(all[i]) == k && all[i].depth <= d
  }

  ghost predicate KeysOk(all: Items, emitted: set<Key>) {
    && |emitted| == |all|
    && (forall i, j :: 0 <= i < j < |all| ==> ItemKey(all[i]) != ItemKey(all[j]))
    && (forall i :: 0 <= i < |all| ==> ItemKey(all[i]) in emitted)
    && (forall k :: k in emitted ==> exists i :: 0 <= i < |all| && ItemKey(all[i]) == k)
  }

  ghost predicate ItemOk(edges: Edges, findings: FindingsOf, e: CrossFinding) {
    && Propagated(findings, e.changed, e.finding)
    && e.affected in edges
    && Reaches(edges, e.changed, e.finding, e.affected, e.depth)
  }

  ghost predicate ItemsOk(edges: Edges, findings: FindingsOf, all: Items) {
    forall i :: 0 <= i < |all| ==> ItemOk(edges, findings, all[i])
  }

  /** Depths never fall, and never run more than one ahead of d. */
  ghost predicate LevelsOk(all: Items, d: nat) {
    && (forall i, j :: 0 <= i < j < |all| ==> all[i].depth <= all[j].depth)
    && forall i :: 0 <= i < |all| ==> all[i].depth <= d + 1
  }

  /** Every direct caller of every propagated finding is there at depth 1. */
  ghost predicate Seeded(edges: Edges, findings: FindingsOf, all: Items) {
    forall c, f, x :: Propagated(findings, c, f) && Carries(edges, x, c, f) ==> Has(all, KeyOf(x, c, f), 1)
  }

  /** Every caller of an expanded contract is there, at most one hop further. */
  ghost predicate Expanded(edges: Edges, all: Items, e: CrossFinding) {
    forall x :: Carries(edges, x, e.affected, e.finding) ==> Has(all, KeyOf(x, e.changed, e.finding), e.depth + 1)
  }

  ghost predicate AllExpanded(edges: Edges, all: Items, done: nat)
    requires done <= |all|
  {
    forall i :: 0 <= i < done ==> Expanded(edges, all, all[i])
  }

  ghost function Universe(edges: Edges, findings: FindingsOf): set<Key> {
    set c, f, x | c in findings && f in findings[c] && x in edges :: KeyOf(x, c, f)
  }

  lemma HasMono(all: Items, more: Items, k: Key, d: nat)
    requires Has(all, k, d) && all <= more
    ensures Has(more, k, d)
  {
    var i :| 0 <= i < |all| && ItemKey(all[i]) == k && all[i].depth <= d;
    assert more[i] == all[i];
  }

  lemma AddKeyDistinct(all: Items, emitted: set<Key>, e: CrossFinding)
    requires KeysOk(all, emitted) && ItemKey(e) !in emitted
    ensures forall i, j :: 0 <= i < j < |all + [e]| ==> ItemKey((all + [e])[i]) != ItemKey((all + [e])[j])
    ensures forall i :: 0 <= i < |all + [e]| ==> ItemKey((all + [e])[i]) in emitted + {ItemKey(e)}
  {
  }

  lemma AddKey(all: Items, emitted: set<Key>, e: CrossFinding)
    requires KeysOk(all, emitted) && ItemKey(e) !in emitted
    ensures KeysOk(all + [e], emitted + {ItemKey(e)})
  {
    AddKeyDistinct(all, emitted, e);
    hide ItemKey;
    var more := all + [e];
    forall k | k in emitted + {ItemKey(e)} ensures exists i :: 0 <= i < |more| && ItemKey(more[i]) == k {
      if k == ItemKey(e) {
        assert more[|all|] == e;
      } else {
        var i :| 0 <= i < |all| && ItemKey(all[i]) == k;
        assert more[i] == all[i];
      }
    }
  }

  lemma FoundKey(all: Items, emitted: set<Key>, k: Key, d: nat)
    requires KeysOk(all, emitted) && k in emitted && LevelsOk(all, d)
    ensures Has(all, k, d + 1)
  {
  }

  lemma {:induction false} SubsetSize<T>(a: set<T>, b: set<T>)
    requires a <= b
    ensures |a| <= |b|
  {
    if a != {} {
      var x :| x in a;
      SubsetSize(a - {x}, b - {x});
    }
  }

  /** Distinct keys of valid items fit in the universe, so the search ends. */
  lemma EmittedFits(edges: Edges, findings: FindingsOf, all: Items, emitted: set<Key>)
    requires KeysOk(all, emitted) && ItemsOk(edges, findings, all)
    ensures |all| <= |Universe(edges, findings)|
  {
    forall k | k in emitted ensures k in Universe(edges, findings) {
      var i :| 0 <= i < |all| && ItemKey(all[i]) == k;
      assert ItemOk(edges, findings, all[i]);
    }
    SubsetSize(emitted, Universe(edges, findings));
  }

  // ------------------------------------------------------------------
  // What a finished search means
  // ------------------------------------------------------------------

  lemma StepIsEmitted(edges: Edges, all: Items, e: CrossFinding, f: Finding, x: Name)
    requires Expanded(edges, all, e) && SameKind(e.finding, f) && Carries(edges, x, e.affected, f)
    ensures Has(all, KeyOf(x, e.changed, f), e.depth + 1)
  {
    hide Has;
    assert Carries(edges, x, e.affected, e.finding);
  }

  lemma HasSooner(all: Items, k: Key, d: nat, n: nat)
    requires Has(all, k, d) && d <= n
    ensures Has(all, k, n)
  {
  }

  lemma {:induction false} ReachedIsEmitted(edges: Edges, findings: FindingsOf, all: Items, changed: Name, f: Finding, x: Name, n: nat)
    requires TargetsToldApart(edges, findings) && ItemsOk(edges, findings, all)
    requires Seeded(edges, findings, all) && AllExpanded(edges, all, |all|)
    requires Propagated(findings, changed, f) && Reaches(edges, changed, f, x, n)
    ensures Has(all, KeyOf(x, changed, f), n)
    decreases n
  {
    if n > 1 {
      var y :| Reaches(edges, changed, f, y, n - 1) && Carries(edges, x, y, f);
      ReachedIsEmitted(edges, findings, all, changed, f, y, n - 1);
      hide Reaches, PropagationKey, Expanded, Carries, TargetsToldApart, Seeded, Propagated;
      var i :| 0 <= i < |all| && ItemKey(all[i]) == KeyOf(y, changed, f) && all[i].depth <= n - 1;
      assert ItemOk(edges, findings, all[i]);
      SameKeySameKind(edges, findings, changed, f, all[i].finding, y, n - 1, y, all[i].depth);
      StepIsEmitted(edges, all, all[i], f, x);
      HasSooner(all, KeyOf(x, changed, f), all[i].depth + 1, n);
    }
  }

  ghost predicate IsResult(all: Items, changed: Name, f: Finding, x: Name) {
    exists e :: e in all && e.changed == changed && e.affected == x && SameKind(e.finding, f)
  }

  /** Each result has a carrying chain of the reported length. */
  ghost predicate Carried(edges: Edges, findings: FindingsOf, all: Items) {
    forall e :: e in all ==> Propagated(findings, e.changed, e.finding) && Reaches(edges, e.changed, e.finding, e.affected, e.depth)
  }

  /** No result has a shorter chain than reported. */
  ghost predicate DepthsExact(edges: Edges, all: Items) {
    forall e, n :: e in all && Reaches(edges, e.changed, e.finding, e.affected, n) ==> e.depth <= n
  }

  /** A contract is reported iff some carrying chain leads from it. */
  ghost predicate ReachExact(edges: Edges, findings: FindingsOf, all: Items) {
    forall c, f, x :: Propagated(findings, c, f) ==>
      (IsResult(all, c, f, x) <==> exists n :: Reaches(edges, c, f, x, n))
  }

  ghost predicate SameReport(d: CrossFinding, e: CrossFinding) {
    d.changed == e.changed && d.affected == e.affected && SameKind(d.finding, e.finding)
  }

  /** At most one report per contract and kind of finding. */
  ghost predicate ReportedOnce(all: Items) {
    forall i, j :: 0 <= i < j < |all| ==> !SameReport(all[i], all[j])
  }

  lemma KeysReportOnce(all: Items, emitted: set<Key>)
    requires KeysOk(all, emitted)
    ensures ReportedOnce(all)
  {
    forall i, j | 0 <= i < j < |all| ensures !SameReport(all[i], all[j]) {
      assert ItemKey(all[i]) != ItemKey(all[j]);
    }
  }

  lemma ShortestDepth(edges: Edges, findings: FindingsOf, all: Items, emitted: set<Key>, i: nat, n: nat)
    requires TargetsToldApart(edges, findings) && KeysOk(all, emitted) && ItemsOk(edges, findings, all)
    requires Seeded(edges, findings, all) && AllExpanded(edges, all, |all|)
    requires i < |all| && Reaches(edges, all[i].changed, all[i].finding, all[i].affected, n)
    ensures all[i].depth <= n
  {
    var e := all[i];
    assert ItemOk(edges, findings, e);
    ReachedIsEmitted(edges, findings, all, e.changed, e.finding, e.affected, n);
    var j :| 0 <= j < |all| && ItemKey(all[j]) == ItemKey(e) && all[j].depth <= n;
    assert i == j;
  }

  lemma ResultIsReached(edges: Edges, findings: FindingsOf, all: Items, c: Name, f: Finding, x: Name) returns (n: nat)
    requires ItemsOk(edges, findings, all) && IsResult(all, c, f, x)
    ensures Reaches(edges, c, f, x, n)
  {
    var e :| e in all && e.changed == c && e.affected == x && SameKind(e.finding, f);
    assert ItemOk(edges, findings, e);
    ReachesByKind(edges, c, e.finding, f, x, e.depth);
    n := e.depth;
  }

  lemma ItemAt(edges: Edges, findings: FindingsOf, all: Items, i: nat)
    requires ItemsOk(edges, findings, all) && i < |all|
    ensures ItemOk(edges, findings, all[i])
  {
  }

  lemma ReachedIsResult(edges: Edges, findings: FindingsOf, all: Items, c: Name, f: Finding, x: Name, n: nat)
    requires TargetsToldApart(edges, findings) && ItemsOk(edges, findings, all)
    requires Seeded(edges, findings, all) && AllExpanded(edges, all, |all|)
    requires Propagated(findings, c, f) && Reaches(edges, c, f, x, n)
    ensures IsResult(all, c, f, x)
  {
    ReachedIsEmitted(edges, findings, all, c, f, x, n);
    hide Reaches, Seeded, AllExpanded, PropagationKey, ItemsOk;
    var i :| 0 <= i < |all| && ItemKey(all[i]) == KeyOf(x, c, f) && all[i].depth <= n;
    assert ItemOk(edges, findings, all[i]) by { ItemAt(edges, findings, all, i); }
    SameKeySameKind(edges, findings, c, f, all[i].finding, x, n, x, all[i].depth);
    assert all[i] in all;
  }

  lemma FinishedIsExact(edges: Edges, findings: FindingsOf, all: Items, emitted: set<Key>)
    requires TargetsToldApart(edges, findings) && KeysOk(all, emitted) && ItemsOk(edges, findings, all)
    requires Seeded(edges, findings, all) && AllExpanded(edges, all, |all|)
    ensures DepthsExact(edges, all) && ReachExact(edges, findings, all)
  {
    hide KeysOk, ItemsOk, Seeded, AllExpanded, Reaches, TargetsToldApart;
    forall e, n | e in all && Reaches(edges, e.changed, e.finding, e.affected, n) ensures e.depth <= n {
      var i :| 0 <= i < |all| && all[i] == e;
      ShortestDepth(edges, findings, all, emitted, i, n);
    }
    forall c, f, x | Propagated(findings, c, f)
      ensures IsResult(all, c, f, x) <==> exists n :: Reaches(edges, c, f, x, n)
    {
      hide IsResult;
      if IsResult(all, c, f, x) {
        var n := ResultIsReached(edges, findings, all, c, f, x);
      }
      if n :| Reaches(edges, c, f, x, n) {
        ReachedIsResult(edges, findings, all, c, f, x, n);
      }
    }
  }

  lemma ResultsOfOneKey(all: Items, emitted: set<Key>, c: Name, f: Finding, g: Finding, x: Name)
    requires KeysOk(all, emitted) && IsResult(all, c, f, x) && IsResult(all, c, g, x)
    requires PropagationKey(c, f) == PropagationKey(c, g)
    ensures SameKind(f, g)
  {
    var d :| d in all && d.changed == c && d.affected == x && SameKind(d.finding, f);
    var e :| e in all && e.changed == c && e.affected == x && SameKind(e.finding, g);
    assert ItemKey(d) == KeyOf(x, c, f) == KeyOf(x, c, g) == ItemKey(e);
    hide ItemKey, KeyOf, PropagationKey;
    var i :| 0 <= i < |all| && all[i] == d;
    var j :| 0 <= j < |all| && all[j] == e;
    assert i == j;
  }

  /** Where a missing and an empty target clash, and the whole contract is
      depended on, one result per key cannot be exact: one finding is lost. */
  lemma ClashLosesAResult(edges: Edges, findings: FindingsOf, all: Items, emitted: set<Key>)
    requires KeysOk(all, emitted) && ReachExact(edges, findings, all)
    ensures TargetsToldApart(edges, findings)
  {
    hide KeysOk;
    forall c, f, g, x |
      Propagated(findings, c, f) && Propagated(findings, c, g) && f.category == g.category
      && f.target == None && g.target == Some("")
      ensures Watched(edges, x, c) != Some([])
    {
      if Watched(edges, x, c) == Some([]) {
        assert Reaches(edges, c, f, x, 1) && Reaches(edges, c, g, x, 1);
        ResultsOfOneKey(all, emitted, c, f, g, x);
        assert false;
      }
    }
  }

  /** A finished search: always carried and reported once, and exact precisely
      when targets are told apart. */
  lemma FinishedSearch(edges: Edges, findings: FindingsOf, all: Items, emitted: set<Key>)
    requires KeysOk(all, emitted) && ItemsOk(edges, findings, all)
    requires Seeded(edges, findings, all) && AllExpanded(edges, all, |all|)
    ensures Carried(edges, findings, all) && ReportedOnce(all)
    ensures TargetsToldApart(edges, findings) <==> ReachExact(edges, findings, all)
    ensures TargetsToldApart(edges, findings) ==> DepthsExact(edges, all)
  {
    KeysReportOnce(all, emitted);
    assert Carried(edges, findings, all) by {
      forall e | e in all ensures ItemOk(edges, findings, e) {}
    }
    hide *;
    if TargetsToldApart(edges, findings) {
      FinishedIsExact(edges, findings, all, emitted);
    }
    if ReachExact(edges, findings, all) {
      ClashLosesAResult(edges, findings, all, emitted);
    }
  }
}
