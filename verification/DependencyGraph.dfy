/** Declared dependencies between contracts, merged into one edge per pair. */
module DependencyGraph {
  import opened Prelude
  import opened Findings

  type Name = string

  datatype Dependency = Dependency(caller: Name, callee: Name, functions: seq<Name>)

  datatype Edge = Edge(callee: Name, functions: seq<Name>)

  type Edges = map<Name, seq<Edge>>

  /** Is the finding about something the caller listed?  An empty list means
      the whole interface. */
  predicate FunctionIsWatched(finding: Finding, watched: seq<Name>) {
    watched == [] ||
    (finding.target.Some? &&
     exists fn :: fn in watched && (finding.target.value == fn || (fn + ".") <= finding.target.value))
  }

  // ------------------------------------------------------------------
  // The graph as a relation
  // ------------------------------------------------------------------

  function CalleeList(es: seq<Edge>): seq<Name> {
    seq(|es|, i requires 0 <= i < |es| => es[i].callee)
  }

  function Callees(edges: Edges, n: Name): seq<Name> {
    if n in edges then CalleeList(edges[n]) else []
  }

  predicate HasEdge(edges: Edges, a: Name, b: Name) {
    a in edges && b in CalleeList(edges[a])
  }

  /** Every contract that some declaration mentions. */
  function Nodes(edges: Edges): set<Name> {
    edges.Keys + set a, b | a in edges && b in CalleeList(edges[a]) :: b
  }

  /** Where the edge to this callee is; the length if there is none. */
  function EdgeIndex(es: seq<Edge>, callee: Name): (i: nat)
    ensures i <= |es|
    ensures i < |es| ==> es[i].callee == callee
    ensures i == |es| ==> forall e :: e in es ==> e.callee != callee
  {
    if es == [] || es[0].callee == callee then 0 else 1 + EdgeIndex(es[1..], callee)
  }

  function WatchedIn(es: seq<Edge>, callee: Name): Option<seq<Name>> {
    var i := EdgeIndex(es, callee);
    if i < |es| then Some(es[i].functions) else None
  }

  /** The functions watched by the edge between a pair, if there is an edge. */
  function Watched(edges: Edges, caller: Name, callee: Name): Option<seq<Name>> {
    if caller in edges then WatchedIn(edges[caller], callee) else None
  }

  ghost predicate DistinctCallees(es: seq<Edge>) {
    forall i, j :: 0 <= i < j < |es| ==> es[i].callee != es[j].callee
  }

  ghost predicate OneEdgePerPair(edges: Edges) {
    forall c :: c in edges ==> DistinctCallees(edges[c])
  }

  lemma WatchedIffListed(es: seq<Edge>, b: Name)
    ensures b in CalleeList(es) <==> WatchedIn(es, b).Some?
  {
    var names := CalleeList(es);
    assert forall j :: 0 <= j < |es| ==> names[j] == es[j].callee && es[j] in es;
    assert EdgeIndex(es, b) < |es| ==> names[EdgeIndex(es, b)] == b;
  }

  lemma HasEdgeIffWatched(edges: Edges, a: Name, b: Name)
    ensures HasEdge(edges, a, b) <==> Watched(edges, a, b).Some?
  {
    if a in edges {
      WatchedIffListed(edges[a], b);
    }
  }

  // ------------------------------------------------------------------
  // Merging declarations
  // ------------------------------------------------------------------

  function AppendNew(fs: seq<Name>, gs: seq<Name>): seq<Name> {
    if gs == [] then fs
    else
      var rest := AppendNew(fs, gs[..|gs| - 1]);
      if gs[|gs| - 1] in rest then rest else rest + [gs[|gs| - 1]]
  }

  function Merge(fs: seq<Name>, gs: seq<Name>): seq<Name> {
    if fs == [] || gs == [] then [] else AppendNew(fs, gs)
  }

  /** What the declarations of one pair come to. */
  function MergedFunctions(deps: seq<Dependency>, caller: Name, callee: Name): Option<seq<Name>> {
    if deps == [] then None
    else
      var before := MergedFunctions(deps[..|deps| - 1], caller, callee);
      var last := deps[|deps| - 1];
      if last.caller != caller || last.callee != callee then before
      else if before.None? then Some(last.functions)
      else Some(Merge(before.value, last.functions))
  }

  lemma {:induction false} AppendNewMembers(fs: seq<Name>, gs: seq<Name>)
    ensures forall x :: x in AppendNew(fs, gs) <==> x in fs || x in gs
    ensures |AppendNew(fs, gs)| >= |fs|
  {
    if gs != [] {
      AppendNewMembers(fs, gs[..|gs| - 1]);
      assert gs == gs[..|gs| - 1] + [gs[|gs| - 1]];
    }
  }

  lemma MergeWatches(finding: Finding, fs: seq<Name>, gs: seq<Name>)
    ensures FunctionIsWatched(finding, Merge(fs, gs)) <==> FunctionIsWatched(finding, fs) || FunctionIsWatched(finding, gs)
  {
    AppendNewMembers(fs, gs);
  }

  ghost predicate Declared(deps: seq<Dependency>, caller: Name, callee: Name) {
    exists d :: d in deps && d.caller == caller && d.callee == callee
  }

  /** The target is the function, or a part of it: its name, a dot and more. */
  ghost predicate Concerns(target: Option<string>, fn: Name) {
    target == Some(fn) || exists rest :: target == Some(fn + "." + rest)
  }

  /** A declaration without functions passes on everything; one with functions,
      what concerns one of them and nothing else. */
  ghost predicate PassesOn(d: Dependency, finding: Finding) {
    d.functions == [] || exists fn :: fn in d.functions && Concerns(finding.target, fn)
  }

  lemma PrefixIsConcern(t: string, fn: Name)
    ensures t == fn || (fn + ".") <= t <==> Concerns(Some(t), fn)
  {
    if (fn + ".") <= t {
      assert t == fn + "." + t[|fn| + 1..];
    }
  }

  lemma WatchedIsPassedOn(d: Dependency, finding: Finding)
    ensures FunctionIsWatched(finding, d.functions) <==> PassesOn(d, finding)
  {
    if finding.target.Some? {
      forall fn ensures finding.target.value == fn || (fn + ".") <= finding.target.value <==> Concerns(finding.target, fn) {
        PrefixIsConcern(finding.target.value, fn);
      }
    }
  }

  ghost predicate DeclaredWatching(deps: seq<Dependency>, caller: Name, callee: Name, finding: Finding) {
    exists d :: d in deps && d.caller == caller && d.callee == callee && PassesOn(d, finding)
  }

  /** Some declaration of the pair is about the whole callee. */
  ghost predicate DeclaredWhole(deps: seq<Dependency>, caller: Name, callee: Name) {
    exists d :: d in deps && d.caller == caller && d.callee == callee && d.functions == []
  }

  lemma {:induction false} MergedIsDeclared(deps: seq<Dependency>, caller: Name, callee: Name)
    ensures MergedFunctions(deps, caller, callee).Some? <==> Declared(deps, caller, callee)
  {
    if deps != [] {
      var rest, last := deps[..|deps| - 1], deps[|deps| - 1];
      MergedIsDeclared(rest, caller, callee);
      assert deps == rest + [last];
      assert forall d :: d in deps <==> d in rest || d == last;
    }
  }

  /** A merged edge exists iff some declaration does, and watches a finding iff
      some declaration for the pair does. */
  lemma {:induction false} MergeIsExact(deps: seq<Dependency>, caller: Name, callee: Name, finding: Finding)
    ensures MergedFunctions(deps, caller, callee).Some? <==> Declared(deps, caller, callee)
    ensures MergedFunctions(deps, caller, callee).Some? ==>
      (FunctionIsWatched(finding, MergedFunctions(deps, caller, callee).value)
       <==> DeclaredWatching(deps, caller, callee, finding))
  {
    if deps != [] {
      var rest, last := deps[..|deps| - 1], deps[|deps| - 1];
      MergeIsExact(rest, caller, callee, finding);
      assert deps == rest + [last];
      assert forall d :: d in deps <==> d in rest || d == last;
      if MergedFunctions(rest, caller, callee).Some? {
        MergeWatches(finding, MergedFunctions(rest, caller, callee).value, last.functions);
      }
      WatchedIsPassedOn(last, finding);
      hide FunctionIsWatched, PassesOn, Merge;
    }
  }

  /** A merged edge watches everything iff some declaration does. */
  lemma {:induction false} MergedWholeIsExact(deps: seq<Dependency>, caller: Name, callee: Name)
    ensures MergedFunctions(deps, caller, callee) == Some([]) <==> DeclaredWhole(deps, caller, callee)
  {
    if deps != [] {
      var rest, last := deps[..|deps| - 1], deps[|deps| - 1];
      MergedWholeIsExact(rest, caller, callee);
      assert deps == rest + [last];
      assert forall d :: d in deps <==> d in rest || d == last;
      if MergedFunctions(rest, caller, callee).Some? {
        AppendNewMembers(MergedFunctions(rest, caller, callee).value, last.functions);
      }
    }
  }

  /** A caller's callees, in the order in which they are first declared. */
  function DeclaredCallees(deps: seq<Dependency>, caller: Name): seq<Name> {
    if deps == [] then []
    else
      var before, last := DeclaredCallees(deps[..|deps| - 1], caller), deps[|deps| - 1];
      if last.caller == caller && last.callee !in before then before + [last.callee] else before
  }

  /** The graph of these declarations. */
  ghost predicate Describes(edges: Edges, deps: seq<Dependency>) {
    && OneEdgePerPair(edges)
    && (forall a, b :: Watched(edges, a, b) == MergedFunctions(deps, a, b))
    && forall a :: Callees(edges, a) == DeclaredCallees(deps, a)
  }

  lemma DescribedEdgesAreDistinct(edges: Edges, deps: seq<Dependency>)
    requires Describes(edges, deps)
    ensures OneEdgePerPair(edges)
  {
  }

  /** The edges are the declared pairs. */
  lemma HasEdgeIsDeclared(edges: Edges, deps: seq<Dependency>, a: Name, b: Name)
    requires Describes(edges, deps)
    ensures HasEdge(edges, a, b) <==> Declared(deps, a, b)
  {
    HasEdgeIffWatched(edges, a, b);
    MergedIsDeclared(deps, a, b);
  }

  /** An edge watches what some declaration of the pair watches. */
  lemma WatchedIsDeclared(edges: Edges, deps: seq<Dependency>, a: Name, b: Name, finding: Finding)
    requires Describes(edges, deps)
    ensures Watched(edges, a, b).Some? && FunctionIsWatched(finding, Watched(edges, a, b).value)
       <==> DeclaredWatching(deps, a, b, finding)
  {
    MergedIsDeclared(deps, a, b);
    MergeIsExact(deps, a, b, finding);
  }

  /** An edge watches everything iff some declaration of the pair does. */
  lemma WholeIsDeclared(edges: Edges, deps: seq<Dependency>, a: Name, b: Name)
    requires Describes(edges, deps)
    ensures Watched(edges, a, b) == Some([]) <==> DeclaredWhole(deps, a, b)
  {
    MergedWholeIsExact(deps, a, b);
  }

  // ------------------------------------------------------------------
  // Building the graph
  // ------------------------------------------------------------------

  method AppendNewLoop(functions: seq<Name>, more: seq<Name>) returns (r: seq<Name>)
    ensures r == AppendNew(functions, more)
  {
    r := functions;
    for i := 0 to |more|
      invariant r == AppendNew(functions, more[..i])
    {
      assert more[..i + 1][..i] == more[..i];
      if more[i] !in r {
        r := r + [more[i]];
      }
    }
    assert more[..|more|] == more;
  }

  /** One declaration's effect on the pair it names. */
  function Declare(known: Option<seq<Name>>, dep: Dependency): Option<seq<Name>> {
    if known.None? then Some(dep.functions) else Some(Merge(known.value, dep.functions))
  }

  ghost predicate Adds(es: seq<Edge>, r: seq<Edge>, dep: Dependency) {
    && DistinctCallees(r)
    && (forall b :: WatchedIn(r, b) == if b == dep.callee then Declare(WatchedIn(es, b), dep) else WatchedIn(es, b))
    && CalleeList(r) == CalleeList(es) + if dep.callee in CalleeList(es) then [] else [dep.callee]
  }

  lemma {:induction false} UpdatedEdge(es: seq<Edge>, i: nat, fs: seq<Name>, b: Name)
    requires i < |es| && i == EdgeIndex(es, es[i].callee)
    ensures EdgeIndex(es[i := Edge(es[i].callee, fs)], b) == EdgeIndex(es, b)
  {
    if i > 0 {
      var updated := es[i := Edge(es[i].callee, fs)];
      assert updated[1..] == es[1..][i - 1 := Edge(es[i].callee, fs)];
      UpdatedEdge(es[1..], i - 1, fs, b);
    }
  }

  lemma UpdateWatches(es: seq<Edge>, i: nat, dep: Dependency, b: Name)
    requires i == EdgeIndex(es, dep.callee) < |es|
    ensures
      var r := es[i := Edge(dep.callee, Merge(es[i].functions, dep.functions))];
      WatchedIn(r, b) == if b == dep.callee then Declare(WatchedIn(es, b), dep) else WatchedIn(es, b)
  {
    UpdatedEdge(es, i, Merge(es[i].functions, dep.functions), b);
    hide Merge;
  }

  lemma UpdateKeepsCallees(es: seq<Edge>, i: nat, e: Edge)
    requires i < |es| && es[i].callee == e.callee && DistinctCallees(es)
    ensures DistinctCallees(es[i := e]) && CalleeList(es[i := e]) == CalleeList(es)
    ensures e.callee in CalleeList(es)
  {
    assert CalleeList(es)[i] == e.callee;
    var r := es[i := e];
    assert forall k :: 0 <= k < |es| ==> r[k].callee == es[k].callee;
    hide CalleeList;
    forall k, l | 0 <= k < l < |es| ensures r[k].callee != r[l].callee {
      assert es[k].callee != es[l].callee;
    }
  }

  lemma AddsBy(es: seq<Edge>, r: seq<Edge>, dep: Dependency)
    requires DistinctCallees(r) && CalleeList(r) == CalleeList(es) && dep.callee in CalleeList(es)
    requires forall b :: WatchedIn(r, b) == if b == dep.callee then Declare(WatchedIn(es, b), dep) else WatchedIn(es, b)
    ensures Adds(es, r, dep)
  {
    hide WatchedIn, Declare, DistinctCallees, CalleeList;
  }

  lemma UpdateAdds(es: seq<Edge>, i: nat, dep: Dependency)
    requires DistinctCallees(es) && i == EdgeIndex(es, dep.callee) < |es|
    ensures Adds(es, es[i := Edge(dep.callee, Merge(es[i].functions, dep.functions))], dep)
  {
    var e := Edge(dep.callee, Merge(es[i].functions, dep.functions));
    assert es[i].callee == e.callee;
    hide EdgeIndex, Merge, WatchedIn, Declare, DistinctCallees, CalleeList, Adds;
    UpdateKeepsCallees(es, i, e);
    forall b ensures WatchedIn(es[i := e], b) == if b == dep.callee then Declare(WatchedIn(es, b), dep) else WatchedIn(es, b) {
      UpdateWatches(es, i, dep, b);
    }
    AddsBy(es, es[i := e], dep);
  }

  lemma {:induction false} AddedEdge(es: seq<Edge>, e: Edge, b: Name)
    ensures EdgeIndex(es + [e], b) == if EdgeIndex(es, b) < |es| then EdgeIndex(es, b) else if e.callee == b then |es| else |es| + 1
  {
    if es != [] {
      assert (es + [e])[1..] == es[1..] + [e];
      AddedEdge(es[1..], e, b);
    }
  }

  lemma AppendWatches(es: seq<Edge>, dep: Dependency, b: Name)
    requires EdgeIndex(es, dep.callee) == |es|
    ensures WatchedIn(es + [Edge(dep.callee, dep.functions)], b)
         == if b == dep.callee then Declare(WatchedIn(es, b), dep) else WatchedIn(es, b)
  {
    AddedEdge(es, Edge(dep.callee, dep.functions), b);
  }

  lemma AppendKeepsDistinct(es: seq<Edge>, e: Edge)
    requires DistinctCallees(es) && e.callee !in CalleeList(es)
    ensures DistinctCallees(es + [e]) && CalleeList(es + [e]) == CalleeList(es) + [e.callee]
  {
    var r := es + [e];
    forall k, l | 0 <= k < l < |r| ensures r[k].callee != r[l].callee {
      assert CalleeList(es)[k] == es[k].callee;
      if l < |es| {
        assert es[k].callee != es[l].callee;
      }
    }
  }

  lemma AppendAdds(es: seq<Edge>, dep: Dependency)
    requires DistinctCallees(es) && EdgeIndex(es, dep.callee) == |es|
    ensures Adds(es, es + [Edge(dep.callee, dep.functions)], dep)
  {
    var r := es + [Edge(dep.callee, dep.functions)];
    WatchedIffListed(es, dep.callee);
    assert dep.callee !in CalleeList(es);
    hide EdgeIndex, WatchedIn, Declare, DistinctCallees, CalleeList;
    AppendKeepsDistinct(es, Edge(dep.callee, dep.functions));
    forall b ensures WatchedIn(r, b) == if b == dep.callee then Declare(WatchedIn(es, b), dep) else WatchedIn(es, b) {
      AppendWatches(es, dep, b);
    }
  }

  /** The declaration among its caller's edges. */
  method AddEdge(es: seq<Edge>, dep: Dependency) returns (r: seq<Edge>)
    requires DistinctCallees(es)
    ensures Adds(es, r, dep)
  {
    hide Adds;
    var i := EdgeIndex(es, dep.callee);
    if i < |es| {
      var merged: seq<Name> := [];
      if es[i].functions != [] && dep.functions != [] {
        merged := AppendNewLoop(es[i].functions, dep.functions);
      }
      r := es[i := Edge(dep.callee, merged)];
      UpdateAdds(es, i, dep);
    } else {
      r := es + [Edge(dep.callee, dep.functions)];
      AppendAdds(es, dep);
    }
  }

  lemma DescribesOneMore(edges: Edges, deps: seq<Dependency>, dep: Dependency, es: seq<Edge>)
    requires Describes(edges, deps)
    requires Adds(if dep.caller in edges then edges[dep.caller] else [], es, dep)
    ensures Describes(edges[dep.caller := es], deps + [dep])
  {
    hide EdgeIndex, Merge, DistinctCallees;
    var r, more := edges[dep.caller := es], deps + [dep];
    assert more[..|more| - 1] == deps;
    assert WatchedIn([], dep.callee) == None && CalleeList([]) == [];
    hide CalleeList, WatchedIn;
    forall a ensures Callees(r, a) == DeclaredCallees(more, a) {
      assert Callees(edges, a) == DeclaredCallees(deps, a);
    }
    forall a, b ensures Watched(r, a, b) == MergedFunctions(more, a, b) {
      assert Watched(edges, a, b) == MergedFunctions(deps, a, b);
    }
  }

  lemma KnownDistinct(edges: Edges, deps: seq<Dependency>, caller: Name)
    requires Describes(edges, deps)
    ensures DistinctCallees(if caller in edges then edges[caller] else [])
  {
  }

  method FromDeclarations(deps: seq<Dependency>) returns (edges: Edges)
    ensures Describes(edges, deps)
  {
    hide Adds, CalleeList;
    edges := map[];
    for k := 0 to |deps|
      invariant Describes(edges, deps[..k])
    {
      hide Describes;
      assert deps[..k + 1] == deps[..k] + [deps[k]];
      var known := if deps[k].caller in edges then edges[deps[k].caller] else [];
      KnownDistinct(edges, deps[..k], deps[k].caller);
      var es := AddEdge(known, deps[k]);
      DescribesOneMore(edges, deps[..k], deps[k], es);
      edges := edges[deps[k].caller := es];
    }
    assert deps[..|deps|] == deps;
  }
}
