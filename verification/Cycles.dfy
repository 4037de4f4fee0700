/** Cycle detection: a depth-first walk with a stack of the current path. */
module Cycles {
  import opened Prelude
  import opened Ordering
  import opened DependencyGraph
  import opened DepthFirst
  import opened CycleListing

  lemma OneMore(path: seq<Name>, n: Name)
    requires NoDup(path)
    ensures n !in path ==> NoDup(path + [n])
    ensures (set m | m in path + [n]) == (set m | m in path) + {n}
  {
  }

  class CycleFinder {
    const edges: Edges
    var visited: set<Name>
    var onStack: set<Name>
    var path: seq<Name>
    var cycles: seq<seq<Name>>
    /** The walk so far. */
    ghost var walk: Trace

    constructor (edges: Edges)
      ensures this.edges == edges && Valid()
      ensures path == [] && walk == Trace(map[], map[], map[], [])
    {
      this.edges := edges;
      visited, onStack, path, cycles := {}, {}, [], [];
      walk := Trace(map[], map[], map[], []);
    }

    /** The stack is the set of the path, and the path repeats nothing. */
    ghost predicate Valid()
      reads this
    {
      && onStack == (set n | n in path) && NoDup(path) && onStack <= visited
      && visited == walk.trail.Keys && cycles == walk.cycles
    }

    method Enter(node: Name)
      requires Valid() && node !in visited
      modifies this
      ensures Valid() && path == old(path) + [node] && walk == Entering(old(walk), old(path), node)
    {
      hide NoDup;
      OneMore(path, node);
      visited := visited + {node};
      onStack := onStack + {node};
      walk := Entering(walk, path, node);
      path := path + [node];
    }

    method Leave(node: Name)
      requires Valid() && path != [] && Last(path) == node
      modifies this
      ensures Valid() && path == old(path)[..|old(path)| - 1] && walk == Leaving(old(walk), node)
    {
      assert path == path[..|path| - 1] + [node];
      path := path[..|path| - 1];
      onStack := onStack - {node};
      walk := Leaving(walk, node);
    }

    /** The callee is on the current path: the part from it to here, closed. */
    method Report(callee: Name)
      requires Valid() && callee in path
      modifies this`cycles, this`walk
      ensures Valid() && walk == Reporting(old(walk), path, callee)
    {
      var start := Position(path, callee);
      cycles := cycles + [path[start..] + [callee]];
      walk := Reporting(walk, path, callee);
    }

    method Dfs(node: Name)
      requires Valid() && node !in visited && node in Nodes(edges)
      modifies this
      ensures Valid() && path == old(path) && walk == Visit(edges, path, node, old(walk))
      decreases Nodes(edges) - visited, 0
    {
      hide Nodes, NoDup, VisitFirst;
      assert node in Nodes(edges) - visited;
      Enter(node);
      VisitCallees(node);
      Leave(node);
    }

    method VisitCallees(node: Name)
      requires Valid() && path != [] && Last(path) == node
      modifies this
      ensures Valid() && path == old(path)
      ensures walk == VisitFirst(edges, path, node, |Callees(edges, node)|, old(walk))
      decreases Nodes(edges) - visited, 2
    {
      hide Visit;
      if node in edges {
        var neighbors := edges[node];
        for i := 0 to |neighbors|
          invariant Valid() && path == old(path)
          invariant old(visited) <= visited
          invariant walk == VisitFirst(edges, path, node, i, old(walk))
        {
          assert Callees(edges, node)[i] == neighbors[i].callee;
          CalleesAreEdges(edges, node);
          VisitCallee(neighbors[i].callee);
        }
      }
    }

    method VisitCallee(callee: Name)
      requires Valid() && callee in Nodes(edges)
      modifies this
      ensures Valid() && path == old(path) && old(visited) <= visited
      ensures walk == Visit(edges, path, callee, old(walk))
      decreases Nodes(edges) - visited, 1
    {
      if callee !in visited {
        Dfs(callee);
      } else if callee in onStack {
        Report(callee);
      }
    }
  }

  lemma ListIsReal(edges: Edges)
    ensures var cycles := Search(edges).cycles;
      && (forall c :: c in cycles ==> SimpleCycle(edges, c))
      && (forall w :: ClosedWalk(edges, w) ==> Caught(cycles, w))
      && (cycles != [] <==> exists w :: ClosedWalk(edges, w))
  {
    var s := Search(edges);
    SearchIsComplete(edges);
    hide Search, Complete;
    forall c | c in s.cycles ensures SimpleCycle(edges, c) {
      ListedIsSimple(edges, s, c);
    }
    forall w | ClosedWalk(edges, w) ensures Caught(s.cycles, w) {
      ClosedWalkIsCaught(edges, s, w);
    }
    if s.cycles != [] {
      assert s.cycles[0] in s.cycles;
    }
  }

  lemma NothingVisited(edges: Edges, names: seq<Name>)
    requires forall n :: n in names ==> n in edges
    ensures SearchFirst(edges, names, 0) == Trace(map[], map[], map[], [])
  {
  }

  lemma OneMoreStart(edges: Edges, names: seq<Name>, i: nat)
    requires i < |names| && forall n :: n in names ==> n in edges
    ensures names[i] in Nodes(edges)
    ensures SearchFirst(edges, names, i + 1) == Visit(edges, [], names[i], SearchFirst(edges, names, i))
  {
    hide Visit;
  }

  /** The walk from every caller, in name order. */
  method WalkAll(edges: Edges) returns (cycles: seq<seq<Name>>)
    ensures cycles == Search(edges).cycles
  {
    hide Visit, SearchFirst, SortedNames, Nodes, NoDup;
    var finder := new CycleFinder(edges);
    var nodes := CollectNames(edges.Keys);
    SortedNamesMembers(edges.Keys);
    NothingVisited(edges, nodes);
    for i := 0 to |nodes|
      invariant fresh(finder) && finder.Valid() && finder.edges == edges && finder.path == []
      invariant finder.walk == SearchFirst(edges, nodes, i)
    {
      OneMoreStart(edges, nodes, i);
      finder.VisitCallee(nodes[i]);
    }
    cycles := finder.cycles;
  }

  /** The list is that of a depth-first walk.  Each listed cycle is real and none
      is listed twice; every closed walk takes the last step of a listed cycle, so
      the list is empty only without cycles; and it is complete exactly when each
      group of mutually dependent contracts is entered one way. */
  method DetectCycles(edges: Edges) returns (cycles: seq<seq<Name>>)
    ensures cycles == Search(edges).cycles
    ensures forall c :: c in cycles ==> SimpleCycle(edges, c)
    ensures forall w :: ClosedWalk(edges, w) ==> Caught(cycles, w)
    ensures cycles != [] <==> exists w :: ClosedWalk(edges, w)
    ensures ListsAll(edges, cycles) <==> OneWayIn(edges, Search(edges))
    ensures forall c, d :: c in cycles && d in cycles && Rotated(c, d) ==> c == d
    ensures OneEdgePerPair(edges) ==> NoDup(cycles)
  {
    hide Search, ListsAll, OneWayIn, ClosedWalk, Caught, SimpleCycle, Rotated, OneEdgePerPair, NoDup;
    cycles := WalkAll(edges);
    ListIsReal(edges);
    CompletenessIsExact(edges);
    ListedOnce(edges);
  }

  // ------------------------------------------------------------------
  // Cycles of declarations
  // ------------------------------------------------------------------

  /** Each contract declares that it depends on the next, and the last is the
      first again. */
  ghost predicate DeclaredCycle(deps: seq<Dependency>, w: seq<Name>) {
    && |w| >= 2 && w[0] == w[|w| - 1]
    && forall i, j {:trigger Declared(deps, w[i], w[j])} :: 0 <= i && j == i + 1 < |w| ==> Declared(deps, w[i], w[j])
  }

  lemma ClosedWalkIsDeclared(edges: Edges, deps: seq<Dependency>, w: seq<Name>)
    requires Describes(edges, deps)
    ensures ClosedWalk(edges, w) <==> DeclaredCycle(deps, w)
  {
    hide Describes, HasEdge, Declared;
    forall a, b ensures HasEdge(edges, a, b) <==> Declared(deps, a, b) {
      HasEdgeIsDeclared(edges, deps, a, b);
    }
  }

  /** From declarations to cycles: every listed one is declared, and every
      declared one takes the last step of a listed one. */
  method DetectDeclaredCycles(deps: seq<Dependency>) returns (cycles: seq<seq<Name>>)
    ensures forall c :: c in cycles ==> DeclaredCycle(deps, c) && NoDup(c[..|c| - 1])
    ensures forall w :: DeclaredCycle(deps, w) ==> Caught(cycles, w)
    ensures cycles != [] <==> exists w :: DeclaredCycle(deps, w)
    ensures NoDup(cycles) && forall c, d :: c in cycles && d in cycles && Rotated(c, d) ==> c == d
  {
    hide Rotated, Describes, DeclaredCycle, Caught, ListsAll, OneWayIn, ClosedWalk, Search;
    var edges := FromDeclarations(deps);
    assert OneEdgePerPair(edges) by { DescribedEdgesAreDistinct(edges, deps); }
    cycles := DetectCycles(edges);
    forall w ensures ClosedWalk(edges, w) <==> DeclaredCycle(deps, w) {
      ClosedWalkIsDeclared(edges, deps, w);
    }
  }

  // ------------------------------------------------------------------
  // A cycle that is missed
  // ------------------------------------------------------------------

  /** A depends on B and C, both depend on D, and D depends on A. */
  function Diamond(): Edges {
    map["A" := [Edge("B", []), Edge("C", [])], "B" := [Edge("D", [])], "C" := [Edge("D", [])], "D" := [Edge("A", [])]]
  }

  lemma DiamondCallees()
    ensures Callees(Diamond(), "A") == ["B", "C"]
    ensures Callees(Diamond(), "B") == ["D"] && Callees(Diamond(), "C") == ["D"] && Callees(Diamond(), "D") == ["A"]
    ensures {"A", "B", "C", "D"} <= Nodes(Diamond())
  {
  }

  lemma OneCallee(edges: Edges, path: seq<Name>, n: Name, m: Name, s: Trace)
    requires Callees(edges, n) == [m] && m in Nodes(edges)
    ensures VisitFirst(edges, path, n, 1, s) == Visit(edges, path, m, s)
  {
    hide Visit;
    assert VisitFirst(edges, path, n, 0, s) == s;
  }

  lemma TwoCallees(edges: Edges, path: seq<Name>, n: Name, m: Name, k: Name, s: Trace)
    requires Callees(edges, n) == [m, k] && m in Nodes(edges) && k in Nodes(edges)
    ensures VisitFirst(edges, path, n, 2, s) == Visit(edges, path, k, Visit(edges, path, m, s))
  {
    hide Visit;
    assert VisitFirst(edges, path, n, 0, s) == s;
    assert VisitFirst(edges, path, n, 1, s) == Visit(edges, path, m, s);
  }

  lemma DiamondFromD(s: Trace)
    requires "D" !in s.trail && "A" in s.trail && "D" in Nodes(Diamond())
    ensures Visit(Diamond(), ["A", "B"], "D", s)
         == Leaving(Reporting(Entering(s, ["A", "B"], "D"), ["A", "B", "D"], "A"), "D")
  {
    DiamondCallees();
    hide Diamond, Callees, VisitFirst, Nodes;
    var e := Entering(s, ["A", "B"], "D");
    OneCallee(Diamond(), ["A", "B", "D"], "D", "A", e);
    assert ["A", "B"] + ["D"] == ["A", "B", "D"];
  }

  lemma DiamondFromB(s: Trace)
    requires "B" !in s.trail && "D" !in s.trail && "A" in s.trail && "B" in Nodes(Diamond())
    ensures
      var r := Visit(Diamond(), ["A"], "B", s);
      r.cycles == s.cycles + [Closing(["A", "B", "D"], "A")] && r.trail.Keys == s.trail.Keys + {"B", "D"}
  {
    DiamondCallees();
    hide Diamond, Callees, VisitFirst, Nodes;
    var e := Entering(s, ["A"], "B");
    OneCallee(Diamond(), ["A", "B"], "B", "D", e);
    DiamondFromD(e);
    hide Closing;
    assert ["A"] + ["B"] == ["A", "B"];
    assert Visit(Diamond(), ["A"], "B", s) == Leaving(Visit(Diamond(), ["A", "B"], "D", e), "B");
  }

  lemma DiamondFromC(s: Trace)
    requires "C" !in s.trail && "D" in s.trail && "C" in Nodes(Diamond())
    ensures
      var r := Visit(Diamond(), ["A"], "C", s);
      r.cycles == s.cycles && r.trail.Keys == s.trail.Keys + {"C"}
  {
    DiamondCallees();
    hide Diamond, Callees, VisitFirst, Nodes;
    var e := Entering(s, ["A"], "C");
    OneCallee(Diamond(), ["A", "C"], "C", "D", e);
    assert ["A"] + ["C"] == ["A", "C"];
  }

  lemma DiamondBelowA(e: Trace)
    requires e.trail.Keys == {"A"} && e.cycles == [] && |Callees(Diamond(), "A")| == 2
    ensures
      var r := VisitFirst(Diamond(), ["A"], "A", 2, e);
      r.cycles == [Closing(["A", "B", "D"], "A")] && r.trail.Keys == {"A", "B", "C", "D"}
  {
    DiamondCallees();
    hide Diamond, Callees, VisitFirst, Visit, Nodes, Closing;
    DiamondFromB(e);
    DiamondFromC(Visit(Diamond(), ["A"], "B", e));
    TwoCallees(Diamond(), ["A"], "A", "B", "C", e);
  }

  lemma LeavingKeeps(s: Trace, n: Name)
    ensures Leaving(s, n).trail == s.trail && Leaving(s, n).cycles == s.cycles
  {
  }

  lemma DiamondFromA(s: Trace)
    requires s == Trace(map[], map[], map[], [])
    ensures "A" in Nodes(Diamond())
    ensures
      var r := Visit(Diamond(), [], "A", s);
      r.cycles == [Closing(["A", "B", "D"], "A")] && r.trail.Keys == {"A", "B", "C", "D"}
  {
    DiamondCallees();
    hide Diamond, Callees, VisitFirst, Nodes, Closing;
    var e := Entering(s, [], "A");
    assert [] + ["A"] == ["A"] && e.trail.Keys == {"A"};
    DiamondBelowA(e);
    LeavingKeeps(VisitFirst(Diamond(), ["A"], "A", 2, e), "A");
  }

  lemma DiamondNames()
    ensures SortedNames(Diamond().Keys) == ["A", "B", "C", "D"]
  {
    var names := ["A", "B", "C", "D"];
    LexOrder();
    assert Diamond().Keys == {"A", "B", "C", "D"};
    assert Sorted(names, LexLeq);
    SortedSetUnique(names, Diamond().Keys, LexLeq);
  }

  lemma SeenStays(edges: Edges, names: seq<Name>, k: nat)
    requires 0 < k <= |names| && forall n :: n in names ==> n in edges
    requires names[k - 1] in SearchFirst(edges, names, k - 1).trail
    ensures SearchFirst(edges, names, k) == SearchFirst(edges, names, k - 1)
  {
  }

  /** The walk from A enters everything, so the other starts add nothing. */
  lemma FirstStartSuffices(edges: Edges, names: seq<Name>, k: nat)
    requires 0 < k <= |names| && forall n :: n in names ==> n in edges
    requires forall n :: n in names ==> n in SearchFirst(edges, names, 1).trail
    ensures SearchFirst(edges, names, k) == SearchFirst(edges, names, 1)
  {
    hide Visit;
    if k > 1 {
      FirstStartSuffices(edges, names, k - 1);
      SeenStays(edges, names, k);
    }
  }

  lemma SearchFrom(edges: Edges, names: seq<Name>, n: Name)
    requires SortedNames(edges.Keys) == names && names != [] && names[0] == n && n in Nodes(edges)
    requires forall m :: m in names ==> m in Visit(edges, [], n, Trace(map[], map[], map[], [])).trail
    ensures Search(edges) == Visit(edges, [], n, Trace(map[], map[], map[], []))
  {
    hide Visit, Nodes;
    assert SearchFirst(edges, names, 0) == Trace(map[], map[], map[], []);
    assert SearchFirst(edges, names, 1) == Visit(edges, [], n, Trace(map[], map[], map[], []));
    FirstStartSuffices(edges, names, |names|);
  }

  lemma DiamondClosing()
    ensures Closing(["A", "B", "D"], "A") == ["A", "B", "D", "A"]
  {
    assert Position(["A", "B", "D"], "A") == 0;
  }

  lemma DiamondSearch()
    ensures Search(Diamond()).cycles == [["A", "B", "D", "A"]]
  {
    DiamondNames();
    DiamondFromA(Trace(map[], map[], map[], []));
    DiamondClosing();
    hide *;
    SearchFrom(Diamond(), ["A", "B", "C", "D"], "A");
  }

  /** Only the cycle through B is listed: the one through C is missed, because D
      is reached two ways from where the group is entered. */
  lemma DiamondMissesACycle()
    ensures Search(Diamond()).cycles == [["A", "B", "D", "A"]]
    ensures SimpleCycle(Diamond(), ["A", "C", "D", "A"]) && !Rotated(["A", "B", "D", "A"], ["A", "C", "D", "A"])
    ensures !ListsAll(Diamond(), Search(Diamond()).cycles) && !OneWayIn(Diamond(), Search(Diamond()))
  {
    var w, c := ["A", "C", "D", "A"], ["A", "B", "D", "A"];
    DiamondSearch();
    DiamondCallees();
    hide Search;
    CalleesAreEdges(Diamond(), "A");
    CalleesAreEdges(Diamond(), "C");
    CalleesAreEdges(Diamond(), "D");
    hide Diamond, Callees, HasEdge;
    assert SimpleCycle(Diamond(), w);
    assert forall k :: 0 <= k < 3 ==> "C" in Rotation(w, k) by {
      assert Rotation(w, 0)[1] == "C" && Rotation(w, 1)[0] == "C" && Rotation(w, 2)[2] == "C";
    }
    assert "C" !in c;
    CompletenessIsExact(Diamond());
  }
}
