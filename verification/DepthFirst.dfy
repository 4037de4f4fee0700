/** A depth-first walk over the dependency graph, as a function of the graph,
    and what every moment of it keeps: the trails form a forest, contracts are
    entered and left like brackets, and each edge back into the current path
    closes a listed cycle. */
module DepthFirst {
  import opened Prelude
  import opened Ordering
  import opened DependencyGraph

  ghost predicate Walks(edges: Edges, w: seq<Name>) {
    forall i, j {:trigger HasEdge(edges, w[i], w[j])} :: 0 <= i && j == i + 1 < |w| ==> HasEdge(edges, w[i], w[j])
  }

  /** A walk along declared edges that ends where it began. */
  ghost predicate ClosedWalk(edges: Edges, w: seq<Name>) {
    |w| >= 2 && w[0] == w[|w| - 1] && Walks(edges, w)
  }

  ghost predicate SimpleCycle(edges: Edges, w: seq<Name>) {
    ClosedWalk(edges, w) && NoDup(w[..|w| - 1])
  }

  /** Where n first is on the path; its length if nowhere. */
  function Position(path: seq<Name>, n: Name): (i: nat)
    ensures i <= |path|
    ensures i < |path| ==> path[i] == n
    ensures i == |path| <==> n !in path
    ensures forall j :: 0 <= j < i ==> path[j] != n
  {
    if path == [] || path[0] == n then 0 else 1 + Position(path[1..], n)
  }

  /** The part of the path from n on, closed. */
  function Closing(path: seq<Name>, n: Name): seq<Name> {
    path[Position(path, n)..] + [n]
  }

  // ------------------------------------------------------------------
  // The walk
  // ------------------------------------------------------------------

  /** What a walk has done so far: the path by which each contract was entered,
      the order of entering and of leaving, and the cycles listed. */
  datatype Trace = Trace(
    trail: map<Name, seq<Name>>,
    entered: map<Name, nat>,
    left: map<Name, nat>,
    cycles: seq<seq<Name>>)

  lemma CalleesAreEdges(edges: Edges, n: Name)
    ensures forall m :: HasEdge(edges, n, m) <==> m in Callees(edges, n)
    ensures forall m :: m in Callees(edges, n) ==> m in Nodes(edges)
  {
  }

  ghost function Entering(s: Trace, path: seq<Name>, n: Name): Trace {
    s.(trail := s.trail[n := path + [n]], entered := s.entered[n := |s.entered|])
  }

  ghost function Leaving(s: Trace, n: Name): Trace {
    s.(left := s.left[n := |s.left|])
  }

  ghost function Reporting(s: Trace, path: seq<Name>, n: Name): Trace {
    s.(cycles := s.cycles + [Closing(path, n)])
  }

  /** Come to the first k callees of n. */
  ghost function VisitFirst(edges: Edges, path: seq<Name>, n: Name, k: nat, s: Trace): (r: Trace)
    requires k <= |Callees(edges, n)|
    ensures s.trail.Keys <= r.trail.Keys
    decreases Nodes(edges) - s.trail.Keys, k + 1
  {
    if k == 0 then s
    else
      CalleesAreEdges(edges, n);
      Visit(edges, path, Callees(edges, n)[k - 1], VisitFirst(edges, path, n, k - 1, s))
  }

  /** Come to n with this path open. */
  ghost function Visit(edges: Edges, path: seq<Name>, n: Name, s: Trace): (r: Trace)
    requires n in Nodes(edges)
    ensures s.trail.Keys <= r.trail.Keys
    decreases Nodes(edges) - s.trail.Keys, 0
  {
    if n !in s.trail then
      (assert n in Nodes(edges) - s.trail.Keys;
       Leaving(VisitFirst(edges, path + [n], n, |Callees(edges, n)|, Entering(s, path, n)), n))
    else if n in path then Reporting(s, path, n)
    else s
  }

  /** Start from the first k names, with no path open. */
  ghost function SearchFirst(edges: Edges, names: seq<Name>, k: nat): Trace
    requires k <= |names| && forall n :: n in names ==> n in edges
  {
    if k == 0 then Trace(map[], map[], map[], [])
    else Visit(edges, [], names[k - 1], SearchFirst(edges, names, k - 1))
  }

  /** The whole walk: from every caller, in name order. */
  ghost function Search(edges: Edges): Trace {
    SearchFirst(edges, SortedNames(edges.Keys), |SortedNames(edges.Keys)|)
  }

  // ------------------------------------------------------------------
  // What every moment keeps
  // ------------------------------------------------------------------

  ghost predicate SimpleWalk(edges: Edges, w: seq<Name>, a: Name, b: Name) {
    w != [] && w[0] == a && Last(w) == b && Walks(edges, w) && NoDup(w)
  }

  /** What a path begins with are the trails of the contracts on it. */
  ghost predicate Unrolls(s: Trace, t: seq<Name>) {
    forall k {:trigger t[k]} :: 0 <= k < |t| ==> t[k] in s.trail && s.trail[t[k]] == t[..k + 1]
  }

  /** A trail is a simple walk that ends at its contract, made of trails. */
  ghost predicate TrailOk(edges: Edges, s: Trace, n: Name)
    requires n in s.trail
  {
    && s.trail[n] != [] && SimpleWalk(edges, s.trail[n], s.trail[n][0], n)
    && Unrolls(s, s.trail[n])
  }

  ghost predicate TrailsOk(edges: Edges, s: Trace) {
    forall n {:trigger TrailOk(edges, s, n)} :: n in s.trail ==> TrailOk(edges, s, n)
  }

  /** The contracts entered and not left are those on the open path. */
  ghost predicate PathOk(s: Trace, path: seq<Name>) {
    && s.entered.Keys == s.trail.Keys
    && (forall n :: n in s.left <==> n in s.trail && n !in path)
    && (forall n :: n in path ==> n in s.trail)
    && (path != [] ==> s.trail[Last(path)] == path)
  }

  ghost predicate ClocksOk(s: Trace) {
    && s.entered.Keys == s.trail.Keys && s.left.Keys <= s.trail.Keys
    && (forall n :: n in s.entered ==> s.entered[n] < |s.entered|)
    && (forall n :: n in s.left ==> s.left[n] < |s.left|)
  }

  /** If a was entered no later than b, it is on b's trail or was left first. */
  ghost predicate Bracketed(s: Trace, a: Name, b: Name)
    requires a in s.trail && b in s.trail && s.entered.Keys == s.trail.Keys
  {
    s.entered[a] <= s.entered[b] ==>
      a in s.trail[b] || (a in s.left && (b in s.left ==> s.left[a] < s.left[b]))
  }

  ghost predicate BracketsOk(s: Trace)
    requires s.entered.Keys == s.trail.Keys
  {
    forall a, b {:trigger Bracketed(s, a, b)} :: a in s.trail && b in s.trail ==> Bracketed(s, a, b)
  }

  /** If a is on b's trail it was entered before b and is left after it. */
  ghost predicate Nested(s: Trace, a: Name, b: Name)
    requires a in s.trail && b in s.trail && s.entered.Keys == s.trail.Keys
  {
    a in s.trail[b] && a != b ==>
      s.entered[a] < s.entered[b] && (a in s.left ==> b in s.left && s.left[b] < s.left[a])
  }

  ghost predicate NestingOk(s: Trace)
    requires s.entered.Keys == s.trail.Keys
  {
    forall a, b {:trigger Nested(s, a, b)} :: a in s.trail && b in s.trail ==> Nested(s, a, b)
  }

  /** An edge out of n is settled: it closes a listed cycle, or its end was left
      before n. */
  ghost predicate Settled(s: Trace, n: Name, m: Name)
    requires n in s.trail
  {
    || (m in s.trail[n] && Closing(s.trail[n], m) in s.cycles)
    || (m in s.left && (n in s.left ==> s.left[m] < s.left[n]))
  }

  ghost predicate EdgesOk(edges: Edges, s: Trace)
    requires s.left.Keys <= s.trail.Keys
  {
    forall n, m {:trigger Settled(s, n, m)} :: n in s.left && HasEdge(edges, n, m) ==> Settled(s, n, m)
  }

  /** c runs along the trail of some contract and is closed by an edge from it. */
  ghost predicate Closes(edges: Edges, s: Trace, c: seq<Name>) {
    exists n, m :: n in s.trail && m in s.trail[n] && HasEdge(edges, n, m) && c == Closing(s.trail[n], m)
  }

  ghost predicate CyclesOk(edges: Edges, s: Trace) {
    forall c :: c in s.cycles ==> Closes(edges, s, c)
  }

  ghost predicate WalkOk(edges: Edges, path: seq<Name>, s: Trace) {
    && PathOk(s, path) && ClocksOk(s) && BracketsOk(s) && NestingOk(s)
    && TrailsOk(edges, s) && EdgesOk(edges, s) && CyclesOk(edges, s)
  }

  /** Later in the walk: nothing is forgotten or changed. */
  ghost predicate Grows(s: Trace, r: Trace) {
    && s.trail.Keys <= r.trail.Keys && (forall n :: n in s.trail ==> r.trail[n] == s.trail[n])
    && s.left.Keys <= r.left.Keys && (forall n :: n in s.left ==> r.left[n] == s.left[n])
    && s.cycles <= r.cycles
  }

  lemma GrowsOn(s: Trace, m: Trace, r: Trace)
    requires Grows(s, m) && Grows(m, r)
    ensures Grows(s, r)
  {
  }

  lemma EnterClocks(path: seq<Name>, s: Trace, n: Name)
    requires ClocksOk(s) && n !in s.trail
    ensures ClocksOk(Entering(s, path, n)) && Grows(s, Entering(s, path, n))
    ensures s.left.Keys <= s.trail.Keys
  {
    assert |Entering(s, path, n).entered| == |s.entered| + 1;
  }

  lemma EnterPath(path: seq<Name>, s: Trace, n: Name)
    requires PathOk(s, path) && ClocksOk(s) && n !in s.trail
    ensures PathOk(Entering(s, path, n), path + [n]) && ClocksOk(Entering(s, path, n)) && Grows(s, Entering(s, path, n))
  {
    EnterClocks(path, s, n);
    hide ClocksOk, Grows;
    var t := path + [n];
    assert forall m :: m in t <==> m in path || m == n;
    assert Last(t) == n;
  }

  lemma LongerWalk(edges: Edges, path: seq<Name>, n: Name)
    requires path != [] ==> SimpleWalk(edges, path, path[0], Last(path)) && HasEdge(edges, Last(path), n)
    requires n !in path
    ensures SimpleWalk(edges, path + [n], (path + [n])[0], n)
  {
    hide HasEdge;
  }

  lemma UnrollsOneMore(s: Trace, path: seq<Name>, n: Name)
    requires Unrolls(s, path) && n !in s.trail
    ensures Unrolls(Entering(s, path, n), path + [n])
  {
    var r, t := Entering(s, path, n), path + [n];
    forall k | 0 <= k < |t| ensures t[k] in r.trail && r.trail[t[k]] == t[..k + 1] {
      if k < |path| {
        assert t[..k + 1] == path[..k + 1];
      } else {
        assert t[..k + 1] == t;
      }
    }
  }

  lemma UnrollsStill(s: Trace, path: seq<Name>, n: Name, t: seq<Name>)
    requires Unrolls(s, t) && n !in s.trail
    ensures Unrolls(Entering(s, path, n), t)
  {
  }

  lemma EmptyUnrolls(s: Trace)
    ensures Unrolls(s, [])
  {
  }

  lemma EnterTrails(edges: Edges, path: seq<Name>, s: Trace, n: Name)
    requires TrailsOk(edges, s) && PathOk(s, path) && n !in s.trail
    requires path != [] ==> HasEdge(edges, Last(path), n)
    ensures TrailsOk(edges, Entering(s, path, n))
  {
    hide SimpleWalk, Unrolls, HasEdge;
    var r := Entering(s, path, n);
    if path == [] {
      assert Unrolls(s, path) by { EmptyUnrolls(s); }
    } else {
      assert Last(path) in path && TrailOk(edges, s, Last(path));
    }
    LongerWalk(edges, path, n);
    UnrollsOneMore(s, path, n);
    forall m | m in r.trail ensures TrailOk(edges, r, m) {
      if m != n {
        assert TrailOk(edges, s, m);
        UnrollsStill(s, path, n, s.trail[m]);
      }
    }
  }

  lemma EnterOrder(edges: Edges, path: seq<Name>, s: Trace, n: Name)
    requires TrailsOk(edges, s) && PathOk(s, path) && ClocksOk(s) && n !in s.trail
    requires BracketsOk(s) && NestingOk(s)
    ensures BracketsOk(Entering(s, path, n)) && NestingOk(Entering(s, path, n))
  {
    var r := Entering(s, path, n);
    forall a, b | a in r.trail && b in r.trail ensures Bracketed(r, a, b) && Nested(r, a, b) {
      if a in s.trail && b in s.trail {
        assert Bracketed(s, a, b) && Nested(s, a, b);
      } else if b in s.trail {
        assert TrailOk(edges, s, b);
      }
    }
  }

  lemma EnterEdges(edges: Edges, path: seq<Name>, s: Trace, n: Name)
    requires ClocksOk(s) && EdgesOk(edges, s) && n !in s.trail
    ensures EdgesOk(edges, Entering(s, path, n))
  {
    var r := Entering(s, path, n);
    forall a, b | a in r.left && HasEdge(edges, a, b) ensures Settled(r, a, b) {
      assert Settled(s, a, b);
    }
  }

  lemma EnterCycles(edges: Edges, path: seq<Name>, s: Trace, n: Name)
    requires CyclesOk(edges, s) && n !in s.trail
    ensures CyclesOk(edges, Entering(s, path, n))
  {
    var r := Entering(s, path, n);
    forall c | c in r.cycles ensures Closes(edges, r, c) {
      assert Closes(edges, s, c);
      var a, b :| a in s.trail && b in s.trail[a] && HasEdge(edges, a, b) && c == Closing(s.trail[a], b);
      assert r.trail[a] == s.trail[a];
    }
  }

  lemma EnterOk(edges: Edges, path: seq<Name>, s: Trace, n: Name)
    requires WalkOk(edges, path, s) && n !in s.trail
    requires path != [] ==> HasEdge(edges, Last(path), n)
    ensures WalkOk(edges, path + [n], Entering(s, path, n)) && Grows(s, Entering(s, path, n))
  {
    hide PathOk, Grows, TrailsOk, BracketsOk, NestingOk, EdgesOk, CyclesOk, Last;
    EnterPath(path, s, n);
    EnterTrails(edges, path, s, n);
    EnterOrder(edges, path, s, n);
    EnterEdges(edges, path, s, n);
    EnterCycles(edges, path, s, n);
  }

  lemma LeaveLast(path: seq<Name>, s: Trace)
    requires PathOk(s, path) && ClocksOk(s) && path != []
    requires forall n :: n in path <==> n in path[..|path| - 1] || n == Last(path)
    requires Last(path) !in path[..|path| - 1]
    requires |path| > 1 ==> Last(path[..|path| - 1]) in s.trail && s.trail[Last(path[..|path| - 1])] == path[..|path| - 1]
    ensures PathOk(Leaving(s, Last(path)), path[..|path| - 1]) && ClocksOk(Leaving(s, Last(path)))
    ensures Grows(s, Leaving(s, Last(path)))
  {
    hide Last;
    assert Last(path) in path;
    assert |Leaving(s, Last(path)).left| == |s.left| + 1;
  }

  lemma ShorterPath(edges: Edges, path: seq<Name>, s: Trace)
    requires path != [] && SimpleWalk(edges, path, path[0], Last(path)) && Unrolls(s, path)
    ensures forall n :: n in path <==> n in path[..|path| - 1] || n == Last(path)
    ensures Last(path) !in path[..|path| - 1]
    ensures |path| > 1 ==> Last(path[..|path| - 1]) in s.trail && s.trail[Last(path[..|path| - 1])] == path[..|path| - 1]
  {
    assert path == path[..|path| - 1] + [Last(path)];
    if |path| > 1 {
      assert path[|path| - 2] == Last(path[..|path| - 1]) && path[..|path| - 2 + 1] == path[..|path| - 1];
    }
  }

  lemma LeavePath(edges: Edges, path: seq<Name>, s: Trace)
    requires TrailsOk(edges, s) && PathOk(s, path) && ClocksOk(s) && path != []
    ensures PathOk(Leaving(s, Last(path)), path[..|path| - 1]) && ClocksOk(Leaving(s, Last(path)))
    ensures Grows(s, Leaving(s, Last(path)))
  {
    hide SimpleWalk, Unrolls;
    assert Last(path) in path && TrailOk(edges, s, Last(path));
    ShorterPath(edges, path, s);
    LeaveLast(path, s);
  }

  lemma LeaveTrails(edges: Edges, path: seq<Name>, s: Trace)
    requires TrailsOk(edges, s) && path != []
    ensures TrailsOk(edges, Leaving(s, Last(path)))
  {
    var r := Leaving(s, Last(path));
    forall m | m in r.trail ensures TrailOk(edges, r, m) {
      assert TrailOk(edges, s, m);
    }
  }

  /** What is still open is not beneath the end of the path. */
  lemma NothingBeneath(edges: Edges, path: seq<Name>, s: Trace, b: Name)
    requires path != [] && SimpleWalk(edges, path, path[0], Last(path)) && Unrolls(s, path)
    requires b in path && Last(path) in s.trail[b]
    ensures b == Last(path)
  {
    hide Walks;
    var k :| 0 <= k < |path| && path[k] == b;
    assert s.trail[b] == path[..k + 1];
    var j :| 0 <= j < k + 1 && path[..k + 1][j] == Last(path);
    assert path[j] == path[|path| - 1];
  }

  lemma LeaveOrder(edges: Edges, path: seq<Name>, s: Trace)
    requires TrailsOk(edges, s) && PathOk(s, path) && ClocksOk(s) && path != []
    requires BracketsOk(s) && NestingOk(s)
    ensures Leaving(s, Last(path)).entered.Keys == Leaving(s, Last(path)).trail.Keys
    ensures BracketsOk(Leaving(s, Last(path))) && NestingOk(Leaving(s, Last(path)))
  {
    var n := Last(path);
    var r := Leaving(s, n);
    assert n in path && n !in s.left;
    assert TrailOk(edges, s, n);
    hide SimpleWalk, Unrolls;
    forall a, b | a in r.trail && b in r.trail ensures Bracketed(r, a, b) && Nested(r, a, b) {
      assert Bracketed(s, a, b) && Nested(s, a, b);
      if a == n && b in path && a in s.trail[b] {
        NothingBeneath(edges, path, s, b);
      }
    }
  }

  lemma LeaveEdges(edges: Edges, path: seq<Name>, s: Trace)
    requires PathOk(s, path) && ClocksOk(s) && EdgesOk(edges, s) && path != [] && Last(path) in s.trail
    requires forall m :: HasEdge(edges, Last(path), m) ==> Settled(s, Last(path), m)
    ensures Leaving(s, Last(path)).left.Keys <= Leaving(s, Last(path)).trail.Keys
    ensures EdgesOk(edges, Leaving(s, Last(path)))
  {
    var r := Leaving(s, Last(path));
    assert Last(path) in path;
    forall a, b | a in r.left && HasEdge(edges, a, b) ensures Settled(r, a, b) {
      assert Settled(s, a, b);
    }
  }

  lemma LeaveCycles(edges: Edges, path: seq<Name>, s: Trace)
    requires CyclesOk(edges, s) && path != []
    ensures CyclesOk(edges, Leaving(s, Last(path)))
  {
    var r := Leaving(s, Last(path));
    forall c | c in r.cycles ensures Closes(edges, r, c) {
      assert Closes(edges, s, c);
    }
  }

  lemma LeaveOk(edges: Edges, path: seq<Name>, s: Trace)
    requires WalkOk(edges, path, s) && path != []
    requires Last(path) in s.trail && forall m :: HasEdge(edges, Last(path), m) ==> Settled(s, Last(path), m)
    ensures WalkOk(edges, path[..|path| - 1], Leaving(s, Last(path))) && Grows(s, Leaving(s, Last(path)))
  {
    hide PathOk, Grows, TrailsOk, BracketsOk, NestingOk, EdgesOk, CyclesOk, Settled, HasEdge;
    LeavePath(edges, path, s);
    LeaveTrails(edges, path, s);
    LeaveOrder(edges, path, s);
    LeaveEdges(edges, path, s);
    LeaveCycles(edges, path, s);
  }

  lemma ReportTrails(edges: Edges, path: seq<Name>, s: Trace, m: Name)
    requires TrailsOk(edges, s)
    ensures TrailsOk(edges, Reporting(s, path, m))
  {
    var r := Reporting(s, path, m);
    forall n | n in r.trail ensures TrailOk(edges, r, n) {
      assert TrailOk(edges, s, n);
    }
  }

  lemma ReportOrder(path: seq<Name>, s: Trace, m: Name)
    requires ClocksOk(s) && BracketsOk(s) && NestingOk(s)
    ensures BracketsOk(Reporting(s, path, m)) && NestingOk(Reporting(s, path, m))
  {
    var r := Reporting(s, path, m);
    forall a, b | a in r.trail && b in r.trail ensures Bracketed(r, a, b) && Nested(r, a, b) {
      assert Bracketed(s, a, b) && Nested(s, a, b);
    }
  }

  lemma ReportEdges(edges: Edges, path: seq<Name>, s: Trace, m: Name)
    requires ClocksOk(s) && EdgesOk(edges, s)
    ensures EdgesOk(edges, Reporting(s, path, m))
  {
    var r := Reporting(s, path, m);
    forall a, b | a in r.left && HasEdge(edges, a, b) ensures Settled(r, a, b) {
      assert Settled(s, a, b);
    }
  }

  lemma ReportCycles(edges: Edges, path: seq<Name>, s: Trace, m: Name)
    requires PathOk(s, path) && CyclesOk(edges, s) && m in path && HasEdge(edges, Last(path), m)
    ensures CyclesOk(edges, Reporting(s, path, m))
  {
    var r := Reporting(s, path, m);
    assert Last(path) in path;
    forall c | c in r.cycles ensures Closes(edges, r, c) {
      if c in s.cycles {
        assert Closes(edges, s, c);
      } else {
        assert c == Closing(r.trail[Last(path)], m);
      }
    }
  }

  lemma ReportOk(edges: Edges, path: seq<Name>, s: Trace, m: Name)
    requires WalkOk(edges, path, s) && m in path && HasEdge(edges, Last(path), m)
    ensures WalkOk(edges, path, Reporting(s, path, m)) && Grows(s, Reporting(s, path, m))
    ensures Last(path) in s.trail && Settled(Reporting(s, path, m), Last(path), m)
  {
    var r := Reporting(s, path, m);
    assert r.cycles[|s.cycles|] == Closing(path, m);
    assert Last(path) in path;
    hide TrailsOk, BracketsOk, NestingOk, EdgesOk, CyclesOk, Closing;
    ReportTrails(edges, path, s, m);
    ReportOrder(path, s, m);
    ReportEdges(edges, path, s, m);
    ReportCycles(edges, path, s, m);
  }

  /** Where the walk stands when n has been dealt with on the open path. */
  ghost predicate Dealt(edges: Edges, path: seq<Name>, n: Name, s: Trace, r: Trace) {
    && WalkOk(edges, path, r) && Grows(s, r) && n in r.trail
    && (path != [] ==> Last(path) in r.trail && Settled(r, Last(path), n))
  }

  lemma LastOfMore(path: seq<Name>, n: Name)
    ensures path + [n] != [] && Last(path + [n]) == n && (path + [n])[..|path + [n]| - 1] == path
  {
  }

  lemma OnPath(edges: Edges, path: seq<Name>, s: Trace)
    requires WalkOk(edges, path, s)
    ensures path != [] ==> Last(path) in s.trail && Last(path) !in s.left
    ensures forall n :: n in s.left <==> n in s.trail && n !in path
  {
    hide TrailsOk, BracketsOk, NestingOk, EdgesOk, CyclesOk;
    assert path != [] ==> Last(path) in path;
  }

  ghost predicate AllSettled(edges: Edges, s: Trace, n: Name, k: nat)
    requires k <= |Callees(edges, n)|
  {
    n in s.trail && forall j {:trigger Callees(edges, n)[j]} :: 0 <= j < k ==> Settled(s, n, Callees(edges, n)[j])
  }

  lemma LeaveNew(edges: Edges, path: seq<Name>, n: Name, s: Trace, f: Trace)
    requires n !in s.trail && Grows(Entering(s, path, n), f) && Grows(s, Entering(s, path, n))
    requires WalkOk(edges, path + [n], f) && AllSettled(edges, f, n, |Callees(edges, n)|)
    ensures Dealt(edges, path, n, s, Leaving(f, n))
  {
    hide WalkOk, HasEdge, Callees;
    LastOfMore(path, n);
    OnPath(edges, path + [n], f);
    CalleesAreEdges(edges, n);
    assert forall m :: HasEdge(edges, n, m) ==> Settled(f, n, m);
    LeaveOk(edges, path + [n], f);
    OnPath(edges, path, Leaving(f, n));
    GrowsOn(s, Entering(s, path, n), f);
    GrowsOn(s, f, Leaving(f, n));
    hide Grows, Last;
  }

  lemma Reported(edges: Edges, path: seq<Name>, n: Name, s: Trace)
    requires n in s.trail && WalkOk(edges, path, Reporting(s, path, n)) && Grows(s, Reporting(s, path, n))
    requires path != [] ==> Last(path) in s.trail && Settled(Reporting(s, path, n), Last(path), n)
    ensures Dealt(edges, path, n, s, Reporting(s, path, n))
  {
    hide WalkOk, Settled, Grows;
  }

  lemma Passed(edges: Edges, path: seq<Name>, n: Name, s: Trace)
    requires WalkOk(edges, path, s) && n in s.trail && n !in path
    ensures Dealt(edges, path, n, s, s)
  {
    OnPath(edges, path, s);
    hide WalkOk;
  }

  lemma NoneSettled(edges: Edges, path: seq<Name>, n: Name, s: Trace)
    requires WalkOk(edges, path, s) && path != [] && Last(path) == n
    ensures AllSettled(edges, s, n, 0) && Grows(s, s)
  {
    OnPath(edges, path, s);
    hide WalkOk, Callees;
  }

  lemma StaysSettled(s: Trace, r: Trace, n: Name, m: Name)
    requires Grows(s, r) && n in s.trail && n in r.trail && n !in r.left && Settled(s, n, m)
    ensures Settled(r, n, m)
  {
  }

  lemma OneMoreSettled(edges: Edges, path: seq<Name>, n: Name, k: nat, s: Trace, before: Trace, r: Trace)
    requires path != [] && Last(path) == n && 0 < k <= |Callees(edges, n)|
    requires Grows(s, before) && AllSettled(edges, before, n, k - 1)
    requires Dealt(edges, path, Callees(edges, n)[k - 1], before, r)
    ensures WalkOk(edges, path, r) && Grows(s, r) && AllSettled(edges, r, n, k)
  {
    OnPath(edges, path, r);
    GrowsOn(s, before, r);
    hide WalkOk, Callees, Last, Settled;
    forall j | 0 <= j < k - 1 ensures Settled(r, n, Callees(edges, n)[j]) {
      StaysSettled(before, r, n, Callees(edges, n)[j]);
    }
  }

  lemma {:induction false} VisitFirstOk(edges: Edges, path: seq<Name>, n: Name, k: nat, s: Trace)
    requires WalkOk(edges, path, s) && path != [] && Last(path) == n && k <= |Callees(edges, n)|
    ensures
      var r := VisitFirst(edges, path, n, k, s);
      WalkOk(edges, path, r) && Grows(s, r) && AllSettled(edges, r, n, k)
    decreases Nodes(edges) - s.trail.Keys, k + 1
  {
    hide WalkOk, Settled, Callees, HasEdge, Nodes, Visit, Last, AllSettled, Dealt;
    if k == 0 {
      NoneSettled(edges, path, n, s);
    } else {
      var before, m := VisitFirst(edges, path, n, k - 1, s), Callees(edges, n)[k - 1];
      VisitFirstOk(edges, path, n, k - 1, s);
      CalleesAreEdges(edges, n);
      hide Grows;
      VisitOk(edges, path, m, before);
      OneMoreSettled(edges, path, n, k, s, before, Visit(edges, path, m, before));
    }
  }

  lemma {:induction false} VisitOk(edges: Edges, path: seq<Name>, n: Name, s: Trace)
    requires WalkOk(edges, path, s) && n in Nodes(edges)
    requires path != [] ==> HasEdge(edges, Last(path), n)
    ensures Dealt(edges, path, n, s, Visit(edges, path, n, s))
    decreases Nodes(edges) - s.trail.Keys, 0
  {
    hide WalkOk, Settled, Callees, HasEdge, Nodes, Grows, VisitFirst, Dealt, Last;
    if n !in s.trail {
      var t, e := path + [n], Entering(s, path, n);
      assert n in Nodes(edges) - s.trail.Keys;
      EnterOk(edges, path, s, n);
      LastOfMore(path, n);
      VisitFirstOk(edges, t, n, |Callees(edges, n)|, e);
      LeaveNew(edges, path, n, s, VisitFirst(edges, t, n, |Callees(edges, n)|, e));
    } else if n in path {
      ReportOk(edges, path, s, n);
      Reported(edges, path, n, s);
    } else {
      Passed(edges, path, n, s);
    }
  }

  lemma StartOk(edges: Edges)
    ensures WalkOk(edges, [], Trace(map[], map[], map[], []))
  {
  }

  lemma {:induction false} SearchFirstOk(edges: Edges, names: seq<Name>, k: nat)
    requires k <= |names| && forall n :: n in names ==> n in edges
    ensures WalkOk(edges, [], SearchFirst(edges, names, k))
    ensures forall j :: 0 <= j < k ==> names[j] in SearchFirst(edges, names, k).trail
  {
    hide WalkOk, Visit;
    if k == 0 {
      StartOk(edges);
    } else {
      SearchFirstOk(edges, names, k - 1);
      VisitOk(edges, [], names[k - 1], SearchFirst(edges, names, k - 1));
    }
  }

  /** At the end every caller was entered, and every contract entered was left. */
  lemma SearchOk(edges: Edges)
    ensures WalkOk(edges, [], Search(edges))
    ensures edges.Keys <= Search(edges).trail.Keys == Search(edges).left.Keys == Search(edges).entered.Keys
  {
    var names := SortedNames(edges.Keys);
    SearchFirstOk(edges, names, |names|);
    forall n | n in edges ensures n in Search(edges).trail {
      assert n in names;
    }
  }
}
