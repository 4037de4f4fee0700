/** Which cycles a depth-first walk lists: those that run along a trail.  Every
    closed walk passes the closing edge of one; all simple cycles are listed
    exactly when each group of mutually dependent contracts is entered one way. */
module CycleListing {
  import opened Prelude
  import opened Ordering
  import opened DependencyGraph
  import opened DepthFirst

  /** A walk at its end: all callers were entered, all entered were left. */
  ghost predicate Complete(edges: Edges, s: Trace) {
    && WalkOk(edges, [], s)
    && edges.Keys <= s.trail.Keys == s.left.Keys == s.entered.Keys
  }

  // ------------------------------------------------------------------
  // Reading a complete walk
  // ------------------------------------------------------------------

  lemma TrailIsSimple(edges: Edges, s: Trace, n: Name)
    requires WalkOk(edges, [], s) && n in s.trail
    ensures s.trail[n] != [] && SimpleWalk(edges, s.trail[n], s.trail[n][0], n) && Unrolls(s, s.trail[n])
  {
    hide BracketsOk, NestingOk, CyclesOk, PathOk, EdgesOk, SimpleWalk, Unrolls;
    assert TrailOk(edges, s, n);
  }

  /** An edge either closes a listed cycle or leads to what was left before. */
  lemma EdgeIsSettled(edges: Edges, s: Trace, n: Name, m: Name)
    requires Complete(edges, s) && HasEdge(edges, n, m)
    ensures n in s.trail && m in s.trail && n in s.left && m in s.left
    ensures (m in s.trail[n] && Closing(s.trail[n], m) in s.cycles) || s.left[m] < s.left[n]
  {
    hide TrailsOk, BracketsOk, NestingOk, CyclesOk, PathOk, Closing;
    assert n in s.left;
    assert Settled(s, n, m);
    TrailIsSimple(edges, s, n);
    assert m in s.trail[n] ==> m in s.trail by {
      hide Complete, Settled, EdgesOk;
      if m in s.trail[n] {
        assert s.trail[n][Position(s.trail[n], m)] == m;
      }
    }
  }

  lemma UnrolledBeginning(s: Trace, t: seq<Name>, k: nat)
    requires Unrolls(s, t) && k < |t|
    ensures t[k] in s.trail && s.trail[t[k]] == t[..k + 1]
  {
  }

  lemma BeginningEnds(t: seq<Name>, k: nat)
    requires k < |t|
    ensures t[..k + 1] != [] && t[..k + 1] <= t && |t[..k + 1]| == k + 1 && Last(t[..k + 1]) == t[k]
  {
  }

  /** Of two contracts on one trail, the earlier one's trail is a beginning. */
  lemma TrailBegins(edges: Edges, s: Trace, a: Name, b: Name)
    requires WalkOk(edges, [], s) && b in s.trail && a in s.trail[b]
    ensures a in s.trail && s.trail[a] != [] && s.trail[a] <= s.trail[b] && Last(s.trail[a]) == a
    ensures Position(s.trail[b], a) == |s.trail[a]| - 1
  {
    TrailIsSimple(edges, s, b);
    hide WalkOk, SimpleWalk, Unrolls, Last;
    var k := Position(s.trail[b], a);
    UnrolledBeginning(s, s.trail[b], k);
    BeginningEnds(s.trail[b], k);
  }

  lemma TrailTimes(edges: Edges, s: Trace, a: Name, b: Name)
    requires Complete(edges, s) && b in s.trail && a in s.trail[b] && a != b
    ensures a in s.trail && s.entered[a] < s.entered[b] && s.left[b] < s.left[a]
  {
    TrailBegins(edges, s, a, b);
    hide TrailsOk, BracketsOk, CyclesOk, PathOk, EdgesOk;
    assert Nested(s, a, b);
  }

  // ------------------------------------------------------------------
  // What is listed
  // ------------------------------------------------------------------

  /** The listed cycles are exactly the closed parts of trails. */
  lemma ListingIsExact(edges: Edges, s: Trace, c: seq<Name>)
    requires Complete(edges, s)
    ensures c in s.cycles <==> Closes(edges, s, c)
  {
    if c in s.cycles {
      hide TrailsOk, BracketsOk, NestingOk, PathOk, EdgesOk;
    } else if Closes(edges, s, c) {
      hide WalkOk;
      var n, m :| n in s.trail && m in s.trail[n] && HasEdge(edges, n, m) && c == Closing(s.trail[n], m);
      EdgeIsSettled(edges, s, n, m);
      if m != n {
        TrailTimes(edges, s, m, n);
      }
    }
  }

  lemma ClosingIsCycle(edges: Edges, path: seq<Name>, m: Name)
    requires path != [] && SimpleWalk(edges, path, path[0], Last(path)) && m in path && HasEdge(edges, Last(path), m)
    ensures SimpleCycle(edges, Closing(path, m))
  {
    var k, c := Position(path, m), Closing(path, m);
    assert c[..|c| - 1] == path[k..];
    forall i, j | 0 <= i && j == i + 1 < |c| ensures HasEdge(edges, c[i], c[j]) {
      assert c[i] == path[k + i];
      if j < |c| - 1 {
        assert c[j] == path[k + i + 1];
      }
    }
  }

  lemma ListedIsSimple(edges: Edges, s: Trace, c: seq<Name>)
    requires Complete(edges, s) && c in s.cycles
    ensures SimpleCycle(edges, c)
  {
    ListingIsExact(edges, s, c);
    var n, m :| n in s.trail && m in s.trail[n] && HasEdge(edges, n, m) && c == Closing(s.trail[n], m);
    TrailIsSimple(edges, s, n);
    ClosingIsCycle(edges, s.trail[n], m);
  }

  /** The cycle's last step is from a to b. */
  ghost predicate EndsIn(c: seq<Name>, a: Name, b: Name) {
    |c| >= 2 && c[|c| - 2] == a && c[|c| - 1] == b
  }

  /** Some step of the walk is the last step of a listed cycle. */
  ghost predicate Caught(cycles: seq<seq<Name>>, w: seq<Name>) {
    exists i, c {:trigger EndsIn(c, w[i], w[i + 1])} :: 0 <= i < |w| - 1 && c in cycles && EndsIn(c, w[i], w[i + 1])
  }

  lemma CaughtStep(edges: Edges, s: Trace, w: seq<Name>, i: nat)
    requires Complete(edges, s) && i < |w| - 1 && HasEdge(edges, w[i], w[i + 1])
    ensures w[i] in s.left && w[i + 1] in s.left
    ensures Caught(s.cycles, w) || s.left[w[i + 1]] < s.left[w[i]]
  {
    var n, m := w[i], w[i + 1];
    EdgeIsSettled(edges, s, n, m);
    TrailIsSimple(edges, s, n);
    hide Complete, SimpleCycle;
    if !(s.left[m] < s.left[n]) {
      assert EndsIn(Closing(s.trail[n], m), w[i], w[i + 1]);
    }
  }

  lemma {:induction false} FallsUnlessCaught(edges: Edges, s: Trace, w: seq<Name>, k: nat)
    requires Complete(edges, s) && Walks(edges, w) && 0 < k < |w| && !Caught(s.cycles, w)
    ensures w[0] in s.left && w[k] in s.left && s.left[w[k]] < s.left[w[0]]
  {
    hide Complete, Caught;
    assert HasEdge(edges, w[k - 1], w[k - 1 + 1]);
    CaughtStep(edges, s, w, k - 1);
    if k > 1 {
      FallsUnlessCaught(edges, s, w, k - 1);
    }
  }

  /** No closed walk escapes: it takes the closing step of a listed cycle. */
  lemma ClosedWalkIsCaught(edges: Edges, s: Trace, w: seq<Name>)
    requires Complete(edges, s) && ClosedWalk(edges, w)
    ensures Caught(s.cycles, w)
  {
    if !Caught(s.cycles, w) {
      FallsUnlessCaught(edges, s, w, |w| - 1);
    }
  }

  // ------------------------------------------------------------------
  // Reachability
  // ------------------------------------------------------------------

  ghost predicate WalkFrom(edges: Edges, w: seq<Name>, a: Name, b: Name) {
    w != [] && w[0] == a && Last(w) == b && Walks(edges, w)
  }

  ghost predicate Reach(edges: Edges, a: Name, b: Name) {
    exists w :: WalkFrom(edges, w, a, b)
  }

  lemma PartWalks(edges: Edges, w: seq<Name>, i: nat, j: nat)
    requires Walks(edges, w) && i < j <= |w|
    ensures WalkFrom(edges, w[i..j], w[i], w[j - 1])
  {
    var p := w[i..j];
    forall k, l | 0 <= k && l == k + 1 < |p| ensures HasEdge(edges, p[k], p[l]) {
      assert p[k] == w[i + k] && p[l] == w[i + k + 1];
    }
  }

  lemma JoinWalks(edges: Edges, v: seq<Name>, w: seq<Name>, a: Name, b: Name, c: Name)
    requires WalkFrom(edges, v, a, b) && WalkFrom(edges, w, b, c)
    ensures WalkFrom(edges, v + w[1..], a, c)
  {
    var x := v + w[1..];
    forall k, l | 0 <= k && l == k + 1 < |x| ensures HasEdge(edges, x[k], x[l]) {
      if l < |v| {
        assert HasEdge(edges, v[k], v[l]);
      } else {
        assert HasEdge(edges, w[k - (|v| - 1)], w[l - (|v| - 1)]);
      }
    }
  }

  lemma ReachOn(edges: Edges, a: Name, b: Name, c: Name)
    requires Reach(edges, a, b) && Reach(edges, b, c)
    ensures Reach(edges, a, c)
  {
    var v :| WalkFrom(edges, v, a, b);
    var w :| WalkFrom(edges, w, b, c);
    JoinWalks(edges, v, w, a, b, c);
  }

  lemma ReachAlong(edges: Edges, w: seq<Name>, i: nat, j: nat)
    requires Walks(edges, w) && i <= j < |w|
    ensures Reach(edges, w[i], w[j])
  {
    PartWalks(edges, w, i, j + 1);
  }

  /** Cutting out detours leaves a walk that repeats nothing. */
  lemma {:induction false} SimpleWalkExists(edges: Edges, w: seq<Name>, a: Name, b: Name) returns (p: seq<Name>)
    requires WalkFrom(edges, w, a, b)
    ensures SimpleWalk(edges, p, a, b)
    decreases |w|
  {
    if NoDup(w) {
      p := w;
    } else {
      var i, j :| 0 <= i < j < |w| && w[i] == w[j];
      PartWalks(edges, w, 0, i + 1);
      PartWalks(edges, w, j, |w|);
      JoinWalks(edges, w[..i + 1], w[j..], a, w[i], b);
      p := SimpleWalkExists(edges, w[..i + 1] + w[j..][1..], a, b);
    }
  }

  // ------------------------------------------------------------------
  // When every cycle is listed
  // ------------------------------------------------------------------

  /** The closed walk w, started from its k-th contract. */
  function Rotation(w: seq<Name>, k: nat): seq<Name>
    requires k < |w|
  {
    w[k..|w| - 1] + w[..k + 1]
  }

  ghost predicate Rotated(c: seq<Name>, w: seq<Name>) {
    exists k :: 0 <= k < |w| - 1 && c == Rotation(w, k)
  }

  /** Every simple cycle is listed, from some start. */
  ghost predicate ListsAll(edges: Edges, cycles: seq<seq<Name>>) {
    forall w :: SimpleCycle(edges, w) ==> exists c :: c in cycles && Rotated(c, w)
  }

  ghost predicate Mutual(edges: Edges, a: Name, b: Name) {
    Reach(edges, a, b) && Reach(edges, b, a)
  }

  /** Of the contracts that depend on each other, r is entered first. */
  ghost predicate EntryOf(edges: Edges, s: Trace, r: Name) {
    r in s.entered && forall y :: y in s.entered && Mutual(edges, r, y) ==> s.entered[r] <= s.entered[y]
  }

  /** From where a mutually dependent group is entered, one simple walk leads to
      each of its contracts. */
  ghost predicate OneWayIn(edges: Edges, s: Trace) {
    forall r, y, p, q ::
      EntryOf(edges, s, r) && Mutual(edges, r, y) && SimpleWalk(edges, p, r, y) && SimpleWalk(edges, q, r, y) ==> p == q
  }

  // One way in, so everything is listed.

  lemma {:induction false} EarliestIn(s: Trace, group: set<Name>) returns (r: Name)
    requires group != {} && group <= s.entered.Keys
    ensures r in group && forall y :: y in group ==> s.entered[r] <= s.entered[y]
  {
    var x :| x in group;
    if group == {x} {
      r := x;
    } else {
      r := EarliestIn(s, group - {x});
      assert forall y :: y in group ==> y == x || y in group - {x};
      if s.entered[x] < s.entered[r] {
        r := x;
      }
    }
  }

  lemma MutualOn(edges: Edges, a: Name, b: Name, c: Name)
    requires Mutual(edges, a, b) && Mutual(edges, b, c)
    ensures Mutual(edges, a, c)
  {
    ReachOn(edges, a, b, c);
    ReachOn(edges, c, b, a);
  }

  lemma EntryExists(edges: Edges, s: Trace, x: Name) returns (r: Name)
    requires x in s.entered
    ensures EntryOf(edges, s, r) && Mutual(edges, r, x)
  {
    ReachAlong(edges, [x], 0, 0);
    hide Reach;
    var group := set y | y in s.entered && Mutual(edges, y, x);
    assert x in group;
    r := EarliestIn(s, group);
    forall y | y in s.entered && Mutual(edges, r, y) ensures s.entered[r] <= s.entered[y] {
      assert Mutual(edges, y, r);
      MutualOn(edges, y, r, x);
    }
  }

  /** What an edge leads to is beneath r, if its start is and r was entered
      earlier. */
  lemma StepBeneath(edges: Edges, s: Trace, r: Name, x: Name, y: Name)
    requires Complete(edges, s) && HasEdge(edges, x, y) && x in s.trail && r in s.trail[x]
    requires r in s.entered && y in s.entered && s.entered[r] <= s.entered[y]
    ensures r in s.trail[y]
  {
    EdgeIsSettled(edges, s, x, y);
    if y in s.trail[x] {
      TrailBegins(edges, s, y, x);
      TrailBegins(edges, s, r, x);
      if r !in s.trail[y] {
        assert |s.trail[y]| < |s.trail[r]|;
        assert s.trail[r][|s.trail[y]| - 1] == s.trail[x][|s.trail[y]| - 1] == y;
        TrailTimes(edges, s, y, r);
      }
    } else {
      if r != x {
        TrailTimes(edges, s, r, x);
      }
      assert s.left[y] < s.left[r];
      hide TrailsOk, NestingOk, CyclesOk, PathOk, EdgesOk;
      assert Bracketed(s, r, y);
    }
  }

  /** A group lies beneath the contract by which it is entered. */
  lemma {:induction false} GroupBeneath(edges: Edges, s: Trace, r: Name, w: seq<Name>, k: nat)
    requires Complete(edges, s) && EntryOf(edges, s, r) && k < |w|
    requires WalkFrom(edges, w, r, Last(w)) && Reach(edges, Last(w), r)
    ensures w[k] in s.trail && r in s.trail[w[k]]
  {
    if k == 0 {
      TrailIsSimple(edges, s, r);
      assert s.trail[r][|s.trail[r]| - 1] == r;
    } else {
      GroupBeneath(edges, s, r, w, k - 1);
      assert HasEdge(edges, w[k - 1], w[k]);
      EdgeIsSettled(edges, s, w[k - 1], w[k]);
      hide WalkOk;
      ReachAlong(edges, w, 0, k);
      ReachAlong(edges, w, k, |w| - 1);
      ReachOn(edges, w[k], Last(w), r);
      StepBeneath(edges, s, r, w[k - 1], w[k]);
    }
  }

  lemma MemberBeneath(edges: Edges, s: Trace, r: Name, y: Name)
    requires Complete(edges, s) && EntryOf(edges, s, r) && Mutual(edges, r, y)
    ensures y in s.trail && r in s.trail[y]
  {
    var w :| WalkFrom(edges, w, r, y);
    GroupBeneath(edges, s, r, w, |w| - 1);
  }

  /** The part of the trail from r on, which is a simple walk. */
  lemma TrailFrom(edges: Edges, s: Trace, r: Name, y: Name)
    requires Complete(edges, s) && y in s.trail && r in s.trail[y]
    ensures r in s.trail && 0 < |s.trail[r]| <= |s.trail[y]| && s.trail[r] <= s.trail[y]
    ensures SimpleWalk(edges, s.trail[y][|s.trail[r]| - 1..], r, y)
  {
    TrailBegins(edges, s, r, y);
    TrailIsSimple(edges, s, y);
    hide Complete;
    var t, k := s.trail[y], |s.trail[r]| - 1;
    assert t[k..] == t[k..|t|];
    PartWalks(edges, t, k, |t|);
  }

  lemma ExtendSimple(edges: Edges, p: seq<Name>, r: Name, x: Name, y: Name)
    requires SimpleWalk(edges, p, r, x) && HasEdge(edges, x, y) && y !in p
    ensures SimpleWalk(edges, p + [y], r, y)
  {
    hide HasEdge;
  }

  /** With one way in, a step inside a group goes back along the trail or is the
      trail. */
  lemma TreeStep(edges: Edges, s: Trace, r: Name, x: Name, y: Name)
    requires Complete(edges, s) && OneWayIn(edges, s) && EntryOf(edges, s, r)
    requires Mutual(edges, r, x) && Mutual(edges, r, y) && HasEdge(edges, x, y)
    ensures x in s.trail && y in s.trail && (y in s.trail[x] || s.trail[y] == s.trail[x] + [y])
  {
    hide WalkOk, SimpleWalk, Mutual, EntryOf;
    MemberBeneath(edges, s, r, x);
    MemberBeneath(edges, s, r, y);
    TrailFrom(edges, s, r, x);
    TrailFrom(edges, s, r, y);
    if y !in s.trail[x] {
      var k := |s.trail[r]| - 1;
      var p, q := s.trail[x][k..], s.trail[y][k..];
      ExtendSimple(edges, p, r, x, y);
      assert p + [y] == q;
      assert s.trail[x] == s.trail[r][..k] + p && s.trail[y] == s.trail[r][..k] + q;
    }
  }

  lemma RotationIsCycle(edges: Edges, w: seq<Name>, k: nat)
    requires SimpleCycle(edges, w) && k < |w| - 1
    ensures SimpleCycle(edges, Rotation(w, k))
  {
    var n := |w| - 1;
    var c := Rotation(w, k);
    assert forall i :: 0 <= i < n - k ==> c[i] == w[k + i];
    assert forall i :: n - k <= i < |c| ==> c[i] == w[i - (n - k)];
    assert w[..n] == w[..|w| - 1];
    forall i, j | 0 <= i && j == i + 1 < |c| ensures HasEdge(edges, c[i], c[j]) {
      if j == n - k {
        assert HasEdge(edges, w[n - 1], w[n]);
      } else if j < n - k {
        assert HasEdge(edges, w[k + i], w[k + j]);
      } else {
        assert HasEdge(edges, w[i - (n - k)], w[j - (n - k)]);
      }
    }
    hide HasEdge, Walks;
    forall i, j | 0 <= i < j < n ensures c[i] != c[j] {
      assert c[i] == w[..n][if i < n - k then k + i else i - (n - k)];
      assert c[j] == w[..n][if j < n - k then k + j else j - (n - k)];
    }
  }

  ghost predicate StartsEarliest(s: Trace, c: seq<Name>) {
    forall i {:trigger c[i]} :: 0 <= i < |c| ==> c[0] in s.entered && c[i] in s.entered && s.entered[c[0]] <= s.entered[c[i]]
  }

  /** The next contract of the cycle is not yet on the trail. */
  lemma NotBefore(edges: Edges, s: Trace, c: seq<Name>, i: nat)
    requires Complete(edges, s) && SimpleCycle(edges, c) && StartsEarliest(s, c) && 0 < i < |c| - 1
    requires c[i - 1] in s.trail && s.trail[c[i - 1]] == s.trail[c[0]] + c[1..i]
    ensures c[i] !in s.trail[c[i - 1]]
  {
    hide WalkOk, Walks;
    assert forall j :: 0 <= j < i ==> c[..|c| - 1][j] == c[j];
    assert c[..|c| - 1][i] == c[i];
    assert c[i] !in c[1..i] && c[i] != c[0];
    if c[i] in s.trail[c[0]] {
      TrailTimes(edges, s, c[i], c[0]);
    }
  }

  /** From its earliest contract on, a cycle runs along a trail. */
  lemma {:induction false} RunsAlongTrail(edges: Edges, s: Trace, r: Name, c: seq<Name>, i: nat)
    requires Complete(edges, s) && OneWayIn(edges, s) && EntryOf(edges, s, r)
    requires SimpleCycle(edges, c) && StartsEarliest(s, c) && i < |c| - 1
    requires forall j {:trigger c[j]} :: 0 <= j < |c| ==> Mutual(edges, r, c[j])
    ensures c[i] in s.trail && s.trail[c[i]] == s.trail[c[0]] + c[1..i + 1]
  {
    hide WalkOk, OneWayIn, EntryOf, Mutual;
    if i > 0 {
      RunsAlongTrail(edges, s, r, c, i - 1);
      var x, y := c[i - 1], c[i];
      assert HasEdge(edges, x, y);
      TreeStep(edges, s, r, x, y);
      NotBefore(edges, s, c, i);
      assert c[1..i + 1] == c[1..i] + [y];
    }
  }

  lemma TailFrom(u: seq<Name>, v: seq<Name>)
    requires u != []
    ensures (u + v)[|u| - 1..] == [Last(u)] + v
  {
  }

  lemma EndIsOn(t: seq<Name>)
    requires t != []
    ensures Last(t) in t
  {
  }

  lemma AroundFrom(c: seq<Name>)
    requires |c| >= 2 && c[0] == c[|c| - 1]
    ensures [c[0]] + c[1..|c| - 1] + [c[0]] == c
  {
  }

  lemma ClosesAlong(edges: Edges, s: Trace, c: seq<Name>)
    requires Complete(edges, s) && |c| >= 2 && c[0] == c[|c| - 1] && HasEdge(edges, c[|c| - 2], c[0])
    requires c[0] in s.trail && c[|c| - 2] in s.trail
    requires s.trail[c[|c| - 2]] == s.trail[c[0]] + c[1..|c| - 1]
    ensures Closes(edges, s, c)
  {
    var n, m := c[|c| - 2], c[0];
    TrailIsSimple(edges, s, m);
    assert m in s.trail[m] by { EndIsOn(s.trail[m]); }
    hide WalkOk, SimpleWalk, Unrolls;
    TrailBegins(edges, s, m, n);
    TailFrom(s.trail[m], c[1..|c| - 1]);
    AroundFrom(c);
    assert Closing(s.trail[n], m) == c;
  }

  lemma RotatedFromEarliestIsListed(edges: Edges, s: Trace, r: Name, c: seq<Name>)
    requires Complete(edges, s) && OneWayIn(edges, s) && EntryOf(edges, s, r)
    requires SimpleCycle(edges, c) && StartsEarliest(s, c)
    requires forall j {:trigger c[j]} :: 0 <= j < |c| ==> Mutual(edges, r, c[j])
    ensures c in s.cycles
  {
    var n := c[|c| - 2];
    RunsAlongTrail(edges, s, r, c, |c| - 2);
    assert HasEdge(edges, n, c[|c| - 1]);
    hide OneWayIn, EntryOf, Mutual, WalkOk;
    ClosesAlong(edges, s, c);
    ListingIsExact(edges, s, c);
  }

  lemma EarliestStart(edges: Edges, s: Trace, w: seq<Name>) returns (k: nat)
    requires SimpleCycle(edges, w) && forall i {:trigger w[i]} :: 0 <= i < |w| ==> w[i] in s.entered
    ensures k < |w| - 1 && StartsEarliest(s, Rotation(w, k))
  {
    var group := set i | 0 <= i < |w| :: w[i];
    assert w[0] in group;
    var x := EarliestIn(s, group);
    k :| 0 <= k < |w| && w[k] == x;
    if k == |w| - 1 {
      k := 0;
    }
    var c := Rotation(w, k);
    forall i | 0 <= i < |c| ensures c[i] in group {
      assert c[i] == if i < |w| - 1 - k then w[k + i] else w[i - (|w| - 1 - k)];
    }
  }

  lemma CycleIsMutual(edges: Edges, w: seq<Name>, i: nat, j: nat)
    requires ClosedWalk(edges, w) && i < |w| && j < |w|
    ensures Mutual(edges, w[i], w[j])
  {
    ReachAlong(edges, w, 0, i);
    ReachAlong(edges, w, i, |w| - 1);
    ReachAlong(edges, w, 0, j);
    ReachAlong(edges, w, j, |w| - 1);
    hide Reach;
    ReachOn(edges, w[i], w[0], w[j]);
    ReachOn(edges, w[j], w[0], w[i]);
  }

  lemma OneWayInListsAll(edges: Edges, s: Trace)
    requires Complete(edges, s) && OneWayIn(edges, s)
    ensures ListsAll(edges, s.cycles)
  {
    hide WalkOk, OneWayIn, EntryOf, Mutual;
    forall w | SimpleCycle(edges, w) ensures exists c :: c in s.cycles && Rotated(c, w) {
      forall i | 0 <= i < |w| ensures w[i] in s.entered {
        if i + 1 < |w| { assert HasEdge(edges, w[i], w[i + 1]); }
        EdgeIsSettled(edges, s, w[if i + 1 < |w| then i else 0], w[if i + 1 < |w| then i + 1 else 1]);
      }
      var r := EntryExists(edges, s, w[0]);
      var k := EarliestStart(edges, s, w);
      var c := Rotation(w, k);
      RotationIsCycle(edges, w, k);
      forall j | 0 <= j < |c| ensures Mutual(edges, r, c[j]) {
        assert c[j] == w[if j < |w| - 1 - k then k + j else j - (|w| - 1 - k)];
        CycleIsMutual(edges, w, 0, if j < |w| - 1 - k then k + j else j - (|w| - 1 - k));
        MutualOn(edges, r, w[0], c[j]);
      }
      RotatedFromEarliestIsListed(edges, s, r, c);
      assert Rotated(c, w);
    }
  }

  // Everything is listed, so there is one way in.

  /** An edge inside a group that neither extends the trail nor goes back. */
  ghost predicate Crosses(edges: Edges, s: Trace, x: Name, z: Name) {
    && x in s.trail && z in s.trail && HasEdge(edges, x, z) && Reach(edges, z, x)
    && z !in s.trail[x] && s.trail[z] != s.trail[x] + [z]
  }

  ghost predicate Steps(c: seq<Name>, x: Name, z: Name) {
    exists j {:trigger c[j]} :: 0 <= j < |c| - 1 && c[j] == x && c[j + 1] == z
  }

  lemma StepOnClosing(t: seq<Name>, k: nat, j: nat)
    requires k < |t| && j < |t[k..]|
    ensures
      var c := t[k..] + [t[k]];
      c[j] == t[k + j] && c[j + 1] == if j + 1 < |c| - 1 then t[k + j + 1] else t[k]
  {
  }

  lemma BeginningGrows(t: seq<Name>, i: nat)
    requires i < |t|
    ensures t[..i + 1] == t[..i] + [t[i]]
  {
  }

  /** A step along a trail extends a trail; the closing step goes back. */
  lemma StepsOnTrail(s: Trace, t: seq<Name>, m: Name, x: Name, z: Name)
    requires t != [] && Unrolls(s, t) && m in t && Steps(Closing(t, m), x, z)
    ensures x in s.trail && z in s.trail
    ensures z in s.trail[x] || s.trail[z] == s.trail[x] + [z]
  {
    var k, c := Position(t, m), Closing(t, m);
    var j :| 0 <= j < |c| - 1 && c[j] == x && c[j + 1] == z;
    assert c == t[k..] + [m];
    hide Unrolls, Closing, Steps;
    StepOnClosing(t, k, j);
    UnrolledBeginning(s, t, k + j);
    if j + 1 < |c| - 1 {
      UnrolledBeginning(s, t, k + j + 1);
      BeginningGrows(t, k + j + 1);
    } else {
      UnrolledBeginning(s, t, k);
      assert t[..k + j + 1] == t;
    }
  }

  lemma ListedStepsDoNotCross(edges: Edges, s: Trace, c: seq<Name>, x: Name, z: Name)
    requires Complete(edges, s) && c in s.cycles && Steps(c, x, z)
    ensures !Crosses(edges, s, x, z)
  {
    ListingIsExact(edges, s, c);
    var n, m :| n in s.trail && m in s.trail[n] && HasEdge(edges, n, m) && c == Closing(s.trail[n], m);
    TrailIsSimple(edges, s, n);
    hide WalkOk, SimpleWalk, HasEdge, Reach, Unrolls;
    StepsOnTrail(s, s.trail[n], m, x, z);
  }

  lemma RotationSteps(c: seq<Name>, w: seq<Name>)
    requires |w| >= 3 && Rotated(c, w)
    ensures Steps(c, w[0], w[1])
  {
    var n := |w| - 1;
    var k :| 0 <= k < n && c == Rotation(w, k);
    var j := if k == 0 then 0 else n - k;
    assert c[j] == w[0] && c[j + 1] == w[1];
  }

  lemma ClosesUp(edges: Edges, q: seq<Name>, x: Name, z: Name)
    requires SimpleWalk(edges, q, z, x) && HasEdge(edges, x, z) && x != z
    ensures |[x] + q| >= 3 && SimpleCycle(edges, [x] + q)
  {
    var w := [x] + q;
    assert w[..|w| - 1] == [x] + q[..|q| - 1];
    forall i, j | 0 <= i && j == i + 1 < |w| ensures HasEdge(edges, w[i], w[j]) {
      if i > 0 {
        assert HasEdge(edges, q[i - 1], q[j - 1]);
      }
    }
  }

  /** A crossing edge lies on a simple cycle, which is not listed. */
  lemma CrossingIsMissed(edges: Edges, s: Trace, x: Name, z: Name)
    requires Complete(edges, s) && Crosses(edges, s, x, z)
    ensures !ListsAll(edges, s.cycles)
  {
    TrailIsSimple(edges, s, x);
    assert s.trail[x][|s.trail[x]| - 1] == x;
    var v :| WalkFrom(edges, v, z, x);
    var q := SimpleWalkExists(edges, v, z, x);
    var w := [x] + q;
    ClosesUp(edges, q, x, z);
    if ListsAll(edges, s.cycles) {
      var c :| c in s.cycles && Rotated(c, w);
      RotationSteps(c, w);
      ListedStepsDoNotCross(edges, s, c, x, z);
    }
  }

  lemma NewOnTrail(edges: Edges, s: Trace, r: Name, p: seq<Name>, i: nat)
    requires Complete(edges, s) && EntryOf(edges, s, r) && 0 < i < |p| && SimpleWalk(edges, p, r, Last(p))
    requires p[i - 1] in s.trail && s.trail[p[i - 1]] == s.trail[r] + p[1..i]
    requires p[i] in s.trail && Mutual(edges, r, p[i])
    ensures p[i] !in s.trail[p[i - 1]]
  {
    hide WalkOk, Mutual, Walks;
    assert p[i] !in p[1..i];
    if p[i] in s.trail[r] {
      TrailTimes(edges, s, p[i], r);
    }
  }

  /** With everything listed, a simple walk into a group follows the trails. */
  lemma {:induction false} FollowsTrail(edges: Edges, s: Trace, r: Name, p: seq<Name>, i: nat)
    requires Complete(edges, s) && ListsAll(edges, s.cycles) && EntryOf(edges, s, r)
    requires i < |p| && SimpleWalk(edges, p, r, Last(p)) && Reach(edges, Last(p), r)
    ensures p[i] in s.trail && s.trail[p[i]] == s.trail[r] + p[1..i + 1]
  {
    hide WalkOk, ListsAll;
    if i > 0 {
      FollowsTrail(edges, s, r, p, i - 1);
      var x, z := p[i - 1], p[i];
      assert HasEdge(edges, x, z);
      EdgeIsSettled(edges, s, x, z);
      ReachAlong(edges, p, 0, i);
      ReachAlong(edges, p, 0, i - 1);
      ReachAlong(edges, p, i, |p| - 1);
      ReachOn(edges, z, Last(p), r);
      ReachOn(edges, z, r, x);
      NewOnTrail(edges, s, r, p, i);
      hide Reach, SimpleWalk, EntryOf;
      if s.trail[z] != s.trail[x] + [z] {
        CrossingIsMissed(edges, s, x, z);
      }
      assert p[1..i + 1] == p[1..i] + [z];
    }
  }

  lemma ListsAllOneWayIn(edges: Edges, s: Trace)
    requires Complete(edges, s) && ListsAll(edges, s.cycles)
    ensures OneWayIn(edges, s)
  {
    hide WalkOk, ListsAll, Reach;
    forall r, y, p, q |
      EntryOf(edges, s, r) && Mutual(edges, r, y) && SimpleWalk(edges, p, r, y) && SimpleWalk(edges, q, r, y)
      ensures p == q
    {
      FollowsTrail(edges, s, r, p, |p| - 1);
      FollowsTrail(edges, s, r, q, |q| - 1);
      hide Complete, Walks, Mutual;
      assert p[1..|p|] == q[1..|q|] by {
        assert (s.trail[r] + p[1..|p|])[|s.trail[r]|..] == p[1..|p|];
        assert (s.trail[r] + q[1..|q|])[|s.trail[r]|..] == q[1..|q|];
      }
      assert p == [r] + p[1..|p|] && q == [r] + q[1..|q|];
    }
  }

  // ------------------------------------------------------------------
  // Nothing is listed twice
  // ------------------------------------------------------------------

  /** All of a closed part of a trail lies beneath its start and above its end. */
  lemma BetweenStartAndEnd(edges: Edges, s: Trace, n: Name, m: Name, x: Name)
    requires Complete(edges, s) && n in s.trail && m in s.trail[n] && x in Closing(s.trail[n], m)
    ensures x in s.trail && m in s.trail[x] && x in s.trail[n]
  {
    TrailIsSimple(edges, s, n);
    hide WalkOk, SimpleWalk, Unrolls;
    var t, k := s.trail[n], Position(s.trail[n], m);
    var j :| 0 <= j < |Closing(t, m)| && Closing(t, m)[j] == x;
    var i := if j < |t| - k then k + j else k;
    assert t[i] == x;
    UnrolledBeginning(s, t, i);
    assert t[..i + 1][k] == m;
  }

  lemma EndsOnClosing(edges: Edges, s: Trace, n: Name, m: Name)
    requires Complete(edges, s) && n in s.trail && m in s.trail[n]
    ensures m in Closing(s.trail[n], m) && n in Closing(s.trail[n], m)
  {
    TrailIsSimple(edges, s, n);
    hide WalkOk, Unrolls;
    var t, k := s.trail[n], Position(s.trail[n], m);
    assert t[k..][|t| - 1 - k] == n;
  }

  lemma RotationMembers(c: seq<Name>, w: seq<Name>)
    requires Rotated(c, w) && w[0] == w[|w| - 1]
    ensures forall x :: x in c <==> x in w
  {
    var k :| 0 <= k < |w| - 1 && c == Rotation(w, k);
    assert w == w[..k + 1] + w[k + 1..|w| - 1] + [w[|w| - 1]];
    assert w[k..|w| - 1] == [w[k]] + w[k + 1..|w| - 1];
    assert w[0] in w[..k + 1] && w[k] in w[..k + 1];
  }

  /** Two closed parts of trails with the same contracts are the same. */
  lemma SameMembersSameClosing(edges: Edges, s: Trace, n: Name, m: Name, n': Name, m': Name)
    requires Complete(edges, s) && n in s.trail && m in s.trail[n] && n' in s.trail && m' in s.trail[n']
    requires forall x :: x in Closing(s.trail[n], m) <==> x in Closing(s.trail[n'], m')
    ensures n == n' && m == m'
  {
    EndsOnClosing(edges, s, n, m);
    EndsOnClosing(edges, s, n', m');
    hide Closing, WalkOk;
    BetweenStartAndEnd(edges, s, n, m, m');
    BetweenStartAndEnd(edges, s, n', m', m);
    BetweenStartAndEnd(edges, s, n, m, n');
    BetweenStartAndEnd(edges, s, n', m', n);
    if m != m' {
      TrailTimes(edges, s, m, m');
      TrailTimes(edges, s, m', m);
    }
    if n != n' {
      TrailTimes(edges, s, n, n');
      TrailTimes(edges, s, n', n);
    }
  }

  /** No listed cycle is another one started elsewhere. */
  lemma ListedAreDistinct(edges: Edges, s: Trace, c: seq<Name>, d: seq<Name>)
    requires Complete(edges, s) && c in s.cycles && d in s.cycles && Rotated(c, d)
    ensures c == d
  {
    ListingIsExact(edges, s, c);
    ListingIsExact(edges, s, d);
    ListedIsSimple(edges, s, d);
    RotationMembers(c, d);
    hide WalkOk, Rotated, Closing, HasEdge;
    var n, m :| n in s.trail && m in s.trail[n] && HasEdge(edges, n, m) && c == Closing(s.trail[n], m);
    var n', m' :| n' in s.trail && m' in s.trail[n'] && HasEdge(edges, n', m') && d == Closing(s.trail[n'], m');
    SameMembersSameClosing(edges, s, n, m, n', m');
  }

  /** The cycle takes its last step from a contract entered after s, or from n to
      one of these. */
  ghost predicate StepsAnew(s: Trace, c: seq<Name>, n: Name, to: seq<Name>) {
    exists a, b :: EndsIn(c, a, b) && (a !in s.trail || (a == n && b in to))
  }

  /** Nothing is repeated, and what was listed since s steps anew. */
  ghost predicate ListsNew(s: Trace, r: Trace, n: Name, to: seq<Name>) {
    NoDup(r.cycles) && forall i :: |s.cycles| <= i < |r.cycles| ==> StepsAnew(s, r.cycles[i], n, to)
  }

  /** None of the cycles takes its last step from n to m. */
  ghost predicate NoneFrom(cycles: seq<seq<Name>>, n: Name, m: Name) {
    forall c :: c in cycles ==> !EndsIn(c, n, m)
  }

  lemma ClosingEnds(path: seq<Name>, m: Name)
    requires m in path
    ensures EndsIn(Closing(path, m), Last(path), m)
  {
  }

  /** What is listed takes its last step from a contract entered by then. */
  lemma ListedFromEntered(edges: Edges, path: seq<Name>, s: Trace, n: Name, m: Name)
    requires WalkOk(edges, path, s) && n !in s.trail
    ensures NoneFrom(s.cycles, n, m)
  {
    forall c | c in s.cycles ensures !EndsIn(c, n, m) {
      assert Closes(edges, s, c);
      var a, b :| a in s.trail && b in s.trail[a] && HasEdge(edges, a, b) && c == Closing(s.trail[a], b);
      assert TrailOk(edges, s, a);
      hide WalkOk, Closing;
      ClosingEnds(s.trail[a], b);
    }
  }

  lemma NewOnTop(s: Trace, f: Trace, r: Trace, n: Name, to: seq<Name>, more: Name)
    requires ListsNew(s, f, n, to) && ListsNew(f, r, n, [more]) && s.trail.Keys <= f.trail.Keys && f.cycles <= r.cycles
    ensures ListsNew(s, r, n, to + [more])
  {
    hide NoDup;
    forall i | |s.cycles| <= i < |r.cycles| ensures StepsAnew(s, r.cycles[i], n, to + [more]) {
      if i < |f.cycles| {
        assert r.cycles[i] == f.cycles[i] && StepsAnew(s, f.cycles[i], n, to);
      } else {
        assert StepsAnew(f, r.cycles[i], n, [more]);
      }
    }
  }

  lemma NoneFromNew(s: Trace, f: Trace, n: Name, to: seq<Name>, m: Name)
    requires ListsNew(s, f, n, to) && s.cycles <= f.cycles && n in s.trail && m !in to && NoneFrom(s.cycles, n, m)
    ensures NoneFrom(f.cycles, n, m)
  {
    forall c | c in f.cycles ensures !EndsIn(c, n, m) {
      var i :| 0 <= i < |f.cycles| && f.cycles[i] == c;
      if i < |s.cycles| {
        assert s.cycles[i] == c;
      } else {
        assert StepsAnew(s, f.cycles[i], n, to);
      }
    }
  }

  lemma ReportIsNew(s: Trace, path: seq<Name>, m: Name)
    requires NoDup(s.cycles) && m in path && NoneFrom(s.cycles, Last(path), m)
    ensures ListsNew(s, Reporting(s, path, m), Last(path), [m])
  {
    ClosingEnds(path, m);
    var c := Closing(path, m);
    hide Closing;
    assert c !in s.cycles;
    assert StepsAnew(s, c, Last(path), [m]) by { assert EndsIn(c, Last(path), m) && m in [m]; }
  }

  lemma NewBeneath(edges: Edges, path: seq<Name>, s: Trace, m: Name, f: Trace, n: Name, to: seq<Name>)
    requires m !in s.trail && ListsNew(Entering(s, path, m), f, m, to)
    ensures ListsNew(s, Leaving(f, m), n, [m])
  {
    hide NoDup;
    var e, r := Entering(s, path, m), Leaving(f, m);
    forall i | |s.cycles| <= i < |r.cycles| ensures StepsAnew(s, r.cycles[i], n, [m]) {
      assert StepsAnew(e, f.cycles[i], m, to);
    }
  }

  lemma NothingNew(s: Trace, n: Name, to: seq<Name>)
    requires NoDup(s.cycles)
    ensures ListsNew(s, s, n, to)
  {
  }

  lemma DealtGrows(edges: Edges, path: seq<Name>, n: Name, s: Trace, r: Trace)
    requires Dealt(edges, path, n, s, r)
    ensures s.cycles <= r.cycles
  {
    hide WalkOk;
  }

  lemma NoDupOfNew(s: Trace, r: Trace, n: Name, to: seq<Name>)
    requires ListsNew(s, r, n, to)
    ensures NoDup(r.cycles)
  {
  }

  lemma CalleesAreDistinct(edges: Edges, n: Name, k: nat)
    requires OneEdgePerPair(edges) && k < |Callees(edges, n)|
    ensures Callees(edges, n)[k] !in Callees(edges, n)[..k]
  {
    var es := edges[n];
    forall j | 0 <= j < k ensures Callees(edges, n)[j] != Callees(edges, n)[k] {
      assert es[j].callee != es[k].callee;
    }
  }

  lemma {:induction false} VisitListsOnce(edges: Edges, path: seq<Name>, m: Name, s: Trace, n: Name)
    requires WalkOk(edges, path, s) && m in Nodes(edges) && OneEdgePerPair(edges) && NoDup(s.cycles)
    requires path != [] ==> n == Last(path) && HasEdge(edges, n, m) && NoneFrom(s.cycles, n, m)
    ensures ListsNew(s, Visit(edges, path, m, s), n, [m])
    decreases Nodes(edges) - s.trail.Keys, 0
  {
    hide WalkOk, NoDup, NoneFrom, ListsNew, HasEdge, Nodes, VisitFirst, Callees, OneEdgePerPair, Last;
    if m !in s.trail {
      var t, e := path + [m], Entering(s, path, m);
      assert m in Nodes(edges) - s.trail.Keys;
      EnterOk(edges, path, s, m);
      LastOfMore(path, m);
      forall b ensures NoneFrom(e.cycles, m, b) {
        ListedFromEntered(edges, path, s, m, b);
      }
      VisitFirstListsOnce(edges, t, m, |Callees(edges, m)|, e);
      var f := VisitFirst(edges, t, m, |Callees(edges, m)|, e);
      NewBeneath(edges, path, s, m, f, n, Callees(edges, m)[..|Callees(edges, m)|]);
    } else if m in path {
      ReportIsNew(s, path, m);
    } else {
      NothingNew(s, n, [m]);
    }
  }

  lemma {:induction false} VisitFirstListsOnce(edges: Edges, path: seq<Name>, n: Name, k: nat, s: Trace)
    requires WalkOk(edges, path, s) && path != [] && Last(path) == n && k <= |Callees(edges, n)|
    requires OneEdgePerPair(edges) && NoDup(s.cycles) && forall b :: NoneFrom(s.cycles, n, b)
    ensures ListsNew(s, VisitFirst(edges, path, n, k, s), n, Callees(edges, n)[..k])
    decreases Nodes(edges) - s.trail.Keys, k + 1
  {
    hide WalkOk, NoDup, NoneFrom, ListsNew, HasEdge, Nodes, Visit, Callees, OneEdgePerPair, Last, Dealt, AllSettled;
    OnPath(edges, path, s);
    if k == 0 {
      NothingNew(s, n, []);
    } else {
      var f, m := VisitFirst(edges, path, n, k - 1, s), Callees(edges, n)[k - 1];
      VisitFirstListsOnce(edges, path, n, k - 1, s);
      VisitFirstOk(edges, path, n, k - 1, s);
      CalleesAreEdges(edges, n);
      CalleesAreDistinct(edges, n, k - 1);
      NoneFromNew(s, f, n, Callees(edges, n)[..k - 1], m);
      NoDupOfNew(s, f, n, Callees(edges, n)[..k - 1]);
      VisitListsOnce(edges, path, m, f, n);
      VisitOk(edges, path, m, f);
      var r := Visit(edges, path, m, f);
      assert f.cycles <= r.cycles by { DealtGrows(edges, path, m, f, r); }
      NewOnTop(s, f, r, n, Callees(edges, n)[..k - 1], m);
      BeginningGrows(Callees(edges, n), k - 1);
    }
  }

  lemma {:induction false} SearchFirstListsOnce(edges: Edges, names: seq<Name>, k: nat)
    requires k <= |names| && OneEdgePerPair(edges) && forall n :: n in names ==> n in edges
    ensures NoDup(SearchFirst(edges, names, k).cycles)
  {
    hide WalkOk, Visit, ListsNew, OneEdgePerPair;
    if k > 0 {
      SearchFirstOk(edges, names, k - 1);
      SearchFirstListsOnce(edges, names, k - 1);
      var s, n := SearchFirst(edges, names, k - 1), names[k - 1];
      VisitListsOnce(edges, [], n, s, n);
      NoDupOfNew(s, Visit(edges, [], n, s), n, [n]);
    }
  }

  // ------------------------------------------------------------------
  // The whole search
  // ------------------------------------------------------------------

  lemma SearchIsComplete(edges: Edges)
    ensures Complete(edges, Search(edges))
  {
    SearchOk(edges);
  }

  /** No cycle is listed twice: not from another start, and not repeated where
      each pair has one edge. */
  lemma ListedOnce(edges: Edges)
    ensures forall c, d :: c in Search(edges).cycles && d in Search(edges).cycles && Rotated(c, d) ==> c == d
    ensures OneEdgePerPair(edges) ==> NoDup(Search(edges).cycles)
  {
    SearchIsComplete(edges);
    if OneEdgePerPair(edges) {
      SearchFirstListsOnce(edges, SortedNames(edges.Keys), |SortedNames(edges.Keys)|);
    }
    hide Search, Complete, Rotated, NoDup;
    forall c, d | c in Search(edges).cycles && d in Search(edges).cycles && Rotated(c, d) ensures c == d {
      ListedAreDistinct(edges, Search(edges), c, d);
    }
  }

  /** The list is complete exactly when each mutually dependent group is entered
      one way: from its first contract in visiting order, at most one simple walk
      leads to any other. */
  lemma CompletenessIsExact(edges: Edges)
    ensures ListsAll(edges, Search(edges).cycles) <==> OneWayIn(edges, Search(edges))
  {
    SearchIsComplete(edges);
    hide *;
    if OneWayIn(edges, Search(edges)) {
      OneWayInListsAll(edges, Search(edges));
    }
    if ListsAll(edges, Search(edges).cycles) {
      ListsAllOneWayIn(edges, Search(edges));
    }
  }

  /** Between any two mutually dependent contracts there is one simple walk. */
  ghost predicate OneWayBetween(edges: Edges) {
    forall a, b, p, q ::
      Mutual(edges, a, b) && SimpleWalk(edges, p, a, b) && SimpleWalk(edges, q, a, b) ==> p == q
  }

  /** Told of the graph alone: then every simple cycle is listed, wherever the
      walk enters. */
  lemma OneWayBetweenSuffices(edges: Edges)
    requires OneWayBetween(edges)
    ensures ListsAll(edges, Search(edges).cycles)
  {
    CompletenessIsExact(edges);
    hide Search, ListsAll, EntryOf, Mutual, SimpleWalk;
  }
}
