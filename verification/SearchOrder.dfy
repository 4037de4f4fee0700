/** The order in which a search finds things.  Each changed contract's results
    are found in an order of their own, whatever is interleaved with them. */
module SearchOrder {
  import opened Prelude
  import opened Ordering
  import opened Findings
  import opened DependencyGraph
  import opened Reachability

  // ------------------------------------------------------------------
  // Callers, in name order
  // ------------------------------------------------------------------

  type Caller = (Name, seq<Name>)

  ghost predicate EdgeIn(edges: Edges, caller: Name, callee: Name, fs: seq<Name>) {
    caller in edges && Edge(callee, fs) in edges[caller]
  }

  /** What the first n edges of a caller contribute to a callee's callers. */
  function EdgesTo(caller: Name, es: seq<Edge>, n: nat, callee: Name): seq<Caller>
    requires n <= |es|
  {
    if n == 0 then []
    else EdgesTo(caller, es, n - 1, callee) + if es[n - 1].callee == callee then [(caller, es[n - 1].functions)] else []
  }

  function CallersAmong(edges: Edges, names: seq<Name>, n: nat, callee: Name): seq<Caller>
    requires n <= |names| && forall x :: x in names ==> x in edges
  {
    if n == 0 then []
    else CallersAmong(edges, names, n - 1, callee) + EdgesTo(names[n - 1], edges[names[n - 1]], |edges[names[n - 1]]|, callee)
  }

  /** All callers of a contract. */
  ghost function CallersOf(edges: Edges, callee: Name): seq<Caller> {
    CallersAmong(edges, SortedNames(edges.Keys), |SortedNames(edges.Keys)|, callee)
  }

  lemma {:induction false} EdgesToExact(caller: Name, es: seq<Edge>, n: nat, callee: Name, c: Caller)
    requires n <= |es|
    ensures c in EdgesTo(caller, es, n, callee) <==> c.0 == caller && Edge(callee, c.1) in es[..n]
  {
    if n > 0 {
      EdgesToExact(caller, es, n - 1, callee, c);
      assert es[..n] == es[..n - 1] + [es[n - 1]];
    }
  }

  lemma {:induction false} CallersAmongExact(edges: Edges, names: seq<Name>, n: nat, callee: Name, c: Caller)
    requires n <= |names| && forall x :: x in names ==> x in edges
    ensures c in CallersAmong(edges, names, n, callee) <==> c.0 in names[..n] && EdgeIn(edges, c.0, callee, c.1)
  {
    if n > 0 {
      CallersAmongExact(edges, names, n - 1, callee, c);
      var es := edges[names[n - 1]];
      EdgesToExact(names[n - 1], es, |es|, callee, c);
      assert es[..|es|] == es;
      assert names[..n] == names[..n - 1] + [names[n - 1]];
    }
  }

  /** The callers are the edges to the contract. */
  lemma CallersExact(edges: Edges, callee: Name, c: Caller)
    ensures c in CallersOf(edges, callee) <==> EdgeIn(edges, c.0, callee, c.1)
  {
    var names := SortedNames(edges.Keys);
    CallersAmongExact(edges, names, |names|, callee, c);
    assert names[..|names|] == names;
  }

  // ------------------------------------------------------------------
  // The search as lists
  // ------------------------------------------------------------------

  ghost predicate HasKey(all: Items, k: Key) {
    exists i :: 0 <= i < |all| && ItemKey(all[i]) == k
  }

  /** Add the item unless its key is there. */
  ghost function OfferTo(all: Items, e: CrossFinding): Items {
    if HasKey(all, ItemKey(e)) then all else all + [e]
  }

  /** Offer a finding, at depth d + 1, to the first n of these callers. */
  ghost function OfferEach(all: Items, callers: seq<Caller>, changed: Name, f: Finding, d: nat, n: nat): Items
    requires n <= |callers|
  {
    if n == 0 then all
    else
      var before, c := OfferEach(all, callers, changed, f, d, n - 1), callers[n - 1];
      if FunctionIsWatched(f, c.1) then OfferTo(before, CrossFinding(changed, c.0, f, d + 1)) else before
  }

  ghost function OfferAll(edges: Edges, all: Items, changed: Name, at: Name, f: Finding, d: nat): Items {
    OfferEach(all, CallersOf(edges, at), changed, f, d, |CallersOf(edges, at)|)
  }

  /** The direct callers of a contract's first n findings. */
  ghost function SeedFrom(edges: Edges, fs: seq<Finding>, all: Items, changed: Name, n: nat): Items
    requires n <= |fs|
  {
    if n == 0 then all
    else
      var before := SeedFrom(edges, fs, all, changed, n - 1);
      if IsCallerVisible(fs[n - 1]) then OfferAll(edges, before, changed, changed, fs[n - 1], 0) else before
  }

  ghost function SeedOf(edges: Edges, findings: FindingsOf, changed: Name): Items {
    if changed in findings then SeedFrom(edges, findings[changed], [], changed, |findings[changed]|) else []
  }

  ghost function Expand(edges: Edges, all: Items, k: nat): Items {
    if k < |all| then OfferAll(edges, all, all[k].changed, all[k].affected, all[k].finding, all[k].depth) else all
  }

  /** One contract's results after k of them have been expanded. */
  ghost function OwnRun(edges: Edges, findings: FindingsOf, changed: Name, k: nat): Items {
    if k == 0 then SeedOf(edges, findings, changed) else Expand(edges, OwnRun(edges, findings, changed, k - 1), k - 1)
  }

  lemma {:induction false} OwnRunSettles(edges: Edges, findings: FindingsOf, changed: Name, k: nat, m: nat)
    requires k <= m && |OwnRun(edges, findings, changed, k)| <= k
    ensures OwnRun(edges, findings, changed, m) == OwnRun(edges, findings, changed, k)
  {
    if k < m {
      OwnRunSettles(edges, findings, changed, k, m - 1);
    }
  }

  // ------------------------------------------------------------------
  // One contract's part of a list
  // ------------------------------------------------------------------

  ghost function PartOf(all: Items, changed: Name): Items {
    if all == [] then []
    else (if all[0].changed == changed then [all[0]] else []) + PartOf(all[1..], changed)
  }

  lemma PartOfHead(e: CrossFinding, rest: Items, changed: Name)
    ensures PartOf([e] + rest, changed) == (if e.changed == changed then [e] else []) + PartOf(rest, changed)
  {
    assert ([e] + rest)[1..] == rest;
  }

  lemma {:induction false} PartOfJoin(all: Items, more: Items, changed: Name)
    ensures PartOf(all + more, changed) == PartOf(all, changed) + PartOf(more, changed)
  {
    if all == [] {
      assert all + more == more;
    } else {
      var e, rest := all[0], all[1..];
      PartOfJoin(rest, more, changed);
      PartOfHead(e, rest + more, changed);
      PartOfHead(e, rest, changed);
      hide PartOf;
      assert all == [e] + rest && all + more == [e] + (rest + more);
      Assoc(if e.changed == changed then [e] else [], PartOf(rest, changed), PartOf(more, changed));
    }
  }

  lemma PartOfOne(e: CrossFinding, changed: Name)
    ensures PartOf([e], changed) == if e.changed == changed then [e] else []
  {
    assert [e][1..] == [];
  }

  lemma {:induction false} PartOfMembers(all: Items, changed: Name)
    ensures forall e :: e in PartOf(all, changed) <==> e in all && e.changed == changed
  {
    if all != [] {
      PartOfMembers(all[1..], changed);
      assert all == [all[0]] + all[1..];
    }
  }

  lemma KeyInPart(all: Items, e: CrossFinding)
    ensures HasKey(all, ItemKey(e)) <==> HasKey(PartOf(all, e.changed), ItemKey(e))
  {
    var part := PartOf(all, e.changed);
    PartOfMembers(all, e.changed);
    hide PropagationKey;
    if i :| 0 <= i < |all| && ItemKey(all[i]) == ItemKey(e) {
      assert all[i] in part;
      var j :| 0 <= j < |part| && part[j] == all[i];
    }
    if j :| 0 <= j < |part| && ItemKey(part[j]) == ItemKey(e) {
      assert part[j] in all;
      var i :| 0 <= i < |all| && all[i] == part[j];
    }
  }

  /** Keys name the changed contract, so offers to others do not matter. */
  lemma OfferPart(all: Items, e: CrossFinding, changed: Name)
    ensures PartOf(OfferTo(all, e), changed)
         == if e.changed == changed then OfferTo(PartOf(all, changed), e) else PartOf(all, changed)
  {
    PartOfJoin(all, [e], changed);
    PartOfOne(e, changed);
    PartOfMembers(all, changed);
    if e.changed == changed {
      KeyInPart(all, e);
    }
  }

  lemma {:induction false} OfferEachPart(all: Items, callers: seq<Caller>, at: Name, f: Finding, d: nat, n: nat, changed: Name)
    requires n <= |callers|
    ensures PartOf(OfferEach(all, callers, at, f, d, n), changed)
         == if at == changed then OfferEach(PartOf(all, changed), callers, at, f, d, n) else PartOf(all, changed)
  {
    hide OfferTo, PartOf;
    if n > 0 {
      OfferEachPart(all, callers, at, f, d, n - 1, changed);
      OfferPart(OfferEach(all, callers, at, f, d, n - 1), CrossFinding(at, callers[n - 1].0, f, d + 1), changed);
    }
  }

  lemma OfferAllPart(edges: Edges, all: Items, of: Name, at: Name, f: Finding, d: nat, changed: Name)
    ensures PartOf(OfferAll(edges, all, of, at, f, d), changed)
         == if of == changed then OfferAll(edges, PartOf(all, changed), of, at, f, d) else PartOf(all, changed)
  {
    OfferEachPart(all, CallersOf(edges, at), of, f, d, |CallersOf(edges, at)|, changed);
  }

  lemma {:induction false} SeedFromPart(edges: Edges, fs: seq<Finding>, all: Items, of: Name, n: nat, changed: Name)
    requires n <= |fs|
    ensures PartOf(SeedFrom(edges, fs, all, of, n), changed)
         == if of == changed then SeedFrom(edges, fs, PartOf(all, changed), of, n) else PartOf(all, changed)
  {
    hide OfferAll, PartOf;
    if n > 0 {
      SeedFromPart(edges, fs, all, of, n - 1, changed);
      OfferAllPart(edges, SeedFrom(edges, fs, all, of, n - 1), of, of, fs[n - 1], 0, changed);
    }
  }

  // ------------------------------------------------------------------
  // What interleaving keeps
  // ------------------------------------------------------------------

  /** Each contract's part of everything found is its own run, as far as its part
      of the results has been expanded. */
  ghost predicate InOwnOrder(edges: Edges, findings: FindingsOf, result: Items, queue: Items) {
    forall c :: PartOf(result + queue, c) == OwnRun(edges, findings, c, |PartOf(result, c)|)
  }

  lemma FrontOfPart(result: Items, queue: Items)
    requires queue != []
    ensures
      var c := queue[0].changed;
      && |PartOf(result, c)| < |PartOf(result + queue, c)|
      && PartOf(result + queue, c)[|PartOf(result, c)|] == queue[0]
  {
    var e := queue[0];
    PartOfJoin(result, queue, e.changed);
  }

  lemma PartWithFront(result: Items, e: CrossFinding, c: Name)
    ensures PartOf(result + [e], c) == PartOf(result, c) + if e.changed == c then [e] else []
  {
    PartOfJoin(result, [e], c);
    PartOfOne(e, c);
  }

  lemma OwnRunStep(edges: Edges, findings: FindingsOf, c: Name, k: nat)
    ensures OwnRun(edges, findings, c, k + 1) == Expand(edges, OwnRun(edges, findings, c, k), k)
  {
  }

  lemma StepOfOne(edges: Edges, findings: FindingsOf, result: Items, queue: Items, after: Items, c: Name)
    requires PartOf(result + queue, c) == OwnRun(edges, findings, c, |PartOf(result, c)|) && queue != []
    requires after == OfferAll(edges, result + queue, queue[0].changed, queue[0].affected, queue[0].finding, queue[0].depth)
    ensures PartOf(after, c) == OwnRun(edges, findings, c, |PartOf(result + [queue[0]], c)|)
  {
    hide PartOf, OfferAll, OwnRun;
    var e, all := queue[0], result + queue;
    OfferAllPart(edges, all, e.changed, e.affected, e.finding, e.depth, c);
    PartWithFront(result, e, c);
    if e.changed == c {
      FrontOfPart(result, queue);
      OwnRunStep(edges, findings, c, |PartOf(result, c)|);
    }
  }

  lemma QueueMovesOn(result: Items, queue: Items, after: Items)
    requires queue != [] && result + queue <= after
    ensures |result| + 1 <= |after| && (result + [queue[0]]) + after[|result| + 1..] == after
  {
    assert after[..|result| + 1] == (result + queue)[..|result| + 1] == result + [queue[0]];
  }

  lemma StepInOwnOrder(edges: Edges, findings: FindingsOf, result: Items, queue: Items, after: Items)
    requires InOwnOrder(edges, findings, result, queue) && queue != []
    requires result + queue <= after
    requires after == OfferAll(edges, result + queue, queue[0].changed, queue[0].affected, queue[0].finding, queue[0].depth)
    ensures |result| + 1 <= |after| && InOwnOrder(edges, findings, result + [queue[0]], after[|result| + 1..])
  {
    hide PartOf, OfferAll, OwnRun;
    QueueMovesOn(result, queue, after);
    forall c ensures PartOf(after, c) == OwnRun(edges, findings, c, |PartOf(result + [queue[0]], c)|) {
      StepOfOne(edges, findings, result, queue, after, c);
    }
  }

  /** Two finished searches found the same for each contract, in the same order. */
  lemma SamePart(edges: Edges, findings: FindingsOf, a: Items, b: Items, c: Name)
    requires InOwnOrder(edges, findings, a, []) && InOwnOrder(edges, findings, b, [])
    ensures PartOf(a, c) == PartOf(b, c)
  {
    assert a + [] == a && b + [] == b;
    var i, j := |PartOf(a, c)|, |PartOf(b, c)|;
    assert PartOf(a, c) == OwnRun(edges, findings, c, i) && PartOf(b, c) == OwnRun(edges, findings, c, j);
    if i <= j {
      OwnRunSettles(edges, findings, c, i, j);
    } else {
      OwnRunSettles(edges, findings, c, j, i);
    }
  }
}
