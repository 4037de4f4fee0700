/** Breaking changes carried from changed contracts to everything that calls
    them, directly or through other contracts: a breadth-first search with one
    key per contract and finding, and the report sorted for display. */
module Propagation {
  import opened Prelude
  import opened Ordering
  import opened Findings
  import opened DependencyGraph
  import opened Reachability
  import opened SearchOrder

  // ------------------------------------------------------------------
  // The search
  // ------------------------------------------------------------------

  type Callers = map<Name, seq<Caller>>

  function Listed(rev: Callers, callee: Name): seq<Caller> {
    if callee in rev then rev[callee] else []
  }

  lemma WatchedIffEdgeIn(edges: Edges, caller: Name, callee: Name, fs: seq<Name>)
    requires OneEdgePerPair(edges)
    ensures Watched(edges, caller, callee) == Some(fs) <==> EdgeIn(edges, caller, callee, fs)
  {
    if EdgeIn(edges, caller, callee, fs) {
      var es := edges[caller];
      var i, j := EdgeIndex(es, callee), 0;
      j :| 0 <= j < |es| && es[j] == Edge(callee, fs);
      assert i < |es|;
      assert i == j;
    }
  }

  ghost predicate Reverses(rev: Callers, edges: Edges) {
    forall b :: Listed(rev, b) == CallersOf(edges, b)
  }

  lemma ListedOneMore(rev: Callers, callee: Name, c: Caller, b: Name)
    ensures Listed(rev[callee := Listed(rev, callee) + [c]], b) == Listed(rev, b) + if b == callee then [c] else []
  {
  }

  lemma EdgesToOneMore(caller: Name, es: seq<Edge>, j: nat, b: Name)
    requires j < |es|
    ensures EdgesTo(caller, es, j + 1, b) == EdgesTo(caller, es, j, b) + if b == es[j].callee then [(caller, es[j].functions)] else []
  {
  }

  /** The callers listed before, and this one where it calls by its first j edges. */
  ghost predicate AddedTo(rev: Callers, r: Callers, caller: Name, es: seq<Edge>, j: nat)
    requires j <= |es|
  {
    forall b :: Listed(r, b) == Listed(rev, b) + EdgesTo(caller, es, j, b)
  }

  lemma NothingAdded(rev: Callers, caller: Name, es: seq<Edge>)
    ensures AddedTo(rev, rev, caller, es, 0)
  {
  }

  lemma OneMoreAdded(rev: Callers, now: Callers, caller: Name, es: seq<Edge>, j: nat)
    requires j < |es| && AddedTo(rev, now, caller, es, j)
    ensures AddedTo(rev, now[es[j].callee := Listed(now, es[j].callee) + [(caller, es[j].functions)]], caller, es, j + 1)
  {
    var callee, c := es[j].callee, (caller, es[j].functions);
    var r := now[callee := Listed(now, callee) + [c]];
    hide Listed, EdgesTo;
    forall b ensures Listed(r, b) == Listed(rev, b) + EdgesTo(caller, es, j + 1, b) {
      ListedOneMore(now, callee, c, b);
      EdgesToOneMore(caller, es, j, b);
      Assoc(Listed(rev, b), EdgesTo(caller, es, j, b), if b == callee then [c] else []);
    }
  }

  /** Add one caller under each of its callees. */
  method AddCallers(rev: Callers, caller: Name, es: seq<Edge>) returns (r: Callers)
    ensures AddedTo(rev, r, caller, es, |es|)
  {
    hide AddedTo, Listed;
    NothingAdded(rev, caller, es);
    r := rev;
    for j := 0 to |es|
      invariant AddedTo(rev, r, caller, es, j)
    {
      OneMoreAdded(rev, r, caller, es, j);
      r := r[es[j].callee := Listed(r, es[j].callee) + [(caller, es[j].functions)]];
    }
  }

  lemma CallersOneMore(edges: Edges, names: seq<Name>, i: nat, b: Name)
    requires i < |names| && forall x :: x in names ==> x in edges
    ensures CallersAmong(edges, names, i + 1, b) == CallersAmong(edges, names, i, b) + EdgesTo(names[i], edges[names[i]], |edges[names[i]]|, b)
  {
  }

  lemma NothingListed(edges: Edges, names: seq<Name>, b: Name)
    requires forall x :: x in names ==> x in edges
    ensures Listed(map[], b) == CallersAmong(edges, names, 0, b)
  {
  }

  /** Callee to the callers of it in name order, with what each watches. */
  method Reverse(edges: Edges) returns (rev: Callers)
    ensures Reverses(rev, edges)
  {
    hide Listed, EdgesTo, CallersAmong, SortedNames;
    rev := map[];
    var names := CollectNames(edges.Keys);
    assert forall x :: x in names ==> x in edges by { SortedNamesMembers(edges.Keys); }
    forall b ensures Listed(map[], b) == CallersAmong(edges, names, 0, b) {
      NothingListed(edges, names, b);
    }
    for i := 0 to |names|
      invariant forall b :: Listed(rev, b) == CallersAmong(edges, names, i, b)
    {
      rev := AddCallers(rev, names[i], edges[names[i]]);
      forall b ensures Listed(rev, b) == CallersAmong(edges, names, i + 1, b) {
        CallersOneMore(edges, names, i, b);
      }
    }
  }

  ghost predicate Offered(edges: Edges, all: Items, changed: Name, at: Name, f: Finding, d: nat) {
    forall x :: Carries(edges, x, at, f) ==> Has(all, KeyOf(x, changed, f), d + 1)
  }

  lemma OfferedMono(edges: Edges, all: Items, more: Items, changed: Name, at: Name, f: Finding, d: nat)
    requires Offered(edges, all, changed, at, f, d) && all <= more
    ensures Offered(edges, more, changed, at, f, d)
  {
    forall x | Carries(edges, x, at, f) ensures Has(more, KeyOf(x, changed, f), d + 1) {
      HasMono(all, more, KeyOf(x, changed, f), d + 1);
    }
  }

  lemma AddItem(edges: Edges, findings: FindingsOf, all: Items, d: nat, e: CrossFinding)
    requires ItemsOk(edges, findings, all) && LevelsOk(all, d) && ItemOk(edges, findings, e) && e.depth == d + 1
    ensures ItemsOk(edges, findings, all + [e]) && LevelsOk(all + [e], d)
    ensures Has(all + [e], ItemKey(e), d + 1)
  {
    assert (all + [e])[|all|] == e;
  }

  lemma NextHop(edges: Edges, callers: Callers, findings: FindingsOf, changed: Name, at: Name, f: Finding, d: nat, c: Caller)
    requires OneEdgePerPair(edges) && Reverses(callers, edges) && c in Listed(callers, at)
    requires Propagated(findings, changed, f) && FunctionIsWatched(f, c.1)
    requires if d == 0 then at == changed else Reaches(edges, changed, f, at, d)
    ensures ItemOk(edges, findings, CrossFinding(changed, c.0, f, d + 1))
  {
    CallersExact(edges, at, c);
    WatchedIffEdgeIn(edges, c.0, at, c.1);
    assert Carries(edges, c.0, at, f);
  }

  lemma OfferedAll(edges: Edges, callers: Callers, all: Items, changed: Name, at: Name, f: Finding, d: nat, list: seq<Caller>)
    requires OneEdgePerPair(edges) && Reverses(callers, edges) && list == Listed(callers, at)
    requires forall j :: 0 <= j < |list| && FunctionIsWatched(f, list[j].1) ==> Has(all, KeyOf(list[j].0, changed, f), d + 1)
    ensures Offered(edges, all, changed, at, f, d)
  {
    forall x | Carries(edges, x, at, f) ensures Has(all, KeyOf(x, changed, f), d + 1) {
      var fs := Watched(edges, x, at).value;
      WatchedIffEdgeIn(edges, x, at, fs);
      CallersExact(edges, at, (x, fs));
      assert (x, fs) in list;
    }
  }

  /** The findings of one contract up to the n-th have their direct callers. */
  ghost predicate SeededFrom(edges: Edges, findings: FindingsOf, all: Items, c: Name, n: nat)
    requires c in findings && n <= |findings[c]|
  {
    forall i :: 0 <= i < n && IsCallerVisible(findings[c][i]) ==> Offered(edges, all, c, c, findings[c][i], 0)
  }

  lemma SeededFromMono(edges: Edges, findings: FindingsOf, all: Items, more: Items, c: Name, n: nat)
    requires c in findings && n <= |findings[c]|
    requires SeededFrom(edges, findings, all, c, n) && all <= more
    ensures SeededFrom(edges, findings, more, c, n)
  {
    forall i | 0 <= i < n && IsCallerVisible(findings[c][i]) ensures Offered(edges, more, c, c, findings[c][i], 0) {
      OfferedMono(edges, all, more, c, c, findings[c][i], 0);
    }
  }

  lemma SeededStep(edges: Edges, findings: FindingsOf, all: Items, more: Items, c: Name, i: nat)
    requires c in findings && i < |findings[c]|
    requires SeededFrom(edges, findings, all, c, i) && all <= more
    requires IsCallerVisible(findings[c][i]) ==> Offered(edges, more, c, c, findings[c][i], 0)
    ensures SeededFrom(edges, findings, more, c, i + 1)
  {
    SeededFromMono(edges, findings, all, more, c, i);
  }

  lemma SeededAll(edges: Edges, findings: FindingsOf, all: Items)
    requires forall c :: c in findings ==> SeededFrom(edges, findings, all, c, |findings[c]|)
    ensures Seeded(edges, findings, all)
  {
    forall c, f, x | Propagated(findings, c, f) && Carries(edges, x, c, f) ensures Has(all, KeyOf(x, c, f), 1) {
      var i :| 0 <= i < |findings[c]| && findings[c][i] == f;
      assert Offered(edges, all, c, c, findings[c][i], 0);
    }
  }

  lemma SeededMono(edges: Edges, findings: FindingsOf, all: Items, more: Items)
    requires Seeded(edges, findings, all) && all <= more
    ensures Seeded(edges, findings, more)
  {
    forall c, f, x | Propagated(findings, c, f) && Carries(edges, x, c, f) ensures Has(more, KeyOf(x, c, f), 1) {
      HasMono(all, more, KeyOf(x, c, f), 1);
    }
  }

  lemma AllExpandedNone(edges: Edges, all: Items)
    ensures AllExpanded(edges, all, 0)
  {
  }

  lemma AllExpandedStep(edges: Edges, all: Items, more: Items, done: nat)
    requires done < |all| && all <= more && AllExpanded(edges, all, done)
    requires Offered(edges, more, all[done].changed, all[done].affected, all[done].finding, all[done].depth)
    ensures AllExpanded(edges, more, done + 1)
  {
    forall i | 0 <= i < done + 1 ensures Expanded(edges, more, more[i]) {
      assert more[i] == all[i];
      if i < done {
        OfferedMono(edges, all, more, all[i].changed, all[i].affected, all[i].finding, all[i].depth);
      }
    }
  }

  /** The front of the queue is a valid item at the current level, and more
      items remain possible than have been expanded. */
  lemma NextFront(edges: Edges, findings: FindingsOf, all: Items, emitted: set<Key>, done: nat, d: nat)
    requires KeysOk(all, emitted) && ItemsOk(edges, findings, all) && LevelsOk(all, d)
    requires done < |all| && d <= all[done].depth
    ensures ItemOk(edges, findings, all[done]) && LevelsOk(all, all[done].depth)
    ensures done < |Universe(edges, findings)|
  {
    EmittedFits(edges, findings, all, emitted);
  }

  lemma LaterIsDeeper(all: Items, d: nat, i: nat)
    requires LevelsOk(all, d) && i + 1 < |all|
    ensures all[i].depth <= all[i + 1].depth
  {
  }

  lemma ReversedAt(callers: Callers, edges: Edges, at: Name)
    requires Reverses(callers, edges)
    ensures Listed(callers, at) == CallersOf(edges, at)
  {
  }

  lemma KeyIsThere(all: Items, emitted: set<Key>, k: Key)
    requires KeysOk(all, emitted)
    ensures k in emitted <==> HasKey(all, k)
  {
  }

  lemma OfferNew(edges: Edges, findings: FindingsOf, all: Items, emitted: set<Key>, e: CrossFinding, d: nat)
    requires KeysOk(all, emitted) && ItemsOk(edges, findings, all) && LevelsOk(all, d)
    requires ItemOk(edges, findings, e) && e.depth == d + 1 && ItemKey(e) !in emitted
    ensures KeysOk(all + [e], emitted + {ItemKey(e)}) && ItemsOk(edges, findings, all + [e]) && LevelsOk(all + [e], d)
    ensures Has(all + [e], ItemKey(e), d + 1) && OfferTo(all, e) == all + [e]
  {
    KeyIsThere(all, emitted, ItemKey(e));
    hide ItemKey, HasKey, KeysOk, ItemsOk, LevelsOk, Has, ItemOk;
    AddKey(all, emitted, e);
    AddItem(edges, findings, all, d, e);
  }

  lemma OfferKnown(all: Items, emitted: set<Key>, e: CrossFinding, d: nat)
    requires KeysOk(all, emitted) && LevelsOk(all, d) && ItemKey(e) in emitted
    ensures Has(all, ItemKey(e), d + 1) && OfferTo(all, e) == all
  {
    KeyIsThere(all, emitted, ItemKey(e));
    hide ItemKey, HasKey, KeysOk, LevelsOk, Has;
    FoundKey(all, emitted, ItemKey(e), d);
  }

  /** These contracts have their seeds and no other has anything. */
  ghost predicate SeededParts(edges: Edges, findings: FindingsOf, all: Items, done: set<Name>) {
    forall c :: PartOf(all, c) == if c in done then SeedOf(edges, findings, c) else []
  }

  lemma NoPartsSeeded(edges: Edges, findings: FindingsOf)
    ensures SeededParts(edges, findings, [], {})
  {
  }

  lemma SeedsOnePart(edges: Edges, findings: FindingsOf, all: Items, done: set<Name>, changed: Name)
    requires SeededParts(edges, findings, all, done) && changed in findings && changed !in done
    ensures SeededParts(edges, findings, SeedFrom(edges, findings[changed], all, changed, |findings[changed]|), done + {changed})
  {
    hide PartOf, SeedFrom;
    forall c
      ensures PartOf(SeedFrom(edges, findings[changed], all, changed, |findings[changed]|), c)
           == if c in done + {changed} then SeedOf(edges, findings, c) else []
    {
      SeedFromPart(edges, findings[changed], all, changed, |findings[changed]|, c);
    }
  }

  lemma AllPartsSeeded(edges: Edges, findings: FindingsOf, all: Items)
    requires SeededParts(edges, findings, all, findings.Keys)
    ensures InOwnOrder(edges, findings, [], all)
  {
    hide SeedFrom;
    assert [] + all == all;
    forall c ensures PartOf([] + all, c) == OwnRun(edges, findings, c, |PartOf([], c)|) {
      assert PartOf([], c) == [];
    }
  }

  class Search {
    const edges: Edges
    const findings: FindingsOf
    const callers: Callers
    var result: Items
    var queue: Items
    var emitted: set<Key>

    ghost function All(): Items
      reads this
    {
      result + queue
    }

    ghost predicate Valid(d: nat)
      reads this
    {
      && OneEdgePerPair(edges) && Reverses(callers, edges)
      && KeysOk(All(), emitted) && ItemsOk(edges, findings, All()) && LevelsOk(All(), d)
    }

    constructor (edges: Edges, findings: FindingsOf, callers: Callers)
      requires OneEdgePerPair(edges) && Reverses(callers, edges)
      ensures this.edges == edges && this.findings == findings
      ensures Valid(0) && All() == []
    {
      this.edges, this.findings, this.callers := edges, findings, callers;
      result, queue, emitted := [], [], {};
    }

    /** Queue the item unless its key has been emitted before. */
    method Offer(e: CrossFinding, ghost d: nat)
      requires Valid(d) && ItemOk(edges, findings, e) && e.depth == d + 1
      modifies this`queue, this`emitted
      ensures Valid(d) && old(All()) <= All() && Has(All(), ItemKey(e), d + 1)
      ensures All() == OfferTo(old(All()), e)
    {
      hide ItemKey, OfferTo, KeysOk, ItemsOk, LevelsOk, Has, ItemOk, Reverses, OneEdgePerPair;
      if ItemKey(e) !in emitted {
        OfferNew(edges, findings, All(), emitted, e, d);
        assert All() + [e] == result + (queue + [e]);
        queue := queue + [e];
        emitted := emitted + {ItemKey(e)};
      } else {
        OfferKnown(All(), emitted, e, d);
      }
    }

    /** Offer the finding to every caller of a contract it has reached. */
    method OfferCallers(changed: Name, at: Name, f: Finding, d: nat)
      requires Valid(d) && Propagated(findings, changed, f)
      requires if d == 0 then at == changed else Reaches(edges, changed, f, at, d)
      modifies this`queue, this`emitted
      ensures Valid(d) && old(All()) <= All()
      ensures Offered(edges, All(), changed, at, f, d)
      ensures All() == OfferAll(edges, old(All()), changed, at, f, d)
    {
      hide OfferTo, KeysOk, ItemsOk, LevelsOk, ItemOk, Has, Reverses, OneEdgePerPair;
      var list := Listed(callers, at);
      for i := 0 to |list|
        invariant Valid(d) && old(All()) <= All()
        invariant All() == OfferEach(old(All()), list, changed, f, d, i)
        invariant forall j :: 0 <= j < i && FunctionIsWatched(f, list[j].1) ==> Has(All(), KeyOf(list[j].0, changed, f), d + 1)
      {
        ghost var before := All();
        if FunctionIsWatched(f, list[i].1) {
          NextHop(edges, callers, findings, changed, at, f, d, list[i]);
          Offer(CrossFinding(changed, list[i].0, f, d + 1), d);
        }
        forall j | 0 <= j < i + 1 && FunctionIsWatched(f, list[j].1)
          ensures Has(All(), KeyOf(list[j].0, changed, f), d + 1)
        {
          if j < i {
            HasMono(before, All(), KeyOf(list[j].0, changed, f), d + 1);
          }
        }
      }
      OfferedAll(edges, callers, All(), changed, at, f, d, list);
      assert list == CallersOf(edges, at) by { ReversedAt(callers, edges, at); }
    }

    /** The direct callers of everything one contract propagates. */
    method SeedContract(changed: Name)
      requires Valid(0) && changed in findings
      modifies this`queue, this`emitted
      ensures Valid(0) && old(All()) <= All()
      ensures SeededFrom(edges, findings, All(), changed, |findings[changed]|)
      ensures All() == SeedFrom(edges, findings[changed], old(All()), changed, |findings[changed]|)
    {
      hide OfferAll, KeysOk, ItemsOk, LevelsOk, Offered, Has;
      var fs := findings[changed];
      for i := 0 to |fs|
        invariant Valid(0) && old(All()) <= All()
        invariant SeededFrom(edges, findings, All(), changed, i)
        invariant All() == SeedFrom(edges, fs, old(All()), changed, i)
      {
        ghost var before := All();
        if IsCallerVisible(fs[i]) {
          assert Propagated(findings, changed, fs[i]);
          OfferCallers(changed, changed, fs[i], 0);
        }
        SeededStep(edges, findings, before, All(), changed, i);
      }
    }

    method Seed()
      requires Valid(0) && result == [] && queue == []
      modifies this`queue, this`emitted
      ensures Valid(0) && Seeded(edges, findings, All())
      ensures InOwnOrder(edges, findings, result, queue)
    {
      hide PartOf, SeedOf, KeysOk, ItemsOk, LevelsOk, SeededFrom, Seeded, Has;
      var rest := findings.Keys;
      assert All() == [];
      NoPartsSeeded(edges, findings);
      while rest != {}
        invariant Valid(0) && rest <= findings.Keys
        invariant forall c :: c in findings.Keys - rest ==> SeededFrom(edges, findings, All(), c, |findings[c]|)
        invariant SeededParts(edges, findings, All(), findings.Keys - rest)
        decreases rest
      {
        ghost var before := All();
        var changed :| changed in rest;
        SeedContract(changed);
        forall c | c in findings.Keys - rest ensures SeededFrom(edges, findings, All(), c, |findings[c]|) {
          SeededFromMono(edges, findings, before, All(), c, |findings[c]|);
        }
        SeedsOnePart(edges, findings, before, findings.Keys - rest, changed);
        assert findings.Keys - (rest - {changed}) == (findings.Keys - rest) + {changed};
        rest := rest - {changed};
      }
      SeededAll(edges, findings, All());
      AllPartsSeeded(edges, findings, All());
      assert All() == queue == result + queue;
    }

    /** Expand the queue, first in first out, until it is empty. */
    method Run()
      requires Valid(0) && result == [] && Seeded(edges, findings, All())
      requires InOwnOrder(edges, findings, result, queue)
      modifies this
      ensures queue == [] && KeysOk(result, emitted) && ItemsOk(edges, findings, result)
      ensures Seeded(edges, findings, result) && AllExpanded(edges, result, |result|)
      ensures InOwnOrder(edges, findings, result, [])
    {
      hide InOwnOrder, OfferAll, KeysOk, ItemsOk, LevelsOk, Seeded, Expanded, AllExpanded, Has, Universe;
      ghost var d: nat := 0;
      AllExpandedNone(edges, All());
      while queue != []
        invariant Valid(d) && (queue != [] ==> d <= queue[0].depth)
        invariant Seeded(edges, findings, All()) && AllExpanded(edges, All(), |result|)
        invariant InOwnOrder(edges, findings, result, queue)
        decreases |Universe(edges, findings)| - |result|
      {
        ghost var all, results, waiting := All(), result, queue;
        var e := queue[0];
        assert all == (result + [e]) + queue[1..] && all[|result|] == e;
        ghost var level := d;
        d := e.depth;
        NextFront(edges, findings, all, emitted, |result|, level);
        result, queue := result + [e], queue[1..];
        assert All() == all;
        OfferCallers(e.changed, e.affected, e.finding, e.depth);
        assert All()[|results| + 1..] == queue;
        StepInOwnOrder(edges, findings, results, waiting, All());
        SeededMono(edges, findings, all, All());
        AllExpandedStep(edges, all, All(), |result| - 1);
        if queue != [] {
          assert All()[|result|] == queue[0] && All()[|result| - 1] == all[|result| - 1];
          LaterIsDeeper(All(), d, |result| - 1);
        }
      }
      assert All() == result;
    }
  }

  // ------------------------------------------------------------------
  // The report
  // ------------------------------------------------------------------

  /** By depth, then changed and affected contract, then target. */
  predicate DisplayLeq(d: CrossFinding, e: CrossFinding) {
    if d.depth != e.depth then d.depth < e.depth
    else if d.changed != e.changed then LexLeq(d.changed, e.changed)
    else if d.affected != e.affected then LexLeq(d.affected, e.affected)
    else TextLeq(d.finding.target, e.finding.target)
  }

  /** Nearest first; then by changed contract, by affected contract, by target. */
  ghost predicate ShownBefore(d: CrossFinding, e: CrossFinding) {
    || d.depth < e.depth
    || (d.depth == e.depth && Precedes(d.changed, e.changed))
    || (d.depth == e.depth && d.changed == e.changed && Precedes(d.affected, e.affected))
    || (d.depth == e.depth && d.changed == e.changed && d.affected == e.affected && TextBefore(d.finding.target, e.finding.target))
  }

  ghost predicate ShownAlike(d: CrossFinding, e: CrossFinding) {
    d.depth == e.depth && d.changed == e.changed && d.affected == e.affected && d.finding.target == e.finding.target
  }

  ghost predicate InDisplayOrder(found: Items) {
    forall i, j :: 0 <= i < j < |found| ==> ShownBefore(found[i], found[j]) || ShownAlike(found[i], found[j])
  }

  lemma DisplayIsSpelled(found: Items)
    requires Sorted(found, DisplayLeq)
    ensures InDisplayOrder(found)
  {
    forall i, j | 0 <= i < j < |found| ensures ShownBefore(found[i], found[j]) || ShownAlike(found[i], found[j]) {
      var d, e := found[i], found[j];
      assert DisplayLeq(d, e);
      LexIsExact(d.changed, e.changed);
      LexIsExact(d.affected, e.affected);
      TextLeqIsExact(d.finding.target, e.finding.target);
      hide LexLeq, TextLeq, TextBefore, Precedes;
    }
  }

  lemma DisplayCompares(d: CrossFinding, e: CrossFinding)
    ensures DisplayLeq(d, e) || DisplayLeq(e, d)
  {
    LexOrder();
    TextOrder();
    assert TextLeq(d.finding.target, e.finding.target) || TextLeq(e.finding.target, d.finding.target);
    assert LexLeq(d.changed, e.changed) || LexLeq(e.changed, d.changed);
    assert LexLeq(d.affected, e.affected) || LexLeq(e.affected, d.affected);
  }

  lemma DisplayTransitive(d: CrossFinding, e: CrossFinding, f: CrossFinding)
    requires DisplayLeq(d, e) && DisplayLeq(e, f)
    ensures DisplayLeq(d, f)
  {
    LexOrder();
    TextOrder();
    hide LexLeq, TextLeq;
  }

  lemma DisplayRanks()
    ensures Ranks(DisplayLeq)
  {
    hide DisplayLeq;
    forall d, e ensures DisplayLeq(d, e) || DisplayLeq(e, d) {
      DisplayCompares(d, e);
    }
    forall d, e, f | DisplayLeq(d, e) && DisplayLeq(e, f) ensures DisplayLeq(d, f) {
      DisplayTransitive(d, e, f);
    }
  }

  lemma OnceCounted(all: Items, k: nat)
    requires k < |all| && ReportedOnce(all)
    ensures multiset(all)[all[k]] <= 1
  {
    assert all == all[..k] + [all[k]] + all[k + 1..];
    assert forall i :: 0 <= i < k ==> !SameReport(all[i], all[k]);
    assert forall i :: k < i < |all| ==> !SameReport(all[k], all[i]);
    assert all[k] !in all[..k] && all[k] !in all[k + 1..];
  }

  lemma OnceInAnyOrder(all: Items, other: Items)
    requires multiset(all) == multiset(other) && ReportedOnce(all)
    ensures ReportedOnce(other)
  {
    MultisetMembers(all, other);
    forall i, j | 0 <= i < j < |other| ensures !SameReport(other[i], other[j]) {
      assert other[i] in all && other[j] in all;
      var k :| 0 <= k < |all| && all[k] == other[i];
      var l :| 0 <= l < |all| && all[l] == other[j];
      if other[i] == other[j] {
        TwiceCounted(other, i, j);
        OnceCounted(all, k);
      }
      assert k < l ==> !SameReport(all[k], all[l]);
      assert l < k ==> !SameReport(all[l], all[k]);
    }
  }

  /** What the report says does not depend on its order. */
  lemma SameMembersSameReport(edges: Edges, findings: FindingsOf, all: Items, other: Items)
    requires forall e :: e in all <==> e in other
    ensures Carried(edges, findings, all) <==> Carried(edges, findings, other)
    ensures ReachExact(edges, findings, all) <==> ReachExact(edges, findings, other)
    ensures DepthsExact(edges, all) <==> DepthsExact(edges, other)
  {
    hide Reaches, Propagated, SameKind;
    forall c, f, x ensures IsResult(all, c, f, x) <==> IsResult(other, c, f, x) {
    }
    hide IsResult;
  }

  lemma SortedReport(all: Items)
    requires ReportedOnce(all)
    ensures Sorted(Sort(all, DisplayLeq), DisplayLeq) && ReportedOnce(Sort(all, DisplayLeq))
    ensures forall e :: e in Sort(all, DisplayLeq) <==> e in all
  {
    DisplayRanks();
    SortSorted(all, DisplayLeq);
    MultisetMembers(Sort(all, DisplayLeq), all);
    OnceInAnyOrder(all, Sort(all, DisplayLeq));
  }

  lemma TiesShareContract(d: CrossFinding, e: CrossFinding)
    requires Tied(d, e, DisplayLeq)
    ensures d.changed == e.changed
  {
    LexOrder();
  }

  lemma {:induction false} TiesInPart(all: Items, z: CrossFinding)
    ensures Ties(all, z, DisplayLeq) == Ties(PartOf(all, z.changed), z, DisplayLeq)
  {
    hide DisplayLeq;
    if all != [] {
      TiesInPart(all[1..], z);
      var part := PartOf(all[1..], z.changed);
      if all[0].changed == z.changed {
        assert PartOf(all, z.changed) == [all[0]] + part;
        TiesOfJoin(all[0], part, z, DisplayLeq);
      } else {
        assert PartOf(all, z.changed) == part;
        if Tied(all[0], z, DisplayLeq) {
          TiesShareContract(all[0], z);
        }
      }
    }
  }

  /** A report: what a search found, each contract's results in their own order,
      sorted for display. */
  ghost predicate IsReport(edges: Edges, findings: FindingsOf, found: Items) {
    exists raw :: InOwnOrder(edges, findings, raw, []) && found == Sort(raw, DisplayLeq)
  }

  /** The same findings give the same report, whatever the order in which the
      changed contracts are visited. */
  lemma ReportIsDetermined(edges: Edges, findings: FindingsOf, found: Items, other: Items)
    requires IsReport(edges, findings, found) && IsReport(edges, findings, other)
    ensures found == other
  {
    var a :| InOwnOrder(edges, findings, a, []) && found == Sort(a, DisplayLeq);
    var b :| InOwnOrder(edges, findings, b, []) && other == Sort(b, DisplayLeq);
    DisplayRanks();
    SortSorted(a, DisplayLeq);
    SortSorted(b, DisplayLeq);
    hide InOwnOrder, Sort, Ties, PartOf, DisplayLeq, Ranks, Sorted;
    forall z ensures Ties(found, z, DisplayLeq) == Ties(other, z, DisplayLeq) {
      SortKeepsTies(a, z, DisplayLeq);
      SortKeepsTies(b, z, DisplayLeq);
      TiesInPart(a, z);
      TiesInPart(b, z);
      SamePart(edges, findings, a, b, z.changed);
    }
    SortedByTies(found, other, DisplayLeq);
  }

  /** Everything that a changed contract breaks, sorted for display.  Each result
      has a real chain and is reported once; exact reachability, at shortest
      depth, holds precisely when targets are told apart. */
  method Propagate(edges: Edges, findings: FindingsOf) returns (found: Items)
    requires OneEdgePerPair(edges)
    ensures Carried(edges, findings, found) && ReportedOnce(found)
    ensures ReachExact(edges, findings, found) <==> TargetsToldApart(edges, findings)
    ensures TargetsToldApart(edges, findings) ==> DepthsExact(edges, found)
    ensures Sorted(found, DisplayLeq) && InDisplayOrder(found) && IsReport(edges, findings, found)
  {
    hide InOwnOrder, PartOf, Carried, TargetsToldApart, KeysOk, ItemsOk, LevelsOk, Seeded, AllExpanded, Has, DepthsExact, ReachExact, ReportedOnce, Reverses, OneEdgePerPair;
    hide Sort, Sorted, InDisplayOrder;
    var callers := Reverse(edges);
    var search := new Search(edges, findings, callers);
    search.Seed();
    search.Run();
    FinishedSearch(edges, findings, search.result, search.emitted);
    SortedReport(search.result);
    found := Sort(search.result, DisplayLeq);
    SameMembersSameReport(edges, findings, search.result, found);
    DisplayIsSpelled(found);
  }

  // ------------------------------------------------------------------
  // A result that is lost
  // ------------------------------------------------------------------

  function Untargeted(): Finding {
    Finding(Critical, [], "Struct Removed", "", None, None, None, None)
  }

  function EmptyTargeted(): Finding {
    Untargeted().(target := Some(""))
  }

  /** b depends on all of a, and a has both findings: both reach b, but whatever
      a search with one entry per key holds, one of them has no result. */
  lemma ClashExample(all: Items, emitted: set<Key>)
    requires KeysOk(all, emitted)
    ensures
      var edges: Edges := map["b" := [Edge("a", [])]];
      var findings: FindingsOf := map["a" := [Untargeted(), EmptyTargeted()]];
      && !TargetsToldApart(edges, findings) && !ReachExact(edges, findings, all)
      && Propagated(findings, "a", Untargeted()) && Reaches(edges, "a", Untargeted(), "b", 1)
      && Propagated(findings, "a", EmptyTargeted()) && Reaches(edges, "a", EmptyTargeted(), "b", 1)
      && !(IsResult(all, "a", Untargeted(), "b") && IsResult(all, "a", EmptyTargeted(), "b"))
  {
    var edges: Edges := map["b" := [Edge("a", [])]];
    var findings: FindingsOf := map["a" := [Untargeted(), EmptyTargeted()]];
    assert "Struct Removed" == STRUCT_CATEGORIES[0];
    assert Watched(edges, "b", "a") == Some([]);
    assert Propagated(findings, "a", Untargeted()) && Propagated(findings, "a", EmptyTargeted());
    assert PropagationKey("a", Untargeted()) == PropagationKey("a", EmptyTargeted());
    hide KeysOk, PropagationKey, IsResult, IsVisibleCategory;
    if ReachExact(edges, findings, all) {
      ClashLosesAResult(edges, findings, all, emitted);
    }
    if IsResult(all, "a", Untargeted(), "b") && IsResult(all, "a", EmptyTargeted(), "b") {
      ResultsOfOneKey(all, emitted, "a", Untargeted(), EmptyTargeted(), "b");
    }
  }

  // ------------------------------------------------------------------
  // Propagation over declarations
  // ------------------------------------------------------------------

  /** A chain of exactly n declared dependencies, all watching the finding, leads
      from x to the changed contract. */
  ghost predicate DeclaredReach(deps: seq<Dependency>, changed: Name, f: Finding, x: Name, n: nat)
    decreases n
  {
    n > 0 &&
    (if n == 1 then DeclaredWatching(deps, x, changed, f)
     else exists y :: DeclaredReach(deps, changed, f, y, n - 1) && DeclaredWatching(deps, x, y, f))
  }

  lemma CarriesIsDeclared(edges: Edges, deps: seq<Dependency>, x: Name, y: Name, f: Finding)
    requires Describes(edges, deps)
    ensures Carries(edges, x, y, f) <==> DeclaredWatching(deps, x, y, f)
  {
    WatchedIsDeclared(edges, deps, x, y, f);
  }

  lemma {:induction false} ReachesIsDeclared(edges: Edges, deps: seq<Dependency>, changed: Name, f: Finding, x: Name, n: nat)
    requires Describes(edges, deps)
    ensures Reaches(edges, changed, f, x, n) <==> DeclaredReach(deps, changed, f, x, n)
    decreases n
  {
    hide Describes, Carries, DeclaredWatching;
    if n == 1 {
      CarriesIsDeclared(edges, deps, x, changed, f);
    } else if n > 1 {
      forall y
        ensures Reaches(edges, changed, f, y, n - 1) && Carries(edges, x, y, f)
           <==> DeclaredReach(deps, changed, f, y, n - 1) && DeclaredWatching(deps, x, y, f)
      {
        ReachesIsDeclared(edges, deps, changed, f, y, n - 1);
        CarriesIsDeclared(edges, deps, x, y, f);
      }
    }
  }

  /** A missing and an empty target in one category only where no declaration is
      about the whole contract. */
  ghost predicate DeclaredApart(deps: seq<Dependency>, findings: FindingsOf) {
    forall c, f, g, x ::
      Propagated(findings, c, f) && Propagated(findings, c, g) && f.category == g.category
      && f.target == None && g.target == Some("")
      ==> !DeclaredWhole(deps, x, c)
  }

  ghost predicate DeclaredExact(deps: seq<Dependency>, findings: FindingsOf, all: Items) {
    forall c, f, x :: Propagated(findings, c, f) ==>
      (IsResult(all, c, f, x) <==> exists n :: DeclaredReach(deps, c, f, x, n))
  }

  lemma ApartIsDeclared(edges: Edges, deps: seq<Dependency>, findings: FindingsOf)
    requires Describes(edges, deps)
    ensures TargetsToldApart(edges, findings) <==> DeclaredApart(deps, findings)
  {
    hide Describes, Propagated, DeclaredWhole, Watched;
    forall x, c ensures Watched(edges, x, c) == Some([]) <==> DeclaredWhole(deps, x, c) {
      WholeIsDeclared(edges, deps, x, c);
    }
  }

  lemma ExactIsDeclared(edges: Edges, deps: seq<Dependency>, findings: FindingsOf, all: Items)
    requires Describes(edges, deps)
    ensures ReachExact(edges, findings, all) <==> DeclaredExact(deps, findings, all)
  {
    hide Describes, Propagated, IsResult, Reaches, DeclaredReach;
    forall c, f, x, n: nat ensures Reaches(edges, c, f, x, n) <==> DeclaredReach(deps, c, f, x, n) {
      ReachesIsDeclared(edges, deps, c, f, x, n);
    }
  }

  /** From declarations to results. */
  method PropagateDeclared(deps: seq<Dependency>, findings: FindingsOf) returns (found: Items)
    ensures forall e :: e in found ==>
      Propagated(findings, e.changed, e.finding) && DeclaredReach(deps, e.changed, e.finding, e.affected, e.depth)
    ensures ReportedOnce(found) && InDisplayOrder(found)
    ensures DeclaredExact(deps, findings, found) <==> DeclaredApart(deps, findings)
    ensures DeclaredApart(deps, findings) ==>
      forall e, n :: e in found && DeclaredReach(deps, e.changed, e.finding, e.affected, n) ==> e.depth <= n
  {
    hide Describes, Propagated, Reaches, DeclaredReach, DeclaredExact, DeclaredApart, TargetsToldApart, ReachExact, ReportedOnce, Sorted, InDisplayOrder;
    var edges := FromDeclarations(deps);
    assert OneEdgePerPair(edges) by { DescribedEdgesAreDistinct(edges, deps); }
    found := Propagate(edges, findings);
    ApartIsDeclared(edges, deps, findings);
    ExactIsDeclared(edges, deps, findings, found);
    forall c, f, x, n ensures Reaches(edges, c, f, x, n) <==> DeclaredReach(deps, c, f, x, n) {
      ReachesIsDeclared(edges, deps, c, f, x, n);
    }
  }
}
