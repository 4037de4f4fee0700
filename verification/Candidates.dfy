/** The search of stored entries for values of the affected types, and the check
    that those which decode under the old spec decode under the new one. */
module Candidates {
  import opened Prelude
  import opened Ordering
  import opened Spec
  import opened Empirical
  import opened Decoding

  ghost function ItemValues(items: seq<ScVal>, n: nat): set<ScVal>
    requires n <= |items|
    decreases items, n
  {
    if n == 0 then {} else ItemValues(items, n - 1) + SubValues(items[n - 1])
  }

  /** The value itself and everything stored inside it, keys included. */
  ghost function SubValues(v: ScVal): set<ScVal>
    decreases v, 0
  {
    {v} +
    match v
    case ScVec(items) => ItemValues(items, |items|)
    case ScMap(entries) => EntryValues(entries, |entries|)
    case _ => {}
  }

  ghost function PairValues(e: Entry): set<ScVal>
    decreases e, 1
  {
    SubValues(e.key) + SubValues(e.val)
  }

  ghost function EntryValues(entries: seq<Entry>, n: nat): set<ScVal>
    requires n <= |entries|
    decreases entries, n
  {
    if n == 0 then {} else EntryValues(entries, n - 1) + PairValues(entries[n - 1])
  }

  /** `w` is stored directly in `v`: an item, a key or a map value. */
  ghost predicate Child(v: ScVal, w: ScVal) {
    || (v.ScVec? && w in v.items)
    || (v.ScMap? && exists e :: e in v.entries && (w == e.key || w == e.val))
  }

  /** Each value is stored directly in the one before it. */
  ghost predicate Nested(chain: seq<ScVal>) {
    chain != [] && forall i :: 0 <= i < |chain| - 1 ==> Child(chain[i], chain[i + 1])
  }

  ghost predicate Contains(v: ScVal, w: ScVal) {
    exists chain :: Nested(chain) && chain[0] == v && chain[|chain| - 1] == w
  }

  lemma {:induction false} ItemValuesMember(items: seq<ScVal>, n: nat, w: ScVal)
    requires n <= |items|
    ensures w in ItemValues(items, n) <==> exists k :: 0 <= k < n && w in SubValues(items[k])
  {
    if n > 0 { ItemValuesMember(items, n - 1, w); }
  }

  lemma {:induction false} EntryValuesMember(entries: seq<Entry>, n: nat, w: ScVal)
    requires n <= |entries|
    ensures w in EntryValues(entries, n) <==> exists k :: 0 <= k < n && w in PairValues(entries[k])
  {
    if n > 0 { EntryValuesMember(entries, n - 1, w); }
  }

  ghost predicate InChild(v: ScVal, w: ScVal) {
    exists c :: Child(v, c) && w in SubValues(c)
  }

  lemma InItem(v: ScVal, w: ScVal)
    requires v.ScVec?
    ensures w in ItemValues(v.items, |v.items|) <==> InChild(v, w)
  {
    ItemValuesMember(v.items, |v.items|, w);
    hide SubValues, ItemValues;
    if k :| 0 <= k < |v.items| && w in SubValues(v.items[k]) {
      assert Child(v, v.items[k]);
    }
  }

  lemma InEntry(v: ScVal, w: ScVal)
    requires v.ScMap?
    ensures w in EntryValues(v.entries, |v.entries|) <==> InChild(v, w)
  {
    EntryValuesMember(v.entries, |v.entries|, w);
    hide SubValues, EntryValues;
    if k :| 0 <= k < |v.entries| && w in PairValues(v.entries[k]) {
      var e := v.entries[k];
      assert e in v.entries && Child(v, e.key) && Child(v, e.val);
    }
    if InChild(v, w) {
      var c :| Child(v, c) && w in SubValues(c);
      var e :| e in v.entries && (c == e.key || c == e.val);
      assert w in PairValues(e);
    }
  }

  lemma SubValuesStep(v: ScVal, w: ScVal)
    ensures w in SubValues(v) <==> w == v || InChild(v, w)
  {
    if v.ScVec? {
      InItem(v, w);
    } else if v.ScMap? {
      InEntry(v, w);
    }
  }

  lemma {:induction false} NestedInSubValues(chain: seq<ScVal>)
    requires Nested(chain)
    ensures chain[|chain| - 1] in SubValues(chain[0])
  {
    SubValuesStep(chain[0], chain[|chain| - 1]);
    if |chain| > 1 {
      NestedInSubValues(chain[1..]);
      assert Child(chain[0], chain[1]);
    }
  }

  lemma OneDeeper(v: ScVal, c: ScVal, w: ScVal)
    requires Child(v, c) && Contains(c, w)
    ensures Contains(v, w)
  {
    var chain :| Nested(chain) && chain[0] == c && chain[|chain| - 1] == w;
    hide Child;
    assert Nested([v] + chain);
  }

  lemma {:induction false} SubValuesNest(v: ScVal, w: ScVal)
    requires w in SubValues(v)
    ensures Contains(v, w)
    decreases v
  {
    SubValuesStep(v, w);
    if w == v {
      assert Nested([v]);
    } else {
      hide SubValues, Contains;
      var c :| Child(v, c) && w in SubValues(c);
      SubValuesNest(c, w);
      OneDeeper(v, c, w);
    }
  }

  /** The searched values are those stored at any depth, and the value itself. */
  lemma SubValuesAreExact(v: ScVal, w: ScVal)
    ensures w in SubValues(v) <==> Contains(v, w)
  {
    if w in SubValues(v) {
      SubValuesNest(v, w);
    }
    if Contains(v, w) {
      var chain :| Nested(chain) && chain[0] == v && chain[|chain| - 1] == w;
      NestedInSubValues(chain);
    }
  }

  lemma Searched(v: ScVal, n: Name, spec: ContractSpec)
    ensures forall w :: w in SubValues(v) && AcceptsUdt(w, n, spec) <==> Contains(v, w) && MeansUdt(w, n, spec)
  {
    hide SubValues, Contains, AcceptsUdt, MeansUdt;
    forall w ensures w in SubValues(v) && AcceptsUdt(w, n, spec) <==> Contains(v, w) && MeansUdt(w, n, spec) {
      SubValuesAreExact(v, w);
      UdtValidationIsDecoding(w, n, spec);
    }
  }

  /** The list grew by exactly those of `values` that decode and were not
      listed, each once, and what was listed before stayed in place. */
  ghost predicate Collected(before: seq<ScVal>, after: seq<ScVal>, values: set<ScVal>, n: Name, spec: ContractSpec) {
    && before <= after
    && (NoDup(before) ==> NoDup(after))
    && forall w :: w in after <==> w in before || (w in values && AcceptsUdt(w, n, spec))
  }

  lemma CollectedNothing(a: seq<ScVal>, n: Name, spec: ContractSpec)
    ensures Collected(a, a, {}, n, spec)
  {
  }

  lemma CollectedTwice(a: seq<ScVal>, b: seq<ScVal>, c: seq<ScVal>, vs: set<ScVal>, ws: set<ScVal>, n: Name, spec: ContractSpec)
    requires Collected(a, b, vs, n, spec) && Collected(b, c, ws, n, spec)
    ensures Collected(a, c, vs + ws, n, spec)
  {
  }

  class CandidateList {
    var found: seq<ScVal>

    constructor ()
      ensures found == []
    {
      found := [];
    }

    method Find(v: ScVal, n: Name, spec: ContractSpec)
      modifies this
      ensures Collected(old(found), found, SubValues(v), n, spec)
      ensures forall w :: w in found <==> w in old(found) || (Contains(v, w) && MeansUdt(w, n, spec))
      decreases v, 1
    {
      Searched(v, n, spec);
      hide AcceptsUdt, MeansUdt, Contains;
      if AcceptsUdt(v, n, spec) && v !in found {
        found := found + [v];
      }
      assert Collected(old(found), found, {v}, n, spec);
      ghost var here := found;
      if v.ScVec? {
        FindInItems(v.items, n, spec);
        CollectedTwice(old(found), here, found, {v}, ItemValues(v.items, |v.items|), n, spec);
      } else if v.ScMap? {
        FindInEntries(v.entries, n, spec);
        CollectedTwice(old(found), here, found, {v}, EntryValues(v.entries, |v.entries|), n, spec);
      }
    }

    method FindInItems(items: seq<ScVal>, n: Name, spec: ContractSpec)
      modifies this
      ensures Collected(old(found), found, ItemValues(items, |items|), n, spec)
      decreases items, 0
    {
      CollectedNothing(found, n, spec);
      hide Collected, SubValues, PairValues, Contains, AcceptsUdt, MeansUdt;
      for i := 0 to |items|
        invariant Collected(old(found), found, ItemValues(items, i), n, spec)
      {
        ghost var here := found;
        Find(items[i], n, spec);
        CollectedTwice(old(found), here, found, ItemValues(items, i), SubValues(items[i]), n, spec);
      }
    }

    method FindInEntries(entries: seq<Entry>, n: Name, spec: ContractSpec)
      modifies this
      ensures Collected(old(found), found, EntryValues(entries, |entries|), n, spec)
      decreases entries, 0
    {
      CollectedNothing(found, n, spec);
      hide Collected, SubValues, PairValues, Contains, AcceptsUdt, MeansUdt;
      for i := 0 to |entries|
        invariant Collected(old(found), found, EntryValues(entries, i), n, spec)
      {
        ghost var here := found;
        FindInEntry(entries[i], n, spec);
        CollectedTwice(old(found), here, found, EntryValues(entries, i), PairValues(entries[i]), n, spec);
      }
    }

    method FindInEntry(e: Entry, n: Name, spec: ContractSpec)
      modifies this
      ensures Collected(old(found), found, PairValues(e), n, spec)
      decreases e, 2
    {
      hide Collected, SubValues, Contains, AcceptsUdt, MeansUdt;
      Find(e.key, n, spec);
      ghost var here := found;
      Find(e.val, n, spec);
      CollectedTwice(old(found), here, found, SubValues(e.key), SubValues(e.val), n, spec);
    }
  }

  datatype EmpiricalFinding = EmpiricalFinding(candidate: ScVal, typeName: Name, isSuccess: bool)

  /** A value stored at some depth of some entry, which is a stored form of a
      value of the type. */
  ghost predicate StoredCandidate(w: ScVal, entries: seq<Entry>, n: Name, spec: ContractSpec) {
    (exists e :: e in entries && (Contains(e.key, w) || Contains(e.val, w))) && MeansUdt(w, n, spec)
  }

  lemma EntriesContain(w: ScVal, entries: seq<Entry>)
    ensures w in EntryValues(entries, |entries|) <==> exists e :: e in entries && (Contains(e.key, w) || Contains(e.val, w))
  {
    EntryValuesMember(entries, |entries|, w);
    forall e: Entry ensures w in PairValues(e) <==> Contains(e.key, w) || Contains(e.val, w) {
      SubValuesAreExact(e.key, w);
      SubValuesAreExact(e.val, w);
    }
    hide PairValues, SubValues, EntryValues, Contains;
    if e :| e in entries && (Contains(e.key, w) || Contains(e.val, w)) {
      var k :| 0 <= k < |entries| && entries[k] == e;
      assert w in PairValues(entries[k]);
    }
  }

  lemma CandidateIsStored(w: ScVal, entries: seq<Entry>, n: Name, spec: ContractSpec)
    ensures StoredCandidate(w, entries, n, spec) <==> w in EntryValues(entries, |entries|) && AcceptsUdt(w, n, spec)
  {
    EntriesContain(w, entries);
    UdtValidationIsDecoding(w, n, spec);
    hide EntryValues, Contains, AcceptsUdt, MeansUdt;
  }

  method CollectCandidates(entries: seq<Entry>, n: Name, spec: ContractSpec) returns (found: seq<ScVal>)
    ensures NoDup(found)
    ensures forall w :: w in found <==> StoredCandidate(w, entries, n, spec)
  {
    var list := new CandidateList();
    list.FindInEntries(entries, n, spec);
    found := list.found;
    forall w ensures w in found <==> StoredCandidate(w, entries, n, spec) {
      CandidateIsStored(w, entries, n, spec);
    }
  }

  /** One result per affected type and stored candidate of it: does the value
      that decoded under the old spec still decode under the new one? */
  method RunEmpiricalCheck(oldSpec: ContractSpec, newSpec: ContractSpec, entries: seq<Entry>, typeNames: seq<Option<Name>>)
    returns (results: seq<EmpiricalFinding>)
    ensures NoDup(results)
    ensures forall w, n, ok :: EmpiricalFinding(w, n, ok) in results <==>
      Some(n) in typeNames && StoredCandidate(w, entries, n, oldSpec) && ok == MeansUdt(w, n, newSpec)
  {
    hide AcceptsUdt, MeansUdt, StoredCandidate;
    results := [];
    var checked: set<Name> := {};
    for i := 0 to |typeNames|
      invariant forall n :: n in checked <==> Some(n) in typeNames[..i]
      invariant NoDup(results)
      invariant forall w, n, ok :: EmpiricalFinding(w, n, ok) in results <==>
        n in checked && StoredCandidate(w, entries, n, oldSpec) && ok == MeansUdt(w, n, newSpec)
    {
      assert typeNames[..i + 1] == typeNames[..i] + [typeNames[i]];
      if typeNames[i].Some? && typeNames[i].value !in checked {
        var name := typeNames[i].value;
        var candidates := CollectCandidates(entries, name, oldSpec);
        ghost var before := results;
        for j := 0 to |candidates|
          invariant NoDup(results)
          invariant forall w, n, ok :: EmpiricalFinding(w, n, ok) in results <==>
            EmpiricalFinding(w, n, ok) in before
            || (n == name && w in candidates[..j] && ok == MeansUdt(w, n, newSpec))
        {
          UdtValidationIsDecoding(candidates[j], name, newSpec);
          results := results + [EmpiricalFinding(candidates[j], name, AcceptsUdt(candidates[j], name, newSpec))];
        }
        assert candidates[..|candidates|] == candidates;
        checked := checked + {name};
      }
    }
    assert typeNames[..|typeNames|] == typeNames;
  }
}
