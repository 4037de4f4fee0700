/** Profile inheritance: chains end, stay declared and have at most eight
    members. */
module Profiles {
  import opened Prelude
  import opened Ordering

  const MAX_DEPTH: nat := 8

  datatype Parent = NoParent | Inherits(name: string)

  /** A configuration's profiles, each with the profile it inherits from. */
  type Declared = map<string, Parent>

  datatype Problem =
    | Undeclared(profile: string, parent: string)
    | Cycle(profile: string, at: string)
    | TooDeep(profile: string)

  // ------------------------------------------------------------------
  // Chains
  // ------------------------------------------------------------------

  /** Declared profiles, each inheriting from the next, none repeated. */
  ghost predicate IsChain(ps: Declared, chain: seq<string>) {
    && chain != []
    && NoDup(chain)
    && (forall x :: x in chain ==> x in ps)
    && forall i :: 0 <= i < |chain| - 1 ==> ps[chain[i]] == Inherits(chain[i + 1])
  }

  ghost predicate Begins(chain: seq<string>, whole: seq<string>) {
    |chain| <= |whole| && whole[..|chain|] == chain
  }

  /** A chain of at most eight members that ends at a profile without parent. */
  ghost predicate Complete(ps: Declared, chain: seq<string>) {
    IsChain(ps, chain) && |chain| <= 8 && ps[Last(chain)] == NoParent
  }

  ghost predicate InheritsWell(ps: Declared, name: string) {
    exists chain :: Complete(ps, chain) && chain[0] == name
  }

  /** The chain runs back into itself. */
  ghost predicate Loops(ps: Declared, chain: seq<string>, at: string) {
    IsChain(ps, chain) && |chain| <= 8 && ps[Last(chain)] == Inherits(at) && at in chain
  }

  ghost predicate Overruns(ps: Declared, chain: seq<string>) {
    IsChain(ps, chain) && |chain| == 9
  }

  // ------------------------------------------------------------------
  // The check
  // ------------------------------------------------------------------

  lemma Extended(ps: Declared, chain: seq<string>, p: string)
    requires IsChain(ps, chain) && ps[Last(chain)] == Inherits(p) && p in ps && p !in chain
    ensures IsChain(ps, chain + [p])
  {
    var longer := chain + [p];
    forall i | 0 <= i < |longer| - 1 ensures ps[longer[i]] == Inherits(longer[i + 1]) {
      if i == |chain| - 1 {
        assert longer[i] == Last(chain);
      }
    }
  }

  /** What following parents from the end of a chain reports. */
  ghost function Follow(ps: Declared, chain: seq<string>): seq<Problem>
    requires IsChain(ps, chain) && |chain| <= MAX_DEPTH
    decreases MAX_DEPTH - |chain|
  {
    match ps[Last(chain)]
    case NoParent => []
    case Inherits(p) =>
      if p !in ps then []
      else if p in chain then [Cycle(chain[0], p)]
      else if |chain| == MAX_DEPTH then [TooDeep(chain[0])]
      else
        Extended(ps, chain, p);
        Follow(ps, chain + [p])
  }

  ghost function Own(ps: Declared, name: string): seq<Problem>
    requires name in ps
  {
    match ps[name]
    case NoParent => []
    case Inherits(p) => if p !in ps then [Undeclared(name, p)] else Follow(ps, [name])
  }

  ghost function Problems(ps: Declared, names: seq<string>): seq<Problem>
    requires forall x :: x in names ==> x in ps
  {
    if names == [] then []
    else Problems(ps, names[..|names| - 1]) + Own(ps, Last(names))
  }

  /** The walk over one profile's parents. */
  method CheckProfile(ps: Declared, name: string) returns (problems: seq<Problem>)
    requires name in ps
    ensures problems == Own(ps, name)
  {
    problems := [];
    if ps[name] == NoParent { return; }
    if ps[name].name !in ps {
      return [Undeclared(name, ps[name].name)];
    }
    var current, depth, visited := ps[name].name, 1, {name};
    ghost var chain := [name];
    while current in ps
      invariant IsChain(ps, chain) && depth == |chain| <= MAX_DEPTH && chain[0] == name
      invariant visited == set x | x in chain
      invariant ps[Last(chain)] == Inherits(current)
      invariant Own(ps, name) == Follow(ps, chain)
      decreases MAX_DEPTH - depth
    {
      if current in visited {
        return [Cycle(name, current)];
      }
      visited := visited + {current};
      depth := depth + 1;
      if depth > MAX_DEPTH {
        return [TooDeep(name)];
      }
      Extended(ps, chain, current);
      chain := chain + [current];
      if ps[current] == NoParent {
        return [];
      }
      current := ps[current].name;
    }
  }

  lemma {:induction false} ProblemsAreOwn(ps: Declared, names: seq<string>)
    requires forall x :: x in names ==> x in ps
    ensures forall d :: d in Problems(ps, names) <==> exists x :: x in names && d in Own(ps, x)
  {
    if names != [] {
      var rest := names[..|names| - 1];
      ProblemsAreOwn(ps, rest);
      assert names == rest + [Last(names)];
      assert forall x :: x in names <==> x in rest || x == Last(names);
    }
  }

  lemma NextInChain(ps: Declared, chain: seq<string>, whole: seq<string>)
    requires IsChain(ps, chain) && IsChain(ps, whole) && Begins(chain, whole) && |chain| < |whole|
    ensures var p := whole[|chain|];
      ps[Last(chain)] == Inherits(p) && p in ps && p !in chain && Begins(chain + [p], whole)
  {
    assert whole[|chain| - 1] == chain[|chain| - 1];
    forall i | 0 <= i < |chain| ensures chain[i] != whole[|chain|] {
      assert whole[i] == chain[i];
    }
    assert whole[..|chain| + 1] == chain + [whole[|chain|]];
  }

  lemma {:induction false} QuietChainEnds(ps: Declared, chain: seq<string>)
    requires IsChain(ps, chain) && |chain| <= MAX_DEPTH && Follow(ps, chain) == []
    requires forall x :: x in ps && ps[x].Inherits? ==> ps[x].name in ps
    ensures exists q :: Begins(chain, q) && Complete(ps, q)
    decreases MAX_DEPTH - |chain|
  {
    var parent := ps[Last(chain)];
    if parent.NoParent? {
      assert Begins(chain, chain) && Complete(ps, chain);
    } else {
      var longer := chain + [parent.name];
      Extended(ps, chain, parent.name);
      QuietChainEnds(ps, longer);
      var q :| Begins(longer, q) && Complete(ps, q);
      assert q[..|chain|] == longer[..|chain|] == chain;
    }
  }

  lemma {:induction false} CompleteChainIsQuiet(ps: Declared, chain: seq<string>, whole: seq<string>)
    requires IsChain(ps, chain) && Begins(chain, whole) && Complete(ps, whole)
    ensures Follow(ps, chain) == []
    decreases MAX_DEPTH - |chain|
  {
    if |chain| < |whole| {
      NextInChain(ps, chain, whole);
      Extended(ps, chain, whole[|chain|]);
      CompleteChainIsQuiet(ps, chain + [whole[|chain|]], whole);
    } else {
      assert whole == whole[..|chain|];
    }
  }

  /** All profiles are quiet iff each has a complete chain: a parent missing
      far up one profile's chain shows at the profile that names it. */
  lemma CheckIsExact(ps: Declared)
    ensures (forall name :: name in ps ==> Own(ps, name) == [])
       <==> (forall name :: name in ps ==> InheritsWell(ps, name))
  {
    forall name | name in ps && InheritsWell(ps, name) ensures Own(ps, name) == [] {
      var chain :| Complete(ps, chain) && chain[0] == name;
      assert IsChain(ps, [name]) && Begins([name], chain);
      CompleteChainIsQuiet(ps, [name], chain);
      if |chain| > 1 {
        NextInChain(ps, [name], chain);
      }
    }
    if forall name :: name in ps ==> Own(ps, name) == [] {
      assert forall x :: x in ps && ps[x].Inherits? ==> Own(ps, x) == [];
      forall name | name in ps ensures InheritsWell(ps, name) {
        assert IsChain(ps, [name]);
        assert Follow(ps, [name]) == [];
        QuietChainEnds(ps, [name]);
        var q :| Begins([name], q) && Complete(ps, q);
        assert q[0] == q[..1][0];
      }
    }
  }

  lemma QuietMeansWell(ps: Declared, names: seq<string>)
    requires forall x :: x in names <==> x in ps
    ensures Problems(ps, names) == [] <==> forall name :: name in ps ==> InheritsWell(ps, name)
  {
    ProblemsAreOwn(ps, names);
    CheckIsExact(ps);
    hide Problems, Own, InheritsWell;
    forall name | name in ps && Own(ps, name) != [] ensures Problems(ps, names) != [] {
      assert Own(ps, name)[0] in Problems(ps, names);
    }
    if Problems(ps, names) != [] {
      assert Problems(ps, names)[0] in Problems(ps, names);
    }
  }

  lemma NoProblems(ps: Declared, names: seq<string>)
    ensures Problems(ps, names[..0]) == []
  {
  }

  lemma OneMoreProfile(ps: Declared, names: seq<string>, i: nat)
    requires i < |names| && forall x :: x in names ==> x in ps
    ensures Problems(ps, names[..i + 1]) == Problems(ps, names[..i]) + Own(ps, names[i])
  {
    assert names[..i + 1][..i] == names[..i];
  }

  /** No problem is reported iff every profile inherits well. */
  method CheckProfiles(ps: Declared) returns (problems: seq<Problem>)
    ensures problems == Problems(ps, SortedNames(ps.Keys))
    ensures problems == [] <==> forall name :: name in ps ==> InheritsWell(ps, name)
  {
    hide Problems, Own, InheritsWell, SortedNames;
    var names := CollectNames(ps.Keys);
    SortedNamesMembers(ps.Keys);
    problems := [];
    NoProblems(ps, names);
    for i := 0 to |names|
      invariant problems == Problems(ps, names[..i])
    {
      var own := CheckProfile(ps, names[i]);
      OneMoreProfile(ps, names, i);
      problems := problems + own;
    }
    assert names[..|names|] == names;
    QuietMeansWell(ps, names);
  }

  // ------------------------------------------------------------------
  // What the reports mean
  // ------------------------------------------------------------------

  lemma {:induction false} FollowIsExact(ps: Declared, chain: seq<string>, d: Problem)
    requires IsChain(ps, chain) && |chain| <= MAX_DEPTH
    ensures d in Follow(ps, chain) <==>
      || (exists q :: Begins(chain, q) && Overruns(ps, q) && d == TooDeep(q[0]))
      || (exists q, at :: Begins(chain, q) && Loops(ps, q, at) && d == Cycle(q[0], at))
    decreases MAX_DEPTH - |chain|
  {
    forall q | IsChain(ps, q) && Begins(chain, q) && |chain| < |q|
      ensures var p := q[|chain|];
        ps[Last(chain)] == Inherits(p) && p in ps && p !in chain && Begins(chain + [p], q)
    {
      NextInChain(ps, chain, q);
    }
    forall q | Begins(chain, q) && |q| == |chain| ensures q == chain {
      assert q == q[..|chain|];
    }
    assert Begins(chain, chain);
    var parent := ps[Last(chain)];
    if parent.Inherits? && parent.name in ps && parent.name !in chain {
      var longer := chain + [parent.name];
      Extended(ps, chain, parent.name);
      assert forall q :: Begins(longer, q) ==> Begins(chain, q) by {
        forall q | Begins(longer, q) ensures Begins(chain, q) {
          assert q[..|chain|] == longer[..|chain|] == chain;
        }
      }
      if |chain| == MAX_DEPTH {
        assert Begins(chain, longer) && Overruns(ps, longer);
      } else {
        FollowIsExact(ps, longer, d);
      }
    } else if parent.Inherits? && parent.name in chain {
      assert Loops(ps, chain, parent.name);
    }
  }

  /** Each kind of report, told without the walk. */
  lemma ReportsAreExact(ps: Declared, name: string, d: Problem)
    requires name in ps
    ensures d in Own(ps, name) <==>
      match d
      case Undeclared(x, p) => x == name && ps[name] == Inherits(p) && p !in ps
      case Cycle(x, at) => x == name && exists q :: q != [] && q[0] == name && Loops(ps, q, at)
      case TooDeep(x) => x == name && exists q :: q != [] && q[0] == name && Overruns(ps, q)
  {
    assert forall q :: q != [] ==> (Begins([name], q) <==> q[0] == name);
    assert IsChain(ps, [name]);
    FollowIsExact(ps, [name], d);
    forall q | IsChain(ps, q) && |q| > 1 ensures ps[q[0]].Inherits? && ps[q[0]].name in ps {
      assert q[1] in q;
    }
  }
}
