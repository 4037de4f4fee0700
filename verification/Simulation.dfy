/** What a clean check means.  A simulation is a relation on type names that is
    closed under the local compatibility rules; the checker, which cuts at
    pairs in progress, is clean exactly when such a relation exists. */
module Simulation {
  import opened Ordering
  import opened Spec
  import opened CallAbi
  import Text

  /** Values of type t can flow into type u, given that every pair of
      user-defined types in r can. */
  ghost predicate TypeFlows(t: SpecType, u: SpecType, r: set<Pair>) {
    u.Val? ||
    match (t, u)
    case (Option(a), Option(b)) => TypeFlows(a, b, r)
    case (Vec(a), Vec(b)) => TypeFlows(a, b, r)
    case (Map(k, a), Map(l, b)) => TypeFlows(k, l, r) && TypeFlows(a, b, r)
    case (Tuple(ts), Tuple(us)) => |ts| == |us| && forall i :: 0 <= i < |ts| ==> TypeFlows(ts[i], us[i], r)
    case (Result(a, e), Result(b, f)) => TypeFlows(a, b, r) && TypeFlows(e, f, r)
    case (Udt(a), Udt(b)) => (a, b) in r
    case _ => t == u
  }

  ghost predicate AllFlow(ts: seq<SpecType>, us: seq<SpecType>, r: set<Pair>) {
    |ts| == |us| && forall i :: 0 <= i < |ts| ==> TypeFlows(ts[i], us[i], r)
  }

  ghost predicate FieldsFlow(a: map<Name, SpecType>, b: map<Name, SpecType>, r: set<Pair>) {
    a.Keys == b.Keys && forall n :: n in a ==> TypeFlows(a[n], b[n], r)
  }

  /** The consumer knows the case and gives it the same payload shape. */
  ghost predicate CaseFlows(c: UnionCase, accepted: map<Name, UnionCase>, r: set<Pair>) {
    && c.name in accepted
    && match (c, accepted[c.name])
       case (VoidCase(_, _), VoidCase(_, _)) => true
       case (TupleCase(_, _, ts), TupleCase(_, _, us)) => AllFlow(ts, us, r)
       case _ => false
  }

  /** The local rule for one pair of user-defined types. */
  ghost predicate PairFlows(fl: Flow, p: Pair, r: set<Pair>) {
    match SharedKind(fl, p)
    case StructKind =>
      FieldsFlow(FieldTypes(fl.producer.structs[p.0].fields), FieldTypes(fl.consumer.structs[p.1].fields), r)
    case EnumKind => Values(fl.producer.enums[p.0].cases) <= Values(fl.consumer.enums[p.1].cases)
    case UnionKind =>
      forall c :: c in fl.producer.unions[p.0].cases ==>
        CaseFlows(c, CasesByName(fl.consumer.unions[p.1].cases), r)
    case ErrorEnumKind => Values(fl.producer.errorEnums[p.0].cases) <= Values(fl.consumer.errorEnums[p.1].cases)
    case NoKind => false
  }

  /** Every pair in r obeys the local rule, relying on r and on `visiting`. */
  ghost predicate ClosedUpTo(fl: Flow, r: set<Pair>, visiting: set<Pair>) {
    forall p :: p in r ==> PairFlows(fl, p, r + visiting)
  }

  ghost predicate IsSimulation(fl: Flow, r: set<Pair>) {
    forall p :: p in r ==> PairFlows(fl, p, r)
  }

  /** There is a simulation under which t flows into u. */
  ghost predicate Compatible(fl: Flow, t: SpecType, u: SpecType) {
    exists r :: IsSimulation(fl, r) && TypeFlows(t, u, r)
  }

  /** The same while some pairs are in progress and so taken for granted. */
  ghost predicate CompatibleGiven(fl: Flow, t: SpecType, u: SpecType, visiting: set<Pair>) {
    exists r :: ClosedUpTo(fl, r, visiting) && TypeFlows(t, u, r + visiting)
  }

  // ------------------------------------------------------------------
  // Monotonicity
  // ------------------------------------------------------------------

  lemma {:induction false} TypeFlowsMono(t: SpecType, u: SpecType, r: set<Pair>, s: set<Pair>)
    requires TypeFlows(t, u, r) && r <= s
    ensures TypeFlows(t, u, s)
    decreases t
  {
    if !u.Val? {
      match (t, u)
      case (Option(a), Option(b)) => TypeFlowsMono(a, b, r, s);
      case (Vec(a), Vec(b)) => TypeFlowsMono(a, b, r, s);
      case (Map(k, a), Map(l, b)) => TypeFlowsMono(k, l, r, s); TypeFlowsMono(a, b, r, s);
      case (Result(a, e), Result(b, f)) => TypeFlowsMono(a, b, r, s); TypeFlowsMono(e, f, r, s);
      case (Tuple(ts), Tuple(us)) =>
        forall i | 0 <= i < |ts| ensures TypeFlows(ts[i], us[i], s) {
          TypeFlowsMono(ts[i], us[i], r, s);
        }
      case _ =>
    }
  }

  lemma AllFlowMono(ts: seq<SpecType>, us: seq<SpecType>, r: set<Pair>, s: set<Pair>)
    requires AllFlow(ts, us, r) && r <= s
    ensures AllFlow(ts, us, s)
  {
    forall i | 0 <= i < |ts| ensures TypeFlows(ts[i], us[i], s) {
      TypeFlowsMono(ts[i], us[i], r, s);
    }
  }

  lemma FieldsFlowMono(a: map<Name, SpecType>, b: map<Name, SpecType>, r: set<Pair>, s: set<Pair>)
    requires FieldsFlow(a, b, r) && r <= s
    ensures FieldsFlow(a, b, s)
  {
    forall n | n in a ensures TypeFlows(a[n], b[n], s) {
      TypeFlowsMono(a[n], b[n], r, s);
    }
  }

  lemma CaseFlowsMono(c: UnionCase, accepted: map<Name, UnionCase>, r: set<Pair>, s: set<Pair>)
    requires CaseFlows(c, accepted, r) && r <= s
    ensures CaseFlows(c, accepted, s)
  {
    if c.TupleCase? {
      AllFlowMono(c.types, accepted[c.name].types, r, s);
    }
  }

  lemma PairFlowsMono(fl: Flow, p: Pair, r: set<Pair>, s: set<Pair>)
    requires PairFlows(fl, p, r) && r <= s
    ensures PairFlows(fl, p, s)
  {
    match SharedKind(fl, p)
    case StructKind =>
      FieldsFlowMono(FieldTypes(fl.producer.structs[p.0].fields), FieldTypes(fl.consumer.structs[p.1].fields), r, s);
    case UnionKind =>
      var accepted := CasesByName(fl.consumer.unions[p.1].cases);
      forall c | c in fl.producer.unions[p.0].cases ensures CaseFlows(c, accepted, s) {
        CaseFlowsMono(c, accepted, r, s);
      }
    case _ =>
  }

  // ------------------------------------------------------------------
  // A simulation keeps the checker clean
  // ------------------------------------------------------------------

  lemma NoMissingValues(a: Enum, b: Enum)
    ensures |MissingValues(a, b)| == 0 <==> Values(a.cases) <= Values(b.cases)
  {
    var missing := Values(a.cases) - Values(b.cases);
    assert |MissingValues(a, b)| == |missing|;
    if missing == {} {
      forall v | v in Values(a.cases) ensures v in Values(b.cases) {
        assert v !in missing;
      }
    } else {
      var v :| v in missing;
      assert v in Values(a.cases) && v !in Values(b.cases);
    }
  }

  /** A pair that a witness holds can be put in progress. */
  lemma EnterPair(fl: Flow, r: set<Pair>, p: Pair, visiting: set<Pair>)
    requires ClosedUpTo(fl, r, visiting) && p in r
    ensures ClosedUpTo(fl, r, visiting + {p}) && PairFlows(fl, p, r + (visiting + {p}))
  {
    assert r + (visiting + {p}) == r + visiting;
  }

  lemma {:induction false} EachIsClean(fl: Flow, ts: seq<SpecType>, us: seq<SpecType>, path: string, n: nat, visiting: set<Pair>, r: set<Pair>)
    requires ClosedUpTo(fl, r, visiting) && AllFlow(ts, us, r + visiting) && n <= |ts|
    ensures EachBreaks(fl, ts, us, path, n, visiting) == []
    decreases |DeclaredPairs(fl) - visiting|, 1, ts, n
  {
    if n > 0 {
      EachIsClean(fl, ts, us, path, n - 1, visiting, r);
      SimulationIsClean(fl, ts[n - 1], us[n - 1], path + "[" + Text.Decimal(n - 1) + "]", visiting, r);
    }
  }

  lemma {:induction false} CasesAreClean(fl: Flow, cases: seq<UnionCase>, accepted: map<Name, UnionCase>, path: string, n: nat, visiting: set<Pair>, r: set<Pair>)
    requires ClosedUpTo(fl, r, visiting) && n <= |cases|
    requires forall c :: c in cases ==> CaseFlows(c, accepted, r + visiting)
    ensures CaseBreaks(fl, cases, accepted, path, n, visiting) == []
    decreases |DeclaredPairs(fl) - visiting|, 2, n
  {
    if n > 0 {
      CasesAreClean(fl, cases, accepted, path, n - 1, visiting, r);
      var c := cases[n - 1];
      assert c in cases;
      if c.TupleCase? {
        EachIsClean(fl, c.types, accepted[c.name].types, path + ".case." + c.name, |c.types|, visiting, r);
      }
    }
  }

  lemma {:induction false} PairIsClean(fl: Flow, p: Pair, path: string, visiting: set<Pair>, r: set<Pair>)
    requires ClosedUpTo(fl, r, visiting) && PairFlows(fl, p, r + visiting)
    ensures PairBreaks(fl, p, path, visiting) == []
    decreases |DeclaredPairs(fl) - visiting|, 4
  {
    match SharedKind(fl, p)
    case StructKind =>
      var a, b := FieldTypes(fl.producer.structs[p.0].fields), FieldTypes(fl.consumer.structs[p.1].fields);
      FieldsAreClean(fl, a, b, SortedNames(a.Keys), path, |a.Keys|, visiting, r);
    case EnumKind => NoMissingValues(fl.producer.enums[p.0], fl.consumer.enums[p.1]);
    case UnionKind =>
      var cases := fl.producer.unions[p.0].cases;
      CasesAreClean(fl, cases, CasesByName(fl.consumer.unions[p.1].cases), path, |cases|, visiting, r);
    case ErrorEnumKind => NoMissingValues(fl.producer.errorEnums[p.0], fl.consumer.errorEnums[p.1]);
  }

  lemma {:induction false} SimulationIsClean(fl: Flow, t: SpecType, u: SpecType, path: string, visiting: set<Pair>, r: set<Pair>)
    requires ClosedUpTo(fl, r, visiting) && TypeFlows(t, u, r + visiting)
    ensures TypeBreaks(fl, t, u, path, visiting) == []
    decreases |DeclaredPairs(fl) - visiting|, 1, t, 0
  {
    if !u.Val? {
      match (t, u)
      case (Option(a), Option(b)) => SimulationIsClean(fl, a, b, path + ".some", visiting, r);
      case (Vec(a), Vec(b)) => SimulationIsClean(fl, a, b, path + "[*]", visiting, r);
      case (Map(k, a), Map(l, b)) =>
        SimulationIsClean(fl, k, l, path + ".key", visiting, r);
        SimulationIsClean(fl, a, b, path + ".value", visiting, r);
      case (Result(a, e), Result(b, f)) =>
        SimulationIsClean(fl, a, b, path + ".ok", visiting, r);
        SimulationIsClean(fl, e, f, path + ".err", visiting, r);
      case (Tuple(ts), Tuple(us)) => EachIsClean(fl, ts, us, path, |ts|, visiting, r);
      case (Udt(a), Udt(b)) =>
        if (a, b) !in visiting {
          UnusedShrinks(fl, visiting, (a, b));
          EnterPair(fl, r, (a, b), visiting);
          PairIsClean(fl, (a, b), path, visiting + {(a, b)}, r);
        }
      case _ =>
    }
  }

  lemma {:induction false} FieldsAreClean(fl: Flow, a: map<Name, SpecType>, b: map<Name, SpecType>, names: seq<Name>, path: string, n: nat, visiting: set<Pair>, r: set<Pair>)
    requires ClosedUpTo(fl, r, visiting) && FieldsFlow(a, b, r + visiting)
    requires n <= |names| && forall x :: x in names ==> x in a
    ensures FieldBreaks(fl, a, b, names, path, n, visiting) == []
    decreases |DeclaredPairs(fl) - visiting|, 2, n
  {
    if n > 0 {
      FieldsAreClean(fl, a, b, names, path, n - 1, visiting, r);
      assert names[n - 1] in names;
      SimulationIsClean(fl, a[names[n - 1]], b[names[n - 1]], path + "." + names[n - 1], visiting, r);
    }
  }

  // ------------------------------------------------------------------
  // A clean check yields a simulation
  // ------------------------------------------------------------------

  /** Two partial witnesses can be put together. */
  lemma JoinClosed(fl: Flow, r: set<Pair>, s: set<Pair>, visiting: set<Pair>)
    requires ClosedUpTo(fl, r, visiting) && ClosedUpTo(fl, s, visiting)
    ensures ClosedUpTo(fl, r + s, visiting)
  {
    forall p | p in r + s ensures PairFlows(fl, p, r + s + visiting) {
      PairFlowsMono(fl, p, (if p in r then r else s) + visiting, r + s + visiting);
    }
  }

  /** Maps and results: one witness serves both parts. */
  lemma BothFlow(fl: Flow, t: SpecType, u: SpecType, r: set<Pair>, t': SpecType, u': SpecType, s: set<Pair>, visiting: set<Pair>)
    returns (j: set<Pair>)
    requires ClosedUpTo(fl, r, visiting) && TypeFlows(t, u, r + visiting)
    requires ClosedUpTo(fl, s, visiting) && TypeFlows(t', u', s + visiting)
    ensures ClosedUpTo(fl, j, visiting)
    ensures TypeFlows(t, u, j + visiting) && TypeFlows(t', u', j + visiting)
  {
    j := r + s;
    JoinClosed(fl, r, s, visiting);
    TypeFlowsMono(t, u, r + visiting, j + visiting);
    TypeFlowsMono(t', u', s + visiting, j + visiting);
  }

  lemma JoinFlows(ts: seq<SpecType>, us: seq<SpecType>, n: nat, r0: set<Pair>, r1: set<Pair>, r: set<Pair>)
    requires 0 < n <= |ts| == |us| && r0 <= r && r1 <= r
    requires AllFlow(ts[..n - 1], us[..n - 1], r0) && TypeFlows(ts[n - 1], us[n - 1], r1)
    ensures AllFlow(ts[..n], us[..n], r)
  {
    AllFlowMono(ts[..n - 1], us[..n - 1], r0, r);
    TypeFlowsMono(ts[n - 1], us[n - 1], r1, r);
    assert ts[..n] == ts[..n - 1] + [ts[n - 1]] && us[..n] == us[..n - 1] + [us[n - 1]];
  }

  lemma ClosePair(fl: Flow, body: set<Pair>, p: Pair, visiting: set<Pair>)
    requires ClosedUpTo(fl, body, visiting + {p}) && PairFlows(fl, p, body + (visiting + {p}))
    ensures ClosedUpTo(fl, body + {p}, visiting)
  {
    assert body + (visiting + {p}) == (body + {p}) + visiting;
  }

  lemma FieldsByName(a: map<Name, SpecType>, b: map<Name, SpecType>, names: seq<Name>, r: set<Pair>)
    requires a.Keys == b.Keys && forall x :: x in names <==> x in a.Keys
    requires forall i :: 0 <= i < |names| ==> TypeFlows(a[names[i]], b[names[i]], r)
    ensures FieldsFlow(a, b, r)
  {
    forall n | n in a ensures TypeFlows(a[n], b[n], r) {
      assert n in names;
    }
  }

  lemma {:induction false} CleanEach(fl: Flow, ts: seq<SpecType>, us: seq<SpecType>, path: string, n: nat, visiting: set<Pair>)
    returns (r: set<Pair>)
    requires n <= |ts| == |us| && EachBreaks(fl, ts, us, path, n, visiting) == []
    ensures ClosedUpTo(fl, r, visiting) && AllFlow(ts[..n], us[..n], r + visiting)
    decreases |DeclaredPairs(fl) - visiting|, 1, ts, n
  {
    r := {};
    if n > 0 {
      var r0 := CleanEach(fl, ts, us, path, n - 1, visiting);
      var r1 := CleanIsSimulated(fl, ts[n - 1], us[n - 1], path + "[" + Text.Decimal(n - 1) + "]", visiting);
      r := r0 + r1;
      JoinClosed(fl, r0, r1, visiting);
      JoinFlows(ts, us, n, r0 + visiting, r1 + visiting, r + visiting);
    }
  }

  lemma {:induction false} CleanCase(fl: Flow, c: UnionCase, accepted: map<Name, UnionCase>, path: string, visiting: set<Pair>)
    returns (r: set<Pair>)
    requires OneCaseBreaks(fl, c, accepted, path, visiting) == []
    ensures ClosedUpTo(fl, r, visiting) && CaseFlows(c, accepted, r + visiting)
    decreases |DeclaredPairs(fl) - visiting|, 2, 0
  {
    r := {};
    if c.TupleCase? {
      var us := accepted[c.name].types;
      r := CleanEach(fl, c.types, us, path + ".case." + c.name, |c.types|, visiting);
      assert c.types[..|c.types|] == c.types && us[..|us|] == us;
    }
  }

  lemma {:induction false} CleanCases(fl: Flow, cases: seq<UnionCase>, accepted: map<Name, UnionCase>, path: string, n: nat, visiting: set<Pair>)
    returns (r: set<Pair>)
    requires n <= |cases| && CaseBreaks(fl, cases, accepted, path, n, visiting) == []
    ensures ClosedUpTo(fl, r, visiting)
    ensures forall i :: 0 <= i < n ==> CaseFlows(cases[i], accepted, r + visiting)
    decreases |DeclaredPairs(fl) - visiting|, 2, n
  {
    r := {};
    if n > 0 {
      var r0 := CleanCases(fl, cases, accepted, path, n - 1, visiting);
      var r1 := CleanCase(fl, cases[n - 1], accepted, path, visiting);
      r := r0 + r1;
      JoinClosed(fl, r0, r1, visiting);
      forall i | 0 <= i < n ensures CaseFlows(cases[i], accepted, r + visiting) {
        CaseFlowsMono(cases[i], accepted, (if i < n - 1 then r0 else r1) + visiting, r + visiting);
      }
    }
  }

  lemma {:induction false} CleanBody(fl: Flow, p: Pair, path: string, visiting: set<Pair>)
    returns (r: set<Pair>)
    requires PairBreaks(fl, p, path, visiting) == []
    ensures ClosedUpTo(fl, r, visiting) && PairFlows(fl, p, r + visiting)
    decreases |DeclaredPairs(fl) - visiting|, 4
  {
    r := {};
    match SharedKind(fl, p)
    case StructKind =>
      var a, b := FieldTypes(fl.producer.structs[p.0].fields), FieldTypes(fl.consumer.structs[p.1].fields);
      var names := SortedNames(a.Keys);
      r := CleanFields(fl, a, b, names, path, |a.Keys|, visiting);
      FieldsByName(a, b, names, r + visiting);
    case EnumKind => NoMissingValues(fl.producer.enums[p.0], fl.consumer.enums[p.1]);
    case UnionKind =>
      var cases := fl.producer.unions[p.0].cases;
      r := CleanCases(fl, cases, CasesByName(fl.consumer.unions[p.1].cases), path, |cases|, visiting);
    case ErrorEnumKind => NoMissingValues(fl.producer.errorEnums[p.0], fl.consumer.errorEnums[p.1]);
    case NoKind =>
  }

  /** A clean body justifies the pair, and the pair justifies the body. */
  lemma {:induction false} CleanPair(fl: Flow, p: Pair, path: string, visiting: set<Pair>)
    returns (r: set<Pair>)
    requires p !in visiting && PairBreaks(fl, p, path, visiting + {p}) == []
    ensures ClosedUpTo(fl, r, visiting) && p in r
    decreases |DeclaredPairs(fl) - (visiting + {p})|, 5
  {
    var body := CleanBody(fl, p, path, visiting + {p});
    r := body + {p};
    assert body + (visiting + {p}) == r + visiting;
    ClosePair(fl, body, p, visiting);
  }

  lemma {:induction false} CleanIsSimulated(fl: Flow, t: SpecType, u: SpecType, path: string, visiting: set<Pair>)
    returns (r: set<Pair>)
    requires TypeBreaks(fl, t, u, path, visiting) == []
    ensures ClosedUpTo(fl, r, visiting) && TypeFlows(t, u, r + visiting)
    decreases |DeclaredPairs(fl) - visiting|, 1, t, 0
  {
    r := {};
    if u.Val? {
    } else if t.Option? && u.Option? {
      r := CleanIsSimulated(fl, t.inner, u.inner, path + ".some", visiting);
    } else if t.Vec? && u.Vec? {
      r := CleanIsSimulated(fl, t.elem, u.elem, path + "[*]", visiting);
    } else if t.Map? && u.Map? {
      var rk := CleanIsSimulated(fl, t.key, u.key, path + ".key", visiting);
      var rv := CleanIsSimulated(fl, t.value, u.value, path + ".value", visiting);
      r := BothFlow(fl, t.key, u.key, rk, t.value, u.value, rv, visiting);
    } else if t.Result? && u.Result? {
      var ro := CleanIsSimulated(fl, t.ok, u.ok, path + ".ok", visiting);
      var re := CleanIsSimulated(fl, t.err, u.err, path + ".err", visiting);
      r := BothFlow(fl, t.ok, u.ok, ro, t.err, u.err, re, visiting);
    } else if t.Tuple? && u.Tuple? {
      r := CleanEach(fl, t.elems, u.elems, path, |t.elems|, visiting);
      assert t.elems[..|t.elems|] == t.elems && u.elems[..|u.elems|] == u.elems;
    } else if t.Udt? && u.Udt? && (t.name, u.name) !in visiting {
      UnusedShrinks(fl, visiting, (t.name, u.name));
      r := CleanPair(fl, (t.name, u.name), path, visiting);
    }
  }

  lemma {:induction false} CleanFields(fl: Flow, a: map<Name, SpecType>, b: map<Name, SpecType>, names: seq<Name>, path: string, n: nat, visiting: set<Pair>)
    returns (r: set<Pair>)
    requires n <= |names| && forall x :: x in names ==> x in a && x in b
    requires FieldBreaks(fl, a, b, names, path, n, visiting) == []
    ensures ClosedUpTo(fl, r, visiting)
    ensures forall i :: 0 <= i < n ==> TypeFlows(a[names[i]], b[names[i]], r + visiting)
    decreases |DeclaredPairs(fl) - visiting|, 2, n
  {
    r := {};
    if n > 0 {
      var r0 := CleanFields(fl, a, b, names, path, n - 1, visiting);
      var r1 := CleanIsSimulated(fl, a[names[n - 1]], b[names[n - 1]], path + "." + names[n - 1], visiting);
      r := r0 + r1;
      JoinClosed(fl, r0, r1, visiting);
      forall i | 0 <= i < n ensures TypeFlows(a[names[i]], b[names[i]], r + visiting) {
        TypeFlowsMono(a[names[i]], b[names[i]], (if i < n - 1 then r0 else r1) + visiting, r + visiting);
      }
    }
  }

  /** With pairs in progress, a check is clean exactly when its types are
      compatible given those pairs. */
  lemma CutIsExact(fl: Flow, t: SpecType, u: SpecType, path: string, visiting: set<Pair>)
    ensures TypeBreaks(fl, t, u, path, visiting) == [] <==> CompatibleGiven(fl, t, u, visiting)
  {
    hide TypeBreaks, ClosedUpTo, TypeFlows;
    if TypeBreaks(fl, t, u, path, visiting) == [] {
      var r := CleanIsSimulated(fl, t, u, path, visiting);
    }
    if r :| ClosedUpTo(fl, r, visiting) && TypeFlows(t, u, r + visiting) {
      SimulationIsClean(fl, t, u, path, visiting, r);
    }
  }

  lemma GivenNothing(fl: Flow, t: SpecType, u: SpecType)
    ensures CompatibleGiven(fl, t, u, {}) <==> Compatible(fl, t, u)
  {
    forall r: set<Pair> ensures r + {} == r && (ClosedUpTo(fl, r, {}) <==> IsSimulation(fl, r)) {
      assert r + {} == r;
    }
    hide ClosedUpTo, IsSimulation, TypeFlows;
  }

  /** Cutting at pairs in progress neither loses nor invents incompatibilities:
      the check is clean exactly when some simulation relates the two types. */
  lemma CycleCutIsExact(fl: Flow, t: SpecType, u: SpecType, path: string)
    ensures TypeBreaks(fl, t, u, path, {}) == [] <==> Compatible(fl, t, u)
  {
    CutIsExact(fl, t, u, path, {});
    GivenNothing(fl, t, u);
  }
}
