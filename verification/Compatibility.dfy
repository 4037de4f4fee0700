/** Laws of the directional verdict: what it says function by function, that it
    composes over two upgrades, and when a contract is compatible with itself. */
module Compatibility {
  import opened Spec
  import opened CallAbi
  import opened Directions
  import opened Simulation
  import Text

  // ------------------------------------------------------------------
  // The verdict, function by function
  // ------------------------------------------------------------------

  ghost predicate AllCompatible(fl: Flow, ts: seq<SpecType>, us: seq<SpecType>) {
    |ts| == |us| && forall i :: 0 <= i < |ts| ==> Compatible(fl, ts[i], us[i])
  }

  /** Arguments flow from the client to the contract, results flow back. */
  ghost predicate FunctionCompatible(client: ContractSpec, contract: ContractSpec, n: Name)
    requires n in client.functions
  {
    && n in contract.functions
    && AllCompatible(Flow(client, contract, n), FieldTypeList(client.functions[n].inputs), FieldTypeList(contract.functions[n].inputs))
    && AllCompatible(Flow(contract, client, n), contract.functions[n].outputs, client.functions[n].outputs)
  }

  lemma {:induction false} EachIsExact(fl: Flow, ts: seq<SpecType>, us: seq<SpecType>, path: string, n: nat)
    requires n <= |ts| == |us|
    ensures EachBreaks(fl, ts, us, path, n, {}) == [] <==> forall i :: 0 <= i < n ==> Compatible(fl, ts[i], us[i])
  {
    hide Compatible, TypeBreaks;
    if n > 0 {
      EachIsExact(fl, ts, us, path, n - 1);
      CycleCutIsExact(fl, ts[n - 1], us[n - 1], path + "[" + Text.Decimal(n - 1) + "]");
    }
  }

  lemma FunctionIsExact(client: ContractSpec, contract: ContractSpec, n: Name)
    requires n in client.functions
    ensures FunctionBreaks(client, contract, n) == [] <==> FunctionCompatible(client, contract, n)
  {
    if n in contract.functions {
      var f, g := client.functions[n], contract.functions[n];
      if |f.inputs| == |g.inputs| {
        EachIsExact(Flow(client, contract, n), FieldTypeList(f.inputs), FieldTypeList(g.inputs), "function." + n + ".argument", |f.inputs|);
      }
      if |f.outputs| == |g.outputs| {
        EachIsExact(Flow(contract, client, n), g.outputs, f.outputs, "function." + n + ".return", |f.outputs|);
      }
    }
  }

  /** A direction is clean exactly when every function the client knows is
      exported with the same arity, every argument type of the client simulates
      into the contract's, and every result type of the contract back. */
  lemma VerdictIsExact(client: ContractSpec, contract: ContractSpec)
    ensures CleanDirection(client, contract)
       <==> forall n :: n in client.functions ==> FunctionCompatible(client, contract, n)
  {
    forall n | n in client.functions
      ensures FunctionBreaks(client, contract, n) == [] <==> FunctionCompatible(client, contract, n)
    {
      FunctionIsExact(client, contract, n);
    }
  }

  // ------------------------------------------------------------------
  // Composition
  // ------------------------------------------------------------------

  ghost function Compose(r: set<Pair>, s: set<Pair>): set<Pair> {
    set p: Pair, q: Pair | p in r && q in s && p.1 == q.0 :: (p.0, q.1)
  }

  lemma {:induction false} TypesCompose(t: SpecType, u: SpecType, w: SpecType, r: set<Pair>, s: set<Pair>)
    requires TypeFlows(t, u, r) && TypeFlows(u, w, s)
    ensures TypeFlows(t, w, Compose(r, s))
    decreases t
  {
    if !w.Val? {
      match t
      case Option(a) => TypesCompose(a, u.inner, w.inner, r, s);
      case Vec(a) => TypesCompose(a, u.elem, w.elem, r, s);
      case Map(k, a) => TypesCompose(k, u.key, w.key, r, s); TypesCompose(a, u.value, w.value, r, s);
      case Result(a, e) => TypesCompose(a, u.ok, w.ok, r, s); TypesCompose(e, u.err, w.err, r, s);
      case Tuple(ts) =>
        forall i | 0 <= i < |ts| ensures TypeFlows(ts[i], w.elems[i], Compose(r, s)) {
          TypesCompose(ts[i], u.elems[i], w.elems[i], r, s);
        }
      case Udt(a) => assert ((a, u.name)).1 == ((u.name, w.name)).0;
      case _ =>
    }
  }

  lemma CasesCompose(c: UnionCase, mid: map<Name, UnionCase>, last: map<Name, UnionCase>, r: set<Pair>, s: set<Pair>)
    requires CaseFlows(c, mid, r) && mid[c.name].name == c.name && CaseFlows(mid[c.name], last, s)
    ensures CaseFlows(c, last, Compose(r, s))
  {
    if c.TupleCase? {
      var us, ws := mid[c.name].types, last[c.name].types;
      forall i | 0 <= i < |c.types| ensures TypeFlows(c.types[i], ws[i], Compose(r, s)) {
        TypesCompose(c.types[i], us[i], ws[i], r, s);
      }
    }
  }

  lemma {:induction false} CasesByNameMember(cases: seq<UnionCase>, n: Name)
    ensures n in CasesByName(cases) <==> exists c :: c in cases && c.name == n
    ensures n in CasesByName(cases) ==> CasesByName(cases)[n] in cases && CasesByName(cases)[n].name == n
  {
    if cases != [] {
      var last := cases[|cases| - 1];
      CasesByNameMember(cases[..|cases| - 1], n);
      assert cases == cases[..|cases| - 1] + [last];
      assert forall c :: c in cases <==> c in cases[..|cases| - 1] || c == last;
    }
  }

  lemma FieldsCompose(a: map<Name, SpecType>, b: map<Name, SpecType>, c: map<Name, SpecType>, r: set<Pair>, s: set<Pair>)
    requires FieldsFlow(a, b, r) && FieldsFlow(b, c, s)
    ensures FieldsFlow(a, c, Compose(r, s))
  {
    forall n | n in a ensures TypeFlows(a[n], c[n], Compose(r, s)) {
      TypesCompose(a[n], b[n], c[n], r, s);
    }
  }

  lemma PairsCompose(fl: Flow, gl: Flow, a: Name, b: Name, c: Name, r: set<Pair>, s: set<Pair>)
    requires fl.consumer == gl.producer && OneKindPerName(fl.consumer)
    requires OneKindPerName(fl.producer) || OneKindPerName(gl.consumer)
    requires PairFlows(fl, (a, b), r) && PairFlows(gl, (b, c), s)
    ensures PairFlows(Flow(fl.producer, gl.consumer, fl.fn), (a, c), Compose(r, s))
  {
    var hl := Flow(fl.producer, gl.consumer, fl.fn);
    assert SharedKind(fl, (a, b)) == SharedKind(gl, (b, c)) == SharedKind(hl, (a, c));
    match SharedKind(hl, (a, c))
    case StructKind =>
      FieldsCompose(FieldTypes(fl.producer.structs[a].fields), FieldTypes(fl.consumer.structs[b].fields),
                    FieldTypes(gl.consumer.structs[c].fields), r, s);
    case UnionKind =>
      var mid, last := CasesByName(fl.consumer.unions[b].cases), CasesByName(gl.consumer.unions[c].cases);
      forall x | x in fl.producer.unions[a].cases ensures CaseFlows(x, last, Compose(r, s)) {
        CasesByNameMember(fl.consumer.unions[b].cases, x.name);
        CasesCompose(x, mid, last, r, s);
      }
    case _ =>
  }

  lemma CompatibleComposes(fl: Flow, gl: Flow, t: SpecType, u: SpecType, w: SpecType)
    requires fl.consumer == gl.producer && OneKindPerName(fl.consumer)
    requires OneKindPerName(fl.producer) || OneKindPerName(gl.consumer)
    requires Compatible(fl, t, u) && Compatible(gl, u, w)
    ensures Compatible(Flow(fl.producer, gl.consumer, fl.fn), t, w)
  {
    var hl := Flow(fl.producer, gl.consumer, fl.fn);
    var r :| IsSimulation(fl, r) && TypeFlows(t, u, r);
    var s :| IsSimulation(gl, s) && TypeFlows(u, w, s);
    forall p | p in Compose(r, s) ensures PairFlows(hl, p, Compose(r, s)) {
      var x: Pair, y: Pair :| x in r && y in s && x.1 == y.0 && p == (x.0, y.1);
      PairsCompose(fl, gl, x.0, x.1, y.1, r, s);
    }
    TypesCompose(t, u, w, r, s);
  }

  lemma AllCompose(fl: Flow, gl: Flow, ts: seq<SpecType>, us: seq<SpecType>, ws: seq<SpecType>)
    requires fl.consumer == gl.producer && OneKindPerName(fl.consumer)
    requires OneKindPerName(fl.producer) || OneKindPerName(gl.consumer)
    requires AllCompatible(fl, ts, us) && AllCompatible(gl, us, ws)
    ensures AllCompatible(Flow(fl.producer, gl.consumer, fl.fn), ts, ws)
  {
    forall i | 0 <= i < |ts| ensures Compatible(Flow(fl.producer, gl.consumer, fl.fn), ts[i], ws[i]) {
      CompatibleComposes(fl, gl, ts[i], us[i], ws[i]);
    }
  }

  /** If clients of a can call b and clients of b can call c, then clients of a
      can call c: arguments compose forwards, results backwards. */
  lemma DirectionsCompose(a: ContractSpec, b: ContractSpec, c: ContractSpec)
    requires CleanDirection(a, b) && CleanDirection(b, c)
    requires OneKindPerName(b) && (OneKindPerName(a) || OneKindPerName(c))
    ensures CleanDirection(a, c)
  {
    VerdictIsExact(a, b);
    VerdictIsExact(b, c);
    forall n | n in a.functions ensures FunctionCompatible(a, c, n) {
      var f, g, h := a.functions[n], b.functions[n], c.functions[n];
      AllCompose(Flow(a, b, n), Flow(b, c, n), FieldTypeList(f.inputs), FieldTypeList(g.inputs), FieldTypeList(h.inputs));
      AllCompose(Flow(c, b, n), Flow(b, a, n), h.outputs, g.outputs, f.outputs);
    }
    VerdictIsExact(a, c);
  }

  /** Composition needs names with one kind: here the first step compares S as
      an enum, the second as a struct, and the two ends share no kind. */
  lemma MixedKindsDoNotCompose()
    ensures
      var a := EmptySpec().(enums := map["S" := Enum("", "", [])]);
      var c := EmptySpec().(structs := map["S" := Struct("", "", [])]);
      var b := EmptySpec().(enums := a.enums, structs := c.structs);
      && OneKindPerName(a) && OneKindPerName(c) && !OneKindPerName(b)
      && Compatible(Flow(a, b, "f"), Udt("S"), Udt("S")) && Compatible(Flow(b, c, "f"), Udt("S"), Udt("S"))
      && !Compatible(Flow(a, c, "f"), Udt("S"), Udt("S"))
  {
    var a := EmptySpec().(enums := map["S" := Enum("", "", [])]);
    var c := EmptySpec().(structs := map["S" := Struct("", "", [])]);
    var b := EmptySpec().(enums := a.enums, structs := c.structs);
    var r := {("S", "S")};
    assert "S" in b.structs.Keys * b.enums.Keys;
    assert PairFlows(Flow(a, b, "f"), ("S", "S"), r) && IsSimulation(Flow(a, b, "f"), r);
    assert PairFlows(Flow(b, c, "f"), ("S", "S"), r) && IsSimulation(Flow(b, c, "f"), r);
    assert forall x: set<Pair> :: !PairFlows(Flow(a, c, "f"), ("S", "S"), x);
  }

  // ------------------------------------------------------------------
  // Reflexivity
  // ------------------------------------------------------------------

  /** The user-defined types a type mentions. */
  ghost function Mentions(t: SpecType): set<Name> {
    match t
    case Option(a) => Mentions(a)
    case Vec(a) => Mentions(a)
    case Map(k, a) => Mentions(k) + Mentions(a)
    case Result(a, e) => Mentions(a) + Mentions(e)
    case Tuple(ts) => set i, n | 0 <= i < |ts| && n in Mentions(ts[i]) :: n
    case Udt(n) => {n}
    case _ => {}
  }

  ghost predicate AllMentions(ts: seq<SpecType>, d: set<Name>) {
    forall i :: 0 <= i < |ts| ==> Mentions(ts[i]) <= d
  }

  /** What a declaration mentions stays within d. */
  ghost predicate MembersWithin(spec: ContractSpec, n: Name, d: set<Name>) {
    if n in spec.structs then
      var fields := FieldTypes(spec.structs[n].fields);
      forall x :: x in fields ==> Mentions(fields[x]) <= d
    else if n in spec.enums then true
    else if n in spec.unions then
      forall c :: c in spec.unions[n].cases && c.TupleCase? ==> AllMentions(c.types, d)
    else n in spec.errorEnums
  }

  /** d holds every type the functions lead to, and all of d is declared. */
  ghost predicate DeclaresAll(spec: ContractSpec, d: set<Name>) {
    && (forall n :: n in d ==> MembersWithin(spec, n, d))
    && forall f :: f in spec.functions ==>
         && AllMentions(FieldTypeList(spec.functions[f].inputs), d)
         && AllMentions(spec.functions[f].outputs, d)
  }

  ghost function Diagonal(d: set<Name>): set<Pair> {
    set n | n in d :: (n, n)
  }

  ghost function OnDiagonal(r: set<Pair>): set<Name> {
    set p: Pair | p in r && p.0 == p.1 :: p.0
  }

  /** A type flows into itself exactly when the relation holds its mentions. */
  lemma {:induction false} SelfFlow(t: SpecType, r: set<Pair>)
    ensures TypeFlows(t, t, r) <==> forall n :: n in Mentions(t) ==> (n, n) in r
    decreases t
  {
    match t
    case Option(a) => SelfFlow(a, r);
    case Vec(a) => SelfFlow(a, r);
    case Map(k, a) => SelfFlow(k, r); SelfFlow(a, r);
    case Result(a, e) => SelfFlow(a, r); SelfFlow(e, r);
    case Tuple(ts) =>
      forall i | 0 <= i < |ts|
        ensures TypeFlows(ts[i], ts[i], r) <==> forall n :: n in Mentions(ts[i]) ==> (n, n) in r
        ensures Mentions(ts[i]) <= Mentions(t)
      {
        SelfFlow(ts[i], r);
      }
    case _ =>
  }

  lemma SelfFlowWithin(t: SpecType, d: set<Name>)
    ensures TypeFlows(t, t, Diagonal(d)) <==> Mentions(t) <= d
  {
    SelfFlow(t, Diagonal(d));
  }

  lemma {:induction false} DistinctCasesByName(u: Union)
    requires DistinctCases(u)
    ensures forall c :: c in u.cases ==> c.name in CasesByName(u.cases) && CasesByName(u.cases)[c.name] == c
  {
    forall c | c in u.cases
      ensures c.name in CasesByName(u.cases) && CasesByName(u.cases)[c.name] == c
    {
      CasesByNameMember(u.cases, c.name);
    }
  }

  lemma SelfAll(ts: seq<SpecType>, d: set<Name>)
    ensures AllFlow(ts, ts, Diagonal(d)) <==> AllMentions(ts, d)
  {
    forall i | 0 <= i < |ts|
      ensures TypeFlows(ts[i], ts[i], Diagonal(d)) <==> Mentions(ts[i]) <= d
    {
      SelfFlowWithin(ts[i], d);
    }
  }

  lemma SelfPair(spec: ContractSpec, fn: Name, n: Name, d: set<Name>)
    requires n in spec.unions ==> DistinctCases(spec.unions[n])
    ensures PairFlows(Flow(spec, spec, fn), (n, n), Diagonal(d)) <==> MembersWithin(spec, n, d)
  {
    if n in spec.structs {
      var fields := FieldTypes(spec.structs[n].fields);
      forall x | x in fields
        ensures TypeFlows(fields[x], fields[x], Diagonal(d)) <==> Mentions(fields[x]) <= d
      {
        SelfFlowWithin(fields[x], d);
      }
    } else if n !in spec.enums && n in spec.unions {
      DistinctCasesByName(spec.unions[n]);
      var accepted := CasesByName(spec.unions[n].cases);
      forall c | c in spec.unions[n].cases
        ensures CaseFlows(c, accepted, Diagonal(d)) <==> (c.TupleCase? ==> AllMentions(c.types, d))
      {
        if c.TupleCase? {
          SelfAll(c.types, d);
        }
      }
    }
  }

  lemma OwnMentions(t: SpecType, r: set<Pair>)
    requires TypeFlows(t, t, r)
    ensures Mentions(t) <= OnDiagonal(r)
  {
    SelfFlow(t, r);
    forall n | n in Mentions(t) ensures n in OnDiagonal(r) {
      assert (n, n) in r;
    }
  }

  /** Only the diagonal of a simulation matters to a contract met by itself. */
  lemma DiagonalSuffices(spec: ContractSpec, fn: Name, r: set<Pair>)
    requires IsSimulation(Flow(spec, spec, fn), r)
    requires forall n :: n in spec.unions ==> DistinctCases(spec.unions[n])
    ensures forall n :: n in OnDiagonal(r) ==> MembersWithin(spec, n, OnDiagonal(r))
  {
    forall n | n in OnDiagonal(r) ensures MembersWithin(spec, n, OnDiagonal(r)) {
      assert (n, n) in r && PairFlows(Flow(spec, spec, fn), (n, n), r);
      if n in spec.structs {
        var fields := FieldTypes(spec.structs[n].fields);
        forall x | x in fields ensures Mentions(fields[x]) <= OnDiagonal(r) {
          OwnMentions(fields[x], r);
        }
      } else if n !in spec.enums && n in spec.unions {
        DistinctCasesByName(spec.unions[n]);
        forall c | c in spec.unions[n].cases && c.TupleCase? ensures AllMentions(c.types, OnDiagonal(r)) {
          assert CaseFlows(c, CasesByName(spec.unions[n].cases), r);
          forall i | 0 <= i < |c.types| ensures Mentions(c.types[i]) <= OnDiagonal(r) {
            OwnMentions(c.types[i], r);
          }
        }
      }
    }
  }

  lemma SelfCompatible(spec: ContractSpec, fn: Name, t: SpecType, d: set<Name>)
    requires forall n :: n in spec.unions ==> DistinctCases(spec.unions[n])
    requires forall n :: n in d ==> MembersWithin(spec, n, d)
    requires Mentions(t) <= d
    ensures Compatible(Flow(spec, spec, fn), t, t)
  {
    forall p | p in Diagonal(d) ensures PairFlows(Flow(spec, spec, fn), p, Diagonal(d)) {
      SelfPair(spec, fn, p.0, d);
    }
    SelfFlowWithin(t, d);
  }

  /** The declared types a self-compatible type leads to. */
  lemma SelfCompatibleDeclares(spec: ContractSpec, fn: Name, t: SpecType) returns (d: set<Name>)
    requires forall n :: n in spec.unions ==> DistinctCases(spec.unions[n])
    requires Compatible(Flow(spec, spec, fn), t, t)
    ensures Mentions(t) <= d && forall n :: n in d ==> MembersWithin(spec, n, d)
  {
    var r :| IsSimulation(Flow(spec, spec, fn), r) && TypeFlows(t, t, r);
    d := OnDiagonal(r);
    DiagonalSuffices(spec, fn, r);
    OwnMentions(t, r);
  }

  ghost predicate SelfContained(spec: ContractSpec, d: set<Name>) {
    d <= UdtNames(spec) && forall n :: n in d ==> MembersWithin(spec, n, d)
  }

  /** Every type that leads only to declared types. */
  ghost function Settled(spec: ContractSpec): set<Name> {
    set n | n in UdtNames(spec) && exists d :: n in d && SelfContained(spec, d)
  }

  lemma MembersWithinMono(spec: ContractSpec, n: Name, d: set<Name>, e: set<Name>)
    requires MembersWithin(spec, n, d) && d <= e
    ensures MembersWithin(spec, n, e)
  {
  }

  lemma SettledIsSelfContained(spec: ContractSpec)
    ensures SelfContained(spec, Settled(spec))
    ensures forall d :: SelfContained(spec, d) ==> d <= Settled(spec)
  {
    forall n | n in Settled(spec) ensures MembersWithin(spec, n, Settled(spec)) {
      var d :| n in d && SelfContained(spec, d);
      MembersWithinMono(spec, n, d, Settled(spec));
    }
  }

  lemma SelfCompatibleSettled(spec: ContractSpec, fn: Name, ts: seq<SpecType>)
    requires forall n :: n in spec.unions ==> DistinctCases(spec.unions[n])
    ensures AllCompatible(Flow(spec, spec, fn), ts, ts) <==> AllMentions(ts, Settled(spec))
  {
    SettledIsSelfContained(spec);
    forall i | 0 <= i < |ts|
      ensures Compatible(Flow(spec, spec, fn), ts[i], ts[i]) <==> Mentions(ts[i]) <= Settled(spec)
    {
      if Compatible(Flow(spec, spec, fn), ts[i], ts[i]) {
        var d := SelfCompatibleDeclares(spec, fn, ts[i]);
        assert SelfContained(spec, d);
      } else if Mentions(ts[i]) <= Settled(spec) {
        SelfCompatible(spec, fn, ts[i], Settled(spec));
      }
    }
  }

  /** A contract is compatible with itself exactly when all the user-defined
      types its functions lead to are declared. */
  lemma SelfVerdictIsExact(spec: ContractSpec)
    requires forall n :: n in spec.unions ==> DistinctCases(spec.unions[n])
    ensures CleanDirection(spec, spec) <==> exists d :: DeclaresAll(spec, d)
  {
    VerdictIsExact(spec, spec);
    SettledIsSelfContained(spec);
    forall f | f in spec.functions
      ensures FunctionCompatible(spec, spec, f)
         <==> AllMentions(FieldTypeList(spec.functions[f].inputs), Settled(spec)) && AllMentions(spec.functions[f].outputs, Settled(spec))
    {
      SelfCompatibleSettled(spec, f, FieldTypeList(spec.functions[f].inputs));
      SelfCompatibleSettled(spec, f, spec.functions[f].outputs);
    }
    if CleanDirection(spec, spec) {
      assert DeclaresAll(spec, Settled(spec));
    }
    if d :| DeclaresAll(spec, d) {
      assert d <= UdtNames(spec) && SelfContained(spec, d);
      assert d <= Settled(spec);
    }
  }
}
