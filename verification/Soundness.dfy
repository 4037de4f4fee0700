/** The verdict against its meaning: no break means that whatever the producer
    encodes, the consumer decodes. */
module Soundness {
  import opened Spec
  import opened CallAbi
  import opened Directions
  import opened Simulation
  import opened Compatibility
  import opened Empirical
  import opened Candidates
  import Decoding

  lemma {:induction false} FieldTypesMember(fields: seq<Field>, n: Name)
    ensures n in FieldTypes(fields) <==> exists k :: 0 <= k < |fields| && fields[k].name == n
    ensures n in FieldTypes(fields) ==>
      exists k :: 0 <= k < |fields| && fields[k].name == n && fields[k].ty == FieldTypes(fields)[n]
  {
    if fields != [] {
      var rest := fields[..|fields| - 1];
      FieldTypesMember(rest, n);
      assert forall k :: 0 <= k < |rest| ==> rest[k] == fields[k];
    }
  }

  lemma DistinctFieldType(s: Struct, k: nat)
    requires DistinctFields(s) && k < |s.fields|
    ensures s.fields[k].name in FieldTypes(s.fields)
    ensures FieldTypes(s.fields)[s.fields[k].name] == s.fields[k].ty
  {
    FieldTypesMember(s.fields, s.fields[k].name);
  }

  /** The consumer's lookup by name and the validator's first match agree. */
  lemma DistinctCase(u: Union, c: UnionCase)
    requires DistinctCases(u) && c in u.cases
    ensures CaseIndex(u.cases, c.name) < |u.cases| && u.cases[CaseIndex(u.cases, c.name)] == c
  {
  }

  ghost predicate SpecsFit(fl: Flow) {
    OneKindPerName(fl.producer) && OneKindPerName(fl.consumer) && DistinctMembers(fl.consumer)
  }

  /** No field that is optional for the producer is untyped for the consumer, in
      any related pair of structs. */
  ghost predicate NoLooseField(fl: Flow, r: set<Pair>) {
    forall p, j, k :: p in r && p.0 in fl.producer.structs && p.1 in fl.consumer.structs ==>
      var fields, fields' := fl.producer.structs[p.0].fields, fl.consumer.structs[p.1].fields;
      0 <= j < |fields| && 0 <= k < |fields'| && fields[j].name == fields'[k].name ==>
        !(fields[j].ty.Option? && fields'[k].ty.Val?)
  }

  /** A value the producer accepts as t, encoded as a call encodes it; where it
      may omit fields, the consumer reads them as optional, or no field is loose. */
  ghost predicate Sent(fl: Flow, r: set<Pair>, v: ScVal, t: SpecType, u: SpecType, full: bool) {
    Accepts(v, t, fl.producer) && Wire(v, t, fl.producer, full) && (full || OmitsOptional(v, u, fl.consumer) || NoLooseField(fl, r))
  }

  ghost predicate Arrives(fl: Flow, v: ScVal, u: SpecType, full: bool) {
    Accepts(v, u, fl.consumer) && Wire(v, u, fl.consumer, full)
  }

  ghost predicate SentUdt(fl: Flow, r: set<Pair>, v: ScVal, a: Name, b: Name, full: bool) {
    AcceptsUdt(v, a, fl.producer) && WireUdt(v, a, fl.producer, full) && (full || UdtOmitsOptional(v, b, fl.consumer) || NoLooseField(fl, r))
  }

  ghost predicate ArrivesUdt(fl: Flow, v: ScVal, b: Name, full: bool) {
    AcceptsUdt(v, b, fl.consumer) && WireUdt(v, b, fl.consumer, full)
  }

  lemma NamedSent(fl: Flow, r: set<Pair>, v: ScVal, t: SpecType, u: SpecType, full: bool)
    requires t.Udt? && u.Udt? && Sent(fl, r, v, t, u, full)
    ensures SentUdt(fl, r, v, t.name, u.name, full)
  {
    hide AcceptsUdt, WireUdt, UdtOmitsOptional, NoLooseField;
  }

  lemma NamedArrives(fl: Flow, v: ScVal, u: SpecType, full: bool)
    requires u.Udt? && ArrivesUdt(fl, v, u.name, full)
    ensures Arrives(fl, v, u, full)
  {
  }

  lemma PlainAreSound(fl: Flow, r: set<Pair>, v: ScVal, t: SpecType, u: SpecType, full: bool)
    requires TypeFlows(t, u, r) && Sent(fl, r, v, t, u, full) && (u.Val? || u.Scalar? || u.BytesN?)
    ensures Arrives(fl, v, u, full)
  {
    hide AcceptsUdt, WireUdt;
  }

  lemma {:induction false} VecsAreSound(fl: Flow, r: set<Pair>, v: ScVal, t: SpecType, u: SpecType, full: bool)
    requires SpecsFit(fl) && IsSimulation(fl, r) && TypeFlows(t, u, r) && Sent(fl, r, v, t, u, full)
    requires t.Vec? && u.Vec?
    ensures Arrives(fl, v, u, full)
    decreases v, 0
  {
    hide SpecsFit, IsSimulation;
    forall i | 0 <= i < |v.items| ensures Arrives(fl, v.items[i], u.elem, full) {
      TypesAreSound(fl, r, v.items[i], t.elem, u.elem, full);
    }
  }

  lemma {:induction false} TuplesAreSound(fl: Flow, r: set<Pair>, v: ScVal, t: SpecType, u: SpecType, full: bool)
    requires SpecsFit(fl) && IsSimulation(fl, r) && TypeFlows(t, u, r) && Sent(fl, r, v, t, u, full)
    requires t.Tuple? && u.Tuple?
    ensures Arrives(fl, v, u, full)
    decreases v, 0
  {
    hide SpecsFit, IsSimulation;
    forall i | 0 <= i < |v.items| ensures Arrives(fl, v.items[i], u.elems[i], full) {
      TypesAreSound(fl, r, v.items[i], t.elems[i], u.elems[i], full);
    }
  }

  lemma {:induction false} MapsAreSound(fl: Flow, r: set<Pair>, v: ScVal, t: SpecType, u: SpecType, full: bool)
    requires SpecsFit(fl) && IsSimulation(fl, r) && TypeFlows(t, u, r) && Sent(fl, r, v, t, u, full)
    requires t.Map? && u.Map?
    ensures Arrives(fl, v, u, full)
    decreases v, 0
  {
    hide SpecsFit, IsSimulation;
    forall i | 0 <= i < |v.entries|
      ensures Arrives(fl, v.entries[i].key, u.key, full) && Arrives(fl, v.entries[i].val, u.value, full)
    {
      assert v.entries[i] in v.entries;
      TypesAreSound(fl, r, v.entries[i].key, t.key, u.key, full);
      TypesAreSound(fl, r, v.entries[i].val, t.value, u.value, full);
    }
  }

  /** What the value holds for one consumer field. */
  ghost predicate FieldArrives(fl: Flow, v: ScVal, f: Field, full: bool)
    requires v.ScMap?
  {
    var i := FieldIndex(v.entries, f.name);
    if i < |v.entries| then Arrives(fl, v.entries[i].val, f.ty, full) else !full && f.ty.Option?
  }

  lemma FieldsArrive(fl: Flow, v: ScVal, b: Name, full: bool)
    requires b in fl.consumer.structs && v.ScMap?
    requires forall k :: 0 <= k < |fl.consumer.structs[b].fields| ==> FieldArrives(fl, v, fl.consumer.structs[b].fields[k], full)
    ensures ArrivesUdt(fl, v, b, full)
  {
    hide Accepts, Wire;
  }

  lemma NotLoose(fl: Flow, r: set<Pair>, a: Name, b: Name, j: nat, k: nat)
    requires NoLooseField(fl, r) && (a, b) in r && a in fl.producer.structs && b in fl.consumer.structs
    requires j < |fl.producer.structs[a].fields| && k < |fl.consumer.structs[b].fields|
    requires fl.producer.structs[a].fields[j].name == fl.consumer.structs[b].fields[k].name
    ensures !(fl.producer.structs[a].fields[j].ty.Option? && fl.consumer.structs[b].fields[k].ty.Val?)
  {
    var p := (a, b);
    assert p.0 == a && p.1 == b;
  }

  /** What the producer's field of the same name holds. */
  lemma FieldSent(fl: Flow, r: set<Pair>, v: ScVal, a: Name, b: Name, j: nat, k: nat, full: bool)
    requires (a, b) in r && a in fl.producer.structs && b in fl.consumer.structs && SentUdt(fl, r, v, a, b, full)
    requires j < |fl.producer.structs[a].fields| && k < |fl.consumer.structs[b].fields|
    requires fl.producer.structs[a].fields[j].name == fl.consumer.structs[b].fields[k].name
    requires TypeFlows(fl.producer.structs[a].fields[j].ty, fl.consumer.structs[b].fields[k].ty, r)
    ensures v.ScMap?
    ensures
      var f := fl.consumer.structs[b].fields[k];
      var i := FieldIndex(v.entries, f.name);
      if i < |v.entries| then Sent(fl, r, v.entries[i].val, fl.producer.structs[a].fields[j].ty, f.ty, full)
      else !full && f.ty.Option?
  {
    hide Accepts, Wire, OmitsOptional, NoLooseField;
    if NoLooseField(fl, r) {
      NotLoose(fl, r, a, b, j, k);
    }
  }

  lemma {:induction false} StructsAreSound(fl: Flow, r: set<Pair>, v: ScVal, a: Name, b: Name, full: bool)
    requires SpecsFit(fl) && IsSimulation(fl, r) && (a, b) in r
    requires a in fl.producer.structs && b in fl.consumer.structs
    requires FieldsFlow(FieldTypes(fl.producer.structs[a].fields), FieldTypes(fl.consumer.structs[b].fields), r)
    requires SentUdt(fl, r, v, a, b, full)
    ensures ArrivesUdt(fl, v, b, full)
    decreases v, 0, 0
  {
    assert v.ScMap?;
    hide IsSimulation, SentUdt, ArrivesUdt, Sent, Arrives;
    var fields, fields' := fl.producer.structs[a].fields, fl.consumer.structs[b].fields;
    forall k | 0 <= k < |fields'| ensures FieldArrives(fl, v, fields'[k], full) {
      var n := fields'[k].name;
      DistinctFieldType(fl.consumer.structs[b], k);
      FieldTypesMember(fields, n);
      var j :| 0 <= j < |fields| && fields[j].name == n && fields[j].ty == FieldTypes(fields)[n];
      FieldSent(fl, r, v, a, b, j, k, full);
      var i := FieldIndex(v.entries, n);
      if i < |v.entries| {
        assert v.entries[i] in v.entries;
        TypesAreSound(fl, r, v.entries[i].val, fields[j].ty, fields'[k].ty, full);
      }
    }
    FieldsArrive(fl, v, b, full);
  }

  lemma {:induction false} UnionsAreSound(fl: Flow, r: set<Pair>, v: ScVal, a: Name, b: Name, full: bool)
    requires SpecsFit(fl) && IsSimulation(fl, r)
    requires SharedKind(fl, (a, b)) == UnionKind && PairFlows(fl, (a, b), r)
    requires SentUdt(fl, r, v, a, b, full)
    ensures ArrivesUdt(fl, v, b, full)
    decreases v, 0, 0
  {
    var cases, target := fl.producer.unions[a].cases, fl.consumer.unions[b];
    var name := if v.ScSymbol? then v.sym else v.items[0].sym;
    var c := cases[CaseIndex(cases, name)];
    assert c in cases && CaseFlows(c, CasesByName(target.cases), r);
    CasesByNameMember(target.cases, name);
    var d := CasesByName(target.cases)[name];
    DistinctCase(target, d);
    if v.ScVec? && c.TupleCase? {
      forall k | 0 <= k < |c.types| ensures Arrives(fl, v.items[k + 1], d.types[k], full) {
        TypesAreSound(fl, r, v.items[k + 1], c.types[k], d.types[k], full);
      }
    }
  }

  lemma {:induction false} PairsAreSound(fl: Flow, r: set<Pair>, v: ScVal, a: Name, b: Name, full: bool)
    requires SpecsFit(fl) && IsSimulation(fl, r) && (a, b) in r && SentUdt(fl, r, v, a, b, full)
    ensures ArrivesUdt(fl, v, b, full)
    decreases v, 0, 1
  {
    assert PairFlows(fl, (a, b), r);
    match SharedKind(fl, (a, b))
    case StructKind => StructsAreSound(fl, r, v, a, b, full);
    case EnumKind =>
      var c :| c in fl.producer.enums[a].cases && c.value == v.u;
      assert c.value in Values(fl.consumer.enums[b].cases);
    case UnionKind => UnionsAreSound(fl, r, v, a, b, full);
    case _ =>
  }

  lemma {:induction false} OptionsAreSound(fl: Flow, r: set<Pair>, v: ScVal, t: SpecType, u: SpecType, full: bool)
    requires SpecsFit(fl) && IsSimulation(fl, r) && TypeFlows(t, u, r) && Sent(fl, r, v, t, u, full)
    requires t.Option? && u.Option?
    ensures Arrives(fl, v, u, full)
    decreases v, 1, t, 0
  {
    hide SpecsFit, IsSimulation, AcceptsUdt, WireUdt, UdtOmitsOptional;
    if !v.ScVoid? { TypesAreSound(fl, r, v, t.inner, u.inner, full); }
  }

  lemma {:induction false} TypesAreSound(fl: Flow, r: set<Pair>, v: ScVal, t: SpecType, u: SpecType, full: bool)
    requires SpecsFit(fl) && IsSimulation(fl, r) && TypeFlows(t, u, r) && Sent(fl, r, v, t, u, full)
    ensures Arrives(fl, v, u, full)
    decreases v, 1, t, 1
  {
    hide SpecsFit, IsSimulation, Sent, Arrives, SentUdt, ArrivesUdt;
    if t.Option? && u.Option? {
      OptionsAreSound(fl, r, v, t, u, full);
    } else if t.Result? && u.Result? {
      ResultsAreSound(fl, r, v, t, u, full);
    } else if t.Vec? && u.Vec? {
      VecsAreSound(fl, r, v, t, u, full);
    } else if t.Map? && u.Map? {
      MapsAreSound(fl, r, v, t, u, full);
    } else if t.Tuple? && u.Tuple? {
      TuplesAreSound(fl, r, v, t, u, full);
    } else if t.Udt? && u.Udt? {
      NamedSent(fl, r, v, t, u, full);
      PairsAreSound(fl, r, v, t.name, u.name, full);
      NamedArrives(fl, v, u, full);
    } else {
      PlainAreSound(fl, r, v, t, u, full);
    }
  }

  lemma {:induction false} ResultsAreSound(fl: Flow, r: set<Pair>, v: ScVal, t: SpecType, u: SpecType, full: bool)
    requires SpecsFit(fl) && IsSimulation(fl, r) && TypeFlows(t, u, r) && Sent(fl, r, v, t, u, full)
    requires t.Result? && u.Result?
    ensures Arrives(fl, v, u, full)
    decreases v, 1, t, 0
  {
    hide SpecsFit, IsSimulation, AcceptsUdt, WireUdt, UdtOmitsOptional;
    if v.ScError? {
      TypesAreSound(fl, r, v, t.err, u.err, full);
    } else {
      TypesAreSound(fl, r, v, t.ok, u.ok, full);
    }
  }

  lemma CleanHasSimulation(fl: Flow, t: SpecType, u: SpecType, path: string) returns (r: set<Pair>)
    requires TypeBreaks(fl, t, u, path, {}) == []
    ensures IsSimulation(fl, r) && TypeFlows(t, u, r)
  {
    CycleCutIsExact(fl, t, u, path);
    hide IsSimulation, TypeFlows, TypeBreaks;
    r :| IsSimulation(fl, r) && TypeFlows(t, u, r);
  }

  lemma CleanArrives(fl: Flow, t: SpecType, u: SpecType, path: string, v: ScVal, full: bool)
    requires SpecsFit(fl) && TypeBreaks(fl, t, u, path, {}) == []
    requires Accepts(v, t, fl.producer) && Wire(v, t, fl.producer, full)
    requires full || OmitsOptional(v, u, fl.consumer)
    ensures Accepts(v, u, fl.consumer)
  {
    hide SpecsFit, IsSimulation, TypeFlows, TypeBreaks, Accepts, Wire, OmitsOptional, NoLooseField;
    var r := CleanHasSimulation(fl, t, u, path);
    TypesAreSound(fl, r, v, t, u, full);
  }

  /** Soundness of the walk: no break, so every wire value the producer's type
      accepts is accepted by the consumer's, through any recursion. */
  lemma CheckIsSound(fl: Flow, t: SpecType, u: SpecType, path: string, v: ScVal)
    requires SpecsFit(fl)
    requires TypeBreaks(fl, t, u, path, {}) == []
    requires Accepts(v, t, fl.producer) && Wire(v, t, fl.producer, true)
    ensures Accepts(v, u, fl.consumer)
  {
    hide *;
    CleanArrives(fl, t, u, path, v, true);
  }

  /** Exactness where fields are omitted: after a clean check, an encoded value
      that the producer accepts decodes at the consumer iff every field it omits,
      at each struct on the way, is optional there. */
  lemma OmissionIsExact(fl: Flow, t: SpecType, u: SpecType, path: string, v: ScVal)
    requires SpecsFit(fl)
    requires TypeBreaks(fl, t, u, path, {}) == []
    requires Accepts(v, t, fl.producer) && Wire(v, t, fl.producer, false)
    ensures Accepts(v, u, fl.consumer) <==> OmitsOptional(v, u, fl.consumer)
  {
    hide *;
    if Accepts(v, u, fl.consumer) {
      AcceptedOmitsOptional(v, u, fl.consumer);
    }
    if OmitsOptional(v, u, fl.consumer) {
      CleanArrives(fl, t, u, path, v, false);
    }
  }

  /** Told of the types alone: where no related pair of structs has a loose field,
      every encoded value carries over, whatever it omits. */
  lemma NothingLooseCarriesOver(fl: Flow, r: set<Pair>, t: SpecType, u: SpecType, v: ScVal)
    requires SpecsFit(fl) && IsSimulation(fl, r) && TypeFlows(t, u, r) && NoLooseField(fl, r)
    requires Accepts(v, t, fl.producer) && Wire(v, t, fl.producer, false)
    ensures Accepts(v, u, fl.consumer)
  {
    hide SpecsFit, IsSimulation, TypeFlows, Accepts, Wire, NoLooseField;
    TypesAreSound(fl, r, v, t, u, false);
  }

  /** Argument lists, or result lists, that decode position by position. */
  ghost predicate Decodes(vs: seq<ScVal>, ts: seq<SpecType>, spec: ContractSpec) {
    |vs| == |ts| && forall i :: 0 <= i < |vs| ==> Accepts(vs[i], ts[i], spec)
  }

  ghost predicate OnWire(vs: seq<ScVal>, ts: seq<SpecType>, spec: ContractSpec) {
    |vs| == |ts| && forall i :: 0 <= i < |vs| ==> Wire(vs[i], ts[i], spec, true)
  }

  lemma ListsAreSound(fl: Flow, ts: seq<SpecType>, us: seq<SpecType>, vs: seq<ScVal>)
    requires SpecsFit(fl) && AllCompatible(fl, ts, us)
    requires Decodes(vs, ts, fl.producer) && OnWire(vs, ts, fl.producer)
    ensures Decodes(vs, us, fl.consumer)
  {
    forall i | 0 <= i < |vs| ensures Accepts(vs[i], us[i], fl.consumer) {
      var r :| IsSimulation(fl, r) && TypeFlows(ts[i], us[i], r);
      TypesAreSound(fl, r, vs[i], ts[i], us[i], true);
    }
  }

  /** Soundness of the verdict: with a clean direction, every call the client
      can encode is one the contract exports and can decode, and every result
      it can encode the client can decode. */
  lemma VerdictIsSound(client: ContractSpec, contract: ContractSpec, n: Name, args: seq<ScVal>, results: seq<ScVal>)
    requires OneKindPerName(client) && OneKindPerName(contract)
    requires DistinctMembers(client) && DistinctMembers(contract)
    requires CleanDirection(client, contract) && n in client.functions
    ensures n in contract.functions
    ensures
      var sent, wanted := FieldTypeList(client.functions[n].inputs), FieldTypeList(contract.functions[n].inputs);
      Decodes(args, sent, client) && OnWire(args, sent, client) ==> Decodes(args, wanted, contract)
    ensures
      var sent, wanted := contract.functions[n].outputs, client.functions[n].outputs;
      Decodes(results, sent, contract) && OnWire(results, sent, contract) ==> Decodes(results, wanted, client)
  {
    VerdictIsExact(client, contract);
    var f, g := client.functions[n], contract.functions[n];
    if Decodes(args, FieldTypeList(f.inputs), client) && OnWire(args, FieldTypeList(f.inputs), client) {
      ListsAreSound(Flow(client, contract, n), FieldTypeList(f.inputs), FieldTypeList(g.inputs), args);
    }
    if Decodes(results, g.outputs, contract) && OnWire(results, g.outputs, contract) {
      ListsAreSound(Flow(contract, client, n), g.outputs, f.outputs, results);
    }
  }

  lemma DeclaredIsNamed(v: ScVal, n: Name, spec: ContractSpec)
    ensures Accepts(v, Udt(n), spec) <==> AcceptsUdt(v, n, spec)
    ensures Wire(v, Udt(n), spec, true) <==> WireUdt(v, n, spec, true)
  {
  }

  /** A type whose check is clean from the old spec to the new one never shows
      up as a failing sample, as long as the sample is in wire encoding. */
  lemma CleanTypeHasNoFailingSample(fl: Flow, n: Name, path: string, f: EmpiricalFinding, entries: seq<Entry>)
    requires SpecsFit(fl) && TypeBreaks(fl, Udt(n), Udt(n), path, {}) == []
    requires f.typeName == n && StoredCandidate(f.candidate, entries, n, fl.producer)
    requires f.isSuccess == Decoding.MeansUdt(f.candidate, n, fl.consumer)
    requires WireUdt(f.candidate, n, fl.producer, true)
    ensures f.isSuccess
  {
    hide TypeBreaks, AcceptsUdt, Accepts, WireUdt, Wire, SpecsFit, Decoding.MeansUdt;
    DeclaredIsNamed(f.candidate, n, fl.producer);
    DeclaredIsNamed(f.candidate, n, fl.consumer);
    Decoding.UdtValidationIsDecoding(f.candidate, n, fl.producer);
    Decoding.UdtValidationIsDecoding(f.candidate, n, fl.consumer);
    CheckIsSound(fl, Udt(n), Udt(n), path, f.candidate);
  }

  // ------------------------------------------------------------------
  // The side conditions are needed
  // ------------------------------------------------------------------

  ghost function StructOf(ty: SpecType): Struct {
    Struct("", "", [Field("", "f", ty)])
  }

  lemma OneFieldType(ty: SpecType)
    ensures FieldTypes(StructOf(ty).fields) == map["f" := ty]
  {
    assert StructOf(ty).fields[..0] == [];
  }

  lemma PairIsCompatible(p: ContractSpec, c: ContractSpec)
    requires PairFlows(Flow(p, c, "f"), ("S", "S"), {("S", "S")})
    ensures Compatible(Flow(p, c, "f"), Udt("S"), Udt("S"))
  {
    assert IsSimulation(Flow(p, c, "f"), {("S", "S")});
  }

  lemma EmptyMapDecodes(spec: ContractSpec, ty: SpecType)
    requires spec.structs == map["S" := StructOf(ty)]
    ensures AcceptsUdt(ScMap([]), "S", spec) <==> ty.Option?
    ensures UdtOmitsOptional(ScMap([]), "S", spec) <==> ty.Option?
    ensures WireUdt(ScMap([]), "S", spec, false)
  {
    assert spec.structs["S"].fields[0].ty == ty;
  }

  /** A stored struct may omit an optional field, and a field of the untyped
      kind must be present: the check is clean, the value does not carry over. */
  lemma OmittedFieldIsLost()
    ensures
      var p := EmptySpec().(structs := map["S" := StructOf(Option(Scalar(U32)))]);
      var c := EmptySpec().(structs := map["S" := StructOf(Val)]);
      && SpecsFit(Flow(p, c, "f")) && Compatible(Flow(p, c, "f"), Udt("S"), Udt("S"))
      && AcceptsUdt(ScMap([]), "S", p) && WireUdt(ScMap([]), "S", p, false)
      && !AcceptsUdt(ScMap([]), "S", c) && !UdtOmitsOptional(ScMap([]), "S", c)
  {
    var p := EmptySpec().(structs := map["S" := StructOf(Option(Scalar(U32)))]);
    var c := EmptySpec().(structs := map["S" := StructOf(Val)]);
    hide AcceptsUdt, WireUdt, UdtOmitsOptional;
    EmptyMapDecodes(p, Option(Scalar(U32)));
    EmptyMapDecodes(c, Val);
    OneFieldType(Option(Scalar(U32)));
    OneFieldType(Val);
    PairIsCompatible(p, c);
  }

  /** A name declared both as a struct and as an enum is checked as an enum but
      decoded as a struct. */
  lemma TwoKindsAreUnsound()
    ensures
      var p := EmptySpec().(enums := map["S" := Enum("", "", [EnumCase("", "A", 1)])]);
      var c := p.(structs := map["S" := StructOf(Val)]);
      && DistinctMembers(c) && OneKindPerName(p) && !OneKindPerName(c)
      && Compatible(Flow(p, c, "f"), Udt("S"), Udt("S"))
      && AcceptsUdt(ScU32(1), "S", p) && WireUdt(ScU32(1), "S", p, true) && !AcceptsUdt(ScU32(1), "S", c)
  {
    var p := EmptySpec().(enums := map["S" := Enum("", "", [EnumCase("", "A", 1)])]);
    var c := p.(structs := map["S" := StructOf(Val)]);
    assert "S" in c.structs.Keys * c.enums.Keys;
    PairIsCompatible(p, c);
    assert p.enums["S"].cases[0] in p.enums["S"].cases;
  }

  function UnionOf(cases: seq<UnionCase>): Union {
    Union("", "", cases)
  }

  const VOID_A := VoidCase("", "A")

  const TUPLE_A := TupleCase("", "A", [Val])

  lemma LastCaseCounts()
    ensures CasesByName([VOID_A, TUPLE_A]) == map["A" := TUPLE_A]
  {
    assert [VOID_A][..0] == [] && CasesByName([VOID_A]) == map["A" := VOID_A];
    assert [VOID_A, TUPLE_A][..1] == [VOID_A];
  }

  /** A union with two cases of one name is not compatible with itself. */
  lemma DuplicateCasesAreNotReflexive()
    ensures
      var s := EmptySpec().(unions := map["S" := UnionOf([VOID_A, TUPLE_A])]);
      !DistinctCases(s.unions["S"]) && !Compatible(Flow(s, s, "f"), Udt("S"), Udt("S"))
  {
    var cases := [VOID_A, TUPLE_A];
    var s := EmptySpec().(unions := map["S" := UnionOf(cases)]);
    assert s.unions["S"].cases[0].name == s.unions["S"].cases[1].name;
    LastCaseCounts();
    hide CasesByName;
    assert cases[0] in cases;
    forall r: set<Pair> ensures !PairFlows(Flow(s, s, "f"), ("S", "S"), r) {
      assert !CaseFlows(cases[0], CasesByName(cases), r);
    }
  }

  lemma FirstCaseDecodes(spec: ContractSpec, cases: seq<UnionCase>, v: ScVal)
    requires spec.structs == map[] && spec.enums == map[] && spec.unions == map["S" := UnionOf(cases)]
    requires cases != [] && cases[0].name == "A" && v == ScVec([ScSymbol("A"), ScVoid])
    ensures cases[0] == TUPLE_A ==> AcceptsUdt(v, "S", spec) && WireUdt(v, "S", spec, true)
    ensures cases[0] == VOID_A ==> !AcceptsUdt(v, "S", spec)
  {
    assert CaseIndex(cases, "A") == 0;
  }

  /** With two cases of one name, the checker compares with the last and the
      decoder takes the first. */
  lemma DuplicateCasesAreUnsound()
    ensures
      var p := EmptySpec().(unions := map["S" := UnionOf([TUPLE_A])]);
      var c := EmptySpec().(unions := map["S" := UnionOf([VOID_A, TUPLE_A])]);
      var v := ScVec([ScSymbol("A"), ScVoid]);
      && OneKindPerName(p) && OneKindPerName(c) && !DistinctMembers(c)
      && Compatible(Flow(p, c, "f"), Udt("S"), Udt("S"))
      && AcceptsUdt(v, "S", p) && WireUdt(v, "S", p, true) && !AcceptsUdt(v, "S", c)
  {
    var p := EmptySpec().(unions := map["S" := UnionOf([TUPLE_A])]);
    var c := EmptySpec().(unions := map["S" := UnionOf([VOID_A, TUPLE_A])]);
    var v := ScVec([ScSymbol("A"), ScVoid]);
    hide AcceptsUdt, WireUdt;
    FirstCaseDecodes(p, [TUPLE_A], v);
    FirstCaseDecodes(c, [VOID_A, TUPLE_A], v);
    assert !DistinctMembers(c) by {
      assert "S" in c.unions && c.unions["S"].cases[0].name == c.unions["S"].cases[1].name;
      assert !DistinctCases(c.unions["S"]);
    }
    LastCaseCounts();
    hide CasesByName, DistinctMembers;
    PairIsCompatible(p, c);
  }
}
