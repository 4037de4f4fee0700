/** The directional call-ABI checker: can every value a producer encodes under
    its spec be decoded by a consumer under another spec? */
module CallAbi {
  import opened Prelude
  import opened Ordering
  import opened Spec
  import opened Text

  datatype Reason =
    | FunctionNotExported
    | ArgumentCount(sent: nat, required: nat)
    | ReturnCount(returned: nat, decoded: nat)
    | TupleLength(encoded: nat, expected: nat)
    | TypeMismatch(producer: SpecType, consumer: SpecType)
    | FieldSets(encodedFields: set<Name>, requiredFields: set<Name>)
    | UndefinedDiscriminant(value: uint32)
    | UndefinedCase
    | CaseShape
    | UndefinedError(value: uint32)
    | KindMismatch(producerName: Name, consumerName: Name)

  datatype Break = Break(fn: Name, path: string, reason: Reason)

  /** Who encodes, who decodes, and the function being checked. */
  datatype Flow = Flow(producer: ContractSpec, consumer: ContractSpec, fn: Name)

  type Pair = (Name, Name)

  /** Name pairs that a walk can enter. */
  function DeclaredPairs(fl: Flow): set<Pair> {
    set a, b | a in UdtNames(fl.producer) && b in UdtNames(fl.consumer) :: (a, b)
  }

  /** The kind under which the checker compares a pair: the first kind, in the
      checker's order, that both specs declare the names as. */
  datatype Kind = StructKind | EnumKind | UnionKind | ErrorEnumKind | NoKind

  function SharedKind(fl: Flow, p: Pair): Kind {
    if p.0 in fl.producer.structs && p.1 in fl.consumer.structs then StructKind
    else if p.0 in fl.producer.enums && p.1 in fl.consumer.enums then EnumKind
    else if p.0 in fl.producer.unions && p.1 in fl.consumer.unions then UnionKind
    else if p.0 in fl.producer.errorEnums && p.1 in fl.consumer.errorEnums then ErrorEnumKind
    else NoKind
  }

  /** Entering a new pair never raises the number of unused declared pairs,
      and lowers it when the pair can be compared at all. */
  lemma UnusedShrinks(fl: Flow, visiting: set<Pair>, p: Pair)
    requires p !in visiting
    ensures |DeclaredPairs(fl) - (visiting + {p})| <= |DeclaredPairs(fl) - visiting|
    ensures SharedKind(fl, p) != NoKind ==>
      |DeclaredPairs(fl) - (visiting + {p})| < |DeclaredPairs(fl) - visiting|
  {
    var before, after := DeclaredPairs(fl) - visiting, DeclaredPairs(fl) - (visiting + {p});
    if p in DeclaredPairs(fl) {
      assert before == after + {p};
    } else {
      assert before == after;
    }
  }

  /** Field types by name; a later field of the same name replaces an earlier
      one, as collecting into a hash map does. */
  function FieldTypes(fields: seq<Field>): map<Name, SpecType> {
    if fields == [] then map[]
    else
      var last := fields[|fields| - 1];
      FieldTypes(fields[..|fields| - 1])[last.name := last.ty]
  }

  /** Cases by name; again the last one wins. */
  function CasesByName(cases: seq<UnionCase>): map<Name, UnionCase> {
    if cases == [] then map[]
    else
      var last := cases[|cases| - 1];
      CasesByName(cases[..|cases| - 1])[last.name := last]
  }

  function Values(cases: seq<EnumCase>): set<uint32> {
    set c | c in cases :: c.value
  }

  predicate ValueLeq(a: uint32, b: uint32) { a <= b }

  lemma ValueOrder()
    ensures TotalOrder(ValueLeq)
  {
  }

  ghost function ValueBreak(fl: Flow, v: uint32, path: string, error: bool): Break {
    if error then Break(fl.fn, path + ".error[" + Decimal(v as nat) + "]", UndefinedError(v))
    else Break(fl.fn, path + ".case[" + Decimal(v as nat) + "]", UndefinedDiscriminant(v))
  }

  ghost function ValueBreaks(fl: Flow, values: seq<uint32>, path: string, error: bool): (r: seq<Break>)
    ensures |r| == |values|
  {
    if values == [] then []
    else
      ValueBreaks(fl, values[..|values| - 1], path, error)
      + [ValueBreak(fl, values[|values| - 1], path, error)]
  }

  ghost function MissingValues(a: Enum, b: Enum): seq<uint32> {
    SortedSet(Values(a.cases) - Values(b.cases), ValueLeq)
  }

  ghost function FieldBreaks(fl: Flow, a: map<Name, SpecType>, b: map<Name, SpecType>, names: seq<Name>, path: string, n: nat, visiting: set<Pair>): seq<Break>
    requires n <= |names|
    requires forall x :: x in names ==> x in a && x in b
    decreases |DeclaredPairs(fl) - visiting|, 2, n
  {
    if n == 0 then []
    else
      FieldBreaks(fl, a, b, names, path, n - 1, visiting)
      + TypeBreaks(fl, a[names[n - 1]], b[names[n - 1]], path + "." + names[n - 1], visiting)
  }

  ghost function StructBreaks(fl: Flow, s: Struct, t: Struct, path: string, visiting: set<Pair>): seq<Break>
    decreases |DeclaredPairs(fl) - visiting|, 3
  {
    var a, b := FieldTypes(s.fields), FieldTypes(t.fields);
    if a.Keys != b.Keys then [Break(fl.fn, path, FieldSets(a.Keys, b.Keys))]
    else FieldBreaks(fl, a, b, SortedNames(a.Keys), path, |a.Keys|, visiting)
  }

  ghost function OneCaseBreaks(fl: Flow, c: UnionCase, accepted: map<Name, UnionCase>, path: string, visiting: set<Pair>): seq<Break>
    decreases |DeclaredPairs(fl) - visiting|, 2, 0
  {
    var casePath := path + ".case." + c.name;
    if c.name !in accepted then [Break(fl.fn, casePath, UndefinedCase)]
    else
      match (c, accepted[c.name])
      case (VoidCase(_, _), VoidCase(_, _)) => []
      case (TupleCase(_, _, ts), TupleCase(_, _, us)) =>
        if |ts| == |us| then EachBreaks(fl, ts, us, casePath, |ts|, visiting)
        else [Break(fl.fn, casePath, CaseShape)]
      case _ => [Break(fl.fn, casePath, CaseShape)]
  }

  ghost function CaseBreaks(fl: Flow, cases: seq<UnionCase>, accepted: map<Name, UnionCase>, path: string, n: nat, visiting: set<Pair>): seq<Break>
    requires n <= |cases|
    decreases |DeclaredPairs(fl) - visiting|, 2, n
  {
    if n == 0 then []
    else
      CaseBreaks(fl, cases, accepted, path, n - 1, visiting)
      + OneCaseBreaks(fl, cases[n - 1], accepted, path, visiting)
  }

  /** The body of the user-defined-type check, with the pair itself in progress. */
  ghost function PairBreaks(fl: Flow, p: Pair, path: string, visiting: set<Pair>): seq<Break>
    decreases |DeclaredPairs(fl) - visiting|, if SharedKind(fl, p) == NoKind then 0 else 4
  {
    match SharedKind(fl, p)
    case StructKind =>
      StructBreaks(fl, fl.producer.structs[p.0], fl.consumer.structs[p.1], path, visiting)
    case EnumKind =>
      ValueBreaks(fl, MissingValues(fl.producer.enums[p.0], fl.consumer.enums[p.1]), path, false)
    case UnionKind =>
      var cases := fl.producer.unions[p.0].cases;
      CaseBreaks(fl, cases, CasesByName(fl.consumer.unions[p.1].cases), path, |cases|, visiting)
    case ErrorEnumKind =>
      ValueBreaks(fl, MissingValues(fl.producer.errorEnums[p.0], fl.consumer.errorEnums[p.1]), path, true)
    case NoKind => [Break(fl.fn, path, KindMismatch(p.0, p.1))]
  }

  /** The breaks that checking a producer type against a consumer type adds
      while the pairs in `visiting` are in progress. */
  ghost function TypeBreaks(fl: Flow, t: SpecType, u: SpecType, path: string, visiting: set<Pair>): seq<Break>
    decreases |DeclaredPairs(fl) - visiting|, 1, t, 0
  {
    if u.Val? then [] else
    match (t, u)
    case (Option(a), Option(b)) => TypeBreaks(fl, a, b, path + ".some", visiting)
    case (Vec(a), Vec(b)) => TypeBreaks(fl, a, b, path + "[*]", visiting)
    case (Map(k, a), Map(l, b)) =>
      TypeBreaks(fl, k, l, path + ".key", visiting) + TypeBreaks(fl, a, b, path + ".value", visiting)
    case (Tuple(ts), Tuple(us)) =>
      if |ts| != |us| then [Break(fl.fn, path, TupleLength(|ts|, |us|))]
      else EachBreaks(fl, ts, us, path, |ts|, visiting)
    case (Result(a, e), Result(b, f)) =>
      TypeBreaks(fl, a, b, path + ".ok", visiting) + TypeBreaks(fl, e, f, path + ".err", visiting)
    case (Udt(a), Udt(b)) =>
      if (a, b) in visiting then []
      else
        UnusedShrinks(fl, visiting, (a, b));
        PairBreaks(fl, (a, b), path, visiting + {(a, b)})
    case _ => if t == u then [] else [Break(fl.fn, path, TypeMismatch(t, u))]
  }

  /** The same for the first n of two equally long type lists. */
  ghost function EachBreaks(fl: Flow, ts: seq<SpecType>, us: seq<SpecType>, path: string, n: nat, visiting: set<Pair>): seq<Break>
    requires n <= |ts| == |us|
    decreases |DeclaredPairs(fl) - visiting|, 1, ts, n
  {
    if n == 0 then []
    else
      EachBreaks(fl, ts, us, path, n - 1, visiting)
      + TypeBreaks(fl, ts[n - 1], us[n - 1], path + "[" + Decimal(n - 1) + "]", visiting)
  }

  method CollectMissing(a: Enum, b: Enum) returns (values: seq<uint32>)
    ensures values == MissingValues(a, b)
  {
    ValueOrder();
    values := CollectSorted(Values(a.cases) - Values(b.cases), ValueLeq);
  }

  /** The walk itself: `visiting` and `breaks` are updated in place. */
  class Walk {
    var visiting: set<Pair>
    var breaks: seq<Break>

    constructor ()
      ensures visiting == {} && breaks == []
    {
      visiting := {};
      breaks := [];
    }

    method Push(fl: Flow, path: string, reason: Reason)
      modifies this`breaks
      ensures breaks == old(breaks) + [Break(fl.fn, path, reason)]
    {
      breaks := breaks + [Break(fl.fn, path, reason)];
    }

    method CheckValueFlow(fl: Flow, t: SpecType, u: SpecType, path: string)
      modifies this
      ensures visiting == old(visiting)
      ensures breaks == old(breaks) + TypeBreaks(fl, t, u, path, old(visiting))
      decreases |DeclaredPairs(fl) - visiting|, 1, t
    {
      if u.Val? { return; }
      if t.Option? && u.Option? {
        CheckValueFlow(fl, t.inner, u.inner, path + ".some");
      } else if t.Vec? && u.Vec? {
        CheckValueFlow(fl, t.elem, u.elem, path + "[*]");
      } else if t.Map? && u.Map? {
        CheckValueFlow(fl, t.key, u.key, path + ".key");
        CheckValueFlow(fl, t.value, u.value, path + ".value");
        Assoc(old(breaks), TypeBreaks(fl, t.key, u.key, path + ".key", visiting),
              TypeBreaks(fl, t.value, u.value, path + ".value", visiting));
      } else if t.Tuple? && u.Tuple? {
        if |t.elems| != |u.elems| {
          Push(fl, path, TupleLength(|t.elems|, |u.elems|));
        } else {
          CheckEach(fl, t.elems, u.elems, path);
        }
      } else if t.Result? && u.Result? {
        CheckValueFlow(fl, t.ok, u.ok, path + ".ok");
        CheckValueFlow(fl, t.err, u.err, path + ".err");
        Assoc(old(breaks), TypeBreaks(fl, t.ok, u.ok, path + ".ok", visiting),
              TypeBreaks(fl, t.err, u.err, path + ".err", visiting));
      } else if t.Udt? && u.Udt? {
        CheckUdtFlow(fl, t.name, u.name, path);
      } else if t != u {
        Push(fl, path, TypeMismatch(t, u));
      }
    }

    /** Tuple elements, and union payloads, are checked position by position. */
    method CheckEach(fl: Flow, ts: seq<SpecType>, us: seq<SpecType>, path: string)
      requires |ts| == |us|
      modifies this
      ensures visiting == old(visiting)
      ensures breaks == old(breaks) + EachBreaks(fl, ts, us, path, |ts|, old(visiting))
      decreases |DeclaredPairs(fl) - visiting|, 1, ts
    {
      for i := 0 to |ts|
        invariant visiting == old(visiting)
        invariant breaks == old(breaks) + EachBreaks(fl, ts, us, path, i, visiting)
      {
        CheckValueFlow(fl, ts[i], us[i], path + "[" + Decimal(i) + "]");
        Assoc(old(breaks), EachBreaks(fl, ts, us, path, i, visiting),
              TypeBreaks(fl, ts[i], us[i], path + "[" + Decimal(i) + "]", visiting));
      }
    }

    method CheckUdtFlow(fl: Flow, a: Name, b: Name, path: string)
      modifies this
      ensures visiting == old(visiting)
      ensures breaks == old(breaks) + TypeBreaks(fl, Udt(a), Udt(b), path, old(visiting))
      decreases |DeclaredPairs(fl) - visiting|, 1, Udt(a), 0
    {
      hide DeclaredPairs, PairBreaks;
      var pair := (a, b);
      if pair in visiting { return; }
      UnusedShrinks(fl, visiting, pair);
      visiting := visiting + {pair};
      CheckUdtBody(fl, a, b, path);
      visiting := visiting - {pair};
    }

    method CheckUdtBody(fl: Flow, a: Name, b: Name, path: string)
      modifies this
      ensures visiting == old(visiting)
      ensures breaks == old(breaks) + PairBreaks(fl, (a, b), path, old(visiting))
      decreases |DeclaredPairs(fl) - visiting|, if SharedKind(fl, (a, b)) == NoKind then 0 else 4
    {
      if a in fl.producer.structs && b in fl.consumer.structs {
        CheckFields(fl, fl.producer.structs[a], fl.consumer.structs[b], path);
      } else if a in fl.producer.enums && b in fl.consumer.enums {
        CheckValues(fl, fl.producer.enums[a], fl.consumer.enums[b], path, false);
      } else if a in fl.producer.unions && b in fl.consumer.unions {
        CheckCases(fl, fl.producer.unions[a], fl.consumer.unions[b], path);
      } else if a in fl.producer.errorEnums && b in fl.consumer.errorEnums {
        CheckValues(fl, fl.producer.errorEnums[a], fl.consumer.errorEnums[b], path, true);
      } else {
        Push(fl, path, KindMismatch(a, b));
      }
    }

    method CheckFields(fl: Flow, a: Struct, b: Struct, path: string)
      modifies this
      ensures visiting == old(visiting)
      ensures breaks == old(breaks) + StructBreaks(fl, a, b, path, old(visiting))
      decreases |DeclaredPairs(fl) - visiting|, 2
    {
      var aFields, bFields := FieldTypes(a.fields), FieldTypes(b.fields);
      if aFields.Keys != bFields.Keys {
        Push(fl, path, FieldSets(aFields.Keys, bFields.Keys));
      } else {
        var names := CollectNames(aFields.Keys);
        for i := 0 to |names|
          invariant visiting == old(visiting)
          invariant breaks == old(breaks) + FieldBreaks(fl, aFields, bFields, names, path, i, visiting)
        {
          CheckValueFlow(fl, aFields[names[i]], bFields[names[i]], path + "." + names[i]);
          Assoc(old(breaks), FieldBreaks(fl, aFields, bFields, names, path, i, visiting),
                TypeBreaks(fl, aFields[names[i]], bFields[names[i]], path + "." + names[i], visiting));
        }
      }
    }

    method CheckCases(fl: Flow, a: Union, b: Union, path: string)
      modifies this
      ensures visiting == old(visiting)
      ensures breaks == old(breaks) + CaseBreaks(fl, a.cases, CasesByName(b.cases), path, |a.cases|, old(visiting))
      decreases |DeclaredPairs(fl) - visiting|, 3
    {
      var accepted := CasesByName(b.cases);
      for i := 0 to |a.cases|
        invariant visiting == old(visiting)
        invariant breaks == old(breaks) + CaseBreaks(fl, a.cases, accepted, path, i, visiting)
      {
        CheckCase(fl, a.cases[i], accepted, path);
        Assoc(old(breaks), CaseBreaks(fl, a.cases, accepted, path, i, visiting),
              OneCaseBreaks(fl, a.cases[i], accepted, path, visiting));
      }
    }

    method CheckCase(fl: Flow, c: UnionCase, accepted: map<Name, UnionCase>, path: string)
      modifies this
      ensures visiting == old(visiting)
      ensures breaks == old(breaks) + OneCaseBreaks(fl, c, accepted, path, old(visiting))
      decreases |DeclaredPairs(fl) - visiting|, 2
    {
      var casePath := path + ".case." + c.name;
      if c.name !in accepted {
        Push(fl, casePath, UndefinedCase);
        return;
      }
      var d := accepted[c.name];
      if c.VoidCase? && d.VoidCase? {
      } else if c.TupleCase? && d.TupleCase? && |c.types| == |d.types| {
        CheckEach(fl, c.types, d.types, casePath);
      } else {
        Push(fl, casePath, CaseShape);
      }
    }

    method CheckValues(fl: Flow, a: Enum, b: Enum, path: string, error: bool)
      modifies this`breaks
      ensures breaks == old(breaks) + ValueBreaks(fl, MissingValues(a, b), path, error)
    {
      hide MissingValues, ValueBreak;
      var values := CollectMissing(a, b);
      for i := 0 to |values|
        invariant breaks == old(breaks) + ValueBreaks(fl, values[..i], path, error)
      {
        PushValue(fl, values[i], path, error);
        Assoc(old(breaks), ValueBreaks(fl, values[..i], path, error), [ValueBreak(fl, values[i], path, error)]);
        assert values[..i + 1][..i] == values[..i];
      }
      assert values[..|values|] == values;
    }

    method PushValue(fl: Flow, v: uint32, path: string, error: bool)
      modifies this`breaks
      ensures breaks == old(breaks) + [ValueBreak(fl, v, path, error)]
    {
      if error {
        Push(fl, path + ".error[" + Decimal(v as nat) + "]", UndefinedError(v));
      } else {
        Push(fl, path + ".case[" + Decimal(v as nat) + "]", UndefinedDiscriminant(v));
      }
    }
  }
}
