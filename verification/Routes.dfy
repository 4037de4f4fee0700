/** What the report of the call-ABI checker holds, told apart from the walk that
    makes it: every mismatch that a route from the compared types leads to. */
module Routes {
  import opened Prelude
  import opened Ordering
  import opened Spec
  import opened Text
  import opened CallAbi

  /** Two types being compared, where they are, and the pairs in progress. */
  datatype Visit = Visit(t: SpecType, u: SpecType, path: string, seen: set<Pair>)

  // ------------------------------------------------------------------
  // Declarations, read with the last of each name
  // ------------------------------------------------------------------

  ghost predicate LastField(fields: seq<Field>, n: Name, i: int) {
    0 <= i < |fields| && fields[i].name == n && forall j :: i < j < |fields| ==> fields[j].name != n
  }

  ghost predicate FieldIs(fields: seq<Field>, n: Name, ty: SpecType) {
    exists i :: LastField(fields, n, i) && fields[i].ty == ty
  }

  ghost predicate LastCase(cases: seq<UnionCase>, n: Name, i: int) {
    0 <= i < |cases| && cases[i].name == n && forall j :: i < j < |cases| ==> cases[j].name != n
  }

  ghost predicate CaseIs(cases: seq<UnionCase>, n: Name, c: UnionCase) {
    exists i :: LastCase(cases, n, i) && cases[i] == c
  }

  ghost function FieldNames(fields: seq<Field>): set<Name> {
    set f | f in fields :: f.name
  }

  ghost predicate HasValue(e: Enum, x: uint32) {
    exists c :: c in e.cases && c.value == x
  }

  // ------------------------------------------------------------------
  // One step of a route
  // ------------------------------------------------------------------

  ghost predicate ToElement(ts: seq<SpecType>, us: seq<SpecType>, path: string, w: Visit)
    requires |ts| == |us|
  {
    exists i :: 0 <= i < |ts| && w.t == ts[i] && w.u == us[i] && w.path == path + "[" + Decimal(i) + "]"
  }

  /** To a part of the two types, with the same pairs in progress. */
  ghost predicate ToPart(v: Visit, w: Visit) {
    w.seen == v.seen &&
    (  (v.t.Option? && v.u.Option? && w.t == v.t.inner && w.u == v.u.inner && w.path == v.path + ".some")
    || (v.t.Vec? && v.u.Vec? && w.t == v.t.elem && w.u == v.u.elem && w.path == v.path + "[*]")
    || (v.t.Map? && v.u.Map? && w.t == v.t.key && w.u == v.u.key && w.path == v.path + ".key")
    || (v.t.Map? && v.u.Map? && w.t == v.t.value && w.u == v.u.value && w.path == v.path + ".value")
    || (v.t.Result? && v.u.Result? && w.t == v.t.ok && w.u == v.u.ok && w.path == v.path + ".ok")
    || (v.t.Result? && v.u.Result? && w.t == v.t.err && w.u == v.u.err && w.path == v.path + ".err")
    || (v.t.Tuple? && v.u.Tuple? && |v.t.elems| == |v.u.elems| && ToElement(v.t.elems, v.u.elems, v.path, w)))
  }

  /** To a field of two structs that have the same field names. */
  ghost predicate ToField(s: Struct, t: Struct, path: string, w: Visit) {
    FieldNames(s.fields) == FieldNames(t.fields)
    && exists n :: FieldIs(s.fields, n, w.t) && FieldIs(t.fields, n, w.u) && w.path == path + "." + n
  }

  /** To a position of the payload that both unions give a case. */
  ghost predicate ToPayload(s: Union, t: Union, path: string, w: Visit) {
    exists c, d :: c in s.cases && CaseIs(t.cases, c.name, d) && c.TupleCase? && d.TupleCase?
      && |c.types| == |d.types| && ToElement(c.types, d.types, path + ".case." + c.name, w)
  }

  ghost predicate BothStructs(fl: Flow, p: Pair) { p.0 in fl.producer.structs && p.1 in fl.consumer.structs }

  ghost predicate BothEnums(fl: Flow, p: Pair) { p.0 in fl.producer.enums && p.1 in fl.consumer.enums }

  ghost predicate BothUnions(fl: Flow, p: Pair) { p.0 in fl.producer.unions && p.1 in fl.consumer.unions }

  ghost predicate BothErrors(fl: Flow, p: Pair) { p.0 in fl.producer.errorEnums && p.1 in fl.consumer.errorEnums }

  /** Into two declarations: as structs if both are, else as unions unless both
      are enums. */
  ghost predicate IntoPair(fl: Flow, p: Pair, path: string, w: Visit) {
    if BothStructs(fl, p) then ToField(fl.producer.structs[p.0], fl.consumer.structs[p.1], path, w)
    else !BothEnums(fl, p) && BothUnions(fl, p) && ToPayload(fl.producer.unions[p.0], fl.consumer.unions[p.1], path, w)
  }

  /** A named pair is entered unless it is in progress, and then it is. */
  ghost predicate Leads(fl: Flow, v: Visit, w: Visit) {
    if v.t.Udt? && v.u.Udt? then
      var p := (v.t.name, v.u.name);
      p !in v.seen && w.seen == v.seen + {p} && IntoPair(fl, p, v.path, w)
    else ToPart(v, w)
  }

  // ------------------------------------------------------------------
  // What can be wrong where a route ends
  // ------------------------------------------------------------------

  ghost predicate TellsValue(path: string, error: bool, v: uint32, x: Break) {
    && x.path == path + (if error then ".error[" else ".case[") + Decimal(v as nat) + "]"
    && x.reason == if error then UndefinedError(v) else UndefinedDiscriminant(v)
  }

  ghost predicate LacksValue(a: Enum, b: Enum, path: string, error: bool, x: Break) {
    exists v :: HasValue(a, v) && !HasValue(b, v) && TellsValue(path, error, v, x)
  }

  predicate DifferInShape(c: UnionCase, d: UnionCase) {
    c.VoidCase? != d.VoidCase? || (c.TupleCase? && |c.types| != |d.types|)
  }

  ghost predicate CaseMismatch(c: UnionCase, accepted: seq<UnionCase>, path: string, x: Break) {
    x.path == path + ".case." + c.name &&
    (  (x.reason == UndefinedCase && forall d :: d in accepted ==> d.name != c.name)
    || (x.reason == Reason.CaseShape && exists d :: CaseIs(accepted, c.name, d) && DifferInShape(c, d)))
  }

  ghost predicate PairMismatch(fl: Flow, p: Pair, path: string, x: Break) {
    if BothStructs(fl, p) then
      var a, b := FieldNames(fl.producer.structs[p.0].fields), FieldNames(fl.consumer.structs[p.1].fields);
      a != b && x.path == path && x.reason == FieldSets(a, b)
    else if BothEnums(fl, p) then LacksValue(fl.producer.enums[p.0], fl.consumer.enums[p.1], path, false, x)
    else if BothUnions(fl, p) then
      exists c :: c in fl.producer.unions[p.0].cases && CaseMismatch(c, fl.consumer.unions[p.1].cases, path, x)
    else if BothErrors(fl, p) then LacksValue(fl.producer.errorEnums[p.0], fl.consumer.errorEnums[p.1], path, true, x)
    else x.path == path && x.reason == KindMismatch(p.0, p.1)
  }

  predicate SameContainer(t: SpecType, u: SpecType) {
    (t.Option? && u.Option?) || (t.Vec? && u.Vec?) || (t.Map? && u.Map?) || (t.Result? && u.Result?)
  }

  /** The break that these two types have themselves. */
  ghost predicate Mismatch(fl: Flow, v: Visit, x: Break) {
    x.fn == fl.fn && !v.u.Val? &&
    if v.t.Udt? && v.u.Udt? then
      (v.t.name, v.u.name) !in v.seen && PairMismatch(fl, (v.t.name, v.u.name), v.path, x)
    else if v.t.Tuple? && v.u.Tuple? then
      |v.t.elems| != |v.u.elems| && x.path == v.path && x.reason == TupleLength(|v.t.elems|, |v.u.elems|)
    else
      !SameContainer(v.t, v.u) && v.t != v.u && x.path == v.path && x.reason == TypeMismatch(v.t, v.u)
  }

  /** A route of n steps ends at this mismatch. */
  ghost predicate Found(fl: Flow, v: Visit, x: Break, n: nat)
    decreases n
  {
    if n == 0 then Mismatch(fl, v, x) else exists w :: Leads(fl, v, w) && Found(fl, w, x, n - 1)
  }

  ghost predicate IsFound(fl: Flow, v: Visit, x: Break) {
    exists n :: Found(fl, v, x, n)
  }

  // ------------------------------------------------------------------
  // The walk's own functions, element by element
  // ------------------------------------------------------------------

  ghost function BreaksAt(fl: Flow, w: Visit): seq<Break> {
    TypeBreaks(fl, w.t, w.u, w.path, w.seen)
  }

  /** Some visit that this step allows has the break. */
  ghost predicate Below(fl: Flow, v: Visit, x: Break) {
    exists w :: Leads(fl, v, w) && x in BreaksAt(fl, w)
  }

  ghost function ElementVisit(ts: seq<SpecType>, us: seq<SpecType>, path: string, i: nat, seen: set<Pair>): Visit
    requires i < |ts| == |us|
  {
    Visit(ts[i], us[i], path + "[" + Decimal(i) + "]", seen)
  }

  lemma {:induction false} EachMember(fl: Flow, ts: seq<SpecType>, us: seq<SpecType>, path: string, n: nat, seen: set<Pair>, x: Break)
    requires n <= |ts| == |us|
    ensures x in EachBreaks(fl, ts, us, path, n, seen)
       <==> exists i :: 0 <= i < n && x in BreaksAt(fl, ElementVisit(ts, us, path, i, seen))
  {
    hide TypeBreaks;
    if n > 0 {
      EachMember(fl, ts, us, path, n - 1, seen, x);
      assert BreaksAt(fl, ElementVisit(ts, us, path, n - 1, seen))
          == TypeBreaks(fl, ts[n - 1], us[n - 1], path + "[" + Decimal(n - 1) + "]", seen);
    }
  }

  lemma EachIsBelow(fl: Flow, ts: seq<SpecType>, us: seq<SpecType>, path: string, seen: set<Pair>, x: Break)
    requires |ts| == |us|
    ensures x in EachBreaks(fl, ts, us, path, |ts|, seen)
       <==> exists w :: ToElement(ts, us, path, w) && w.seen == seen && x in BreaksAt(fl, w)
  {
    EachMember(fl, ts, us, path, |ts|, seen, x);
    hide TypeBreaks, EachBreaks, BreaksAt;
    if i :| 0 <= i < |ts| && x in BreaksAt(fl, ElementVisit(ts, us, path, i, seen)) {
      assert ToElement(ts, us, path, ElementVisit(ts, us, path, i, seen));
    }
    if w :| ToElement(ts, us, path, w) && w.seen == seen && x in BreaksAt(fl, w) {
      var i :| 0 <= i < |ts| && w.t == ts[i] && w.u == us[i] && w.path == path + "[" + Decimal(i) + "]";
      assert w == ElementVisit(ts, us, path, i, seen);
    }
  }

  lemma LastFieldStep(fields: seq<Field>, n: Name, i: int)
    requires fields != []
    ensures
      var k := |fields| - 1;
      LastField(fields, n, i) <==> if fields[k].name == n then i == k else LastField(fields[..k], n, i)
  {
  }

  lemma FieldIsLast(fields: seq<Field>, n: Name, ty: SpecType)
    requires fields != []
    ensures
      var k := |fields| - 1;
      FieldIs(fields, n, ty) <==> if fields[k].name == n then ty == fields[k].ty else FieldIs(fields[..k], n, ty)
  {
    var k := |fields| - 1;
    forall i ensures LastField(fields, n, i) <==> if fields[k].name == n then i == k else LastField(fields[..k], n, i) {
      LastFieldStep(fields, n, i);
    }
    assert forall i :: LastField(fields[..k], n, i) ==> fields[..k][i] == fields[i];
    hide LastField;
  }

  lemma {:induction false} FieldNamesAre(fields: seq<Field>)
    ensures FieldTypes(fields).Keys == FieldNames(fields)
  {
    if fields != [] {
      var k := |fields| - 1;
      FieldNamesAre(fields[..k]);
      assert fields == fields[..k] + [fields[k]];
      assert FieldNames(fields) == FieldNames(fields[..k]) + {fields[k].name};
    }
  }

  lemma {:induction false} FieldTypeIs(fields: seq<Field>, n: Name, ty: SpecType)
    ensures FieldIs(fields, n, ty) <==> n in FieldTypes(fields) && FieldTypes(fields)[n] == ty
  {
    if fields != [] {
      FieldIsLast(fields, n, ty);
      FieldTypeIs(fields[..|fields| - 1], n, ty);
    }
  }

  lemma LastCaseStep(cases: seq<UnionCase>, n: Name, i: int)
    requires cases != []
    ensures
      var k := |cases| - 1;
      LastCase(cases, n, i) <==> if cases[k].name == n then i == k else LastCase(cases[..k], n, i)
  {
  }

  lemma CaseIsLast(cases: seq<UnionCase>, n: Name, c: UnionCase)
    requires cases != []
    ensures
      var k := |cases| - 1;
      CaseIs(cases, n, c) <==> if cases[k].name == n then c == cases[k] else CaseIs(cases[..k], n, c)
  {
    var k := |cases| - 1;
    forall i ensures LastCase(cases, n, i) <==> if cases[k].name == n then i == k else LastCase(cases[..k], n, i) {
      LastCaseStep(cases, n, i);
    }
    assert forall i :: LastCase(cases[..k], n, i) ==> cases[..k][i] == cases[i];
    hide LastCase;
  }

  lemma {:induction false} CaseByNameIs(cases: seq<UnionCase>, n: Name, c: UnionCase)
    ensures CaseIs(cases, n, c) <==> n in CasesByName(cases) && CasesByName(cases)[n] == c
  {
    if cases != [] {
      CaseIsLast(cases, n, c);
      CaseByNameIs(cases[..|cases| - 1], n, c);
    }
  }

  lemma {:induction false} CaseNamed(cases: seq<UnionCase>, n: Name)
    ensures n in CasesByName(cases) <==> exists d :: d in cases && d.name == n
  {
    if cases != [] {
      var k := |cases| - 1;
      CaseNamed(cases[..k], n);
      assert cases == cases[..k] + [cases[k]];
    }
  }

  lemma {:induction false} FieldMember(fl: Flow, a: map<Name, SpecType>, b: map<Name, SpecType>, names: seq<Name>, path: string, n: nat, seen: set<Pair>, x: Break)
    requires n <= |names| && forall y :: y in names ==> y in a && y in b
    ensures x in FieldBreaks(fl, a, b, names, path, n, seen) <==>
      exists i :: 0 <= i < n && names[i] in names && x in BreaksAt(fl, Visit(a[names[i]], b[names[i]], path + "." + names[i], seen))
  {
    hide TypeBreaks;
    if n > 0 {
      FieldMember(fl, a, b, names, path, n - 1, seen, x);
      var y := names[n - 1];
      assert y in names;
      assert BreaksAt(fl, Visit(a[y], b[y], path + "." + y, seen)) == TypeBreaks(fl, a[y], b[y], path + "." + y, seen);
    }
  }

  lemma {:induction false} CaseMember(fl: Flow, cases: seq<UnionCase>, accepted: map<Name, UnionCase>, path: string, n: nat, seen: set<Pair>, x: Break)
    requires n <= |cases|
    ensures x in CaseBreaks(fl, cases, accepted, path, n, seen)
       <==> exists i :: 0 <= i < n && x in OneCaseBreaks(fl, cases[i], accepted, path, seen)
  {
    hide OneCaseBreaks;
    if n > 0 {
      CaseMember(fl, cases, accepted, path, n - 1, seen, x);
    }
  }

  lemma {:induction false} ValueMember(fl: Flow, values: seq<uint32>, path: string, error: bool, x: Break)
    ensures x in ValueBreaks(fl, values, path, error) <==> exists v :: v in values && x == ValueBreak(fl, v, path, error)
  {
    hide ValueBreak;
    if values != [] {
      var k := |values| - 1;
      ValueMember(fl, values[..k], path, error, x);
      assert values == values[..k] + [values[k]];
    }
  }

  // ------------------------------------------------------------------
  // One step, exactly
  // ------------------------------------------------------------------

  lemma MissingAre(a: Enum, b: Enum)
    ensures forall v :: v in MissingValues(a, b) <==> HasValue(a, v) && !HasValue(b, v)
  {
    forall v ensures v in MissingValues(a, b) <==> HasValue(a, v) && !HasValue(b, v) {
      assert v in Values(a.cases) <==> HasValue(a, v);
      assert v in Values(b.cases) <==> HasValue(b, v);
    }
  }

  lemma ValueBreakTells(fl: Flow, path: string, error: bool, v: uint32, x: Break)
    ensures x == ValueBreak(fl, v, path, error) <==> x.fn == fl.fn && TellsValue(path, error, v, x)
  {
  }

  lemma LacksIsExact(fl: Flow, a: Enum, b: Enum, path: string, error: bool, x: Break)
    ensures x in ValueBreaks(fl, MissingValues(a, b), path, error) <==> x.fn == fl.fn && LacksValue(a, b, path, error, x)
  {
    ValueMember(fl, MissingValues(a, b), path, error, x);
    MissingAre(a, b);
    forall v ensures x == ValueBreak(fl, v, path, error) <==> x.fn == fl.fn && TellsValue(path, error, v, x) {
      ValueBreakTells(fl, path, error, v, x);
    }
    hide ValueBreaks, ValueBreak, MissingValues, HasValue, TellsValue;
  }

  /** What is found below some field of the two structs. */
  ghost predicate InField(fl: Flow, s: Struct, t: Struct, path: string, seen: set<Pair>, x: Break) {
    exists w :: ToField(s, t, path, w) && w.seen == seen && x in BreaksAt(fl, w)
  }

  lemma FieldVisit(s: Struct, t: Struct, path: string, w: Visit, n: Name)
    requires FieldNames(s.fields) == FieldNames(t.fields) && n in FieldTypes(s.fields) && n in FieldTypes(t.fields)
    requires w.t == FieldTypes(s.fields)[n] && w.u == FieldTypes(t.fields)[n] && w.path == path + "." + n
    ensures ToField(s, t, path, w)
  {
    FieldTypeIs(s.fields, n, w.t);
    FieldTypeIs(t.fields, n, w.u);
  }

  lemma VisitedField(s: Struct, t: Struct, path: string, w: Visit) returns (n: Name)
    requires ToField(s, t, path, w)
    ensures n in FieldTypes(s.fields) && n in FieldTypes(t.fields)
    ensures w.t == FieldTypes(s.fields)[n] && w.u == FieldTypes(t.fields)[n] && w.path == path + "." + n
  {
    n :| FieldIs(s.fields, n, w.t) && FieldIs(t.fields, n, w.u) && w.path == path + "." + n;
    FieldTypeIs(s.fields, n, w.t);
    FieldTypeIs(t.fields, n, w.u);
  }

  /** What is found below the field of this name. */
  ghost predicate InNamed(fl: Flow, s: Struct, t: Struct, n: Name, path: string, seen: set<Pair>, x: Break) {
    n in FieldTypes(s.fields) && n in FieldTypes(t.fields)
    && x in BreaksAt(fl, Visit(FieldTypes(s.fields)[n], FieldTypes(t.fields)[n], path + "." + n, seen))
  }

  lemma NamedField(fl: Flow, s: Struct, t: Struct, path: string, seen: set<Pair>, x: Break)
    requires FieldNames(s.fields) == FieldNames(t.fields)
    ensures InField(fl, s, t, path, seen, x) <==> exists n :: InNamed(fl, s, t, n, path, seen, x)
  {
    hide BreaksAt, FieldTypes, ToField, FieldNames;
    if n :| InNamed(fl, s, t, n, path, seen, x) {
      FieldVisit(s, t, path, Visit(FieldTypes(s.fields)[n], FieldTypes(t.fields)[n], path + "." + n, seen), n);
    }
    if w :| ToField(s, t, path, w) && w.seen == seen && x in BreaksAt(fl, w) {
      var n := VisitedField(s, t, path, w);
      assert w == Visit(FieldTypes(s.fields)[n], FieldTypes(t.fields)[n], path + "." + n, seen);
      assert InNamed(fl, s, t, n, path, seen, x);
    }
  }

  lemma FieldsBelow(fl: Flow, s: Struct, t: Struct, names: seq<Name>, path: string, seen: set<Pair>, x: Break)
    requires FieldNames(s.fields) == FieldNames(t.fields)
    requires forall n :: n in names <==> n in FieldTypes(s.fields)
    requires FieldTypes(s.fields).Keys == FieldTypes(t.fields).Keys
    ensures x in FieldBreaks(fl, FieldTypes(s.fields), FieldTypes(t.fields), names, path, |names|, seen)
       <==> InField(fl, s, t, path, seen, x)
  {
    FieldMember(fl, FieldTypes(s.fields), FieldTypes(t.fields), names, path, |names|, seen, x);
    NamedField(fl, s, t, path, seen, x);
    hide BreaksAt, FieldTypes, FieldNames, FieldBreaks, InField;
    if n :| InNamed(fl, s, t, n, path, seen, x) {
      var i :| 0 <= i < |names| && names[i] == n;
      assert names[i] in names;
    }
    forall i | 0 <= i < |names|
      ensures names[i] in names
      ensures InNamed(fl, s, t, names[i], path, seen, x)
         <==> x in BreaksAt(fl, Visit(FieldTypes(s.fields)[names[i]], FieldTypes(t.fields)[names[i]], path + "." + names[i], seen))
    {
      assert names[i] in names;
    }
  }

  /** The two structs' own mismatch, or one below a field. */
  lemma StructStep(fl: Flow, s: Struct, t: Struct, path: string, seen: set<Pair>, x: Break)
    ensures x in StructBreaks(fl, s, t, path, seen) <==>
      || (FieldNames(s.fields) != FieldNames(t.fields) && x == Break(fl.fn, path, FieldSets(FieldNames(s.fields), FieldNames(t.fields))))
      || InField(fl, s, t, path, seen, x)
  {
    FieldNamesAre(s.fields);
    FieldNamesAre(t.fields);
    var a, b := FieldTypes(s.fields), FieldTypes(t.fields);
    hide TypeBreaks, BreaksAt, FieldTypes, FieldNames, SortedNames, FieldBreaks, FieldIs;
    if a.Keys == b.Keys {
      var names := SortedNames(a.Keys);
      SortedNamesAscend(a.Keys);
      FieldsBelow(fl, s, t, names, path, seen, x);
    }
  }

  ghost predicate InPayload(fl: Flow, c: UnionCase, accepted: seq<UnionCase>, path: string, seen: set<Pair>, x: Break) {
    exists d, w :: CaseIs(accepted, c.name, d) && c.TupleCase? && d.TupleCase? && |c.types| == |d.types|
      && ToElement(c.types, d.types, path + ".case." + c.name, w) && w.seen == seen && x in BreaksAt(fl, w)
  }

  lemma KnownCase(accepted: seq<UnionCase>, n: Name)
    ensures n !in CasesByName(accepted) ==> forall d :: d in accepted ==> d.name != n
    ensures n in CasesByName(accepted) ==> exists d :: d in accepted && d.name == n
    ensures forall d :: CaseIs(accepted, n, d) <==> n in CasesByName(accepted) && CasesByName(accepted)[n] == d
  {
    CaseNamed(accepted, n);
    forall d ensures CaseIs(accepted, n, d) <==> n in CasesByName(accepted) && CasesByName(accepted)[n] == d {
      CaseByNameIs(accepted, n, d);
    }
  }

  /** The payload of a case that both sides give the same shape. */
  lemma PayloadStep(fl: Flow, c: UnionCase, d: UnionCase, accepted: seq<UnionCase>, path: string, seen: set<Pair>, x: Break)
    requires forall e :: CaseIs(accepted, c.name, e) <==> e == d
    requires c.TupleCase? && d.TupleCase? && |c.types| == |d.types|
    ensures x in EachBreaks(fl, c.types, d.types, path + ".case." + c.name, |c.types|, seen) <==> InPayload(fl, c, accepted, path, seen, x)
  {
    EachIsBelow(fl, c.types, d.types, path + ".case." + c.name, seen, x);
    hide CaseIs, EachBreaks, BreaksAt, ToElement;
    assert CaseIs(accepted, c.name, d);
  }

  lemma OwnCaseMismatch(fl: Flow, c: UnionCase, accepted: seq<UnionCase>, path: string, x: Break)
    ensures x.fn == fl.fn && CaseMismatch(c, accepted, path, x) <==>
      var known := CasesByName(accepted);
      if c.name !in known then x == Break(fl.fn, path + ".case." + c.name, UndefinedCase)
      else DifferInShape(c, known[c.name]) && x == Break(fl.fn, path + ".case." + c.name, Reason.CaseShape)
  {
    KnownCase(accepted, c.name);
    hide CasesByName, CaseIs, DifferInShape;
  }

  lemma CaseStep(fl: Flow, c: UnionCase, accepted: seq<UnionCase>, path: string, seen: set<Pair>, x: Break)
    ensures x in OneCaseBreaks(fl, c, CasesByName(accepted), path, seen) <==>
      || (x.fn == fl.fn && CaseMismatch(c, accepted, path, x))
      || InPayload(fl, c, accepted, path, seen, x)
  {
    var known := CasesByName(accepted);
    KnownCase(accepted, c.name);
    OwnCaseMismatch(fl, c, accepted, path, x);
    hide CasesByName, CaseIs, CaseMismatch, EachBreaks, BreaksAt, ToElement;
    if c.name in known && c.TupleCase? && known[c.name].TupleCase? && |c.types| == |known[c.name].types| {
      PayloadStep(fl, c, known[c.name], accepted, path, seen, x);
    }
  }

  ghost predicate InCases(fl: Flow, s: Union, t: Union, path: string, seen: set<Pair>, x: Break) {
    exists w :: ToPayload(s, t, path, w) && w.seen == seen && x in BreaksAt(fl, w)
  }

  lemma UnionStep(fl: Flow, s: Union, t: Union, path: string, seen: set<Pair>, x: Break)
    ensures x in CaseBreaks(fl, s.cases, CasesByName(t.cases), path, |s.cases|, seen) <==>
      || (x.fn == fl.fn && exists c :: c in s.cases && CaseMismatch(c, t.cases, path, x))
      || InCases(fl, s, t, path, seen, x)
  {
    var known := CasesByName(t.cases);
    CaseMember(fl, s.cases, known, path, |s.cases|, seen, x);
    forall c ensures x in OneCaseBreaks(fl, c, known, path, seen) <==>
      (x.fn == fl.fn && CaseMismatch(c, t.cases, path, x)) || InPayload(fl, c, t.cases, path, seen, x)
    {
      CaseStep(fl, c, t.cases, path, seen, x);
    }
    hide OneCaseBreaks, CaseBreaks, CasesByName, CaseIs, BreaksAt, ToElement, CaseMismatch;
    if i :| 0 <= i < |s.cases| && x in OneCaseBreaks(fl, s.cases[i], known, path, seen) {
      assert s.cases[i] in s.cases;
    }
  }

  ghost predicate InPair(fl: Flow, p: Pair, path: string, seen: set<Pair>, x: Break) {
    exists w :: IntoPair(fl, p, path, w) && w.seen == seen && x in BreaksAt(fl, w)
  }

  lemma PairStep(fl: Flow, p: Pair, path: string, seen: set<Pair>, x: Break)
    ensures x in PairBreaks(fl, p, path, seen) <==>
      (x.fn == fl.fn && PairMismatch(fl, p, path, x)) || InPair(fl, p, path, seen, x)
  {
    hide StructBreaks, ValueBreaks, CaseBreaks, BreaksAt, ToField, ToPayload, LacksValue, CaseMismatch, MissingValues, FieldNames, CasesByName;
    if BothStructs(fl, p) {
      StructStep(fl, fl.producer.structs[p.0], fl.consumer.structs[p.1], path, seen, x);
    } else if BothEnums(fl, p) {
      LacksIsExact(fl, fl.producer.enums[p.0], fl.consumer.enums[p.1], path, false, x);
    } else if BothUnions(fl, p) {
      UnionStep(fl, fl.producer.unions[p.0], fl.consumer.unions[p.1], path, seen, x);
    } else if BothErrors(fl, p) {
      LacksIsExact(fl, fl.producer.errorEnums[p.0], fl.consumer.errorEnums[p.1], path, true, x);
    }
  }

  lemma UdtBreaks(fl: Flow, v: Visit)
    requires v.t.Udt? && v.u.Udt?
    ensures
      var p := (v.t.name, v.u.name);
      BreaksAt(fl, v) == if p in v.seen then [] else PairBreaks(fl, p, v.path, v.seen + {p})
  {
    hide PairBreaks;
  }

  lemma UdtBelow(fl: Flow, v: Visit, x: Break)
    requires v.t.Udt? && v.u.Udt?
    ensures
      var p := (v.t.name, v.u.name);
      Below(fl, v, x) <==> p !in v.seen && InPair(fl, p, v.path, v.seen + {p}, x)
  {
    hide BreaksAt, IntoPair;
    var p := (v.t.name, v.u.name);
    forall w ensures Leads(fl, v, w) <==> p !in v.seen && w.seen == v.seen + {p} && IntoPair(fl, p, v.path, w) {
    }
    hide Leads;
  }

  lemma UdtStep(fl: Flow, v: Visit, x: Break)
    requires v.t.Udt? && v.u.Udt?
    ensures x in BreaksAt(fl, v) <==> Mismatch(fl, v, x) || Below(fl, v, x)
  {
    var p := (v.t.name, v.u.name);
    PairStep(fl, p, v.path, v.seen + {p}, x);
    UdtBreaks(fl, v);
    UdtBelow(fl, v, x);
    hide PairBreaks, PairMismatch, InPair, BreaksAt, Below;
  }

  /** Options and vectors have one part. */
  lemma OnePartStep(fl: Flow, v: Visit, x: Break)
    requires (v.t.Option? && v.u.Option?) || (v.t.Vec? && v.u.Vec?)
    ensures x in BreaksAt(fl, v) <==> Mismatch(fl, v, x) || Below(fl, v, x)
  {
    var w := if v.t.Option? then Visit(v.t.inner, v.u.inner, v.path + ".some", v.seen) else Visit(v.t.elem, v.u.elem, v.path + "[*]", v.seen);
    assert BreaksAt(fl, v) == BreaksAt(fl, w);
    hide TypeBreaks, BreaksAt;
    assert Leads(fl, v, w) && forall y :: Leads(fl, v, y) ==> y == w;
  }

  /** Maps and results have two. */
  lemma TwoPartStep(fl: Flow, v: Visit, x: Break)
    requires (v.t.Map? && v.u.Map?) || (v.t.Result? && v.u.Result?)
    ensures x in BreaksAt(fl, v) <==> Mismatch(fl, v, x) || Below(fl, v, x)
  {
    var w := if v.t.Map? then Visit(v.t.key, v.u.key, v.path + ".key", v.seen) else Visit(v.t.ok, v.u.ok, v.path + ".ok", v.seen);
    var z := if v.t.Map? then Visit(v.t.value, v.u.value, v.path + ".value", v.seen) else Visit(v.t.err, v.u.err, v.path + ".err", v.seen);
    assert BreaksAt(fl, v) == BreaksAt(fl, w) + BreaksAt(fl, z);
    hide TypeBreaks, BreaksAt;
    assert Leads(fl, v, w) && Leads(fl, v, z) && forall y :: Leads(fl, v, y) ==> y == w || y == z;
  }

  lemma TupleStep(fl: Flow, v: Visit, x: Break)
    requires v.t.Tuple? && v.u.Tuple?
    ensures x in BreaksAt(fl, v) <==> Mismatch(fl, v, x) || Below(fl, v, x)
  {
    if |v.t.elems| == |v.u.elems| {
      EachIsBelow(fl, v.t.elems, v.u.elems, v.path, v.seen, x);
      assert BreaksAt(fl, v) == EachBreaks(fl, v.t.elems, v.u.elems, v.path, |v.t.elems|, v.seen);
      hide TypeBreaks, BreaksAt, EachBreaks, ToElement;
      assert forall w :: Leads(fl, v, w) <==> ToElement(v.t.elems, v.u.elems, v.path, w) && w.seen == v.seen;
    } else {
      assert forall w :: !Leads(fl, v, w);
    }
  }

  /** A visit has its own mismatch and what its steps lead to, and no more. */
  lemma StepIsExact(fl: Flow, v: Visit, x: Break)
    ensures x in BreaksAt(fl, v) <==> Mismatch(fl, v, x) || Below(fl, v, x)
  {
    if v.t.Udt? && v.u.Udt? {
      UdtStep(fl, v, x);
    } else if (v.t.Option? && v.u.Option?) || (v.t.Vec? && v.u.Vec?) {
      OnePartStep(fl, v, x);
    } else if (v.t.Map? && v.u.Map?) || (v.t.Result? && v.u.Result?) {
      TwoPartStep(fl, v, x);
    } else if v.t.Tuple? && v.u.Tuple? {
      TupleStep(fl, v, x);
    } else {
      assert forall w :: !Leads(fl, v, w);
    }
  }

  // ------------------------------------------------------------------
  // Whole routes
  // ------------------------------------------------------------------

  /** Each step enters a pair that was not in progress, or a smaller type. */
  lemma StepShrinks(fl: Flow, v: Visit, w: Visit)
    requires Leads(fl, v, w) && v.t.Udt? && v.u.Udt?
    ensures |DeclaredPairs(fl) - w.seen| < |DeclaredPairs(fl) - v.seen|
  {
    UnusedShrinks(fl, v.seen, (v.t.name, v.u.name));
  }

  lemma NextOnRoute(fl: Flow, v: Visit, x: Break) returns (w: Visit)
    requires x in BreaksAt(fl, v) && !Mismatch(fl, v, x)
    ensures Leads(fl, v, w) && x in BreaksAt(fl, w)
    ensures v.t.Udt? && v.u.Udt? ==> |DeclaredPairs(fl) - w.seen| < |DeclaredPairs(fl) - v.seen|
  {
    StepIsExact(fl, v, x);
    hide DeclaredPairs, BreaksAt, Mismatch;
    w :| Leads(fl, v, w) && x in BreaksAt(fl, w);
    if v.t.Udt? && v.u.Udt? {
      StepShrinks(fl, v, w);
    }
  }

  lemma {:induction false} BreakIsFound(fl: Flow, v: Visit, x: Break) returns (n: nat)
    requires x in BreaksAt(fl, v)
    ensures Found(fl, v, x, n)
    decreases |DeclaredPairs(fl) - v.seen|, v.t, 1
  {
    hide DeclaredPairs, BreaksAt, Leads, Mismatch;
    if Mismatch(fl, v, x) {
      n := 0;
    } else {
      var w := NextOnRoute(fl, v, x);
      var m;
      if v.t.Udt? && v.u.Udt? {
        m := BreakIsFound(fl, w, x);
      } else {
        m := PartIsFound(fl, v, w, x);
      }
      n := m + 1;
    }
  }

  lemma {:induction false} PartIsFound(fl: Flow, v: Visit, w: Visit, x: Break) returns (n: nat)
    requires Leads(fl, v, w) && !(v.t.Udt? && v.u.Udt?) && x in BreaksAt(fl, w)
    ensures Found(fl, w, x, n)
    decreases |DeclaredPairs(fl) - v.seen|, v.t, 0
  {
    hide DeclaredPairs, BreaksAt, Found;
    n := BreakIsFound(fl, w, x);
  }

  lemma {:induction false} FoundIsBreak(fl: Flow, v: Visit, x: Break, n: nat)
    requires Found(fl, v, x, n)
    ensures x in BreaksAt(fl, v)
    decreases n
  {
    StepIsExact(fl, v, x);
    hide BreaksAt, Leads, Mismatch;
    if n > 0 {
      var w :| Leads(fl, v, w) && Found(fl, w, x, n - 1);
      FoundIsBreak(fl, w, x, n - 1);
    }
  }

  /** The walk reports exactly the mismatches that routes lead to. */
  lemma WalkIsExact(fl: Flow, v: Visit, x: Break)
    ensures x in TypeBreaks(fl, v.t, v.u, v.path, v.seen) <==> IsFound(fl, v, x)
  {
    assert BreaksAt(fl, v) == TypeBreaks(fl, v.t, v.u, v.path, v.seen);
    hide TypeBreaks, BreaksAt, Found;
    if x in BreaksAt(fl, v) {
      var n := BreakIsFound(fl, v, x);
    }
    if n :| Found(fl, v, x, n) {
      FoundIsBreak(fl, v, x, n);
    }
  }

  // ------------------------------------------------------------------
  // Where a break is
  // ------------------------------------------------------------------

  lemma StepIsBelow(fl: Flow, v: Visit, w: Visit)
    requires Leads(fl, v, w)
    ensures v.path <= w.path
  {
  }

  lemma MismatchIsHere(fl: Flow, v: Visit, x: Break)
    requires Mismatch(fl, v, x)
    ensures v.path <= x.path && x.fn == fl.fn
  {
  }

  /** Whatever a route leads to stands under the place where it begins. */
  lemma {:induction false} FoundBelow(fl: Flow, v: Visit, x: Break, n: nat)
    requires Found(fl, v, x, n)
    ensures v.path <= x.path && x.fn == fl.fn
    decreases n
  {
    hide Leads, Mismatch;
    if n == 0 {
      MismatchIsHere(fl, v, x);
    } else {
      var w :| Leads(fl, v, w) && Found(fl, w, x, n - 1);
      StepIsBelow(fl, v, w);
      FoundBelow(fl, w, x, n - 1);
    }
  }
}
