/** The canonical form tells apart exactly the interfaces that differ. */
module InterfaceExact {
  import opened Prelude
  import opened Ordering
  import opened Spec
  import opened InterfaceHash

  const WORD64: nat := 0x1_0000_0000_0000_0000

  /** Byte streams that fit in memory: lengths are 64-bit words. */
  ghost predicate Fits(s: string) { |s| < WORD64 }

  function Power256(k: nat): nat {
    if k == 0 then 1 else 256 * Power256(k - 1)
  }

  lemma {:induction false} BigEndianInjective(m: nat, n: nat, k: nat)
    requires m < Power256(k) && n < Power256(k) && BigEndian(m, k) == BigEndian(n, k)
    ensures m == n
  {
    if k > 0 {
      var a, b := BigEndian(m, k), BigEndian(n, k);
      assert a[..k - 1] == BigEndian(m / 256, k - 1) && b[..k - 1] == BigEndian(n / 256, k - 1);
      BigEndianInjective(m / 256, n / 256, k - 1);
      assert a[k - 1] == (m % 256) as char && b[k - 1] == (n % 256) as char;
    }
  }

  lemma U64Split(m: nat, n: nat, r: string, s: string)
    requires m < WORD64 && n < WORD64 && EncU64(m) + r == EncU64(n) + s
    ensures m == n && r == s
  {
    SplitAt(EncU64(m), EncU64(n), r, s);
    assert Power256(8) == WORD64;
    BigEndianInjective(m, n, 8);
  }

  lemma U32Split(m: nat, n: nat, r: string, s: string)
    requires m < 0x1_0000_0000 && n < 0x1_0000_0000 && EncU32(m) + r == EncU32(n) + s
    ensures m == n && r == s
  {
    SplitAt(EncU32(m), EncU32(n), r, s);
    assert Power256(4) == 0x1_0000_0000;
    BigEndianInjective(m, n, 4);
  }

  /** A length-prefixed string can be split off any stream. */
  lemma StrSplit(a: string, b: string, r: string, s: string)
    requires Str(a) + r == Str(b) + s && Fits(Str(a) + r)
    ensures a == b && r == s
  {
    Assoc(EncU64(|a|), a, r);
    Assoc(EncU64(|b|), b, s);
    U64Split(|a|, |b|, a + r, b + s);
    SplitAt(a, b, r, s);
  }

  // ------------------------------------------------------------------
  // Types
  // ------------------------------------------------------------------

  ghost predicate SameHead(t: SpecType, u: SpecType) {
    match (t, u)
    case (Val, Val) => true
    case (Scalar(p), Scalar(q)) => p == q
    case (Option(_), Option(_)) => true
    case (Result(_, _), Result(_, _)) => true
    case (Vec(_), Vec(_)) => true
    case (Map(_, _), Map(_, _)) => true
    case (Tuple(_), Tuple(_)) => true
    case (BytesN(_), BytesN(_)) => true
    case (Udt(_), Udt(_)) => true
    case _ => false
  }

  lemma TagsDiffer(t: SpecType, u: SpecType)
    requires TypeTag(t) == TypeTag(u)
    ensures SameHead(t, u)
  {
  }

  lemma {:induction false} TypesLength(ts: seq<SpecType>, n: nat)
    requires n <= |ts|
    ensures |EncTypes(ts, n)| >= n
  {
    if n > 0 {
      TypesLength(ts, n - 1);
    }
  }

  lemma {:induction false} TypeListSplit(ts: seq<SpecType>, us: seq<SpecType>, r: string, s: string)
    requires EncTypeList(ts) + r == EncTypeList(us) + s && Fits(EncTypeList(ts) + r)
    ensures ts == us && r == s
    decreases ts
  {
    Assoc(EncU64(|ts|), EncTypes(ts, |ts|), r);
    Assoc(EncU64(|us|), EncTypes(us, |us|), s);
    TypesLength(ts, |ts|);
    TypesLength(us, |us|);
    U64Split(|ts|, |us|, EncTypes(ts, |ts|) + r, EncTypes(us, |us|) + s);
    TypesSplit(ts, us, |ts|, r, s);
    assert ts[..|ts|] == ts && us[..|us|] == us;
  }

  lemma {:induction false} BodySplit(t: SpecType, u: SpecType, r: string, s: string)
    requires SameHead(t, u)
    requires EncTypeBody(t) + r == EncTypeBody(u) + s && Fits(EncTypeBody(t) + r)
    ensures t == u && r == s
    decreases t, 0
  {
    match t
    case Option(a) => TypeSplit(a, u.inner, r, s);
    case Vec(a) => TypeSplit(a, u.elem, r, s);
    case Result(a, e) =>
      Assoc(EncType(a), EncType(e), r);
      Assoc(EncType(u.ok), EncType(u.err), s);
      TypeSplit(a, u.ok, EncType(e) + r, EncType(u.err) + s);
      TypeSplit(e, u.err, r, s);
    case Map(k, a) =>
      Assoc(EncType(k), EncType(a), r);
      Assoc(EncType(u.key), EncType(u.value), s);
      TypeSplit(k, u.key, EncType(a) + r, EncType(u.value) + s);
      TypeSplit(a, u.value, r, s);
    case Tuple(ts) => TypeListSplit(ts, u.elems, r, s);
    case BytesN(n) => U32Split(n as nat, u.n as nat, r, s);
    case Udt(n) => StrSplit(n, u.name, r, s);
    case _ => SplitAt("", "", r, s);
  }

  lemma {:induction false} TypeSplit(t: SpecType, u: SpecType, r: string, s: string)
    requires EncType(t) + r == EncType(u) + s && Fits(EncType(t) + r)
    ensures t == u && r == s
    decreases t, 1
  {
    Assoc(Str(TypeTag(t)), EncTypeBody(t), r);
    Assoc(Str(TypeTag(u)), EncTypeBody(u), s);
    StrSplit(TypeTag(t), TypeTag(u), EncTypeBody(t) + r, EncTypeBody(u) + s);
    TagsDiffer(t, u);
    BodySplit(t, u, r, s);
  }

  lemma {:induction false} TypesSplit(ts: seq<SpecType>, us: seq<SpecType>, n: nat, r: string, s: string)
    requires n <= |ts| && n <= |us|
    requires EncTypes(ts, n) + r == EncTypes(us, n) + s && Fits(EncTypes(ts, n) + r)
    ensures ts[..n] == us[..n] && r == s
    decreases ts, n
  {
    hide EncType;
    if n == 0 {
      SplitAt("", "", r, s);
    } else {
      Assoc(EncTypes(ts, n - 1), EncType(ts[n - 1]), r);
      Assoc(EncTypes(us, n - 1), EncType(us[n - 1]), s);
      assert Fits(EncTypes(ts, n - 1) + (EncType(ts[n - 1]) + r));
      TypesSplit(ts, us, n - 1, EncType(ts[n - 1]) + r, EncType(us[n - 1]) + s);
      TypeSplit(ts[n - 1], us[n - 1], r, s);
      assert ts[..n] == ts[..n - 1] + [ts[n - 1]];
      assert us[..n] == us[..n - 1] + [us[n - 1]];
    }
  }

  // ------------------------------------------------------------------
  // Lists of anything that can be split off
  // ------------------------------------------------------------------

  /** Encodings that are never empty and can be split off any stream. */
  ghost predicate Splits<T(!new)>(enc: T -> string) {
    && (forall x :: enc(x) != "")
    && forall x, y, r, s :: enc(x) + r == enc(y) + s && Fits(enc(x) + r) ==> x == y && r == s
  }

  lemma {:induction false} AllSplit<T(!new)>(enc: T -> string, xs: seq<T>, ys: seq<T>, r: string, s: string)
    requires Splits(enc) && |xs| == |ys|
    requires EncAll(enc, xs) + r == EncAll(enc, ys) + s && Fits(EncAll(enc, xs) + r)
    ensures xs == ys && r == s
  {
    var n := |xs| - 1;
    if xs == [] {
      SplitAt("", "", r, s);
    } else {
      Assoc(EncAll(enc, xs[..n]), enc(xs[n]), r);
      Assoc(EncAll(enc, ys[..n]), enc(ys[n]), s);
      AllSplit(enc, xs[..n], ys[..n], enc(xs[n]) + r, enc(ys[n]) + s);
      assert xs == xs[..n] + [xs[n]] && ys == ys[..n] + [ys[n]];
    }
  }

  lemma {:induction false} AllLength<T(!new)>(enc: T -> string, xs: seq<T>)
    requires forall x :: enc(x) != ""
    ensures |EncAll(enc, xs)| >= |xs|
  {
    if xs != [] {
      AllLength(enc, xs[..|xs| - 1]);
      assert enc(xs[|xs| - 1]) != "";
    }
  }

  lemma ListSplit<T(!new)>(enc: T -> string, xs: seq<T>, ys: seq<T>, r: string, s: string)
    requires Splits(enc)
    requires EncList(enc, xs) + r == EncList(enc, ys) + s && Fits(EncList(enc, xs) + r)
    ensures xs == ys && r == s
  {
    Assoc(EncU64(|xs|), EncAll(enc, xs), r);
    Assoc(EncU64(|ys|), EncAll(enc, ys), s);
    AllLength(enc, xs);
    AllLength(enc, ys);
    U64Split(|xs|, |ys|, EncAll(enc, xs) + r, EncAll(enc, ys) + s);
    AllSplit(enc, xs, ys, r, s);
  }

  // ------------------------------------------------------------------
  // Declarations
  // ------------------------------------------------------------------

  lemma FieldSplits()
    ensures Splits(EncField)
  {
    forall x: FieldShape, y: FieldShape, r, s | EncField(x) + r == EncField(y) + s && Fits(EncField(x) + r)
      ensures x == y && r == s
    {
      Assoc(Str(x.0), EncType(x.1), r);
      Assoc(Str(y.0), EncType(y.1), s);
      StrSplit(x.0, y.0, EncType(x.1) + r, EncType(y.1) + s);
      TypeSplit(x.1, y.1, r, s);
    }
  }

  lemma PairSplits()
    ensures Splits(EncPair)
  {
    forall x: CasePair, y: CasePair, r, s | EncPair(x) + r == EncPair(y) + s && Fits(EncPair(x) + r)
      ensures x == y && r == s
    {
      Assoc(Str(x.0), EncU32(x.1 as nat), r);
      Assoc(Str(y.0), EncU32(y.1 as nat), s);
      StrSplit(x.0, y.0, EncU32(x.1 as nat) + r, EncU32(y.1 as nat) + s);
      U32Split(x.1 as nat, y.1 as nat, r, s);
    }
  }

  function CaseTag(c: CaseShape): string { if c.VoidShape? then "void" else "tuple" }

  function CaseBody(c: CaseShape): string { if c.VoidShape? then "" else EncTypeList(c.types) }

  lemma CaseForm(c: CaseShape, r: string)
    ensures EncCase(c) + r == Str(CaseTag(c)) + (Str(c.name) + (CaseBody(c) + r))
  {
    assert CaseBody(c) + r == if c.VoidShape? then r else EncTypeList(c.types) + r;
    Assoc(Str(CaseTag(c)), Str(c.name), CaseBody(c));
    Assoc3(Str(CaseTag(c)), Str(c.name), CaseBody(c), r);
    assert Str(c.name) + "" == Str(c.name);
  }

  lemma CaseShapeSplit(x: CaseShape, y: CaseShape, r: string, s: string)
    requires EncCase(x) + r == EncCase(y) + s && Fits(EncCase(x) + r)
    ensures x == y && r == s
  {
    CaseForm(x, r);
    CaseForm(y, s);
    StrSplit(CaseTag(x), CaseTag(y), Str(x.name) + (CaseBody(x) + r), Str(y.name) + (CaseBody(y) + s));
    StrSplit(x.name, y.name, CaseBody(x) + r, CaseBody(y) + s);
    assert |CaseTag(x)| == |CaseTag(y)|;
    if x.TupleShape? {
      TypeListSplit(x.types, y.types, r, s);
    } else {
      SplitAt("", "", r, s);
    }
  }

  lemma CaseSplits()
    ensures Splits(EncCase)
  {
    forall x, y, r, s | EncCase(x) + r == EncCase(y) + s && Fits(EncCase(x) + r)
      ensures x == y && r == s
    {
      CaseShapeSplit(x, y, r, s);
    }
  }

  /** Tag, name, body: what every named declaration looks like. */
  lemma NamedSplit(tag: string, m: string, n: string, a: string, b: string, r: string, s: string)
    requires (Str(tag) + (Str(m) + a)) + r == (Str(tag) + (Str(n) + b)) + s
    requires Fits((Str(tag) + (Str(m) + a)) + r)
    ensures m == n && a + r == b + s
  {
    Assoc(Str(tag), Str(m) + a, r);
    Assoc(Str(tag), Str(n) + b, s);
    Assoc(Str(m), a, r);
    Assoc(Str(n), b, s);
    StrSplit(tag, tag, Str(m) + (a + r), Str(n) + (b + s));
    StrSplit(m, n, a + r, b + s);
  }

  lemma FunctionSplits()
    ensures Splits(EncFunction)
  {
    FieldSplits();
    forall x, y, r, s | EncFunction(x) + r == EncFunction(y) + s && Fits(EncFunction(x) + r)
      ensures x == y && r == s
    {
      var a, b := EncList(EncField, x.1.inputs), EncList(EncField, y.1.inputs);
      var c, d := EncTypeList(x.1.outputs), EncTypeList(y.1.outputs);
      NamedSplit("fn", x.0, y.0, a + c, b + d, r, s);
      Assoc(a, c, r);
      Assoc(b, d, s);
      ListSplit(EncField, x.1.inputs, y.1.inputs, c + r, d + s);
      TypeListSplit(x.1.outputs, y.1.outputs, r, s);
    }
  }

  lemma NamedListSplits<T(!new)>(tag: string, enc: T -> string, encNamed: ((Name, seq<T>)) -> string)
    requires Splits(enc)
    requires forall x: (Name, seq<T>) :: encNamed(x) == Str(tag) + (Str(x.0) + EncList(enc, x.1))
    ensures Splits(encNamed)
  {
    forall x: (Name, seq<T>), y: (Name, seq<T>), r, s | encNamed(x) + r == encNamed(y) + s && Fits(encNamed(x) + r)
      ensures x == y && r == s
    {
      NamedSplit(tag, x.0, y.0, EncList(enc, x.1), EncList(enc, y.1), r, s);
      ListSplit(enc, x.1, y.1, r, s);
    }
    forall x: (Name, seq<T>) ensures encNamed(x) != "" {
      assert |encNamed(x)| >= 8;
    }
  }

  lemma DeclarationsSplit()
    ensures Splits(EncStruct) && Splits(EncUnion) && Splits(EncEnum) && Splits(EncErrorEnum)
  {
    FieldSplits();
    CaseSplits();
    PairSplits();
    NamedListSplits("struct", EncField, EncStruct);
    NamedListSplits("union", EncCase, EncUnion);
    NamedListSplits("enum", EncPair, EncEnum);
    NamedListSplits("error_enum", EncPair, EncErrorEnum);
  }

  // ------------------------------------------------------------------
  // Sections and the whole form
  // ------------------------------------------------------------------

  lemma ListingFixesMap<S>(m: map<Name, S>, k: map<Name, S>)
    requires Listing(m, SortedNames(m.Keys)) == Listing(k, SortedNames(k.Keys))
    ensures m == k
  {
    var a, b := SortedNames(m.Keys), SortedNames(k.Keys);
    var c, d := Listing(m, a), Listing(k, b);
    assert |a| == |c| == |d| == |b|;
    forall i | 0 <= i < |a| ensures a[i] == b[i] && m[a[i]] == k[b[i]] {
      assert c[i] == (a[i], m[a[i]]) && d[i] == (b[i], k[b[i]]);
    }
    assert a == b;
    forall n | n in m ensures n in k && m[n] == k[n] {
      assert n in a;
    }
    forall n | n in k ensures n in m {
      assert n in b;
    }
  }

  lemma SectionSplit<S(!new)>(tag: string, m: map<Name, S>, k: map<Name, S>, enc: ((Name, S)) -> string, r: string, s: string)
    requires Splits(enc)
    requires Section(tag, m, enc) + r == Section(tag, k, enc) + s && Fits(Section(tag, m, enc) + r)
    ensures m == k && r == s
  {
    var a, b := Listing(m, SortedNames(m.Keys)), Listing(k, SortedNames(k.Keys));
    Assoc(Str(tag), EncList(enc, a), r);
    Assoc(Str(tag), EncList(enc, b), s);
    StrSplit(tag, tag, EncList(enc, a) + r, EncList(enc, b) + s);
    ListSplit(enc, a, b, r, s);
    ListingFixesMap(m, k);
  }

  ghost function UnionsOn(i: Interface): string {
    Section("unions", i.unions, EncUnion)
    + (Section("enums", i.enums, EncEnum)
    + Section("error_enums", i.errorEnums, EncErrorEnum))
  }

  lemma UnionsOnSplit(i: Interface, j: Interface)
    requires UnionsOn(i) == UnionsOn(j) && Fits(UnionsOn(i))
    ensures i.unions == j.unions && i.enums == j.enums && i.errorEnums == j.errorEnums
  {
    DeclarationsSplit();
    hide Section, Splits;
    var e, e' := Section("error_enums", i.errorEnums, EncErrorEnum), Section("error_enums", j.errorEnums, EncErrorEnum);
    var d, d' := Section("enums", i.enums, EncEnum) + e, Section("enums", j.enums, EncEnum) + e';
    SectionSplit("unions", i.unions, j.unions, EncUnion, d, d');
    SectionSplit("enums", i.enums, j.enums, EncEnum, e, e');
    assert e + "" == e && e' + "" == e';
    SectionSplit("error_enums", i.errorEnums, j.errorEnums, EncErrorEnum, "", "");
  }

  lemma HeaderSplit(a: string, b: string)
    requires Str(DOMAIN) + (EncU32(CANONICAL_FORM_VERSION) + a) == Str(DOMAIN) + (EncU32(CANONICAL_FORM_VERSION) + b)
    ensures a == b
  {
    SplitAt(Str(DOMAIN), Str(DOMAIN), EncU32(CANONICAL_FORM_VERSION) + a, EncU32(CANONICAL_FORM_VERSION) + b);
    SplitAt(EncU32(CANONICAL_FORM_VERSION), EncU32(CANONICAL_FORM_VERSION), a, b);
  }

  lemma FormIsInjective(i: Interface, j: Interface)
    requires Form(i) == Form(j) && Fits(Form(i))
    ensures i == j
  {
    hide Section, Splits, Str;
    var c, c' := UnionsOn(i), UnionsOn(j);
    var b, b' := Section("structs", i.structs, EncStruct) + c, Section("structs", j.structs, EncStruct) + c';
    var a, a' := Section("functions", i.functions, EncFunction) + b, Section("functions", j.functions, EncFunction) + b';
    HeaderSplit(a, a');
    assert i.functions == j.functions && b == b' by {
      FunctionSplits();
      SectionSplit("functions", i.functions, j.functions, EncFunction, b, b');
    }
    assert i.structs == j.structs && c == c' by {
      DeclarationsSplit();
      SectionSplit("structs", i.structs, j.structs, EncStruct, c, c');
    }
    UnionsOnSplit(i, j);
  }

  // ------------------------------------------------------------------
  // The statement about specs
  // ------------------------------------------------------------------

  ghost predicate SameFields(a: seq<Field>, b: seq<Field>) {
    |a| == |b| && forall i :: 0 <= i < |a| ==> a[i].name == b[i].name && a[i].ty == b[i].ty
  }

  ghost predicate SameCase(c: UnionCase, d: UnionCase) {
    c.name == d.name && c.VoidCase? == d.VoidCase? && (c.TupleCase? ==> c.types == d.types)
  }

  ghost predicate SameCases(u: Union, v: Union) {
    |u.cases| == |v.cases| && forall i :: 0 <= i < |u.cases| ==> SameCase(u.cases[i], v.cases[i])
  }

  /** The same (name, value) pairs, in any order. */
  ghost predicate SameEnum(e: Enum, f: Enum) {
    multiset(CasePairs(e)) == multiset(CasePairs(f))
  }

  ghost predicate SameEnums(m: map<Name, Enum>, k: map<Name, Enum>) {
    m.Keys == k.Keys && forall n :: n in m ==> SameEnum(m[n], k[n])
  }

  lemma PairOrder()
    ensures TotalOrder(PairLeq)
  {
    forall a, b
      ensures PairLeq(a, b) || PairLeq(b, a)
      ensures PairLeq(a, b) && PairLeq(b, a) ==> a == b
    {
      LexTotal(a.0, b.0);
    }
    forall a, b, c | PairLeq(a, b) && PairLeq(b, c) ensures PairLeq(a, c) {
      if a.0 != b.0 && b.0 != c.0 {
        LexTransitive(a.0, b.0, c.0);
        LexTotal(a.0, b.0);
      }
    }
  }

  lemma SameFieldsShapes(a: seq<Field>, b: seq<Field>)
    ensures SameFields(a, b) <==> FieldShapes(a) == FieldShapes(b)
  {
    var x, y := FieldShapes(a), FieldShapes(b);
    if x == y {
      forall i | 0 <= i < |a| ensures a[i].name == b[i].name && a[i].ty == b[i].ty {
        assert x[i] == y[i];
      }
    }
  }

  lemma SameCasesShapes(u: Union, v: Union)
    ensures SameCases(u, v) <==> CaseShapes(u) == CaseShapes(v)
  {
    var x, y := CaseShapes(u), CaseShapes(v);
    if x == y {
      forall i | 0 <= i < |u.cases| ensures SameCase(u.cases[i], v.cases[i]) {
        assert x[i] == y[i];
      }
    }
  }

  lemma SameEnumsShapes(m: map<Name, Enum>, k: map<Name, Enum>)
    ensures SameEnums(m, k) <==> EnumShapes(m) == EnumShapes(k)
  {
    PairOrder();
    var x, y := EnumShapes(m), EnumShapes(k);
    forall n | n in m && n in k ensures SameEnum(m[n], k[n]) <==> x[n] == y[n] {
      SortForgetsOrder(CasePairs(m[n]), CasePairs(k[n]), PairLeq);
    }
    if x == y {
      assert m.Keys == x.Keys == y.Keys == k.Keys;
    }
  }

  ghost predicate SameFunctions(m: map<Name, Function>, k: map<Name, Function>) {
    m.Keys == k.Keys && forall n :: n in m ==>
      SameFields(m[n].inputs, k[n].inputs) && m[n].outputs == k[n].outputs
  }

  ghost predicate SameStructs(m: map<Name, Struct>, k: map<Name, Struct>) {
    m.Keys == k.Keys && forall n :: n in m ==> SameFields(m[n].fields, k[n].fields)
  }

  ghost predicate SameUnions(m: map<Name, Union>, k: map<Name, Union>) {
    m.Keys == k.Keys && forall n :: n in m ==> SameCases(m[n], k[n])
  }

  lemma SameFunctionsShapes(m: map<Name, Function>, k: map<Name, Function>)
    ensures SameFunctions(m, k) <==> FunctionShapes(m) == FunctionShapes(k)
  {
    var x, y := FunctionShapes(m), FunctionShapes(k);
    forall n | n in m && n in k
      ensures (SameFields(m[n].inputs, k[n].inputs) && m[n].outputs == k[n].outputs) <==> x[n] == y[n]
    {
      SameFieldsShapes(m[n].inputs, k[n].inputs);
    }
    if x == y {
      assert m.Keys == x.Keys == y.Keys == k.Keys;
    }
  }

  lemma SameStructsShapes(m: map<Name, Struct>, k: map<Name, Struct>)
    ensures SameStructs(m, k) <==> StructShapes(m) == StructShapes(k)
  {
    var x, y := StructShapes(m), StructShapes(k);
    forall n | n in m && n in k ensures SameFields(m[n].fields, k[n].fields) <==> x[n] == y[n] {
      SameFieldsShapes(m[n].fields, k[n].fields);
    }
    if x == y {
      assert m.Keys == x.Keys == y.Keys == k.Keys;
    }
  }

  lemma SameUnionsShapes(m: map<Name, Union>, k: map<Name, Union>)
    ensures SameUnions(m, k) <==> UnionShapes(m) == UnionShapes(k)
  {
    var x, y := UnionShapes(m), UnionShapes(k);
    forall n | n in m && n in k ensures SameCases(m[n], k[n]) <==> x[n] == y[n] {
      SameCasesShapes(m[n], k[n]);
    }
    if x == y {
      assert m.Keys == x.Keys == y.Keys == k.Keys;
    }
  }

  /** The comparison the hash stands for: docs, `lib` and enum case order do
      not count; everything else does. */
  ghost predicate SameInterface(a: ContractSpec, b: ContractSpec) {
    && SameFunctions(a.functions, b.functions)
    && SameStructs(a.structs, b.structs)
    && SameUnions(a.unions, b.unions)
    && SameEnums(a.enums, b.enums)
    && SameEnums(a.errorEnums, b.errorEnums)
  }

  /** Two specs have the same canonical bytes exactly when they are the same
      interface.  A byte buffer never reaches 2^64 bytes, which is all that the
      64-bit lengths in the form need. */
  lemma CanonicalFormIsExact(a: ContractSpec, b: ContractSpec)
    requires Fits(Form(InterfaceOf(a)))
    ensures Form(InterfaceOf(a)) == Form(InterfaceOf(b)) <==> SameInterface(a, b)
  {
    SameFunctionsShapes(a.functions, b.functions);
    SameStructsShapes(a.structs, b.structs);
    SameUnionsShapes(a.unions, b.unions);
    SameEnumsShapes(a.enums, b.enums);
    SameEnumsShapes(a.errorEnums, b.errorEnums);
    if Form(InterfaceOf(a)) == Form(InterfaceOf(b)) {
      FormIsInjective(InterfaceOf(a), InterfaceOf(b));
    }
  }
}
