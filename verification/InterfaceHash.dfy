/** The canonical byte form of an interface.  The hash of a contract is taken
    over this form, so the form must tell apart exactly the interfaces that the
    comparison tells apart. */
module InterfaceHash {
  import opened Prelude
  import opened Ordering
  import opened Spec

  const CANONICAL_FORM_VERSION: nat := 1

  const DOMAIN := "soroban-upgrade-safeguard/interface-hash"

  // ------------------------------------------------------------------
  // The form, as text over bytes
  // ------------------------------------------------------------------

  /** The low k bytes of n, most significant first; higher bytes are cut off. */
  function BigEndian(n: nat, k: nat): (s: string)
    ensures |s| == k
  {
    if k == 0 then [] else BigEndian(n / 256, k - 1) + [(n % 256) as char]
  }

  function EncU32(n: nat): string { BigEndian(n, 4) }

  function EncU64(n: nat): string { BigEndian(n, 8) }

  function Str(s: string): string { EncU64(|s|) + s }

  function PrimTag(p: Prim): string {
    match p
    case Bool => "bool"
    case Void => "void"
    case Error => "error"
    case U32 => "u32"
    case I32 => "i32"
    case U64 => "u64"
    case I64 => "i64"
    case Timepoint => "timepoint"
    case Duration => "duration"
    case U128 => "u128"
    case I128 => "i128"
    case U256 => "u256"
    case I256 => "i256"
    case Bytes => "bytes"
    case String => "string"
    case Symbol => "symbol"
    case Address => "address"
  }

  function TypeTag(t: SpecType): string {
    match t
    case Val => "val"
    case Scalar(p) => PrimTag(p)
    case Option(_) => "option"
    case Result(_, _) => "result"
    case Vec(_) => "vec"
    case Map(_, _) => "map"
    case Tuple(_) => "tuple"
    case BytesN(_) => "bytesn"
    case Udt(_) => "udt"
  }

  function EncType(t: SpecType): string
    decreases t, 1
  {
    Str(TypeTag(t)) + EncTypeBody(t)
  }

  function EncTypes(ts: seq<SpecType>, n: nat): string
    requires n <= |ts|
    decreases ts, n
  {
    if n == 0 then "" else EncTypes(ts, n - 1) + EncType(ts[n - 1])
  }

  function EncTypeBody(t: SpecType): string
    decreases t, 0
  {
    match t
    case Option(a) => EncType(a)
    case Result(a, e) => EncType(a) + EncType(e)
    case Vec(a) => EncType(a)
    case Map(k, a) => EncType(k) + EncType(a)
    case Tuple(ts) => EncU64(|ts|) + EncTypes(ts, |ts|)
    case BytesN(n) => EncU32(n as nat)
    case Udt(n) => Str(n)
    case _ => ""
  }

  function EncTypeList(ts: seq<SpecType>): string {
    EncU64(|ts|) + EncTypes(ts, |ts|)
  }

  function EncAll<T>(enc: T -> string, xs: seq<T>): string {
    if xs == [] then "" else EncAll(enc, xs[..|xs| - 1]) + enc(xs[|xs| - 1])
  }

  function EncList<T>(enc: T -> string, xs: seq<T>): string {
    EncU64(|xs|) + EncAll(enc, xs)
  }

  /** The interface part of a declaration: docs and `lib` are dropped. */
  type FieldShape = (Name, SpecType)

  datatype FunctionShape = FunctionShape(inputs: seq<FieldShape>, outputs: seq<SpecType>)

  datatype CaseShape = VoidShape(name: Name) | TupleShape(name: Name, types: seq<SpecType>)

  type CasePair = (Name, uint32)

  function FieldShapes(fields: seq<Field>): seq<FieldShape> {
    seq(|fields|, i requires 0 <= i < |fields| => (fields[i].name, fields[i].ty))
  }

  function ShapeOfFunction(f: Function): FunctionShape {
    FunctionShape(FieldShapes(f.inputs), f.outputs)
  }

  function ShapeOfCase(c: UnionCase): CaseShape {
    match c
    case VoidCase(_, n) => VoidShape(n)
    case TupleCase(_, n, ts) => TupleShape(n, ts)
  }

  function CaseShapes(u: Union): seq<CaseShape> {
    seq(|u.cases|, i requires 0 <= i < |u.cases| => ShapeOfCase(u.cases[i]))
  }

  function CasePairs(e: Enum): seq<CasePair> {
    seq(|e.cases|, i requires 0 <= i < |e.cases| => (e.cases[i].name, e.cases[i].value))
  }

  predicate PairLeq(a: CasePair, b: CasePair) {
    if a.0 != b.0 then LexLeq(a.0, b.0) else a.1 <= b.1
  }

  function SortedPairs(e: Enum): seq<CasePair> {
    Sort(CasePairs(e), PairLeq)
  }

  function EncField(f: FieldShape): string { Str(f.0) + EncType(f.1) }

  function EncPair(p: CasePair): string { Str(p.0) + EncU32(p.1 as nat) }

  function EncCase(c: CaseShape): string {
    match c
    case VoidShape(n) => Str("void") + Str(n)
    case TupleShape(n, ts) => Str("tuple") + (Str(n) + EncTypeList(ts))
  }

  function EncFunction(p: (Name, FunctionShape)): string {
    Str("fn") + (Str(p.0) + (EncList(EncField, p.1.inputs) + EncTypeList(p.1.outputs)))
  }

  function EncStruct(p: (Name, seq<FieldShape>)): string {
    Str("struct") + (Str(p.0) + EncList(EncField, p.1))
  }

  function EncUnion(p: (Name, seq<CaseShape>)): string {
    Str("union") + (Str(p.0) + EncList(EncCase, p.1))
  }

  function EncEnum(p: (Name, seq<CasePair>)): string {
    Str("enum") + (Str(p.0) + EncList(EncPair, p.1))
  }

  function EncErrorEnum(p: (Name, seq<CasePair>)): string {
    Str("error_enum") + (Str(p.0) + EncList(EncPair, p.1))
  }

  /** What an interface is: five maps, with enum cases in sorted order. */
  datatype Interface = Interface(
    functions: map<Name, FunctionShape>,
    structs: map<Name, seq<FieldShape>>,
    unions: map<Name, seq<CaseShape>>,
    enums: map<Name, seq<CasePair>>,
    errorEnums: map<Name, seq<CasePair>>)

  function FunctionShapes(m: map<Name, Function>): (r: map<Name, FunctionShape>)
    ensures r.Keys == m.Keys
  {
    map n | n in m :: ShapeOfFunction(m[n])
  }

  function StructShapes(m: map<Name, Struct>): (r: map<Name, seq<FieldShape>>)
    ensures r.Keys == m.Keys
  {
    map n | n in m :: FieldShapes(m[n].fields)
  }

  function UnionShapes(m: map<Name, Union>): (r: map<Name, seq<CaseShape>>)
    ensures r.Keys == m.Keys
  {
    map n | n in m :: CaseShapes(m[n])
  }

  function EnumShapes(m: map<Name, Enum>): (r: map<Name, seq<CasePair>>)
    ensures r.Keys == m.Keys
  {
    map n | n in m :: SortedPairs(m[n])
  }

  function InterfaceOf(spec: ContractSpec): Interface {
    Interface(FunctionShapes(spec.functions), StructShapes(spec.structs), UnionShapes(spec.unions),
              EnumShapes(spec.enums), EnumShapes(spec.errorEnums))
  }

  function Listing<S>(m: map<Name, S>, names: seq<Name>): seq<(Name, S)>
    requires forall n :: n in names ==> n in m
  {
    seq(|names|, i requires 0 <= i < |names| => (names[i], m[names[i]]))
  }

  function Entries<S>(tag: string, listing: seq<(Name, S)>, enc: ((Name, S)) -> string): string {
    Str(tag) + EncList(enc, listing)
  }

  /** A tag, a count, and the entries in name order. */
  ghost function Section<S>(tag: string, m: map<Name, S>, enc: ((Name, S)) -> string): string {
    Entries(tag, Listing(m, SortedNames(m.Keys)), enc)
  }

  ghost function Form(i: Interface): string {
    Str(DOMAIN) + (EncU32(CANONICAL_FORM_VERSION)
    + (Section("functions", i.functions, EncFunction)
    + (Section("structs", i.structs, EncStruct)
    + (Section("unions", i.unions, EncUnion)
    + (Section("enums", i.enums, EncEnum)
    + Section("error_enums", i.errorEnums, EncErrorEnum))))))
  }

  // ------------------------------------------------------------------
  // The writer
  // ------------------------------------------------------------------

  /** The first i entries are written after `start`. */
  ghost predicate Wrote<T>(start: string, enc: T -> string, xs: seq<T>, i: nat, buf: string)
    requires i <= |xs|
  {
    buf == start + EncAll(enc, xs[..i])
  }

  lemma WroteNothing<T>(start: string, enc: T -> string, xs: seq<T>)
    ensures Wrote(start, enc, xs, 0, start)
  {
  }

  lemma AppendAll<T>(start: string, enc: T -> string, xs: seq<T>, i: nat)
    requires i < |xs|
    ensures (start + EncAll(enc, xs[..i])) + enc(xs[i]) == start + EncAll(enc, xs[..i + 1])
  {
    assert xs[..i + 1][..i] == xs[..i];
    Assoc(start, EncAll(enc, xs[..i]), enc(xs[i]));
  }

  lemma WroteOne<T>(start: string, enc: T -> string, xs: seq<T>, i: nat, buf: string)
    requires i < |xs| && Wrote(start, enc, xs, i, buf)
    ensures Wrote(start, enc, xs, i + 1, buf + enc(xs[i]))
  {
    AppendAll(start, enc, xs, i);
  }

  class Canonicalizer {
    var buf: string

    constructor ()
      ensures buf == ""
    {
      buf := "";
    }

    method WriteStr(value: string)
      modifies this
      ensures buf == old(buf) + Str(value)
    {
      WriteU64(|value|);
      Assoc(old(buf), EncU64(|value|), value);
      buf := buf + value;
    }

    method WriteTag(value: string)
      modifies this
      ensures buf == old(buf) + Str(value)
    {
      WriteStr(value);
    }

    method WriteU32(value: nat)
      modifies this
      ensures buf == old(buf) + EncU32(value)
    {
      buf := buf + EncU32(value);
    }

    method WriteU64(value: nat)
      modifies this
      ensures buf == old(buf) + EncU64(value)
    {
      buf := buf + EncU64(value);
    }

    method WriteType(t: SpecType)
      modifies this
      ensures buf == old(buf) + EncType(t)
      decreases t, 1
    {
      WriteTag(TypeTag(t));
      Assoc(old(buf), Str(TypeTag(t)), EncTypeBody(t));
      WriteTypeBody(t);
    }

    method WriteTypeBody(t: SpecType)
      modifies this
      ensures buf == old(buf) + EncTypeBody(t)
      decreases t, 0
    {
      match t
      case Option(a) => WriteType(a);
      case Result(a, e) =>
        WriteType(a);
        WriteType(e);
        Assoc(old(buf), EncType(a), EncType(e));
      case Vec(a) => WriteType(a);
      case Map(k, a) =>
        WriteType(k);
        WriteType(a);
        Assoc(old(buf), EncType(k), EncType(a));
      case Tuple(ts) => WriteTypes(ts);
      case BytesN(n) => WriteU32(n as nat);
      case Udt(n) => WriteStr(n);
      case _ =>
        assert buf == old(buf) + "";
    }

    method WriteTypes(ts: seq<SpecType>)
      modifies this
      ensures buf == old(buf) + EncTypeList(ts)
      decreases ts
    {
      WriteU64(|ts|);
      ghost var start := buf;
      assert start == start + EncTypes(ts, 0);
      for i := 0 to |ts|
        invariant buf == start + EncTypes(ts, i)
      {
        WriteType(ts[i]);
        Assoc(start, EncTypes(ts, i), EncType(ts[i]));
      }
      Assoc(old(buf), EncU64(|ts|), EncTypes(ts, |ts|));
    }

    method WriteFields(fields: seq<Field>)
      modifies this
      ensures buf == old(buf) + EncList(EncField, FieldShapes(fields))
    {
      var shapes := FieldShapes(fields);
      WriteU64(|fields|);
      ghost var start := buf;
      for i := 0 to |fields|
        invariant buf == start + EncAll(EncField, shapes[..i])
      {
        ghost var before := buf;
        WriteStr(fields[i].name);
        WriteType(fields[i].ty);
        Assoc(before, Str(fields[i].name), EncType(fields[i].ty));
        AppendAll(start, EncField, shapes, i);
      }
      assert shapes[..|fields|] == shapes;
      Assoc(old(buf), EncU64(|fields|), EncAll(EncField, shapes));
    }

    method WriteFunction(name: Name, f: Function)
      modifies this
      ensures buf == old(buf) + EncFunction((name, ShapeOfFunction(f)))
    {
      WriteTag("fn");
      WriteStr(name);
      WriteFields(f.inputs);
      WriteTypes(f.outputs);
      var a, b := EncList(EncField, FieldShapes(f.inputs)), EncTypeList(f.outputs);
      Assoc4(old(buf), Str("fn"), Str(name), a, b);
    }

    method WriteStruct(name: Name, s: Struct)
      modifies this
      ensures buf == old(buf) + EncStruct((name, FieldShapes(s.fields)))
    {
      WriteTag("struct");
      WriteStr(name);
      WriteFields(s.fields);
      Assoc3(old(buf), Str("struct"), Str(name), EncList(EncField, FieldShapes(s.fields)));
    }

    method WriteCase(c: UnionCase)
      modifies this
      ensures buf == old(buf) + EncCase(ShapeOfCase(c))
    {
      match c
      case VoidCase(_, n) =>
        WriteTag("void");
        WriteStr(n);
        Assoc(old(buf), Str("void"), Str(n));
      case TupleCase(_, n, ts) =>
        WriteTag("tuple");
        WriteStr(n);
        WriteTypes(ts);
        Assoc3(old(buf), Str("tuple"), Str(n), EncTypeList(ts));
    }

    method WriteUnion(name: Name, u: Union)
      modifies this
      ensures buf == old(buf) + EncUnion((name, CaseShapes(u)))
    {
      var shapes := CaseShapes(u);
      WriteTag("union");
      WriteStr(name);
      ghost var header := buf;
      WriteU64(|u.cases|);
      ghost var start := buf;
      for i := 0 to |u.cases|
        invariant buf == start + EncAll(EncCase, shapes[..i])
      {
        WriteCase(u.cases[i]);
        AppendAll(start, EncCase, shapes, i);
      }
      assert shapes[..|u.cases|] == shapes;
      Assoc(header, EncU64(|u.cases|), EncAll(EncCase, shapes));
      Assoc3(old(buf), Str("union"), Str(name), EncList(EncCase, shapes));
    }

    /** Cases carry their values, so declaration order is sorted away. */
    method WritePairs(e: Enum)
      modifies this
      ensures buf == old(buf) + EncList(EncPair, SortedPairs(e))
    {
      var sorted := SortedPairs(e);
      WriteU64(|sorted|);
      ghost var start := buf;
      for i := 0 to |sorted|
        invariant buf == start + EncAll(EncPair, sorted[..i])
      {
        ghost var before := buf;
        WriteStr(sorted[i].0);
        WriteU32(sorted[i].1 as nat);
        Assoc(before, Str(sorted[i].0), EncU32(sorted[i].1 as nat));
        AppendAll(start, EncPair, sorted, i);
      }
      assert sorted[..|sorted|] == sorted;
      Assoc(old(buf), EncU64(|sorted|), EncAll(EncPair, sorted));
    }

    method WriteEnum(name: Name, e: Enum)
      modifies this
      ensures buf == old(buf) + EncEnum((name, SortedPairs(e)))
    {
      WriteTag("enum");
      WriteStr(name);
      WritePairs(e);
      Assoc3(old(buf), Str("enum"), Str(name), EncList(EncPair, SortedPairs(e)));
    }

    method WriteErrorEnum(name: Name, e: Enum)
      modifies this
      ensures buf == old(buf) + EncErrorEnum((name, SortedPairs(e)))
    {
      WriteTag("error_enum");
      WriteStr(name);
      WritePairs(e);
      Assoc3(old(buf), Str("error_enum"), Str(name), EncList(EncPair, SortedPairs(e)));
    }
  }

  lemma AssocForm(a: string, b: string, c: string, d: string, e: string, f: string, g: string)
    ensures ((((((("" + a) + b) + c) + d) + e) + f) + g) == a + (b + (c + (d + (e + (f + g)))))
  {
    assert "" + a == a;
    Assoc4(a + b, c, d, e, f);
    Assoc(a + b, c + (d + (e + f)), g);
    Assoc3(c, d, e + f, g);
    Assoc(c, d + (e + f), g);
    Assoc(d, e + f, g);
    Assoc(e, f, g);
    Assoc(a, b, c + (d + (e + (f + g))));
  }

  lemma FinishSection<S>(before: string, tag: string, all: seq<(Name, S)>, enc: ((Name, S)) -> string, buf: string)
    requires Wrote((before + Str(tag)) + EncU64(|all|), enc, all, |all|, buf)
    ensures buf == before + Entries(tag, all, enc)
  {
    assert all[..|all|] == all;
    Assoc3(before, Str(tag), EncU64(|all|), EncAll(enc, all));
  }

  method WriteFunctions(out: Canonicalizer, functions: map<Name, Function>, names: seq<Name>)
    requires forall n :: n in names ==> n in functions
    modifies out
    ensures out.buf == old(out.buf) + Entries("functions", Listing(FunctionShapes(functions), names), EncFunction)
  {
    ghost var all := Listing(FunctionShapes(functions), names);
    hide Wrote, EncAll, Str, EncU64, Entries, EncFunction;
    out.WriteTag("functions");
    out.WriteU64(|names|);
    ghost var start := out.buf;
    WroteNothing(start, EncFunction, all);
    for i := 0 to |names|
      invariant Wrote(start, EncFunction, all, i, out.buf)
    {
      assert all[i] == (names[i], ShapeOfFunction(functions[names[i]]));
      WroteOne(start, EncFunction, all, i, out.buf);
      out.WriteFunction(names[i], functions[names[i]]);
    }
    FinishSection(old(out.buf), "functions", all, EncFunction, out.buf);
  }

  method FunctionsSection(out: Canonicalizer, functions: map<Name, Function>)
    modifies out
    ensures out.buf == old(out.buf) + Section("functions", FunctionShapes(functions), EncFunction)
  {
    var names := CollectNames(functions.Keys);
    WriteFunctions(out, functions, names);
  }

  method WriteStructs(out: Canonicalizer, structs: map<Name, Struct>, names: seq<Name>)
    requires forall n :: n in names ==> n in structs
    modifies out
    ensures out.buf == old(out.buf) + Entries("structs", Listing(StructShapes(structs), names), EncStruct)
  {
    ghost var all := Listing(StructShapes(structs), names);
    hide Wrote, EncAll, Str, EncU64, Entries, EncStruct;
    out.WriteTag("structs");
    out.WriteU64(|names|);
    ghost var start := out.buf;
    WroteNothing(start, EncStruct, all);
    for i := 0 to |names|
      invariant Wrote(start, EncStruct, all, i, out.buf)
    {
      assert all[i] == (names[i], FieldShapes(structs[names[i]].fields));
      WroteOne(start, EncStruct, all, i, out.buf);
      out.WriteStruct(names[i], structs[names[i]]);
    }
    FinishSection(old(out.buf), "structs", all, EncStruct, out.buf);
  }

  method StructsSection(out: Canonicalizer, structs: map<Name, Struct>)
    modifies out
    ensures out.buf == old(out.buf) + Section("structs", StructShapes(structs), EncStruct)
  {
    var names := CollectNames(structs.Keys);
    WriteStructs(out, structs, names);
  }

  method WriteUnions(out: Canonicalizer, unions: map<Name, Union>, names: seq<Name>)
    requires forall n :: n in names ==> n in unions
    modifies out
    ensures out.buf == old(out.buf) + Entries("unions", Listing(UnionShapes(unions), names), EncUnion)
  {
    ghost var all := Listing(UnionShapes(unions), names);
    hide Wrote, EncAll, Str, EncU64, Entries, EncUnion;
    out.WriteTag("unions");
    out.WriteU64(|names|);
    ghost var start := out.buf;
    WroteNothing(start, EncUnion, all);
    for i := 0 to |names|
      invariant Wrote(start, EncUnion, all, i, out.buf)
    {
      assert all[i] == (names[i], CaseShapes(unions[names[i]]));
      WroteOne(start, EncUnion, all, i, out.buf);
      out.WriteUnion(names[i], unions[names[i]]);
    }
    FinishSection(old(out.buf), "unions", all, EncUnion, out.buf);
  }

  method UnionsSection(out: Canonicalizer, unions: map<Name, Union>)
    modifies out
    ensures out.buf == old(out.buf) + Section("unions", UnionShapes(unions), EncUnion)
  {
    var names := CollectNames(unions.Keys);
    WriteUnions(out, unions, names);
  }

  method WriteEnums(out: Canonicalizer, enums: map<Name, Enum>, names: seq<Name>)
    requires forall n :: n in names ==> n in enums
    modifies out
    ensures out.buf == old(out.buf) + Entries("enums", Listing(EnumShapes(enums), names), EncEnum)
  {
    ghost var all := Listing(EnumShapes(enums), names);
    hide Wrote, EncAll, Str, EncU64, Entries, EncEnum;
    out.WriteTag("enums");
    out.WriteU64(|names|);
    ghost var start := out.buf;
    WroteNothing(start, EncEnum, all);
    for i := 0 to |names|
      invariant Wrote(start, EncEnum, all, i, out.buf)
    {
      assert all[i] == (names[i], SortedPairs(enums[names[i]]));
      WroteOne(start, EncEnum, all, i, out.buf);
      out.WriteEnum(names[i], enums[names[i]]);
    }
    FinishSection(old(out.buf), "enums", all, EncEnum, out.buf);
  }

  method EnumsSection(out: Canonicalizer, enums: map<Name, Enum>)
    modifies out
    ensures out.buf == old(out.buf) + Section("enums", EnumShapes(enums), EncEnum)
  {
    var names := CollectNames(enums.Keys);
    WriteEnums(out, enums, names);
  }

  method WriteErrorEnums(out: Canonicalizer, errorEnums: map<Name, Enum>, names: seq<Name>)
    requires forall n :: n in names ==> n in errorEnums
    modifies out
    ensures out.buf == old(out.buf) + Entries("error_enums", Listing(EnumShapes(errorEnums), names), EncErrorEnum)
  {
    ghost var all := Listing(EnumShapes(errorEnums), names);
    hide Wrote, EncAll, Str, EncU64, Entries, EncErrorEnum;
    out.WriteTag("error_enums");
    out.WriteU64(|names|);
    ghost var start := out.buf;
    WroteNothing(start, EncErrorEnum, all);
    for i := 0 to |names|
      invariant Wrote(start, EncErrorEnum, all, i, out.buf)
    {
      assert all[i] == (names[i], SortedPairs(errorEnums[names[i]]));
      WroteOne(start, EncErrorEnum, all, i, out.buf);
      out.WriteErrorEnum(names[i], errorEnums[names[i]]);
    }
    FinishSection(old(out.buf), "error_enums", all, EncErrorEnum, out.buf);
  }

  method ErrorEnumsSection(out: Canonicalizer, errorEnums: map<Name, Enum>)
    modifies out
    ensures out.buf == old(out.buf) + Section("error_enums", EnumShapes(errorEnums), EncErrorEnum)
  {
    var names := CollectNames(errorEnums.Keys);
    WriteErrorEnums(out, errorEnums, names);
  }

  /** The whole form.  Each section collects its names, sorts them, and writes
      tag, count and entries. */
  method CanonicalForm(spec: ContractSpec) returns (bytes: string)
    ensures bytes == Form(InterfaceOf(spec))
  {
    var out := new Canonicalizer();
    out.WriteStr(DOMAIN);
    out.WriteU32(CANONICAL_FORM_VERSION);
    FunctionsSection(out, spec.functions);
    StructsSection(out, spec.structs);
    UnionsSection(out, spec.unions);
    EnumsSection(out, spec.enums);
    ErrorEnumsSection(out, spec.errorEnums);
    bytes := out.buf;
    ghost var i := InterfaceOf(spec);
    AssocForm(Str(DOMAIN), EncU32(CANONICAL_FORM_VERSION),
              Section("functions", i.functions, EncFunction),
              Section("structs", i.structs, EncStruct),
              Section("unions", i.unions, EncUnion),
              Section("enums", i.enums, EncEnum),
              Section("error_enums", i.errorEnums, EncErrorEnum));
  }
}
