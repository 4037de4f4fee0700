/** A reader of the canonical form, written from its description and not from
    the writer: a version, then five sections of named entries in byte order.
    It gets back the whole interface of the contract that was written. */
module InterfaceReader {
  import opened Prelude
  import opened Ordering
  import opened Spec
  import opened InterfaceHash
  import opened InterfaceExact

  // ------------------------------------------------------------------
  // Words, strings and types
  // ------------------------------------------------------------------

  /** The number that bytes stand for, most significant first. */
  function Number(s: string): nat {
    if s == "" then 0 else 256 * Number(s[..|s| - 1]) + s[|s| - 1] as nat
  }

  function ReadWord(s: string, k: nat): (r: Parsed<nat>)
    ensures r.Parsed? ==> |r.rest| + k == |s|
  {
    if |s| < k then Unparsed else Parsed(Number(s[..k]), s[k..])
  }

  /** A length of eight bytes, then that many bytes. */
  function ReadStr(s: string): (r: Parsed<string>)
    ensures r.Parsed? ==> |r.rest| < |s|
  {
    var n := ReadWord(s, 8);
    if n.Unparsed? || |n.rest| < n.value then Unparsed
    else Parsed(n.rest[..n.value], n.rest[n.value..])
  }

  function ReadUint32(s: string): (r: Parsed<uint32>)
    ensures r.Parsed? ==> |r.rest| < |s|
  {
    var n := ReadWord(s, 4);
    if n.Unparsed? || n.value >= 0x1_0000_0000 then Unparsed else Parsed(n.value as uint32, n.rest)
  }

  function PlainType(tag: string): Option<SpecType> {
    if tag == "val" then Some(Val)
    else if tag == "bool" then Some(Scalar(Bool))
    else if tag == "void" then Some(Scalar(Void))
    else if tag == "error" then Some(Scalar(Error))
    else if tag == "u32" then Some(Scalar(U32))
    else if tag == "i32" then Some(Scalar(I32))
    else if tag == "u64" then Some(Scalar(U64))
    else if tag == "i64" then Some(Scalar(I64))
    else if tag == "timepoint" then Some(Scalar(Timepoint))
    else if tag == "duration" then Some(Scalar(Duration))
    else if tag == "u128" then Some(Scalar(U128))
    else if tag == "i128" then Some(Scalar(I128))
    else if tag == "u256" then Some(Scalar(U256))
    else if tag == "i256" then Some(Scalar(I256))
    else if tag == "bytes" then Some(Scalar(Bytes))
    else if tag == "string" then Some(Scalar(String))
    else if tag == "symbol" then Some(Scalar(Symbol))
    else if tag == "address" then Some(Scalar(Address))
    else None
  }

  function ReadType(s: string): (r: Parsed<SpecType>)
    ensures r.Parsed? ==> |r.rest| < |s|
    decreases |s|, 0
  {
    var tag := ReadStr(s);
    if tag.Unparsed? then Unparsed
    else if tag.value == "option" then
      var a := ReadType(tag.rest);
      if a.Unparsed? then Unparsed else Parsed(SpecType.Option(a.value), a.rest)
    else if tag.value == "vec" then
      var a := ReadType(tag.rest);
      if a.Unparsed? then Unparsed else Parsed(Vec(a.value), a.rest)
    else if tag.value == "result" then
      var ts := ReadTypes(tag.rest, 2);
      if ts.Unparsed? then Unparsed else Parsed(Result(ts.value[0], ts.value[1]), ts.rest)
    else if tag.value == "map" then
      var ts := ReadTypes(tag.rest, 2);
      if ts.Unparsed? then Unparsed else Parsed(Map(ts.value[0], ts.value[1]), ts.rest)
    else if tag.value == "tuple" then
      var n := ReadWord(tag.rest, 8);
      if n.Unparsed? then Unparsed
      else
        var ts := ReadTypes(n.rest, n.value);
        if ts.Unparsed? then Unparsed else Parsed(Tuple(ts.value), ts.rest)
    else if tag.value == "bytesn" then
      var n := ReadUint32(tag.rest);
      if n.Unparsed? then Unparsed else Parsed(BytesN(n.value), n.rest)
    else if tag.value == "udt" then
      var n := ReadStr(tag.rest);
      if n.Unparsed? then Unparsed else Parsed(Udt(n.value), n.rest)
    else
      var t := PlainType(tag.value);
      if t.None? then Unparsed else Parsed(t.value, tag.rest)
  }

  function ReadTypes(s: string, n: nat): (r: Parsed<seq<SpecType>>)
    ensures r.Parsed? ==> |r.rest| <= |s| && |r.value| == n
    decreases |s|, 1, n
  {
    if n == 0 then Parsed([], s)
    else
      var ts := ReadTypes(s, n - 1);
      if ts.Unparsed? then Unparsed
      else
        var t := ReadType(ts.rest);
        if t.Unparsed? then Unparsed else Parsed(ts.value + [t.value], t.rest)
  }

  function ReadTypeList(s: string): Parsed<seq<SpecType>> {
    var n := ReadWord(s, 8);
    if n.Unparsed? then Unparsed else ReadTypes(n.rest, n.value)
  }

  // ------------------------------------------------------------------
  // Entries and sections
  // ------------------------------------------------------------------

  function ReadMany<T>(read: string -> Parsed<T>, s: string, n: nat): Parsed<seq<T>> {
    if n == 0 then Parsed([], s)
    else
      var xs := ReadMany(read, s, n - 1);
      if xs.Unparsed? then Unparsed
      else
        var x := read(xs.rest);
        if x.Unparsed? then Unparsed else Parsed(xs.value + [x.value], x.rest)
  }

  /** A count of eight bytes, then that many items. */
  function ReadList<T>(read: string -> Parsed<T>, s: string): Parsed<seq<T>> {
    var n := ReadWord(s, 8);
    if n.Unparsed? then Unparsed else ReadMany(read, n.rest, n.value)
  }

  /** Two items, one after the other. */
  function ReadBoth<S, T>(first: string -> Parsed<S>, second: string -> Parsed<T>): string -> Parsed<(S, T)> {
    s =>
      var a := first(s);
      if a.Unparsed? then Unparsed
      else
        var b := second(a.rest);
        if b.Unparsed? then Unparsed else Parsed((a.value, b.value), b.rest)
  }

  /** What follows this tag. */
  function ReadTagged<T>(tag: string, read: string -> Parsed<T>): string -> Parsed<T> {
    s =>
      var t := ReadStr(s);
      if t.Unparsed? || t.value != tag then Unparsed else read(t.rest)
  }

  function ListReader<T>(read: string -> Parsed<T>): string -> Parsed<seq<T>> {
    s => ReadList(read, s)
  }

  function ReadField(s: string): Parsed<FieldShape> { ReadBoth(ReadStr, ReadType)(s) }

  function ReadPair(s: string): Parsed<CasePair> { ReadBoth(ReadStr, ReadUint32)(s) }

  function ReadCase(s: string): Parsed<CaseShape> {
    var kind := ReadStr(s);
    if kind.Unparsed? then Unparsed
    else if kind.value == "void" then
      var n := ReadStr(kind.rest);
      if n.Unparsed? then Unparsed else Parsed(VoidShape(n.value), n.rest)
    else if kind.value == "tuple" then
      var c := ReadBoth(ReadStr, ReadTypeList)(kind.rest);
      if c.Unparsed? then Unparsed else Parsed(TupleShape(c.value.0, c.value.1), c.rest)
    else Unparsed
  }

  function ReadSignature(s: string): Parsed<FunctionShape> {
    var f := ReadBoth(ListReader(ReadField), ReadTypeList)(s);
    if f.Unparsed? then Unparsed else Parsed(FunctionShape(f.value.0, f.value.1), f.rest)
  }

  /** Entries of this tag, each with its name, under the section's tag. */
  function ReadSection<T>(section: string, tag: string, read: string -> Parsed<T>): string -> Parsed<seq<(Name, T)>> {
    ReadTagged(section, ListReader(ReadTagged(tag, ReadBoth(ReadStr, read))))
  }

  datatype Listings = Listings(
    functions: seq<(Name, FunctionShape)>,
    structs: seq<(Name, seq<FieldShape>)>,
    unions: seq<(Name, seq<CaseShape>)>,
    enums: seq<(Name, seq<CasePair>)>,
    errorEnums: seq<(Name, seq<CasePair>)>)

  function ReadSections(s: string): Parsed<Listings> {
    var f := ReadSection("functions", "fn", ReadSignature)(s);
    if f.Unparsed? then Unparsed else
    var t := ReadSection("structs", "struct", ListReader(ReadField))(f.rest);
    if t.Unparsed? then Unparsed else
    var u := ReadSection("unions", "union", ListReader(ReadCase))(t.rest);
    if u.Unparsed? then Unparsed else
    var e := ReadSection("enums", "enum", ListReader(ReadPair))(u.rest);
    if e.Unparsed? then Unparsed else
    var x := ReadSection("error_enums", "error_enum", ListReader(ReadPair))(e.rest);
    if x.Unparsed? then Unparsed else
    Parsed(Listings(f.value, t.value, u.value, e.value, x.value), x.rest)
  }

  /** The domain, version 1, the sections, and nothing more. */
  function ReadForm(s: string): Option<Listings> {
    var d := ReadStr(s);
    if d.Unparsed? || d.value != "soroban-upgrade-safeguard/interface-hash" then None
    else
      var v := ReadWord(d.rest, 4);
      if v.Unparsed? || v.value != 1 then None
      else
        var r := ReadSections(v.rest);
        if r.Unparsed? || r.rest != "" then None else Some(r.value)
  }

  // ------------------------------------------------------------------
  // What is written reads back
  // ------------------------------------------------------------------

  lemma {:induction false} NumberReads(n: nat, k: nat)
    requires n < Power256(k)
    ensures Number(BigEndian(n, k)) == n
  {
    if k > 0 {
      var s := BigEndian(n, k);
      assert s[..k - 1] == BigEndian(n / 256, k - 1) && s[k - 1] == (n % 256) as char;
      NumberReads(n / 256, k - 1);
    }
  }

  lemma WordReads(n: nat, k: nat, r: string)
    requires n < Power256(k)
    ensures ReadWord(BigEndian(n, k) + r, k) == Parsed(n, r)
  {
    NumberReads(n, k);
    var s := BigEndian(n, k) + r;
    assert s[..k] == BigEndian(n, k) && s[k..] == r;
  }

  lemma CountReads(n: nat, r: string)
    requires n < WORD64
    ensures ReadWord(EncU64(n) + r, 8) == Parsed(n, r)
  {
    assert Power256(8) == WORD64;
    WordReads(n, 8, r);
  }

  lemma Uint32Reads(n: uint32, r: string)
    ensures ReadUint32(EncU32(n as nat) + r) == Parsed(n, r)
  {
    assert Power256(4) == 0x1_0000_0000;
    WordReads(n as nat, 4, r);
  }

  lemma StrReads(a: string, r: string)
    requires Fits(Str(a) + r)
    ensures ReadStr(Str(a) + r) == Parsed(a, r)
  {
    Assoc(EncU64(|a|), a, r);
    CountReads(|a|, a + r);
    assert (a + r)[..|a|] == a && (a + r)[|a|..] == r;
  }

  lemma PlainTagReads(t: SpecType)
    requires t.Val? || t.Scalar?
    ensures PlainType(TypeTag(t)) == Some(t)
  {
  }

  lemma PlainTypeReads(t: SpecType, s: string, r: string)
    requires t.Val? || t.Scalar?
    requires ReadStr(s) == Parsed(TypeTag(t), r)
    ensures ReadType(s) == Parsed(t, r)
  {
    hide ReadStr, PlainType;
    PlainTagReads(t);
  }

  lemma TwoTypesRead(a: SpecType, b: SpecType, r: string)
    requires ReadType(EncType(a) + (EncType(b) + r)) == Parsed(a, EncType(b) + r)
    requires ReadType(EncType(b) + r) == Parsed(b, r)
    ensures ReadTypes((EncType(a) + EncType(b)) + r, 2) == Parsed([a, b], r)
  {
    hide ReadType, EncType;
    Assoc(EncType(a), EncType(b), r);
    var s := (EncType(a) + EncType(b)) + r;
    assert ReadTypes(s, 0) == Parsed([], s) && s == EncType(a) + (EncType(b) + r);
    assert [] + [a] == [a] && [a] + [b] == [a, b];
  }

  lemma {:induction false} TypeListReads(ts: seq<SpecType>, r: string)
    requires Fits(EncTypeList(ts) + r)
    ensures ReadTypeList(EncTypeList(ts) + r) == Parsed(ts, r)
    decreases ts
  {
    Assoc(EncU64(|ts|), EncTypes(ts, |ts|), r);
    TypesLength(ts, |ts|);
    CountReads(|ts|, EncTypes(ts, |ts|) + r);
    TypesRead(ts, |ts|, r);
    assert ts[..|ts|] == ts;
  }

  lemma {:induction false} TypeReads(t: SpecType, r: string)
    requires Fits(EncType(t) + r)
    ensures ReadType(EncType(t) + r) == Parsed(t, r)
    decreases t, 1
  {
    hide ReadStr, PlainType, Str, ReadTypes, ReadWord, ReadUint32, EncU32, EncU64;
    var body := EncTypeBody(t) + r;
    Assoc(Str(TypeTag(t)), EncTypeBody(t), r);
    StrReads(TypeTag(t), body);
    match t
    case Option(a) => TypeReads(a, r);
    case Vec(a) => TypeReads(a, r);
    case Result(a, e) =>
      Assoc(EncType(a), EncType(e), r);
      TypeReads(a, EncType(e) + r);
      TypeReads(e, r);
      TwoTypesRead(a, e, r);
    case Map(k, a) =>
      Assoc(EncType(k), EncType(a), r);
      TypeReads(k, EncType(a) + r);
      TypeReads(a, r);
      TwoTypesRead(k, a, r);
    case Tuple(ts) => TypeListReads(ts, r);
    case BytesN(n) => Uint32Reads(n, r);
    case Udt(n) => StrReads(n, r);
    case _ =>
      assert body == r;
      PlainTypeReads(t, EncType(t) + r, r);
  }

  lemma {:induction false} TypesRead(ts: seq<SpecType>, n: nat, r: string)
    requires n <= |ts| && Fits(EncTypes(ts, n) + r)
    ensures ReadTypes(EncTypes(ts, n) + r, n) == Parsed(ts[..n], r)
    decreases ts, n
  {
    hide EncType, ReadType;
    if n == 0 {
      assert "" + r == r;
    } else {
      Assoc(EncTypes(ts, n - 1), EncType(ts[n - 1]), r);
      assert Fits(EncTypes(ts, n - 1) + (EncType(ts[n - 1]) + r));
      TypesRead(ts, n - 1, EncType(ts[n - 1]) + r);
      TypeReads(ts[n - 1], r);
      assert ts[..n] == ts[..n - 1] + [ts[n - 1]];
    }
  }

  // ------------------------------------------------------------------
  // Entries and sections read back
  // ------------------------------------------------------------------

  /** Whatever `enc` writes, `read` takes off any stream. */
  ghost predicate Reads<T(!new)>(read: string -> Parsed<T>, enc: T -> string) {
    && (forall x :: enc(x) != "")
    && forall x, r :: Fits(enc(x) + r) ==> read(enc(x) + r) == Parsed(x, r)
  }

  lemma {:induction false} ManyReads<T(!new)>(read: string -> Parsed<T>, enc: T -> string, xs: seq<T>, r: string)
    requires Reads(read, enc) && Fits(EncAll(enc, xs) + r)
    ensures ReadMany(read, EncAll(enc, xs) + r, |xs|) == Parsed(xs, r)
  {
    if xs == [] {
      assert "" + r == r;
    } else {
      var n := |xs| - 1;
      Assoc(EncAll(enc, xs[..n]), enc(xs[n]), r);
      ManyReads(read, enc, xs[..n], enc(xs[n]) + r);
      assert xs == xs[..n] + [xs[n]];
    }
  }

  lemma ListReads<T(!new)>(read: string -> Parsed<T>, enc: T -> string, xs: seq<T>, r: string)
    requires Reads(read, enc) && Fits(EncList(enc, xs) + r)
    ensures ReadList(read, EncList(enc, xs) + r) == Parsed(xs, r)
  {
    AllLength(enc, xs);
    hide Reads, ReadMany, EncAll, EncU64, ReadWord;
    Assoc(EncU64(|xs|), EncAll(enc, xs), r);
    CountReads(|xs|, EncAll(enc, xs) + r);
    ManyReads(read, enc, xs, r);
  }

  lemma FieldReads()
    ensures Reads(ReadField, EncField)
  {
    forall x: FieldShape, r | Fits(EncField(x) + r) ensures ReadField(EncField(x) + r) == Parsed(x, r) {
      Assoc(Str(x.0), EncType(x.1), r);
      StrReads(x.0, EncType(x.1) + r);
      TypeReads(x.1, r);
    }
  }

  lemma PairReads()
    ensures Reads(ReadPair, EncPair)
  {
    forall x: CasePair, r | Fits(EncPair(x) + r) ensures ReadPair(EncPair(x) + r) == Parsed(x, r) {
      Assoc(Str(x.0), EncU32(x.1 as nat), r);
      StrReads(x.0, EncU32(x.1 as nat) + r);
      Uint32Reads(x.1, r);
    }
  }

  lemma OneCaseReads(c: CaseShape, r: string)
    requires Fits(EncCase(c) + r)
    ensures ReadCase(EncCase(c) + r) == Parsed(c, r)
  {
    hide ReadStr, Str, ReadTypeList, EncTypeList;
    CaseForm(c, r);
    StrReads(CaseTag(c), Str(c.name) + (CaseBody(c) + r));
    StrReads(c.name, CaseBody(c) + r);
    if c.TupleShape? {
      TypeListReads(c.types, r);
    } else {
      assert CaseBody(c) + r == r;
    }
  }

  lemma CaseReads()
    ensures Reads(ReadCase, EncCase)
  {
    forall c, r | Fits(EncCase(c) + r) ensures ReadCase(EncCase(c) + r) == Parsed(c, r) {
      OneCaseReads(c, r);
    }
  }

  /** Tag, name and body of one entry. */
  lemma NamedReads<T(!new)>(tag: string, read: string -> Parsed<T>, n: Name, x: T, body: string, r: string)
    requires Fits((Str(tag) + (Str(n) + body)) + r) && read(body + r) == Parsed(x, r)
    ensures ReadTagged(tag, ReadBoth(ReadStr, read))((Str(tag) + (Str(n) + body)) + r) == Parsed((n, x), r)
  {
    hide ReadStr, Str;
    Assoc(Str(tag), Str(n) + body, r);
    Assoc(Str(n), body, r);
    StrReads(tag, Str(n) + (body + r));
    StrReads(n, body + r);
  }

  lemma SignatureReads(f: FunctionShape, r: string)
    requires Fits((EncList(EncField, f.inputs) + EncTypeList(f.outputs)) + r)
    ensures ReadSignature((EncList(EncField, f.inputs) + EncTypeList(f.outputs)) + r) == Parsed(f, r)
  {
    hide ReadList, EncList, ReadTypeList, EncTypeList, Reads;
    Assoc(EncList(EncField, f.inputs), EncTypeList(f.outputs), r);
    FieldReads();
    ListReads(ReadField, EncField, f.inputs, EncTypeList(f.outputs) + r);
    TypeListReads(f.outputs, r);
  }

  function FunctionReader(): string -> Parsed<(Name, FunctionShape)> {
    ReadTagged("fn", ReadBoth(ReadStr, ReadSignature))
  }

  lemma FunctionReads()
    ensures Reads(FunctionReader(), EncFunction)
  {
    forall x: (Name, FunctionShape), r | Fits(EncFunction(x) + r)
      ensures FunctionReader()(EncFunction(x) + r) == Parsed(x, r)
    {
      var body := EncList(EncField, x.1.inputs) + EncTypeList(x.1.outputs);
      assert Fits(body + r);
      SignatureReads(x.1, r);
      NamedReads("fn", ReadSignature, x.0, x.1, body, r);
    }
  }

  lemma NamedListReads<T(!new)>(tag: string, read: string -> Parsed<T>, enc: T -> string, encNamed: ((Name, seq<T>)) -> string)
    requires Reads(read, enc)
    requires forall x: (Name, seq<T>) :: encNamed(x) == Str(tag) + (Str(x.0) + EncList(enc, x.1))
    ensures Reads(ReadTagged(tag, ReadBoth(ReadStr, ListReader(read))), encNamed)
  {
    var reader := ReadTagged(tag, ReadBoth(ReadStr, ListReader(read)));
    forall x: (Name, seq<T>), r | Fits(encNamed(x) + r) ensures reader(encNamed(x) + r) == Parsed(x, r) {
      var body := EncList(enc, x.1);
      assert Fits(body + r);
      ListReads(read, enc, x.1, r);
      NamedReads(tag, ListReader(read), x.0, x.1, body, r);
    }
    forall x: (Name, seq<T>) ensures encNamed(x) != "" {
      assert |encNamed(x)| >= 8;
    }
  }

  ghost function InListing<S>(m: map<Name, S>): seq<(Name, S)> {
    Listing(m, SortedNames(m.Keys))
  }

  lemma SectionReads<S(!new)>(section: string, read: string -> Parsed<(Name, S)>, enc: ((Name, S)) -> string, m: map<Name, S>, r: string)
    requires Reads(read, enc) && Fits(Section(section, m, enc) + r)
    ensures ReadTagged(section, ListReader(read))(Section(section, m, enc) + r) == Parsed(InListing(m), r)
  {
    hide ReadStr, Str, EncList, ReadList, Reads;
    var list := EncList(enc, InListing(m));
    Assoc(Str(section), list, r);
    StrReads(section, list + r);
    ListReads(read, enc, InListing(m), r);
  }

  // ------------------------------------------------------------------
  // The whole form
  // ------------------------------------------------------------------

  lemma EntriesRead()
    ensures Reads(ReadTagged("fn", ReadBoth(ReadStr, ReadSignature)), EncFunction)
    ensures Reads(ReadTagged("struct", ReadBoth(ReadStr, ListReader(ReadField))), EncStruct)
    ensures Reads(ReadTagged("union", ReadBoth(ReadStr, ListReader(ReadCase))), EncUnion)
    ensures Reads(ReadTagged("enum", ReadBoth(ReadStr, ListReader(ReadPair))), EncEnum)
    ensures Reads(ReadTagged("error_enum", ReadBoth(ReadStr, ListReader(ReadPair))), EncErrorEnum)
  {
    FunctionReads();
    FieldReads();
    CaseReads();
    PairReads();
    NamedListReads("struct", ReadField, EncField, EncStruct);
    NamedListReads("union", ReadCase, EncCase, EncUnion);
    NamedListReads("enum", ReadPair, EncPair, EncEnum);
    NamedListReads("error_enum", ReadPair, EncPair, EncErrorEnum);
  }

  ghost function ListingsOf(i: Interface): Listings {
    Listings(InListing(i.functions), InListing(i.structs), InListing(i.unions), InListing(i.enums), InListing(i.errorEnums))
  }

  ghost function FunctionsOn(i: Interface): string {
    Section("functions", i.functions, EncFunction)
    + (Section("structs", i.structs, EncStruct)
    + (Section("unions", i.unions, EncUnion)
    + (Section("enums", i.enums, EncEnum)
    + Section("error_enums", i.errorEnums, EncErrorEnum))))
  }

  lemma SectionsRead(i: Interface, r: string)
    requires Fits(FunctionsOn(i) + r)
    ensures ReadSections(FunctionsOn(i) + r) == Parsed(ListingsOf(i), r)
  {
    EntriesRead();
    hide Reads, Section, InListing, ReadTagged, ReadBoth, ListReader;
    var f, t := Section("functions", i.functions, EncFunction), Section("structs", i.structs, EncStruct);
    var u, e := Section("unions", i.unions, EncUnion), Section("enums", i.enums, EncEnum);
    var x := Section("error_enums", i.errorEnums, EncErrorEnum);
    Assoc(f, t + (u + (e + x)), r);
    Assoc(t, u + (e + x), r);
    Assoc(u, e + x, r);
    Assoc(e, x, r);
    SectionReads("functions", ReadTagged("fn", ReadBoth(ReadStr, ReadSignature)), EncFunction, i.functions, t + (u + (e + (x + r))));
    SectionReads("structs", ReadTagged("struct", ReadBoth(ReadStr, ListReader(ReadField))), EncStruct, i.structs, u + (e + (x + r)));
    SectionReads("unions", ReadTagged("union", ReadBoth(ReadStr, ListReader(ReadCase))), EncUnion, i.unions, e + (x + r));
    SectionReads("enums", ReadTagged("enum", ReadBoth(ReadStr, ListReader(ReadPair))), EncEnum, i.enums, x + r);
    SectionReads("error_enums", ReadTagged("error_enum", ReadBoth(ReadStr, ListReader(ReadPair))), EncErrorEnum, i.errorEnums, r);
  }

  lemma Uint32Word(r: string)
    ensures ReadWord(EncU32(1) + r, 4) == Parsed(1, r)
  {
    assert Power256(4) == 0x1_0000_0000;
    WordReads(1, 4, r);
  }

  lemma HeaderReads(rest: string, l: Listings)
    requires Fits(Str(DOMAIN) + (EncU32(1) + rest)) && ReadSections(rest) == Parsed(l, "")
    ensures ReadForm(Str(DOMAIN) + (EncU32(1) + rest)) == Some(l)
  {
    hide ReadSections, EncU32, Str, ReadStr, ReadWord;
    StrReads(DOMAIN, EncU32(1) + rest);
    Uint32Word(rest);
  }

  lemma FormReads(i: Interface)
    requires Fits(Form(i))
    ensures ReadForm(Form(i)) == Some(ListingsOf(i))
  {
    var rest := FunctionsOn(i);
    assert Form(i) == Str(DOMAIN) + (EncU32(1) + rest);
    hide Section, InListing, ReadSections, Form, FunctionsOn, EncU32, Str, ReadForm;
    assert rest + "" == rest;
    SectionsRead(i, "");
    HeaderReads(rest, ListingsOf(i));
  }

  // ------------------------------------------------------------------
  // What was read is what the contract declares
  // ------------------------------------------------------------------

  ghost function Names<S>(entries: seq<(Name, S)>): seq<Name> {
    seq(|entries|, i requires 0 <= i < |entries| => entries[i].0)
  }

  /** One entry for each declared name, in byte order. */
  ghost predicate Covers<S>(entries: seq<(Name, S)>, names: set<Name>) {
    Ascending(Names(entries)) && |entries| == |names| && forall i :: 0 <= i < |entries| ==> entries[i].0 in names
  }

  /** Parameters and fields, in declaration order. */
  ghost predicate ShowsFields(shapes: seq<FieldShape>, fields: seq<Field>) {
    |shapes| == |fields| && forall i :: 0 <= i < |fields| ==> shapes[i].0 == fields[i].name && shapes[i].1 == fields[i].ty
  }

  ghost predicate ShowsCase(shape: CaseShape, c: UnionCase) {
    shape.name == c.name && shape.VoidShape? == c.VoidCase? && (c.TupleCase? ==> shape.types == c.types)
  }

  ghost predicate ShowsCases(shapes: seq<CaseShape>, u: Union) {
    |shapes| == |u.cases| && forall i :: 0 <= i < |u.cases| ==> ShowsCase(shapes[i], u.cases[i])
  }

  /** Enum cases come by name, and by value under one name. */
  ghost predicate PairsAscend(pairs: seq<CasePair>) {
    forall i, j :: 0 <= i < j < |pairs| ==>
      Precedes(pairs[i].0, pairs[j].0) || (pairs[i].0 == pairs[j].0 && pairs[i].1 <= pairs[j].1)
  }

  ghost function PairsOf(cases: seq<EnumCase>): seq<CasePair> {
    seq(|cases|, i requires 0 <= i < |cases| => (cases[i].name, cases[i].value))
  }

  ghost predicate ShowsEnum(pairs: seq<CasePair>, e: Enum) {
    PairsAscend(pairs) && multiset(pairs) == multiset(PairsOf(e.cases))
  }

  ghost predicate ShowsFunctions(entries: seq<(Name, FunctionShape)>, m: map<Name, Function>) {
    Covers(entries, m.Keys) && forall i :: 0 <= i < |entries| ==>
      ShowsFields(entries[i].1.inputs, m[entries[i].0].inputs) && entries[i].1.outputs == m[entries[i].0].outputs
  }

  ghost predicate ShowsStructs(entries: seq<(Name, seq<FieldShape>)>, m: map<Name, Struct>) {
    Covers(entries, m.Keys) && forall i :: 0 <= i < |entries| ==> ShowsFields(entries[i].1, m[entries[i].0].fields)
  }

  ghost predicate ShowsUnions(entries: seq<(Name, seq<CaseShape>)>, m: map<Name, Union>) {
    Covers(entries, m.Keys) && forall i :: 0 <= i < |entries| ==> ShowsCases(entries[i].1, m[entries[i].0])
  }

  ghost predicate ShowsEnums(entries: seq<(Name, seq<CasePair>)>, m: map<Name, Enum>) {
    Covers(entries, m.Keys) && forall i :: 0 <= i < |entries| ==> ShowsEnum(entries[i].1, m[entries[i].0])
  }

  /** What was read is the interface of the contract. */
  ghost predicate Shows(l: Listings, spec: ContractSpec) {
    && ShowsFunctions(l.functions, spec.functions)
    && ShowsStructs(l.structs, spec.structs)
    && ShowsUnions(l.unions, spec.unions)
    && ShowsEnums(l.enums, spec.enums)
    && ShowsEnums(l.errorEnums, spec.errorEnums)
  }

  lemma ListingCovers<S>(m: map<Name, S>)
    ensures Covers(InListing(m), m.Keys)
    ensures forall i :: 0 <= i < |InListing(m)| ==> InListing(m)[i].1 == m[InListing(m)[i].0]
  {
    SortedNamesAscend(m.Keys);
    assert Names(InListing(m)) == SortedNames(m.Keys);
  }

  lemma SortedPairsShow(e: Enum)
    ensures ShowsEnum(SortedPairs(e), e)
  {
    PairOrder();
    var pairs := SortedPairs(e);
    SortSorted(CasePairs(e), PairLeq);
    assert CasePairs(e) == PairsOf(e.cases);
    forall i, j | 0 <= i < j < |pairs|
      ensures Precedes(pairs[i].0, pairs[j].0) || (pairs[i].0 == pairs[j].0 && pairs[i].1 <= pairs[j].1)
    {
      LexIsExact(pairs[i].0, pairs[j].0);
    }
  }

  lemma FunctionsShow(m: map<Name, Function>)
    ensures ShowsFunctions(InListing(FunctionShapes(m)), m)
  {
    ListingCovers(FunctionShapes(m));
    hide InListing, Covers;
  }

  lemma StructsShow(m: map<Name, Struct>)
    ensures ShowsStructs(InListing(StructShapes(m)), m)
  {
    ListingCovers(StructShapes(m));
    hide InListing, Covers;
  }

  lemma UnionsShow(m: map<Name, Union>)
    ensures ShowsUnions(InListing(UnionShapes(m)), m)
  {
    ListingCovers(UnionShapes(m));
    hide InListing, Covers;
  }

  lemma EnumsShow(m: map<Name, Enum>)
    ensures ShowsEnums(InListing(EnumShapes(m)), m)
  {
    var list := InListing(EnumShapes(m));
    ListingCovers(EnumShapes(m));
    hide InListing, Covers, SortedPairs, ShowsEnum;
    forall i | 0 <= i < |list| ensures ShowsEnum(list[i].1, m[list[i].0]) {
      SortedPairsShow(m[list[i].0]);
    }
  }

  /** The canonical form reads back as the contract's interface. */
  lemma CanonicalFormReads(spec: ContractSpec)
    requires Fits(Form(InterfaceOf(spec)))
    ensures ReadForm(Form(InterfaceOf(spec))).Some? && Shows(ReadForm(Form(InterfaceOf(spec))).value, spec)
  {
    var i := InterfaceOf(spec);
    FormReads(i);
    hide ReadForm, Form, InListing, ShowsFunctions, ShowsStructs, ShowsUnions, ShowsEnums;
    FunctionsShow(spec.functions);
    StructsShow(spec.structs);
    UnionsShow(spec.unions);
    EnumsShow(spec.enums);
    EnumsShow(spec.errorEnums);
  }
}
