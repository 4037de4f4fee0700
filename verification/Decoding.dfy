/** What decoding is, apart from the validator: typed values, the forms in which
    they are stored, and the proof that a stored value validates exactly when it
    is a stored form of some value of the type. */
module Decoding {
  import opened Prelude
  import opened Spec
  import opened Empirical

  // ------------------------------------------------------------------
  // Typed values
  // ------------------------------------------------------------------

  datatype Member = Member(name: Name, value: Value)

  datatype Value =
    | Untyped(raw: ScVal)
    | BoolOf(b: bool) | Unit | ErrorOf(code: nat) | U32Of(u: uint32) | I32Of(i: int32)
    | U64Of(u64: nat) | I64Of(i64: int) | TimepointOf(time: nat) | DurationOf(span: nat)
    | U128Of(u128: nat) | I128Of(i128: int) | U256Of(u256: nat) | I256Of(i256: int)
    | BytesOf(bytes: string) | StringOf(text: string) | SymbolOf(sym: Name) | AddressOf(address: string)
    | Absent | Present(content: Value)
    | Succeeded(ok: Value) | Failed(err: Value)
    | Items(items: seq<Value>) | Table(rows: seq<Row>) | Product(parts: seq<Value>)
    | Record(members: seq<Member>) | Choice(name: Name, number: uint32) | Variant(name: Name, payload: seq<Value>)

  datatype Row = Row(key: Value, val: Value)

  predicate HasScalarType(x: Value, p: Prim) {
    match p
    case Bool => x.BoolOf?
    case Void => x.Unit?
    case Error => x.ErrorOf?
    case U32 => x.U32Of?
    case I32 => x.I32Of?
    case U64 => x.U64Of?
    case I64 => x.I64Of?
    case Timepoint => x.TimepointOf?
    case Duration => x.DurationOf?
    case U128 => x.U128Of?
    case I128 => x.I128Of?
    case U256 => x.U256Of?
    case I256 => x.I256Of?
    case Bytes => x.BytesOf?
    case String => x.StringOf?
    case Symbol => x.SymbolOf?
    case Address => x.AddressOf?
  }

  /** The first case of this name, if any, is c. */
  ghost predicate FirstCase(cases: seq<UnionCase>, name: Name, c: UnionCase) {
    exists i :: 0 <= i < |cases| && cases[i] == c && c.name == name && forall j :: 0 <= j < i ==> cases[j].name != name
  }

  ghost predicate HasType(x: Value, t: SpecType, spec: ContractSpec)
    decreases x, 1
  {
    match t
    case Val => x.Untyped?
    case Scalar(p) => HasScalarType(x, p)
    case Option(a) => x.Absent? || (x.Present? && HasType(x.content, a, spec))
    case Result(a, e) => (x.Succeeded? && HasType(x.ok, a, spec)) || (x.Failed? && HasType(x.err, e, spec))
    case Vec(a) => x.Items? && forall i :: 0 <= i < |x.items| ==> HasType(x.items[i], a, spec)
    case Map(k, a) =>
      x.Table? && forall i :: 0 <= i < |x.rows| ==> HasType(x.rows[i].key, k, spec) && HasType(x.rows[i].val, a, spec)
    case Tuple(ts) =>
      x.Product? && |x.parts| == |ts| && forall i :: 0 <= i < |ts| ==> HasType(x.parts[i], ts[i], spec)
    case BytesN(n) => x.BytesOf? && |x.bytes| == n as int
    case Udt(n) => HasUdt(x, n, spec)
  }

  ghost predicate HasPayload(x: Value, c: UnionCase, spec: ContractSpec)
    requires x.Variant?
    decreases x, 0, 0
  {
    match c
    case VoidCase(_, _) => x.payload == []
    case TupleCase(_, _, ts) => |x.payload| == |ts| && forall k :: 0 <= k < |ts| ==> HasType(x.payload[k], ts[k], spec)
  }

  /** A record with the struct's fields in order, one of the enum's cases, or one
      of the union's with a value for each payload type. */
  ghost predicate HasUdt(x: Value, n: Name, spec: ContractSpec)
    decreases x, 0, 1
  {
    if n in spec.structs then
      var fields := spec.structs[n].fields;
      x.Record? && |x.members| == |fields| && forall k :: 0 <= k < |fields| ==>
        x.members[k].name == fields[k].name && HasType(x.members[k].value, fields[k].ty, spec)
    else if n in spec.enums then
      x.Choice? && exists c :: c in spec.enums[n].cases && c.name == x.name && c.value == x.number
    else if n in spec.unions then
      x.Variant? && exists c :: FirstCase(spec.unions[n].cases, x.name, c) && HasPayload(x, c, spec)
    else false
  }

  // ------------------------------------------------------------------
  // Stored forms
  // ------------------------------------------------------------------

  /** The first entry under this name holds w. */
  ghost predicate Holds(entries: seq<Entry>, name: Name, w: ScVal) {
    exists i :: 0 <= i < |entries| && entries[i].key == ScSymbol(name) && entries[i].val == w
      && forall j :: 0 <= j < i ==> entries[j].key != ScSymbol(name)
  }

  ghost predicate HasNone(entries: seq<Entry>, name: Name) {
    forall e :: e in entries ==> e.key != ScSymbol(name)
  }

  /** The stored forms of values without values inside them. */
  predicate StoresPlain(v: ScVal, x: Value) {
    match x
    case Untyped(w) => v == w
    case BoolOf(b) => v == ScBool(b)
    case Unit => v == ScVoid
    case ErrorOf(code) => v == ScError(code)
    case U32Of(n) => v == ScU32(n)
    case I32Of(n) => v == ScI32(n)
    case U64Of(n) => v == ScU64(n)
    case I64Of(n) => v == ScI64(n)
    case TimepointOf(n) => v == ScTimepoint(n)
    case DurationOf(n) => v == ScDuration(n)
    case U128Of(n) => v == ScU128(n)
    case I128Of(n) => v == ScI128(n)
    case U256Of(n) => v == ScU256(n)
    case I256Of(n) => v == ScI256(n)
    case BytesOf(bs) => v == ScBytes(bs)
    case StringOf(s) => v == ScString(s)
    case SymbolOf(s) => v == ScSymbol(s)
    case AddressOf(s) => v == ScAddress(s)
    case Choice(name, number) =>
      || v == ScSymbol(name) || (v.ScVec? && v.items != [] && v.items[0] == ScSymbol(name))
      || v == ScU32(number) || (v.ScI32? && (v.i as int - number as int) % 0x1_0000_0000 == 0)
    case _ => false
  }

  ghost predicate StoresField(entries: seq<Entry>, m: Member)
    decreases m, 1
  {
    (exists w :: Holds(entries, m.name, w) && Stores(w, m.value)) || (HasNone(entries, m.name) && m.value.Absent?)
  }

  /** v is a form in which x is stored. */
  ghost predicate Stores(v: ScVal, x: Value)
    decreases x, 0
  {
    match x
    case Absent => v == ScVoid
    case Present(y) => Stores(v, y)
    case Succeeded(y) => !v.ScError? && Stores(v, y)
    case Failed(y) => v.ScError? && Stores(v, y)
    case Items(xs) => v.ScVec? && |v.items| == |xs| && forall i :: 0 <= i < |xs| ==> Stores(v.items[i], xs[i])
    case Product(xs) => v.ScVec? && |v.items| == |xs| && forall i :: 0 <= i < |xs| ==> Stores(v.items[i], xs[i])
    case Table(rows) =>
      v.ScMap? && |v.entries| == |rows| && forall i :: 0 <= i < |rows| ==>
        Stores(v.entries[i].key, rows[i].key) && Stores(v.entries[i].val, rows[i].val)
    case Record(ms) =>
      // A map that may hold more, and may omit what is absent; or one item a field.
      || (v.ScMap? && forall k :: 0 <= k < |ms| ==> StoresField(v.entries, ms[k]))
      || (v.ScVec? && |v.items| == |ms| && forall k :: 0 <= k < |ms| ==> Stores(v.items[k], ms[k].value))
    case Variant(name, xs) =>
      || (v == ScSymbol(name) && xs == [])
      || (v.ScVec? && |v.items| == |xs| + 1 && v.items[0] == ScSymbol(name)
          && forall k :: 0 <= k < |xs| ==> Stores(v.items[k + 1], xs[k]))
    case _ => StoresPlain(v, x)
  }

  // ------------------------------------------------------------------
  // Stored forms validate
  // ------------------------------------------------------------------

  lemma HoldsAtIndex(entries: seq<Entry>, name: Name, w: ScVal)
    ensures Holds(entries, name, w) <==> FieldIndex(entries, name) < |entries| && entries[FieldIndex(entries, name)].val == w
    ensures HasNone(entries, name) <==> FieldIndex(entries, name) == |entries|
  {
    var k := FieldIndex(entries, name);
    if Holds(entries, name, w) {
      var i :| 0 <= i < |entries| && entries[i].key == ScSymbol(name) && entries[i].val == w
        && forall j :: 0 <= j < i ==> entries[j].key != ScSymbol(name);
      assert i == k;
    }
    if k < |entries| {
      assert entries[k] in entries;
    }
  }

  lemma FirstCaseAtIndex(cases: seq<UnionCase>, name: Name, c: UnionCase)
    ensures FirstCase(cases, name, c) <==> CaseIndex(cases, name) < |cases| && cases[CaseIndex(cases, name)] == c
  {
    if FirstCase(cases, name, c) {
      var i :| 0 <= i < |cases| && cases[i] == c && c.name == name && forall j :: 0 <= j < i ==> cases[j].name != name;
      assert i == CaseIndex(cases, name);
    }
  }

  lemma SameWord(i: int32, v: uint32)
    ensures AsInt32(v) == i <==> (i as int - v as int) % 0x1_0000_0000 == 0
  {
  }

  predicate IsPlain(x: Value) {
    && !x.Absent? && !x.Present? && !x.Succeeded? && !x.Failed? && !x.Items?
    && !x.Table? && !x.Product? && !x.Record? && !x.Variant?
  }

  lemma PlainStores(v: ScVal, x: Value)
    requires IsPlain(x)
    ensures Stores(v, x) <==> StoresPlain(v, x)
  {
    hide StoresPlain, StoresField;
  }

  lemma BytesStores(v: ScVal, x: Value)
    requires x.BytesOf? && Stores(v, x)
    ensures v == ScBytes(x.bytes)
  {
    PlainStores(v, x);
  }

  lemma ScalarIsPlain(x: Value, p: Prim)
    requires HasScalarType(x, p)
    ensures IsPlain(x)
  {
  }

  lemma ScalarIsRead(v: ScVal, x: Value, p: Prim)
    requires HasScalarType(x, p) && StoresPlain(v, x)
    ensures ScalarOf(v) == Some(p)
  {
  }

  lemma StoredPlainIsAccepted(v: ScVal, x: Value, t: SpecType, spec: ContractSpec)
    requires HasType(x, t, spec) && Stores(v, x) && (t.Val? || t.Scalar? || t.BytesN?)
    ensures Accepts(v, t, spec)
  {
    hide AcceptsUdt, HasUdt, Stores, StoresPlain, HasScalarType, ScalarOf;
    if t.Scalar? {
      ScalarIsPlain(x, t.prim);
      PlainStores(v, x);
      ScalarIsRead(v, x, t.prim);
    } else if t.BytesN? {
      BytesStores(v, x);
    }
  }

  /** How options and results are accepted, typed and stored. */
  lemma AcceptsArms(v: ScVal, t: SpecType, spec: ContractSpec)
    ensures t.Option? ==> (Accepts(v, t, spec) <==> v.ScVoid? || Accepts(v, t.inner, spec))
    ensures t.Result? ==> (Accepts(v, t, spec) <==> if v.ScError? then Accepts(v, t.err, spec) else Accepts(v, t.ok, spec))
  {
    hide AcceptsUdt, ScalarOf;
  }

  lemma HasArms(x: Value, t: SpecType, spec: ContractSpec)
    ensures t.Option? ==> (HasType(x, t, spec) <==> x.Absent? || (x.Present? && HasType(x.content, t.inner, spec)))
    ensures t.Result? ==>
      (HasType(x, t, spec) <==> (x.Succeeded? && HasType(x.ok, t.ok, spec)) || (x.Failed? && HasType(x.err, t.err, spec)))
  {
    hide HasUdt, HasScalarType;
  }

  lemma StoresOption(v: ScVal, x: Value)
    ensures x.Absent? ==> (Stores(v, x) <==> v == ScVoid)
    ensures x.Present? ==> (Stores(v, x) <==> Stores(v, x.content))
  {
    hide StoresPlain, StoresField;
  }

  lemma StoresResult(v: ScVal, x: Value)
    ensures x.Succeeded? ==> (Stores(v, x) <==> !v.ScError? && Stores(v, x.ok))
    ensures x.Failed? ==> (Stores(v, x) <==> v.ScError? && Stores(v, x.err))
  {
    hide StoresPlain, StoresField;
  }

  lemma {:induction false} StoredTableIsAccepted(v: ScVal, x: Value, t: SpecType, spec: ContractSpec)
    requires HasType(x, t, spec) && Stores(v, x) && t.Map?
    ensures Accepts(v, t, spec)
    decreases x, 1, 0
  {
    hide AcceptsUdt, HasUdt, HasScalarType, ScalarOf;
    forall i | 0 <= i < |v.entries| ensures Accepts(v.entries[i].key, t.key, spec) && Accepts(v.entries[i].val, t.value, spec) {
      assert x.rows[i] in x.rows;
      StoredIsAccepted(v.entries[i].key, x.rows[i].key, t.key, spec);
      StoredIsAccepted(v.entries[i].val, x.rows[i].val, t.value, spec);
    }
  }

  lemma AbsentIsOptional(entries: seq<Entry>, m: Member, t: SpecType, spec: ContractSpec)
    requires FieldIndex(entries, m.name) == |entries| && HasType(m.value, t, spec)
    requires StoresField(entries, m)
    ensures t.Option?
  {
    forall w ensures !Holds(entries, m.name, w) {
      HoldsAtIndex(entries, m.name, w);
    }
  }

  lemma {:induction false} StoredRecordIsAccepted(v: ScVal, x: Value, n: Name, spec: ContractSpec)
    requires n in spec.structs && HasUdt(x, n, spec) && Stores(v, x)
    ensures AcceptsUdt(v, n, spec)
    decreases x, 0, 0
  {
    var fields := spec.structs[n].fields;
    if v.ScVec? {
      forall k | 0 <= k < |fields| ensures Accepts(v.items[k], fields[k].ty, spec) {
        assert x.members[k] in x.members;
        StoredIsAccepted(v.items[k], x.members[k].value, fields[k].ty, spec);
      }
    } else {
      forall k | 0 <= k < |fields|
        ensures
          var i := FieldIndex(v.entries, fields[k].name);
          if i < |v.entries| then Accepts(v.entries[i].val, fields[k].ty, spec) else fields[k].ty.Option?
      {
        assert x.members[k] in x.members;
        var i := FieldIndex(v.entries, fields[k].name);
        if i < |v.entries| {
          HoldsAtIndex(v.entries, fields[k].name, v.entries[i].val);
          var w :| Holds(v.entries, fields[k].name, w) && Stores(w, x.members[k].value);
          HoldsAtIndex(v.entries, fields[k].name, w);
          StoredIsAccepted(w, x.members[k].value, fields[k].ty, spec);
        } else {
          AbsentIsOptional(v.entries, x.members[k], fields[k].ty, spec);
        }
      }
    }
  }

  lemma {:induction false} StoredVariantIsAccepted(v: ScVal, x: Value, n: Name, spec: ContractSpec)
    requires n !in spec.structs && n !in spec.enums && n in spec.unions && HasUdt(x, n, spec) && Stores(v, x)
    ensures AcceptsUdt(v, n, spec)
    decreases x, 0, 0
  {
    var cases := spec.unions[n].cases;
    var c :| FirstCase(cases, x.name, c) && HasPayload(x, c, spec);
    FirstCaseAtIndex(cases, x.name, c);
    if v.ScVec? && c.TupleCase? {
      forall k | 0 <= k < |c.types| ensures Accepts(v.items[k + 1], c.types[k], spec) {
        StoredIsAccepted(v.items[k + 1], x.payload[k], c.types[k], spec);
      }
    }
  }

  lemma StoredChoiceIsAccepted(v: ScVal, x: Value, n: Name, spec: ContractSpec)
    requires n !in spec.structs && n in spec.enums && HasUdt(x, n, spec) && Stores(v, x)
    ensures AcceptsUdt(v, n, spec)
  {
    PlainStores(v, x);
    if v.ScI32? { SameWord(v.i, x.number); }
    hide Stores;
  }

  lemma {:induction false} StoredUdtIsAccepted(v: ScVal, x: Value, n: Name, spec: ContractSpec)
    requires HasUdt(x, n, spec) && Stores(v, x)
    ensures AcceptsUdt(v, n, spec)
    decreases x, 0, 1
  {
    hide Stores, AcceptsUdt;
    if n in spec.structs {
      StoredRecordIsAccepted(v, x, n, spec);
    } else if n in spec.enums {
      StoredChoiceIsAccepted(v, x, n, spec);
    } else {
      StoredVariantIsAccepted(v, x, n, spec);
    }
  }

  lemma {:induction false} StoredArmIsAccepted(v: ScVal, x: Value, t: SpecType, spec: ContractSpec)
    requires HasType(x, t, spec) && Stores(v, x) && (t.Option? || t.Result?)
    ensures Accepts(v, t, spec)
    decreases x, 1, 0
  {
    hide Accepts, HasType, Stores;
    AcceptsArms(v, t, spec);
    HasArms(x, t, spec);
    if t.Option? {
      StoresOption(v, x);
      if x.Present? { StoredIsAccepted(v, x.content, t.inner, spec); }
    } else {
      StoresResult(v, x);
      if x.Failed? { StoredIsAccepted(v, x.err, t.err, spec); } else { StoredIsAccepted(v, x.ok, t.ok, spec); }
    }
  }

  lemma {:induction false} StoredIsAccepted(v: ScVal, x: Value, t: SpecType, spec: ContractSpec)
    requires HasType(x, t, spec) && Stores(v, x)
    ensures Accepts(v, t, spec)
    decreases x, 1, 1
  {
    if t.Val? || t.Scalar? || t.BytesN? {
      StoredPlainIsAccepted(v, x, t, spec);
    } else if t.Udt? {
      hide Stores;
      StoredUdtIsAccepted(v, x, t.name, spec);
    } else if t.Map? {
      StoredTableIsAccepted(v, x, t, spec);
    } else if t.Option? || t.Result? {
      StoredArmIsAccepted(v, x, t, spec);
    } else {
      StoredListIsAccepted(v, x, t, spec);
    }
  }

  lemma {:induction false} StoredListIsAccepted(v: ScVal, x: Value, t: SpecType, spec: ContractSpec)
    requires HasType(x, t, spec) && Stores(v, x) && (t.Vec? || t.Tuple?)
    ensures Accepts(v, t, spec)
    decreases x, 1, 0
  {
    hide AcceptsUdt, HasUdt, HasScalarType, ScalarOf;
    if t.Vec? {
      forall i | 0 <= i < |v.items| ensures Accepts(v.items[i], t.elem, spec) {
        StoredIsAccepted(v.items[i], x.items[i], t.elem, spec);
      }
    } else {
      forall i | 0 <= i < |v.items| ensures Accepts(v.items[i], t.elems[i], spec) {
        StoredIsAccepted(v.items[i], x.parts[i], t.elems[i], spec);
      }
    }
  }

  // ------------------------------------------------------------------
  // What validates is a stored form
  // ------------------------------------------------------------------

  function ScalarValue(v: ScVal): Value {
    match v
    case ScBool(b) => BoolOf(b)
    case ScVoid => Unit
    case ScError(code) => ErrorOf(code)
    case ScU32(n) => U32Of(n)
    case ScI32(n) => I32Of(n)
    case ScU64(n) => U64Of(n)
    case ScI64(n) => I64Of(n)
    case ScTimepoint(n) => TimepointOf(n)
    case ScDuration(n) => DurationOf(n)
    case ScU128(n) => U128Of(n)
    case ScI128(n) => I128Of(n)
    case ScU256(n) => U256Of(n)
    case ScI256(n) => I256Of(n)
    case ScBytes(bs) => BytesOf(bs)
    case ScString(s) => StringOf(s)
    case ScSymbol(s) => SymbolOf(s)
    case ScAddress(s) => AddressOf(s)
    case _ => Untyped(v)
  }

  lemma ScalarReads(v: ScVal, p: Prim)
    requires ScalarOf(v) == Some(p)
    ensures HasScalarType(ScalarValue(v), p) && StoresPlain(v, ScalarValue(v))
  {
  }

  /** The stored value is a form of some value of the type. */
  ghost predicate Means(v: ScVal, t: SpecType, spec: ContractSpec) {
    exists x :: HasType(x, t, spec) && Stores(v, x)
  }

  ghost predicate MeansUdt(v: ScVal, n: Name, spec: ContractSpec) {
    exists x :: HasUdt(x, n, spec) && Stores(v, x)
  }

  ghost function Meaning(v: ScVal, t: SpecType, spec: ContractSpec): (x: Value)
    requires Means(v, t, spec)
    ensures HasType(x, t, spec) && Stores(v, x)
  {
    var x :| HasType(x, t, spec) && Stores(v, x);
    x
  }

  lemma MeansBy(v: ScVal, x: Value, t: SpecType, spec: ContractSpec)
    requires HasType(x, t, spec) && Stores(v, x)
    ensures Means(v, t, spec)
  {
  }

  lemma MeansUdtBy(v: ScVal, x: Value, n: Name, spec: ContractSpec)
    requires HasUdt(x, n, spec) && Stores(v, x)
    ensures MeansUdt(v, n, spec)
  {
  }

  lemma AcceptedPlainMeans(v: ScVal, t: SpecType, spec: ContractSpec)
    requires Accepts(v, t, spec) && (t.Val? || t.Scalar? || t.BytesN?)
    ensures Means(v, t, spec)
  {
    hide AcceptsUdt, HasUdt;
    if t.Val? {
      MeansBy(v, Untyped(v), t, spec);
    } else if t.Scalar? {
      ScalarReads(v, t.prim);
      ScalarIsPlain(ScalarValue(v), t.prim);
      PlainStores(v, ScalarValue(v));
      MeansBy(v, ScalarValue(v), t, spec);
    } else {
      MeansBy(v, BytesOf(v.bytes), t, spec);
    }
  }

  lemma {:induction false} AcceptedMapMeans(v: ScVal, t: SpecType, spec: ContractSpec)
    requires Accepts(v, t, spec) && t.Map?
    ensures Means(v, t, spec)
    decreases v, 0, t, 0
  {
    hide AcceptsUdt, HasUdt, HasScalarType, ScalarOf, Means;
    var es := v.entries;
    forall i | 0 <= i < |es| ensures Means(es[i].key, t.key, spec) && Means(es[i].val, t.value, spec) {
      assert es[i] in es;
      AcceptedMeans(es[i].key, t.key, spec);
      AcceptedMeans(es[i].val, t.value, spec);
    }
    var rows := seq(|es|, i requires 0 <= i < |es| => Row(Meaning(es[i].key, t.key, spec), Meaning(es[i].val, t.value, spec)));
    MeansBy(v, Table(rows), t, spec);
  }

  lemma {:induction false} AcceptedItemsMean(v: ScVal, n: Name, spec: ContractSpec)
    requires AcceptsUdt(v, n, spec) && n in spec.structs && v.ScVec?
    ensures MeansUdt(v, n, spec)
    decreases v, 0, Udt(n), 0
  {
    hide Means;
    var fields := spec.structs[n].fields;
    forall k | 0 <= k < |fields| ensures Means(v.items[k], fields[k].ty, spec) {
      AcceptedMeans(v.items[k], fields[k].ty, spec);
    }
    var ms := seq(|fields|, k requires 0 <= k < |fields| => Member(fields[k].name, Meaning(v.items[k], fields[k].ty, spec)));
    MeansUdtBy(v, Record(ms), n, spec);
  }

  /** What the entries hold for one field. */
  ghost predicate FieldMeans(entries: seq<Entry>, f: Field, spec: ContractSpec) {
    exists x :: HasType(x, f.ty, spec) && StoresField(entries, Member(f.name, x))
  }

  ghost function FieldMeaning(entries: seq<Entry>, f: Field, spec: ContractSpec): (x: Value)
    requires FieldMeans(entries, f, spec)
    ensures HasType(x, f.ty, spec) && StoresField(entries, Member(f.name, x))
  {
    var x :| HasType(x, f.ty, spec) && StoresField(entries, Member(f.name, x));
    x
  }

  lemma FieldByEntry(entries: seq<Entry>, f: Field, i: nat, spec: ContractSpec)
    requires i == FieldIndex(entries, f.name) < |entries| && Means(entries[i].val, f.ty, spec)
    ensures FieldMeans(entries, f, spec)
  {
    HoldsAtIndex(entries, f.name, entries[i].val);
    var x := Meaning(entries[i].val, f.ty, spec);
    hide HasType, Stores, Holds;
    assert StoresField(entries, Member(f.name, x));
  }

  lemma FieldByAbsence(entries: seq<Entry>, f: Field, spec: ContractSpec)
    requires FieldIndex(entries, f.name) == |entries| && f.ty.Option?
    ensures FieldMeans(entries, f, spec)
  {
    HoldsAtIndex(entries, f.name, ScVoid);
    assert HasType(Absent, f.ty, spec) && StoresField(entries, Member(f.name, Absent));
  }

  lemma {:induction false} AcceptedFieldsMean(v: ScVal, n: Name, spec: ContractSpec)
    requires AcceptsUdt(v, n, spec) && n in spec.structs && v.ScMap?
    ensures MeansUdt(v, n, spec)
    decreases v, 0, Udt(n), 0
  {
    var fields := spec.structs[n].fields;
    forall k | 0 <= k < |fields| ensures FieldMeans(v.entries, fields[k], spec) {
      var i := FieldIndex(v.entries, fields[k].name);
      if i < |v.entries| {
        assert v.entries[i] in v.entries;
        AcceptedMeans(v.entries[i].val, fields[k].ty, spec);
        FieldByEntry(v.entries, fields[k], i, spec);
      } else {
        FieldByAbsence(v.entries, fields[k], spec);
      }
    }
    hide AcceptsUdt, FieldMeans, Holds, HasNone;
    var ms := seq(|fields|, k requires 0 <= k < |fields| => Member(fields[k].name, FieldMeaning(v.entries, fields[k], spec)));
    MeansUdtBy(v, Record(ms), n, spec);
  }

  lemma AcceptedEnumMeans(v: ScVal, n: Name, spec: ContractSpec)
    requires AcceptsUdt(v, n, spec) && n !in spec.structs && n in spec.enums
    ensures MeansUdt(v, n, spec)
  {
    var cases := spec.enums[n].cases;
    var c: EnumCase;
    if v.ScSymbol? {
      c :| c in cases && c.name == v.sym;
    } else if v.ScVec? {
      c :| c in cases && c.name == v.items[0].sym;
    } else if v.ScU32? {
      c :| c in cases && c.value == v.u;
    } else {
      c :| c in cases && AsInt32(c.value) == v.i;
      SameWord(v.i, c.value);
    }
    PlainStores(v, Choice(c.name, c.value));
    hide Stores;
    MeansUdtBy(v, Choice(c.name, c.value), n, spec);
  }

  lemma VariantBy(v: ScVal, x: Value, n: Name, c: UnionCase, spec: ContractSpec)
    requires n !in spec.structs && n !in spec.enums && n in spec.unions && x.Variant?
    requires FirstCase(spec.unions[n].cases, x.name, c) && HasPayload(x, c, spec) && Stores(v, x)
    ensures MeansUdt(v, n, spec)
  {
    hide Stores, FirstCase, HasPayload;
    MeansUdtBy(v, x, n, spec);
  }

  /** The case an accepted value names, and the stored payload that it carries. */
  ghost predicate ReadsCase(v: ScVal, name: Name, c: UnionCase, spec: ContractSpec) {
    || (v == ScSymbol(name) && (c.VoidCase? || c.types == []))
    || (v.ScVec? && v.items != [] && v.items[0] == ScSymbol(name)
        && |v.items| - 1 == (if c.TupleCase? then |c.types| else 0)
        && forall k :: 1 <= k < |v.items| && c.TupleCase? ==> Accepts(v.items[k], c.types[k - 1], spec))
  }

  lemma AcceptedReadsCase(v: ScVal, n: Name, spec: ContractSpec) returns (name: Name, c: UnionCase)
    requires AcceptsUdt(v, n, spec) && n !in spec.structs && n !in spec.enums
    ensures n in spec.unions && FirstCase(spec.unions[n].cases, name, c) && ReadsCase(v, name, c, spec)
  {
    hide Accepts;
    var cases := spec.unions[n].cases;
    name := if v.ScSymbol? then v.sym else v.items[0].sym;
    c := cases[CaseIndex(cases, name)];
    FirstCaseAtIndex(cases, name, c);
  }

  /** The values of a payload, read one by one, make up the variant. */
  ghost predicate PayloadRead(v: ScVal, c: UnionCase, xs: seq<Value>, spec: ContractSpec) {
    if v.ScVec? && c.TupleCase? then
      |v.items| == |xs| + 1 && |xs| == |c.types| &&
      forall k :: 0 <= k < |xs| ==> HasType(xs[k], c.types[k], spec) && Stores(v.items[k + 1], xs[k])
    else xs == []
  }

  lemma VariantIsRead(v: ScVal, name: Name, c: UnionCase, xs: seq<Value>, spec: ContractSpec)
    requires ReadsCase(v, name, c, spec) && PayloadRead(v, c, xs, spec)
    ensures HasPayload(Variant(name, xs), c, spec) && Stores(v, Variant(name, xs))
  {
    hide Accepts, HasType;
  }

  lemma ReadsPayload(v: ScVal, name: Name, c: UnionCase, spec: ContractSpec)
    requires ReadsCase(v, name, c, spec) && v.ScVec? && c.TupleCase?
    ensures |v.items| == |c.types| + 1 && forall k :: 0 <= k < |c.types| ==> Accepts(v.items[k + 1], c.types[k], spec)
  {
    hide Accepts;
  }

  lemma {:induction false} AcceptedUnionMeans(v: ScVal, n: Name, spec: ContractSpec)
    requires AcceptsUdt(v, n, spec) && n !in spec.structs && n !in spec.enums
    ensures MeansUdt(v, n, spec)
    decreases v, 0, Udt(n), 0
  {
    var name, c := AcceptedReadsCase(v, n, spec);
    hide Means, MeansUdt, HasUdt, HasType, Stores, Accepts, AcceptsUdt, FirstCase, ReadsCase;
    var xs := [];
    if v.ScVec? && c.TupleCase? {
      ReadsPayload(v, name, c, spec);
      forall k | 0 <= k < |c.types| ensures Means(v.items[k + 1], c.types[k], spec) {
        AcceptedMeans(v.items[k + 1], c.types[k], spec);
      }
      xs := seq(|c.types|, k requires 0 <= k < |c.types| => Meaning(v.items[k + 1], c.types[k], spec));
    }
    VariantIsRead(v, name, c, xs, spec);
    VariantBy(v, Variant(name, xs), n, c, spec);
  }

  lemma {:induction false} AcceptedUdtMeans(v: ScVal, n: Name, spec: ContractSpec)
    requires AcceptsUdt(v, n, spec)
    ensures MeansUdt(v, n, spec)
    decreases v, 0, Udt(n), 1
  {
    if n in spec.structs {
      if v.ScVec? { AcceptedItemsMean(v, n, spec); } else { AcceptedFieldsMean(v, n, spec); }
    } else if n in spec.enums {
      AcceptedEnumMeans(v, n, spec);
    } else {
      AcceptedUnionMeans(v, n, spec);
    }
  }

  lemma {:induction false} AcceptedArmMeans(v: ScVal, t: SpecType, spec: ContractSpec)
    requires Accepts(v, t, spec) && (t.Option? || t.Result?)
    ensures Means(v, t, spec)
    decreases v, 1, t, 0
  {
    hide Accepts, HasType, Stores, Means;
    AcceptsArms(v, t, spec);
    var x: Value;
    if t.Option? {
      if v.ScVoid? {
        x := Absent;
      } else {
        AcceptedMeans(v, t.inner, spec);
        x := Present(Meaning(v, t.inner, spec));
      }
      StoresOption(v, x);
    } else {
      AcceptedMeans(v, if v.ScError? then t.err else t.ok, spec);
      x := if v.ScError? then Failed(Meaning(v, t.err, spec)) else Succeeded(Meaning(v, t.ok, spec));
      StoresResult(v, x);
    }
    HasArms(x, t, spec);
    MeansBy(v, x, t, spec);
  }

  lemma {:induction false} AcceptedMeans(v: ScVal, t: SpecType, spec: ContractSpec)
    requires Accepts(v, t, spec)
    ensures Means(v, t, spec)
    decreases v, 1, t, 1
  {
    if t.Val? || t.Scalar? || t.BytesN? {
      AcceptedPlainMeans(v, t, spec);
    } else if t.Udt? {
      AcceptedUdtMeans(v, t.name, spec);
      var x :| HasUdt(x, t.name, spec) && Stores(v, x);
      hide Stores, HasUdt;
      MeansBy(v, x, t, spec);
    } else if t.Option? || t.Result? {
      AcceptedArmMeans(v, t, spec);
    } else if t.Map? {
      AcceptedMapMeans(v, t, spec);
    } else {
      AcceptedListMeans(v, t, spec);
    }
  }

  lemma {:induction false} AcceptedListMeans(v: ScVal, t: SpecType, spec: ContractSpec)
    requires Accepts(v, t, spec) && (t.Vec? || t.Tuple?)
    ensures Means(v, t, spec)
    decreases v, 0, t, 0
  {
    hide AcceptsUdt, HasUdt, HasScalarType, ScalarOf, Means;
    var ts := if t.Vec? then seq(|v.items|, _ => t.elem) else t.elems;
    forall i | 0 <= i < |v.items| ensures Means(v.items[i], ts[i], spec) {
      AcceptedMeans(v.items[i], ts[i], spec);
    }
    var xs := seq(|v.items|, i requires 0 <= i < |v.items| => Meaning(v.items[i], ts[i], spec));
    MeansBy(v, if t.Vec? then Items(xs) else Product(xs), t, spec);
  }

  lemma MeaningIsAccepted(v: ScVal, t: SpecType, spec: ContractSpec)
    requires Means(v, t, spec)
    ensures Accepts(v, t, spec)
  {
    var x := Meaning(v, t, spec);
    hide *;
    StoredIsAccepted(v, x, t, spec);
  }

  /** A value validates as a type iff it is a stored form of some value of it. */
  lemma ValidationIsDecoding(v: ScVal, t: SpecType, spec: ContractSpec)
    ensures Accepts(v, t, spec) <==> Means(v, t, spec)
  {
    hide *;
    if Accepts(v, t, spec) {
      AcceptedMeans(v, t, spec);
    }
    if Means(v, t, spec) {
      MeaningIsAccepted(v, t, spec);
    }
  }

  lemma UdtMeaningIsAccepted(v: ScVal, n: Name, spec: ContractSpec)
    requires MeansUdt(v, n, spec)
    ensures AcceptsUdt(v, n, spec)
  {
    hide HasUdt, Stores, AcceptsUdt;
    var x :| HasUdt(x, n, spec) && Stores(v, x);
    StoredUdtIsAccepted(v, x, n, spec);
  }

  /** The same for user-defined types, which candidates are searched by. */
  lemma UdtValidationIsDecoding(v: ScVal, n: Name, spec: ContractSpec)
    ensures AcceptsUdt(v, n, spec) <==> MeansUdt(v, n, spec)
  {
    hide *;
    if AcceptsUdt(v, n, spec) {
      AcceptedUdtMeans(v, n, spec);
    }
    if MeansUdt(v, n, spec) {
      UdtMeaningIsAccepted(v, n, spec);
    }
  }
}
