/** Stored values, and what it means for one to decode as a type. */
module Empirical {
  import opened Prelude
  import opened Spec

  newtype int32 = n: int | -0x8000_0000 <= n < 0x8000_0000

  datatype Entry = Entry(key: ScVal, val: ScVal)

  datatype ScVal =
    | ScBool(b: bool) | ScVoid | ScError(code: nat) | ScU32(u: uint32) | ScI32(i: int32)
    | ScU64(u64: nat) | ScI64(i64: int) | ScTimepoint(time: nat) | ScDuration(span: nat)
    | ScU128(u128: nat) | ScI128(i128: int) | ScU256(u256: nat) | ScI256(i256: int)
    | ScBytes(bytes: string) | ScString(text: string) | ScSymbol(sym: Name) | ScAddress(address: string)
    | ScVec(items: seq<ScVal>) | ScNoVec | ScMap(entries: seq<Entry>) | ScNoMap
    | ScContractInstance(instance: string) | ScLedgerKeyInstance | ScLedgerKeyNonce(nonce: int)

  /** The scalar type a value belongs to, if any. */
  function ScalarOf(v: ScVal): Option<Prim> {
    match v
    case ScBool(_) => Some(Bool)
    case ScVoid => Some(Void)
    case ScError(_) => Some(Error)
    case ScU32(_) => Some(U32)
    case ScI32(_) => Some(I32)
    case ScU64(_) => Some(U64)
    case ScI64(_) => Some(I64)
    case ScTimepoint(_) => Some(Timepoint)
    case ScDuration(_) => Some(Duration)
    case ScU128(_) => Some(U128)
    case ScI128(_) => Some(I128)
    case ScU256(_) => Some(U256)
    case ScI256(_) => Some(I256)
    case ScBytes(_) => Some(Bytes)
    case ScString(_) => Some(String)
    case ScSymbol(_) => Some(Symbol)
    case ScAddress(_) => Some(Address)
    case _ => None
  }

  /** Where the first entry keyed by this symbol is; the length if nowhere. */
  function FieldIndex(entries: seq<Entry>, name: Name): (i: nat)
    ensures i <= |entries|
    ensures i < |entries| ==> entries[i].key == ScSymbol(name)
    ensures forall j :: 0 <= j < i ==> entries[j].key != ScSymbol(name)
  {
    if entries == [] || entries[0].key == ScSymbol(name) then 0
    else 1 + FieldIndex(entries[1..], name)
  }

  /** Where the first case of this name is; the length if nowhere. */
  function CaseIndex(cases: seq<UnionCase>, name: Name): (i: nat)
    ensures i <= |cases|
    ensures i < |cases| ==> cases[i].name == name
    ensures i == |cases| ==> forall c :: c in cases ==> c.name != name
    ensures forall j :: 0 <= j < i ==> cases[j].name != name
  {
    if cases == [] || cases[0].name == name then 0
    else 1 + CaseIndex(cases[1..], name)
  }

  /** The truncating cast of a discriminant to a signed word. */
  function AsInt32(v: uint32): int32 {
    if v < 0x8000_0000 then v as int32 else (v as int - 0x1_0000_0000) as int32
  }

  predicate HasCaseNamed(e: Enum, name: Name) {
    exists c :: c in e.cases && c.name == name
  }

  /** Does the value decode as the type?  Recursion is on the value, and on the
      type while the value stays the same. */
  predicate Accepts(v: ScVal, t: SpecType, spec: ContractSpec)
    decreases v, 1, t
  {
    match t
    case Val => true
    case Scalar(p) => ScalarOf(v) == Some(p)
    case Option(a) => v.ScVoid? || Accepts(v, a, spec)
    case Result(a, e) => if v.ScError? then Accepts(v, e, spec) else Accepts(v, a, spec)
    case Vec(a) => v.ScVec? && forall i :: 0 <= i < |v.items| ==> Accepts(v.items[i], a, spec)
    case Map(k, a) =>
      v.ScMap? && forall i :: 0 <= i < |v.entries| ==>
        Accepts(v.entries[i].key, k, spec) && Accepts(v.entries[i].val, a, spec)
    case Tuple(ts) =>
      v.ScVec? && |v.items| == |ts| && forall i :: 0 <= i < |ts| ==> Accepts(v.items[i], ts[i], spec)
    case BytesN(n) => v.ScBytes? && |v.bytes| == n as int
    case Udt(n) => AcceptsUdt(v, n, spec)
  }

  predicate AcceptsUdt(v: ScVal, n: Name, spec: ContractSpec)
    decreases v, 0
  {
    if n in spec.structs then
      var fields := spec.structs[n].fields;
      match v
      case ScMap(entries) =>
        forall k :: 0 <= k < |fields| ==>
          var i := FieldIndex(entries, fields[k].name);
          if i < |entries| then Accepts(entries[i].val, fields[k].ty, spec) else fields[k].ty.Option?
      case ScVec(items) =>
        |items| == |fields| && forall k :: 0 <= k < |fields| ==> Accepts(items[k], fields[k].ty, spec)
      case _ => false
    else if n in spec.enums then
      var e := spec.enums[n];
      match v
      case ScSymbol(s) => HasCaseNamed(e, s)
      case ScVec(items) => items != [] && items[0].ScSymbol? && HasCaseNamed(e, items[0].sym)
      case ScU32(x) => exists c :: c in e.cases && c.value == x
      case ScI32(x) => exists c :: c in e.cases && AsInt32(c.value) == x
      case _ => false
    else if n in spec.unions then
      var cases := spec.unions[n].cases;
      match v
      case ScSymbol(s) =>
        var i := CaseIndex(cases, s);
        i < |cases| && (cases[i].VoidCase? || cases[i].types == [])
      case ScVec(items) =>
        items != [] && items[0].ScSymbol? &&
        var i := CaseIndex(cases, items[0].sym);
        i < |cases| &&
        (match cases[i]
         case VoidCase(_, _) => |items| == 1
         case TupleCase(_, _, ts) =>
           |items| - 1 == |ts| && forall k :: 0 <= k < |ts| ==> Accepts(items[k + 1], ts[k], spec))
      case _ => false
    else false
  }

  /** The encoding used in calls: wherever the type says struct, a map, `full`
      when it holds every declared field; wherever it says enum, the
      discriminant. */
  ghost predicate Wire(v: ScVal, t: SpecType, spec: ContractSpec, full: bool)
    decreases v, 1, t
  {
    match t
    case Option(a) => v.ScVoid? || Wire(v, a, spec, full)
    case Result(a, e) => if v.ScError? then Wire(v, e, spec, full) else Wire(v, a, spec, full)
    case Vec(a) => v.ScVec? ==> forall i :: 0 <= i < |v.items| ==> Wire(v.items[i], a, spec, full)
    case Map(k, a) =>
      v.ScMap? ==> forall i :: 0 <= i < |v.entries| ==> Wire(v.entries[i].key, k, spec, full) && Wire(v.entries[i].val, a, spec, full)
    case Tuple(ts) =>
      v.ScVec? && |v.items| == |ts| ==> forall i :: 0 <= i < |ts| ==> Wire(v.items[i], ts[i], spec, full)
    case Udt(n) => WireUdt(v, n, spec, full)
    case _ => true
  }

  ghost predicate WireUdt(v: ScVal, n: Name, spec: ContractSpec, full: bool)
    decreases v, 0
  {
    if n in spec.structs then
      var fields := spec.structs[n].fields;
      v.ScMap? && forall k :: 0 <= k < |fields| ==>
        var i := FieldIndex(v.entries, fields[k].name);
        if i < |v.entries| then Wire(v.entries[i].val, fields[k].ty, spec, full) else !full
    else if n in spec.enums then v.ScU32?
    else if n in spec.unions && v.ScVec? && v.items != [] && v.items[0].ScSymbol? then
      var cases := spec.unions[n].cases;
      var i := CaseIndex(cases, v.items[0].sym);
      i < |cases| && cases[i].TupleCase? && |v.items| - 1 == |cases[i].types| ==>
        forall k :: 0 <= k < |cases[i].types| ==> Wire(v.items[k + 1], cases[i].types[k], spec, full)
    else true
  }

  /** At every struct the value passes through as this type, the fields it omits
      have optional types. */
  ghost predicate OmitsOptional(v: ScVal, t: SpecType, spec: ContractSpec)
    decreases v, 1, t
  {
    match t
    case Option(a) => v.ScVoid? || OmitsOptional(v, a, spec)
    case Result(a, e) => if v.ScError? then OmitsOptional(v, e, spec) else OmitsOptional(v, a, spec)
    case Vec(a) => v.ScVec? ==> forall i :: 0 <= i < |v.items| ==> OmitsOptional(v.items[i], a, spec)
    case Map(k, a) =>
      v.ScMap? ==> forall i :: 0 <= i < |v.entries| ==>
        OmitsOptional(v.entries[i].key, k, spec) && OmitsOptional(v.entries[i].val, a, spec)
    case Tuple(ts) =>
      v.ScVec? && |v.items| == |ts| ==> forall i :: 0 <= i < |ts| ==> OmitsOptional(v.items[i], ts[i], spec)
    case Udt(n) => UdtOmitsOptional(v, n, spec)
    case _ => true
  }

  ghost predicate UdtOmitsOptional(v: ScVal, n: Name, spec: ContractSpec)
    decreases v, 0
  {
    if n in spec.structs then
      var fields := spec.structs[n].fields;
      v.ScMap? ==> forall k :: 0 <= k < |fields| ==>
        var i := FieldIndex(v.entries, fields[k].name);
        if i < |v.entries| then OmitsOptional(v.entries[i].val, fields[k].ty, spec) else fields[k].ty.Option?
    else if n !in spec.enums && n in spec.unions && v.ScVec? && v.items != [] && v.items[0].ScSymbol? then
      var cases := spec.unions[n].cases;
      var i := CaseIndex(cases, v.items[0].sym);
      i < |cases| && cases[i].TupleCase? && |v.items| - 1 == |cases[i].types| ==>
        forall k :: 0 <= k < |cases[i].types| ==> OmitsOptional(v.items[k + 1], cases[i].types[k], spec)
    else true
  }

  /** Whatever decodes omits only optional fields. */
  lemma {:induction false} AcceptedOmitsOptional(v: ScVal, t: SpecType, spec: ContractSpec)
    requires Accepts(v, t, spec)
    ensures OmitsOptional(v, t, spec)
    decreases v, 1, t
  {
    if t.Option? {
      if !v.ScVoid? { AcceptedOmitsOptional(v, t.inner, spec); }
    } else if t.Result? {
      AcceptedOmitsOptional(v, if v.ScError? then t.err else t.ok, spec);
    } else if t.Vec? {
      forall i | 0 <= i < |v.items| ensures OmitsOptional(v.items[i], t.elem, spec) {
        AcceptedOmitsOptional(v.items[i], t.elem, spec);
      }
    } else if t.Map? {
      forall i | 0 <= i < |v.entries|
        ensures OmitsOptional(v.entries[i].key, t.key, spec) && OmitsOptional(v.entries[i].val, t.value, spec)
      {
        assert v.entries[i] in v.entries;
        AcceptedOmitsOptional(v.entries[i].key, t.key, spec);
        AcceptedOmitsOptional(v.entries[i].val, t.value, spec);
      }
    } else if t.Tuple? {
      forall i | 0 <= i < |v.items| ensures OmitsOptional(v.items[i], t.elems[i], spec) {
        AcceptedOmitsOptional(v.items[i], t.elems[i], spec);
      }
    } else if t.Udt? {
      AcceptedUdtOmitsOptional(v, t.name, spec);
    }
  }

  lemma {:induction false} AcceptedUdtOmitsOptional(v: ScVal, n: Name, spec: ContractSpec)
    requires AcceptsUdt(v, n, spec)
    ensures UdtOmitsOptional(v, n, spec)
    decreases v, 0
  {
    if n in spec.structs {
      var fields := spec.structs[n].fields;
      forall k | v.ScMap? && 0 <= k < |fields| && FieldIndex(v.entries, fields[k].name) < |v.entries|
        ensures OmitsOptional(v.entries[FieldIndex(v.entries, fields[k].name)].val, fields[k].ty, spec)
      {
        var i := FieldIndex(v.entries, fields[k].name);
        assert v.entries[i] in v.entries;
        AcceptedOmitsOptional(v.entries[i].val, fields[k].ty, spec);
      }
    } else if n !in spec.enums && n in spec.unions && v.ScVec? {
      var c := spec.unions[n].cases[CaseIndex(spec.unions[n].cases, v.items[0].sym)];
      forall k | c.TupleCase? && 0 <= k < |c.types| ensures OmitsOptional(v.items[k + 1], c.types[k], spec) {
        AcceptedOmitsOptional(v.items[k + 1], c.types[k], spec);
      }
    }
  }
}
