/** A contract's exported interface as the analyses read it: five maps keyed
    by name.  Names are kept as their bytes, one char for one byte. */
module Spec {

  type Name = string

  newtype uint32 = n: int | 0 <= n < 0x1_0000_0000

  /** The nullary XDR types other than `Val`. */
  datatype Prim =
    | Bool | Void | Error | U32 | I32 | U64 | I64 | Timepoint | Duration
    | U128 | I128 | U256 | I256 | Bytes | String | Symbol | Address

  datatype SpecType =
    | Val
    | Scalar(prim: Prim)
    | Option(inner: SpecType)
    | Result(ok: SpecType, err: SpecType)
    | Vec(elem: SpecType)
    | Map(key: SpecType, value: SpecType)
    | Tuple(elems: seq<SpecType>)
    | BytesN(n: uint32)
    | Udt(name: Name)

  /** A function parameter or a struct field. */
  datatype Field = Field(doc: string, name: Name, ty: SpecType)

  datatype Function = Function(doc: string, inputs: seq<Field>, outputs: seq<SpecType>)

  datatype Struct = Struct(doc: string, lib: string, fields: seq<Field>)

  /** Enums and error enums have the same shape. */
  datatype EnumCase = EnumCase(doc: string, name: Name, value: uint32)

  datatype Enum = Enum(doc: string, lib: string, cases: seq<EnumCase>)

  datatype UnionCase =
    | VoidCase(doc: string, name: Name)
    | TupleCase(doc: string, name: Name, types: seq<SpecType>)

  datatype Union = Union(doc: string, lib: string, cases: seq<UnionCase>)

  datatype ContractSpec = ContractSpec(
    functions: map<Name, Function>,
    structs: map<Name, Struct>,
    enums: map<Name, Enum>,
    unions: map<Name, Union>,
    errorEnums: map<Name, Enum>)

  ghost function EmptySpec(): ContractSpec {
    ContractSpec(map[], map[], map[], map[], map[])
  }

  function UdtNames(spec: ContractSpec): set<Name> {
    spec.structs.Keys + spec.enums.Keys + spec.unions.Keys + spec.errorEnums.Keys
  }

  /** No name is declared as two kinds of type. */
  ghost predicate OneKindPerName(spec: ContractSpec) {
    && spec.structs.Keys !! spec.enums.Keys !! spec.unions.Keys !! spec.errorEnums.Keys
  }

  /** Field names of a struct, and case names of a union, are told apart. */
  ghost predicate DistinctFields(s: Struct) {
    forall i, j :: 0 <= i < j < |s.fields| ==> s.fields[i].name != s.fields[j].name
  }

  ghost predicate DistinctCases(u: Union) {
    forall i, j :: 0 <= i < j < |u.cases| ==> u.cases[i].name != u.cases[j].name
  }

  ghost predicate DistinctMembers(spec: ContractSpec) {
    && (forall n :: n in spec.structs ==> DistinctFields(spec.structs[n]))
    && (forall n :: n in spec.unions ==> DistinctCases(spec.unions[n]))
  }
}
