/** Interface definitions, and the values that instruction data is decoded into. */
module Idl {
  import opened Wrappers
  import opened LittleEndian

  datatype IdlType =
    | Bool
    | I8 | I16 | I32 | I64 | I128 | I256
    | U8 | U16 | U32 | U64 | U128 | U256
    | Bytes
    | PublicKey
    | Str
    | Optional(inner: IdlType)
    | Vec(inner: IdlType)
    | Array(inner: IdlType, length: nat)
    | Defined(name: string)

  datatype Field = Field(name: string, ty: IdlType)
  datatype VariantFields = NoFields | Tuple(types: seq<IdlType>) | Named(fields: seq<Field>)
  datatype Variant = Variant(name: string, fields: VariantFields)
  datatype TypeDef = Struct(fields: seq<Field>) | Enum(variants: seq<Variant>)
  datatype NamedDef = NamedDef(name: string, ty: TypeDef)

  /** The definitions of one program. */
  type Definitions = seq<NamedDef>

  /** A reader's own definitions first, then the other loaded ones; and what counts as a valid string. */
  datatype Reader = Reader(own: Definitions, loaded: seq<Definitions>, validText: seq<byte> -> bool)

  /** Decoded data. Struct fields are kept as their names beside their values. */
  datatype DataValue =
    | BoolValue(b: bool)
    | IntegerSigned(i: int)
    | IntegerUnsigned(n: nat)
    | Text(text: seq<byte>)
    | Blob(blob: seq<byte>)
    | Key(key: seq<byte>)
    | OptionalValue(value: Option<DataValue>)
    | ArrayValue(items: seq<DataValue>)
    | StructValue(names: seq<string>, values: seq<DataValue>)
    | EnumTuple(variant: string, values: seq<DataValue>)
    | EnumStruct(variant: string, names: seq<string>, values: seq<DataValue>)

  /** The type has no parts of other types. */
  predicate IsLeaf(ty: IdlType) {
    !ty.Optional? && !ty.Array? && !ty.Vec? && !ty.Defined?
  }

  /** The layout of an integer type: its sign, the bytes the parser reads, and the bytes of the type. */
  datatype IntLayout = IntLayout(signed: bool, read: nat, width: nat)

  function Layout(ty: IdlType): Option<IntLayout> {
    match ty
    case I8 => Some(IntLayout(true, 1, 1))
    case I16 => Some(IntLayout(true, 2, 2))
    case I32 => Some(IntLayout(true, 4, 4))
    case I64 => Some(IntLayout(true, 8, 8))
    case I128 => Some(IntLayout(true, 16, 16))
    case I256 => Some(IntLayout(true, 16, 32))
    case U8 => Some(IntLayout(false, 1, 1))
    case U16 => Some(IntLayout(false, 2, 2))
    case U32 => Some(IntLayout(false, 4, 4))
    case U64 => Some(IntLayout(false, 8, 8))
    case U128 => Some(IntLayout(false, 16, 16))
    case U256 => Some(IntLayout(false, 16, 32))
    case _ => None
  }

  function FieldTypes(fields: seq<Field>): (types: seq<IdlType>)
    ensures |types| == |fields|
  {
    seq(|fields|, i requires 0 <= i < |fields| => fields[i].ty)
  }

  function FieldNames(fields: seq<Field>): (names: seq<string>)
    ensures |names| == |fields|
  {
    seq(|fields|, i requires 0 <= i < |fields| => fields[i].name)
  }

  function Repeat(ty: IdlType, n: nat): (types: seq<IdlType>)
    ensures |types| == n
  {
    seq(n, _ => ty)
  }

  function FindIn(defs: Definitions, name: string): Option<TypeDef> {
    if defs == [] then None
    else if defs[0].name == name then Some(defs[0].ty)
    else FindIn(defs[1..], name)
  }

  function FindInAll(all: seq<Definitions>, name: string): Option<TypeDef> {
    if all == [] then None
    else if FindIn(all[0], name).Some? then FindIn(all[0], name)
    else FindInAll(all[1..], name)
  }

  /** The definition of a name: the reader's own first, then the first loaded one. */
  function FindDefined(r: Reader, name: string): Option<TypeDef> {
    if FindIn(r.own, name).Some? then FindIn(r.own, name) else FindInAll(r.loaded, name)
  }

  /** The types of a variant's fields. */
  function VariantTypes(v: Variant): seq<IdlType> {
    match v.fields
    case NoFields => []
    case Tuple(types) => types
    case Named(fields) => FieldTypes(fields)
  }

  /** The search for a definition: the reader's own ones, then the loaded ones in turn. */
  method FindDefinedType(r: Reader, name: string) returns (def: Option<TypeDef>)
    ensures def == FindDefined(r, name)
  {
    def := FindIn(r.own, name);
    if def.Some? { return; }
    for i := 0 to |r.loaded|
      invariant FindIn(r.own, name).None?
      invariant FindInAll(r.loaded, name) == FindInAll(r.loaded[i..], name)
    {
      def := FindIn(r.loaded[i], name);
      if def.Some? { return; }
    }
    def := None;
  }
}
