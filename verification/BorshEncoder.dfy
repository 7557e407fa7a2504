/** The encoding that the Borsh specification gives to values of a defined type. */
module BorshEncoder {
  import opened LittleEndian
  import opened Idl

  const LENGTH_LIMIT: nat := 0x1_0000_0000

  /** The first variant of the given name, or the number of variants if there is none. */
  function VariantIndex(variants: seq<Variant>, name: string): (i: nat)
    ensures i <= |variants|
    ensures i < |variants| ==> variants[i].name == name
    ensures forall j :: 0 <= j < i ==> variants[j].name != name
  {
    if variants == [] || variants[0].name == name then 0 else 1 + VariantIndex(variants[1..], name)
  }

  function VariantName(v: DataValue): string
    requires v.EnumTuple? || v.EnumStruct?
  {
    v.variant
  }

  predicate FitsLayout(layout: IntLayout, v: DataValue) {
    if layout.signed
    then v.IntegerSigned? && 0 - Pow256(layout.read) <= 2 * v.i < Pow256(layout.read)
    else v.IntegerUnsigned? && v.n < Pow256(layout.read)
  }

  predicate MatchesVariant(v: DataValue, variant: Variant)
    requires v.EnumTuple? || v.EnumStruct?
  {
    if variant.fields.Named? then v.EnumStruct? && v.names == FieldNames(variant.fields.fields) else v.EnumTuple?
  }

  predicate LeafTyped(r: Reader, ty: IdlType, v: DataValue)
    requires IsLeaf(ty)
  {
    if Layout(ty).Some? then FitsLayout(Layout(ty).value, v)
    else match ty
    case Bool => v.BoolValue?
    case Bytes => v.Blob? && |v.blob| < LENGTH_LIMIT
    case PublicKey => v.Key? && |v.key| == 32
    case Str => v.Text? && |v.text| < LENGTH_LIMIT && r.validText(v.text)
  }

  /** The values of a type: those the decoder's value representation can hold. */
  predicate WellTyped(r: Reader, ty: IdlType, v: DataValue)
    decreases v, 1
  {
    match ty
    case Optional(inner) => v.OptionalValue? && (v.value.Some? ==> WellTyped(r, inner, v.value.value))
    case Array(inner, length) => v.ArrayValue? && |v.items| == length && AllTyped(r, Repeat(inner, length), v.items)
    case Vec(inner) => v.ArrayValue? && |v.items| < LENGTH_LIMIT && AllTyped(r, Repeat(inner, |v.items|), v.items)
    case Defined(name) =>
      var def := FindDefined(r, name);
      def.Some? &&
      (match def.value
       case Struct(fields) =>
         v.StructValue? && v.names == FieldNames(fields) && AllTyped(r, FieldTypes(fields), v.values)
       case Enum(variants) =>
         (v.EnumTuple? || v.EnumStruct?) &&
         var i := VariantIndex(variants, VariantName(v));
         i < |variants| && i < 256 && MatchesVariant(v, variants[i]) &&
         AllTyped(r, VariantTypes(variants[i]), v.values))
    case _ => LeafTyped(r, ty, v)
  }

  predicate AllTyped(r: Reader, types: seq<IdlType>, vs: seq<DataValue>)
    decreases vs, 0
  {
    |types| == |vs| && (vs != [] ==> WellTyped(r, types[0], vs[0]) && AllTyped(r, types[1..], vs[1..]))
  }

  function EncodeBlob(bytes: seq<byte>): seq<byte> {
    ToBytes(|bytes|, 4) + bytes
  }

  lemma {:induction false} Pow256Grows(k: nat, l: nat)
    requires k <= l
    ensures Pow256(k) <= Pow256(l)
  {
    if k < l { Pow256Grows(k, l - 1); }
  }

  /** An integer in as many bytes as its type has, or, if not full, as many as the parser reads. */
  function EncodeInteger(layout: IntLayout, full: bool, v: DataValue): seq<byte>
    requires FitsLayout(layout, v) && layout.read <= layout.width
  {
    var k := if full then layout.width else layout.read;
    Pow256Grows(layout.read, k);
    if layout.signed then ToBytes(Unsigned(v.i, k), k) else ToBytes(v.n, k)
  }

  function EncodeLeaf(r: Reader, full: bool, ty: IdlType, v: DataValue): seq<byte>
    requires IsLeaf(ty) && LeafTyped(r, ty, v)
  {
    if Layout(ty).Some? then EncodeInteger(Layout(ty).value, full, v)
    else match ty
    case Bool => [if v.b then 1 else 0]
    case Bytes => EncodeBlob(v.blob)
    case PublicKey => v.key
    case Str => EncodeBlob(v.text)
  }

  /** The Borsh encoding; without full, 256-bit integers are cut to the 128 bits the parser reads. */
  function Encode(r: Reader, full: bool, ty: IdlType, v: DataValue): seq<byte>
    requires WellTyped(r, ty, v)
    decreases v, 1
  {
    match ty
    case Optional(inner) =>
      if v.value.None? then [0] else [1] + Encode(r, full, inner, v.value.value)
    case Array(inner, length) => EncodeAll(r, full, Repeat(inner, length), v.items)
    case Vec(inner) => ToBytes(|v.items|, 4) + EncodeAll(r, full, Repeat(inner, |v.items|), v.items)
    case Defined(name) =>
      (match FindDefined(r, name).value
       case Struct(fields) => EncodeAll(r, full, FieldTypes(fields), v.values)
       case Enum(variants) =>
         var i := VariantIndex(variants, VariantName(v));
         [i] + EncodeAll(r, full, VariantTypes(variants[i]), v.values))
    case _ => EncodeLeaf(r, full, ty, v)
  }

  function EncodeAll(r: Reader, full: bool, types: seq<IdlType>, vs: seq<DataValue>): seq<byte>
    requires AllTyped(r, types, vs)
    decreases vs, 0
  {
    if vs == [] then []
    else Encode(r, full, types[0], vs[0]) + EncodeAll(r, full, types[1..], vs[1..])
  }

  /** How many 256-bit integers a value holds. */
  function Wide(r: Reader, ty: IdlType, v: DataValue): nat
    requires WellTyped(r, ty, v)
    decreases v, 1
  {
    match ty
    case I256 => 1
    case U256 => 1
    case Optional(inner) => if v.value.None? then 0 else Wide(r, inner, v.value.value)
    case Array(inner, length) => WideInAll(r, Repeat(inner, length), v.items)
    case Vec(inner) => WideInAll(r, Repeat(inner, |v.items|), v.items)
    case Defined(name) =>
      (match FindDefined(r, name).value
       case Struct(fields) => WideInAll(r, FieldTypes(fields), v.values)
       case Enum(variants) => WideInAll(r, VariantTypes(variants[VariantIndex(variants, VariantName(v))]), v.values))
    case _ => 0
  }

  function WideInAll(r: Reader, types: seq<IdlType>, vs: seq<DataValue>): nat
    requires AllTyped(r, types, vs)
    decreases vs, 0
  {
    if vs == [] then 0 else Wide(r, types[0], vs[0]) + WideInAll(r, types[1..], vs[1..])
  }
}
