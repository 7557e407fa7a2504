/** The type-directed decoder of instruction data. */
module BorshParser {
  import opened Wrappers
  import opened LittleEndian
  import opened Idl

  /** DepthExceeded is no error of the decoder: it says that decoding was cut off, see ParseValue. */
  datatype Error =
    | DepthExceeded
    | UnexpectedEnd
    | InvalidTag
    | InvalidText
    | NoDefinition(name: string)
    | NoVariant(index: nat)

  /** A decoded value and the bytes that follow it. */
  datatype Parsed<+T> = Parsed(value: T, rest: seq<byte>)

  function Take(data: seq<byte>, n: nat): (r: Result<Parsed<seq<byte>>, Error>)
    ensures r.Ok? ==> |r.value.value| == n && data == r.value.value + r.value.rest
    ensures r.Err? ==> r.error == UnexpectedEnd
  {
    if |data| < n then Err(UnexpectedEnd) else Ok(Parsed(data[..n], data[n..]))
  }

  /** A tag byte that must be 0 or 1. */
  function ParseTag(data: seq<byte>): Result<Parsed<bool>, Error> {
    var t :- Take(data, 1);
    if t.value[0] == 0 then Ok(Parsed(false, t.rest))
    else if t.value[0] == 1 then Ok(Parsed(true, t.rest))
    else Err(InvalidTag)
  }

  function ParseUnsigned(data: seq<byte>, k: nat): Result<Parsed<nat>, Error> {
    var t :- Take(data, k);
    Ok(Parsed(FromBytes(t.value), t.rest))
  }

  /** A 32-bit length and as many bytes. */
  function ParseBlob(data: seq<byte>): Result<Parsed<seq<byte>>, Error> {
    var n :- ParseUnsigned(data, 4);
    Take(n.rest, n.value)
  }

  function ParseInteger(data: seq<byte>, layout: IntLayout): Result<Parsed<DataValue>, Error> {
    var n :- ParseUnsigned(data, layout.read);
    if layout.signed then Ok(Parsed(IntegerSigned(Signed(n.value, layout.read)), n.rest))
    else Ok(Parsed(IntegerUnsigned(n.value), n.rest))
  }

  /** Decode a value of a type without parts. */
  function ParseLeaf(r: Reader, ty: IdlType, data: seq<byte>): (p: Result<Parsed<DataValue>, Error>)
    requires IsLeaf(ty)
    ensures p.Ok? ==> |p.value.rest| < |data|
    ensures p != Err(DepthExceeded)
  {
    if Layout(ty).Some? then ParseInteger(data, Layout(ty).value)
    else match ty
    case Bool =>
      var t :- ParseTag(data);
      Ok(Parsed(BoolValue(t.value), t.rest))
    case Bytes =>
      var b :- ParseBlob(data);
      Ok(Parsed(Blob(b.value), b.rest))
    case PublicKey =>
      var k :- Take(data, 32);
      Ok(Parsed(Key(k.value), k.rest))
    case Str =>
      var b :- ParseBlob(data);
      if r.validText(b.value) then Ok(Parsed(Text(b.value), b.rest)) else Err(InvalidText)
  }

  /**
   Decode a value of the given type, entering values within values to the given
   depth only. The decoder itself knows no such bound: it ends, with the same
   outcome, exactly where some depth suffices.
   */
  function ParseValue(r: Reader, depth: nat, ty: IdlType, data: seq<byte>): (p: Result<Parsed<DataValue>, Error>)
    ensures p.Ok? ==> |p.value.rest| <= |data|
    decreases depth, 0, 0
  {
    if depth == 0 then Err(DepthExceeded)
    else match ty
    case Optional(inner) => ParseOption(r, depth - 1, inner, data)
    case Array(inner, length) => ParseArray(r, depth - 1, inner, length, data)
    case Vec(inner) => ParseVec(r, depth - 1, inner, data)
    case Defined(name) =>
      (match FindDefined(r, name)
       case None => Err(NoDefinition(name))
       case Some(Struct(fields)) => ParseStruct(r, depth - 1, fields, data)
       case Some(Enum(variants)) => ParseEnum(r, depth - 1, variants, data))
    case _ => ParseLeaf(r, ty, data)
  }

  function ParseOption(r: Reader, depth: nat, inner: IdlType, data: seq<byte>): (p: Result<Parsed<DataValue>, Error>)
    ensures p.Ok? ==> |p.value.rest| < |data|
    decreases depth, 2, 0
  {
    var t :- ParseTag(data);
    if !t.value then Ok(Parsed(OptionalValue(None), t.rest))
    else
      var v :- ParseValue(r, depth, inner, t.rest);
      Ok(Parsed(OptionalValue(Some(v.value)), v.rest))
  }

  function ParseArray(r: Reader, depth: nat, inner: IdlType, length: nat, data: seq<byte>)
    : (p: Result<Parsed<DataValue>, Error>)
    ensures p.Ok? ==> |p.value.rest| <= |data|
    decreases depth, 2, 0
  {
    var vs :- ParseAll(r, depth, Repeat(inner, length), data);
    Ok(Parsed(ArrayValue(vs.value), vs.rest))
  }

  /** A 32-bit length and as many elements. */
  function ParseVec(r: Reader, depth: nat, inner: IdlType, data: seq<byte>): (p: Result<Parsed<DataValue>, Error>)
    ensures p.Ok? ==> |p.value.rest| < |data|
    decreases depth, 2, 0
  {
    var n :- ParseUnsigned(data, 4);
    var vs :- ParseAll(r, depth, Repeat(inner, n.value), n.rest);
    Ok(Parsed(ArrayValue(vs.value), vs.rest))
  }

  function ParseStruct(r: Reader, depth: nat, fields: seq<Field>, data: seq<byte>)
    : (p: Result<Parsed<DataValue>, Error>)
    ensures p.Ok? ==> |p.value.rest| <= |data|
    decreases depth, 2, 0
  {
    var vs :- ParseAll(r, depth, FieldTypes(fields), data);
    Ok(Parsed(StructValue(FieldNames(fields), vs.value), vs.rest))
  }

  /** A variant's index and its fields. */
  function ParseEnum(r: Reader, depth: nat, variants: seq<Variant>, data: seq<byte>)
    : (p: Result<Parsed<DataValue>, Error>)
    ensures p.Ok? ==> |p.value.rest| < |data|
    decreases depth, 2, 0
  {
    var index :- ParseUnsigned(data, 1);
    if index.value >= |variants| then Err(NoVariant(index.value))
    else
      var variant := variants[index.value];
      var vs :- ParseAll(r, depth, VariantTypes(variant), index.rest);
      if variant.fields.Named?
      then Ok(Parsed(EnumStruct(variant.name, FieldNames(variant.fields.fields), vs.value), vs.rest))
      else Ok(Parsed(EnumTuple(variant.name, vs.value), vs.rest))
  }

  /** Decode values of the given types one after the other, stopping at the first error. */
  function ParseAll(r: Reader, depth: nat, types: seq<IdlType>, data: seq<byte>)
    : (p: Result<Parsed<seq<DataValue>>, Error>)
    ensures p.Ok? ==> |p.value.rest| <= |data| && |p.value.value| == |types|
    decreases depth, 1, |types|
  {
    if types == [] then Ok(Parsed([], data))
    else
      var first :- ParseValue(r, depth, types[0], data);
      var others :- ParseAll(r, depth, types[1..], first.rest);
      Ok(Parsed([first.value] + others.value, others.rest))
  }

  // ------------------------------------------------------------------- depth

  /** Decoding ends, with a value or an error. */
  ghost predicate Ends(r: Reader, ty: IdlType, data: seq<byte>) {
    exists depth :: ParseValue(r, depth, ty, data) != Err(DepthExceeded)
  }

  /** Decoding ends with this value and these bytes left. */
  ghost predicate Decodes(r: Reader, ty: IdlType, data: seq<byte>, p: Parsed<DataValue>) {
    exists depth :: ParseValue(r, depth, ty, data) == Ok(p)
  }

  /** Where a depth suffices, a greater one changes nothing. */
  lemma {:induction false} DeeperIsSame(r: Reader, depth: nat, depth': nat, ty: IdlType, data: seq<byte>)
    requires depth <= depth' && ParseValue(r, depth, ty, data) != Err(DepthExceeded)
    ensures ParseValue(r, depth', ty, data) == ParseValue(r, depth, ty, data)
    decreases depth, 0, 0
  {
    match ty
    case Optional(inner) => DeeperIsSameForOption(r, depth - 1, depth' - 1, inner, data);
    case Array(inner, length) => DeeperIsSameForAll(r, depth - 1, depth' - 1, Repeat(inner, length), data);
    case Vec(inner) => DeeperIsSameForVec(r, depth - 1, depth' - 1, inner, data);
    case Defined(name) =>
      match FindDefined(r, name) {
        case None =>
        case Some(Struct(fields)) => DeeperIsSameForAll(r, depth - 1, depth' - 1, FieldTypes(fields), data);
        case Some(Enum(variants)) => DeeperIsSameForEnum(r, depth - 1, depth' - 1, variants, data);
      }
    case _ =>
  }

  lemma {:induction false} DeeperIsSameForOption(r: Reader, depth: nat, depth': nat, inner: IdlType, data: seq<byte>)
    requires depth <= depth' && ParseOption(r, depth, inner, data) != Err(DepthExceeded)
    ensures ParseOption(r, depth', inner, data) == ParseOption(r, depth, inner, data)
    decreases depth, 2, 0
  {
    var t := ParseTag(data);
    if t.Ok? && t.value.value { DeeperIsSame(r, depth, depth', inner, t.value.rest); }
  }

  lemma {:induction false} DeeperIsSameForVec(r: Reader, depth: nat, depth': nat, inner: IdlType, data: seq<byte>)
    requires depth <= depth' && ParseVec(r, depth, inner, data) != Err(DepthExceeded)
    ensures ParseVec(r, depth', inner, data) == ParseVec(r, depth, inner, data)
    decreases depth, 2, 0
  {
    var n := ParseUnsigned(data, 4);
    if n.Ok? { DeeperIsSameForAll(r, depth, depth', Repeat(inner, n.value.value), n.value.rest); }
  }

  lemma {:induction false} DeeperIsSameForEnum(r: Reader, depth: nat, depth': nat, variants: seq<Variant>,
                                               data: seq<byte>)
    requires depth <= depth' && ParseEnum(r, depth, variants, data) != Err(DepthExceeded)
    ensures ParseEnum(r, depth', variants, data) == ParseEnum(r, depth, variants, data)
    decreases depth, 2, 0
  {
    var index := ParseUnsigned(data, 1);
    if index.Ok? && index.value.value < |variants| {
      DeeperIsSameForAll(r, depth, depth', VariantTypes(variants[index.value.value]), index.value.rest);
    }
  }

  lemma {:induction false} DeeperIsSameForAll(r: Reader, depth: nat, depth': nat, types: seq<IdlType>, data: seq<byte>)
    requires depth <= depth' && ParseAll(r, depth, types, data) != Err(DepthExceeded)
    ensures ParseAll(r, depth', types, data) == ParseAll(r, depth, types, data)
    decreases depth, 1, |types|
  {
    if types != [] {
      DeeperIsSame(r, depth, depth', types[0], data);
      var first := ParseValue(r, depth, types[0], data);
      if first.Ok? { DeeperIsSameForAll(r, depth, depth', types[1..], first.value.rest); }
    }
  }

  /** So decoding has one outcome: two depths that suffice agree. */
  lemma DepthDoesNotMatter(r: Reader, depth: nat, depth': nat, ty: IdlType, data: seq<byte>)
    requires ParseValue(r, depth, ty, data) != Err(DepthExceeded) &&
             ParseValue(r, depth', ty, data) != Err(DepthExceeded)
    ensures ParseValue(r, depth, ty, data) == ParseValue(r, depth', ty, data)
  {
    if depth <= depth' { DeeperIsSame(r, depth, depth', ty, data); } else { DeeperIsSame(r, depth', depth, ty, data); }
  }
}
