/** The decoder as it runs: a cursor over the instruction data that every step advances. */
module BorshCursor {
  import opened Wrappers
  import opened LittleEndian
  import opened Idl
  import opened BorshParser

  class Cursor {
    var data: seq<byte>

    constructor (data: seq<byte>)
      ensures this.data == data
    {
      this.data := data;
    }

    /** Take some bytes off the front. */
    method Take(n: nat) returns (r: Result<seq<byte>, Error>)
      modifies this
      ensures match BorshParser.Take(old(data), n)
              case Ok(p) => r == Ok(p.value) && data == p.rest
              case Err(e) => r == Err(e)
    {
      if |data| < n { return Err(UnexpectedEnd); }
      r := Ok(data[..n]);
      data := data[n..];
    }

    method ReadTag() returns (r: Result<bool, Error>)
      modifies this
      ensures match ParseTag(old(data))
              case Ok(p) => r == Ok(p.value) && data == p.rest
              case Err(e) => r == Err(e)
    {
      var t := Take(1);
      if t.Err? { return Err(t.error); }
      if t.value[0] > 1 { return Err(InvalidTag); }
      r := Ok(t.value[0] == 1);
    }

    method ReadUnsigned(k: nat) returns (r: Result<nat, Error>)
      modifies this
      ensures match ParseUnsigned(old(data), k)
              case Ok(p) => r == Ok(p.value) && data == p.rest
              case Err(e) => r == Err(e)
    {
      var t := Take(k);
      if t.Err? { return Err(t.error); }
      r := Ok(FromBytes(t.value));
    }

    method ReadBlob() returns (r: Result<seq<byte>, Error>)
      modifies this
      ensures match ParseBlob(old(data))
              case Ok(p) => r == Ok(p.value) && data == p.rest
              case Err(e) => r == Err(e)
    {
      var n := ReadUnsigned(4);
      if n.Err? { return Err(n.error); }
      r := Take(n.value);
    }
  }

  /** Decode one value at the cursor, wherever decoding ends at all: the depth only witnesses that it does. */
  method ParseDataValue(r: Reader, ghost depth: nat, ty: IdlType, cursor: Cursor) returns (v: Result<DataValue, Error>)
    requires ParseValue(r, depth, ty, cursor.data) != Err(DepthExceeded)
    modifies cursor
    ensures match ParseValue(r, depth, ty, old(cursor.data))
            case Ok(p) => v == Ok(p.value) && cursor.data == p.rest
            case Err(e) => v == Err(e)
    decreases depth, 1
  {
    match ty
    case Optional(inner) =>
      var t := cursor.ReadTag();
      if t.Err? { return Err(t.error); }
      if !t.value { return Ok(OptionalValue(None)); }
      v := ParseDataValue(r, depth - 1, inner, cursor);
      if v.Ok? { v := Ok(OptionalValue(Some(v.value))); }
    case Array(inner, length) =>
      var vs := ParseDataSequence(r, depth - 1, Repeat(inner, length), cursor);
      v := if vs.Ok? then Ok(ArrayValue(vs.value)) else Err(vs.error);
    case Vec(inner) =>
      var n := cursor.ReadUnsigned(4);
      if n.Err? { return Err(n.error); }
      var vs := ParseDataSequence(r, depth - 1, Repeat(inner, n.value), cursor);
      v := if vs.Ok? then Ok(ArrayValue(vs.value)) else Err(vs.error);
    case Defined(name) =>
      var def := FindDefinedType(r, name);
      if def.None? { return Err(NoDefinition(name)); }
      if def.value.Struct? {
        var vs := ParseDataSequence(r, depth - 1, FieldTypes(def.value.fields), cursor);
        v := if vs.Ok? then Ok(StructValue(FieldNames(def.value.fields), vs.value)) else Err(vs.error);
      } else {
        v := ParseDataEnum(r, depth - 1, def.value.variants, cursor);
      }
    case _ =>
      v := ReadLeaf(r, ty, cursor);
  }

  /** Decode a variant's index and its fields. */
  method ParseDataEnum(r: Reader, ghost depth: nat, variants: seq<Variant>, cursor: Cursor)
    returns (v: Result<DataValue, Error>)
    requires ParseEnum(r, depth, variants, cursor.data) != Err(DepthExceeded)
    modifies cursor
    ensures match ParseEnum(r, depth, variants, old(cursor.data))
            case Ok(p) => v == Ok(p.value) && cursor.data == p.rest
            case Err(e) => v == Err(e)
    decreases depth, 3
  {
    var index := cursor.ReadUnsigned(1);
    if index.Err? { return Err(index.error); }
    if index.value >= |variants| { return Err(NoVariant(index.value)); }
    var variant := variants[index.value];
    var vs := ParseDataSequence(r, depth, VariantTypes(variant), cursor);
    if vs.Err? { return Err(vs.error); }
    v := if variant.fields.Named?
         then Ok(EnumStruct(variant.name, FieldNames(variant.fields.fields), vs.value))
         else Ok(EnumTuple(variant.name, vs.value));
  }

  /** Decode a value of a type without parts. */
  method ReadLeaf(r: Reader, ty: IdlType, cursor: Cursor) returns (v: Result<DataValue, Error>)
    requires IsLeaf(ty)
    modifies cursor
    ensures match ParseLeaf(r, ty, old(cursor.data))
            case Ok(p) => v == Ok(p.value) && cursor.data == p.rest
            case Err(e) => v == Err(e)
  {
    if ty.Bool? {
      var t := cursor.ReadTag();
      v := if t.Ok? then Ok(BoolValue(t.value)) else Err(t.error);
    } else if ty.PublicKey? {
      var k := cursor.Take(32);
      v := if k.Ok? then Ok(Key(k.value)) else Err(k.error);
    } else if ty.Bytes? || ty.Str? {
      var b := cursor.ReadBlob();
      if b.Err? { return Err(b.error); }
      v := if ty.Bytes? then Ok(Blob(b.value))
           else if r.validText(b.value) then Ok(Text(b.value)) else Err(InvalidText);
    } else {
      var layout := Layout(ty).value;
      var n := cursor.ReadUnsigned(layout.read);
      if n.Err? { return Err(n.error); }
      v := Ok(if layout.signed then IntegerSigned(Signed(n.value, layout.read)) else IntegerUnsigned(n.value));
    }
  }

  /** Values already decoded in front of the outcome of decoding the rest. */
  function InFront(done: seq<DataValue>, rest: Result<Parsed<seq<DataValue>>, Error>)
    : Result<Parsed<seq<DataValue>>, Error>
  {
    match rest
    case Ok(p) => Ok(Parsed(done + p.value, p.rest))
    case Err(e) => Err(e)
  }

  /** Decode values of the given types one after the other, collecting them until one fails. */
  method ParseDataSequence(r: Reader, ghost depth: nat, types: seq<IdlType>, cursor: Cursor)
    returns (vs: Result<seq<DataValue>, Error>)
    requires ParseAll(r, depth, types, cursor.data) != Err(DepthExceeded)
    modifies cursor
    ensures match ParseAll(r, depth, types, old(cursor.data))
            case Ok(p) => vs == Ok(p.value) && cursor.data == p.rest
            case Err(e) => vs == Err(e)
    decreases depth, 2
  {
    var done: seq<DataValue> := [];
    assert types[0..] == types;
    NothingInFront(ParseAll(r, depth, types, cursor.data));
    for i := 0 to |types|
      invariant ParseAll(r, depth, types, old(cursor.data)) ==
                InFront(done, ParseAll(r, depth, types[i..], cursor.data))
    {
      ghost var before := cursor.data;
      var v := ParseDataValue(r, depth, types[i], cursor);
      if v.Err? { return Err(v.error); }
      StepInFront(r, depth, done, types[i..], before);
      done := done + [v.value];
    }
    assert types[|types|..] == [] && done + [] == done;
    vs := Ok(done);
  }

  lemma NothingInFront(rest: Result<Parsed<seq<DataValue>>, Error>)
    ensures InFront([], rest) == rest
  {
    if rest.Ok? { assert [] + rest.value.value == rest.value.value; }
  }

  lemma StepInFront(r: Reader, depth: nat, done: seq<DataValue>, types: seq<IdlType>, data: seq<byte>)
    requires types != [] && ParseValue(r, depth, types[0], data).Ok?
    ensures var first := ParseValue(r, depth, types[0], data).value;
            InFront(done, ParseAll(r, depth, types, data)) ==
            InFront(done + [first.value], ParseAll(r, depth, types[1..], first.rest))
  {
    var first := ParseValue(r, depth, types[0], data).value;
    var others := ParseAll(r, depth, types[1..], first.rest);
    if others.Ok? { assert done + ([first.value] + others.value.value) == done + [first.value] + others.value.value; }
  }
}
