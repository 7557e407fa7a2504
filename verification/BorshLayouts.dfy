/** The bytes of every type, with their numbers, order and tags as they stand in the Borsh specification. */
module BorshLayouts {
  import opened Wrappers
  import opened LittleEndian
  import opened Idl
  import opened BorshParser
  import opened BorshEncoder
  import opened BorshRoundTrip

  /** The i-th byte of a number is its i-th digit to the base 256, the lowest first. */
  lemma {:induction false} BytesAreDigits(n: nat, k: nat, i: nat)
    requires i < k
    ensures ToBytes(n, k)[i] == Digit(n, i)
  {
    if i > 0 { BytesAreDigits(n / 256, k - 1, i - 1); }
  }

  function Digit(n: nat, i: nat): nat {
    if i == 0 then n % 256 else Digit(n / 256, i - 1)
  }

  lemma PowersOf256()
    ensures Pow256(1) == 0x100 && Pow256(2) == 0x1_0000 && Pow256(4) == 0x1_0000_0000
    ensures Pow256(8) == 0x1_0000_0000_0000_0000
    ensures Pow256(16) == 0x1_0000_0000_0000_0000_0000_0000_0000_0000
  {
    assert Pow256(2) == 256 * Pow256(1) && Pow256(3) == 256 * Pow256(2) && Pow256(4) == 256 * Pow256(3);
    PowerOfSum(4, 4);
    PowerOfSum(8, 8);
  }

  // ---------------------------------------------------------------- integers

  /** A number is read from k bytes, and shorter data are an error. */
  ghost predicate Reads(r: Reader, ty: IdlType, k: nat, bytes: seq<byte>, value: DataValue) {
    && (forall tail :: ParseValue(r, 1, ty, bytes + tail) == Ok(Parsed(value, tail)))
    && |bytes| == k && forall data: seq<byte> :: |data| < k ==> ParseValue(r, 1, ty, data) == Err(UnexpectedEnd)
  }

  /** It is written as those bytes. */
  predicate Writes(r: Reader, ty: IdlType, bytes: seq<byte>, value: DataValue) {
    WellTyped(r, ty, value) && Encode(r, true, ty, value) == bytes
  }

  /** The type holds the unsigned integers below the limit, in k bytes. */
  ghost predicate UnsignedLayout(r: Reader, ty: IdlType, k: nat, limit: nat) {
    forall n: nat :: n < limit ==>
      Reads(r, ty, k, ToBytes(n, k), IntegerUnsigned(n)) && Writes(r, ty, ToBytes(n, k), IntegerUnsigned(n))
  }

  /** The type holds the signed integers of half the limit's magnitude, in k bytes of two's complement. */
  ghost predicate SignedLayout(r: Reader, ty: IdlType, k: nat, limit: nat) {
    forall v: int :: 0 - limit <= 2 * v < limit ==>
      Reads(r, ty, k, ToBytes(Complement(v, limit), k), IntegerSigned(v)) &&
      Writes(r, ty, ToBytes(Complement(v, limit), k), IntegerSigned(v))
  }

  function Complement(v: int, limit: nat): nat {
    if 0 <= v then v else if v + limit >= 0 then v + limit else 0
  }

  lemma IntegerIsRead(r: Reader, ty: IdlType, layout: IntLayout, data: seq<byte>)
    requires Layout(ty) == Some(layout)
    ensures ParseValue(r, 1, ty, data) == ParseInteger(data, layout)
  {
  }

  lemma ShortIsError(r: Reader, ty: IdlType, layout: IntLayout, data: seq<byte>)
    requires Layout(ty) == Some(layout) && |data| < layout.read
    ensures ParseValue(r, 1, ty, data) == Err(UnexpectedEnd)
  {
    IntegerIsRead(r, ty, layout, data);
  }

  lemma BytesAreRead(r: Reader, ty: IdlType, layout: IntLayout, n: nat, tail: seq<byte>)
    requires Layout(ty) == Some(layout) && n < Pow256(layout.read)
    ensures ParseValue(r, 1, ty, ToBytes(n, layout.read) + tail) ==
            Ok(Parsed(if layout.signed then IntegerSigned(Signed(n, layout.read)) else IntegerUnsigned(n), tail))
  {
    IntegerIsRead(r, ty, layout, ToBytes(n, layout.read) + tail);
    UnsignedOfAppended(n, layout.read, tail);
  }

  lemma ReadsBytes(r: Reader, ty: IdlType, layout: IntLayout, n: nat, value: DataValue)
    requires Layout(ty) == Some(layout) && n < Pow256(layout.read)
    requires value == if layout.signed then IntegerSigned(Signed(n, layout.read)) else IntegerUnsigned(n)
    ensures Reads(r, ty, layout.read, ToBytes(n, layout.read), value)
  {
    forall tail: seq<byte> { BytesAreRead(r, ty, layout, n, tail); }
    forall data: seq<byte> | |data| < layout.read { ShortIsError(r, ty, layout, data); }
  }

  lemma IntegerIsWritten(r: Reader, ty: IdlType, layout: IntLayout, value: DataValue)
    requires Layout(ty) == Some(layout) && layout.read <= layout.width && FitsLayout(layout, value)
    ensures Writes(r, ty, EncodeInteger(layout, true, value), value)
  {
  }

  lemma SignedIsWritten(k: nat, v: int)
    requires 0 - Pow256(k) <= 2 * v < Pow256(k)
    ensures EncodeInteger(IntLayout(true, k, k), true, IntegerSigned(v)) == ToBytes(Complement(v, Pow256(k)), k)
  {
  }

  lemma UnsignedHolds(r: Reader, ty: IdlType, k: nat, limit: nat)
    requires Layout(ty) == Some(IntLayout(false, k, k)) && limit == Pow256(k)
    ensures UnsignedLayout(r, ty, k, limit)
  {
    forall n: nat | n < limit
      ensures Reads(r, ty, k, ToBytes(n, k), IntegerUnsigned(n)) && Writes(r, ty, ToBytes(n, k), IntegerUnsigned(n))
    {
      ReadsBytes(r, ty, IntLayout(false, k, k), n, IntegerUnsigned(n));
      IntegerIsWritten(r, ty, IntLayout(false, k, k), IntegerUnsigned(n));
    }
  }

  lemma SignedHolds(r: Reader, ty: IdlType, k: nat, limit: nat)
    requires Layout(ty) == Some(IntLayout(true, k, k)) && limit == Pow256(k)
    ensures SignedLayout(r, ty, k, limit)
  {
    forall v: int | 0 - limit <= 2 * v < limit
      ensures Reads(r, ty, k, ToBytes(Complement(v, limit), k), IntegerSigned(v))
      ensures Writes(r, ty, ToBytes(Complement(v, limit), k), IntegerSigned(v))
    {
      SignedUnsigned(v, k);
      ReadsBytes(r, ty, IntLayout(true, k, k), Unsigned(v, k), IntegerSigned(v));
      SignedIsWritten(k, v);
      IntegerIsWritten(r, ty, IntLayout(true, k, k), IntegerSigned(v));
    }
  }

  /** Every unsigned type up to 128 bits is read and written in its own width, with its own range. */
  lemma UnsignedLayouts(r: Reader)
    ensures UnsignedLayout(r, U8, 1, 0x100)
    ensures UnsignedLayout(r, U16, 2, 0x1_0000)
    ensures UnsignedLayout(r, U32, 4, 0x1_0000_0000)
    ensures UnsignedLayout(r, U64, 8, 0x1_0000_0000_0000_0000)
    ensures UnsignedLayout(r, U128, 16, 0x1_0000_0000_0000_0000_0000_0000_0000_0000)
  {
    PowersOf256();
    UnsignedHolds(r, U8, 1, 0x100);
    UnsignedHolds(r, U16, 2, 0x1_0000);
    UnsignedHolds(r, U32, 4, 0x1_0000_0000);
    UnsignedHolds(r, U64, 8, 0x1_0000_0000_0000_0000);
    UnsignedHolds(r, U128, 16, 0x1_0000_0000_0000_0000_0000_0000_0000_0000);
  }

  /** And so is every signed one. */
  lemma SignedLayouts(r: Reader)
    ensures SignedLayout(r, I8, 1, 0x100)
    ensures SignedLayout(r, I16, 2, 0x1_0000)
    ensures SignedLayout(r, I32, 4, 0x1_0000_0000)
    ensures SignedLayout(r, I64, 8, 0x1_0000_0000_0000_0000)
    ensures SignedLayout(r, I128, 16, 0x1_0000_0000_0000_0000_0000_0000_0000_0000)
  {
    PowersOf256();
    SignedHolds(r, I8, 1, 0x100);
    SignedHolds(r, I16, 2, 0x1_0000);
    SignedHolds(r, I32, 4, 0x1_0000_0000);
    SignedHolds(r, I64, 8, 0x1_0000_0000_0000_0000);
    SignedHolds(r, I128, 16, 0x1_0000_0000_0000_0000_0000_0000_0000_0000);
  }

  // ------------------------------------------------- truth values, keys and blobs

  /** A truth value is a byte of 0 or 1, and no other byte is one. */
  lemma BoolLayout(r: Reader, b: byte, tail: seq<byte>)
    ensures ParseValue(r, 1, Bool, [b] + tail) ==
            if b == 0 then Ok(Parsed(BoolValue(false), tail))
            else if b == 1 then Ok(Parsed(BoolValue(true), tail)) else Err(InvalidTag)
    ensures ParseValue(r, 1, Bool, []) == Err(UnexpectedEnd)
    ensures Encode(r, true, Bool, BoolValue(false)) == [0] && Encode(r, true, Bool, BoolValue(true)) == [1]
  {
    TakeOfAppended([b], tail);
  }

  /** A key is thirty-two bytes as they stand. */
  lemma KeyLayout(r: Reader, key: seq<byte>, tail: seq<byte>)
    requires |key| == 32
    ensures ParseValue(r, 1, PublicKey, key + tail) == Ok(Parsed(Key(key), tail))
    ensures forall data: seq<byte> :: |data| < 32 ==> ParseValue(r, 1, PublicKey, data) == Err(UnexpectedEnd)
    ensures WellTyped(r, PublicKey, Key(key)) && Encode(r, true, PublicKey, Key(key)) == key
  {
    TakeOfAppended(key, tail);
  }

  /** The length of a blob, a string or a vector is a 32-bit number in front. */
  function Length(n: nat): (bytes: seq<byte>)
    ensures |bytes| == 4
  {
    [n % 256, n / 256 % 256, n / 0x1_0000 % 256, n / 0x100_0000 % 256]
  }

  lemma LengthIsBytesOf(n: nat)
    ensures ToBytes(n, 4) == Length(n)
  {
    assert ToBytes(n, 4) == [n % 256] + ToBytes(n / 256, 3);
    assert ToBytes(n / 256, 3) == [n / 256 % 256] + ToBytes(n / 256 / 256, 2);
    assert ToBytes(n / 256 / 256, 2) == [n / 256 / 256 % 256] + ToBytes(n / 256 / 256 / 256, 1);
    assert n / 256 / 256 == n / 0x1_0000 && n / 256 / 256 / 256 == n / 0x100_0000;
  }

  lemma BlobLayout(r: Reader, bytes: seq<byte>, tail: seq<byte>)
    requires |bytes| < 0x1_0000_0000
    ensures ParseValue(r, 1, Bytes, Length(|bytes|) + bytes + tail) == Ok(Parsed(Blob(bytes), tail))
    ensures ParseValue(r, 1, Str, Length(|bytes|) + bytes + tail) ==
            if r.validText(bytes) then Ok(Parsed(Text(bytes), tail)) else Err(InvalidText)
    ensures WellTyped(r, Bytes, Blob(bytes)) && Encode(r, true, Bytes, Blob(bytes)) == Length(|bytes|) + bytes
  {
    LengthIsBytesOf(|bytes|);
    BlobOfAppended(bytes, tail);
  }

  // ------------------------------------------------------------ compound types

  /** An option is a truth value and, where that is true, its content. */
  lemma OptionLayout(r: Reader, depth: nat, inner: IdlType, b: byte, tail: seq<byte>)
    ensures ParseValue(r, depth + 1, Optional(inner), [b] + tail) ==
            if b == 0 then Ok(Parsed(OptionalValue(None), tail))
            else if b > 1 then Err(InvalidTag)
            else match ParseValue(r, depth, inner, tail)
                 case Ok(p) => Ok(Parsed(OptionalValue(Some(p.value)), p.rest))
                 case Err(e) => Err(e)
  {
    TakeOfAppended([b], tail);
  }

  /** A vector is its length and as many elements; an array is its elements alone. */
  lemma SequenceLayouts(r: Reader, depth: nat, inner: IdlType, n: nat, tail: seq<byte>)
    requires n < 0x1_0000_0000
    ensures ParseValue(r, depth + 1, Vec(inner), Length(n) + tail) == ParseValue(r, depth + 1, Array(inner, n), tail)
    ensures match ParseAll(r, depth, Repeat(inner, n), tail)
            case Ok(p) => ParseValue(r, depth + 1, Array(inner, n), tail) == Ok(Parsed(ArrayValue(p.value), p.rest))
            case Err(e) => ParseValue(r, depth + 1, Array(inner, n), tail) == Err(e)
  {
    LengthIsBytesOf(n);
    LengthOfAppended(n, tail);
  }

  /** A struct is its fields in order, under their names; a name without a definition is an error. */
  lemma StructLayout(r: Reader, depth: nat, name: string, data: seq<byte>)
    ensures FindDefined(r, name).None? ==> ParseValue(r, depth + 1, Defined(name), data) == Err(NoDefinition(name))
    ensures FindDefined(r, name).Some? && FindDefined(r, name).value.Struct? ==>
              var fields := FindDefined(r, name).value.fields;
              match ParseAll(r, depth, FieldTypes(fields), data)
              case Ok(p) =>
                ParseValue(r, depth + 1, Defined(name), data) ==
                Ok(Parsed(StructValue(FieldNames(fields), p.value), p.rest))
              case Err(e) => ParseValue(r, depth + 1, Defined(name), data) == Err(e)
  {
  }

  /** An enum is the index of a variant in one byte and the fields of that variant. */
  lemma EnumLayout(r: Reader, depth: nat, name: string, variants: seq<Variant>, i: byte, tail: seq<byte>)
    requires FindDefined(r, name) == Some(Enum(variants))
    ensures i >= |variants| ==> ParseValue(r, depth + 1, Defined(name), [i] + tail) == Err(NoVariant(i))
    ensures i < |variants| ==>
              match ParseAll(r, depth, VariantTypes(variants[i]), tail)
              case Ok(p) =>
                ParseValue(r, depth + 1, Defined(name), [i] + tail) ==
                Ok(Parsed(match variants[i].fields
                          case Named(fields) => EnumStruct(variants[i].name, FieldNames(fields), p.value)
                          case _ => EnumTuple(variants[i].name, p.value), p.rest))
              case Err(e) => ParseValue(r, depth + 1, Defined(name), [i] + tail) == Err(e)
  {
    OneByte(i, tail);
  }

  // --------------------------------------------------------------- definitions

  /** The first definition of a name in a list. */
  ghost predicate FirstDefinition(defs: Definitions, name: string, def: TypeDef) {
    exists i :: 0 <= i < |defs| && defs[i] == NamedDef(name, def) && forall j :: 0 <= j < i ==> defs[j].name != name
  }

  ghost predicate Defines(defs: Definitions, name: string) {
    exists i :: 0 <= i < |defs| && defs[i].name == name
  }

  lemma {:induction false} FoundInList(defs: Definitions, name: string)
    ensures FindIn(defs, name).Some? <==> Defines(defs, name)
    ensures FindIn(defs, name).Some? ==> FirstDefinition(defs, name, FindIn(defs, name).value)
  {
    if defs != [] && defs[0].name != name {
      FoundInList(defs[1..], name);
      assert forall i :: 0 < i < |defs| ==> defs[i] == defs[1..][i - 1];
      if FindIn(defs[1..], name).Some? {
        var def := FindIn(defs[1..], name).value;
        var i :| 0 <= i < |defs[1..]| && defs[1..][i] == NamedDef(name, def) &&
                 forall j :: 0 <= j < i ==> defs[1..][j].name != name;
        assert defs[i + 1] == NamedDef(name, def);
      }
      if Defines(defs, name) {
        var i :| 0 <= i < |defs| && defs[i].name == name;
        assert defs[1..][i - 1].name == name;
      }
    }
  }

  /** The reader's own definition of a name comes first, then that of the first loaded list that has one. */
  lemma OwnDefinitionFirst(r: Reader, name: string)
    ensures Defines(r.own, name) ==>
              FindDefined(r, name).Some? && FirstDefinition(r.own, name, FindDefined(r, name).value)
    ensures !Defines(r.own, name) ==> FindDefined(r, name) == FindInAll(r.loaded, name)
  {
    FoundInList(r.own, name);
  }

  lemma {:induction false} FirstLoadedDefinition(all: seq<Definitions>, name: string)
    ensures FindInAll(all, name).Some? <==> exists i :: 0 <= i < |all| && Defines(all[i], name)
    ensures FindInAll(all, name).Some? ==>
              exists i :: 0 <= i < |all| && FirstDefinition(all[i], name, FindInAll(all, name).value) &&
                          forall j :: 0 <= j < i ==> !Defines(all[j], name)
  {
    if all != [] {
      FoundInList(all[0], name);
      if !Defines(all[0], name) {
        FirstLoadedDefinition(all[1..], name);
        assert forall i :: 0 < i < |all| ==> all[i] == all[1..][i - 1];
        if FindInAll(all, name).Some? {
          var def := FindInAll(all, name).value;
          var i :| 0 <= i < |all[1..]| && FirstDefinition(all[1..][i], name, def) &&
                   forall j :: 0 <= j < i ==> !Defines(all[1..][j], name);
          assert FirstDefinition(all[i + 1], name, def);
        }
      }
    }
  }

  // ------------------------------------------------------------ what decodes at all

  /** The data start with the encoding of some value of the type. */
  ghost predicate StartsEncoded(r: Reader, ty: IdlType, data: seq<byte>) {
    exists v, tail :: WellTyped(r, ty, v) && data == Encode(r, false, ty, v) + tail
  }

  /** Data decode exactly where they start with the encoding of some value of the type. */
  lemma DecodesExactlyEncodings(r: Reader, ty: IdlType, data: seq<byte>)
    requires DistinctVariants(r)
    ensures (exists p :: Decodes(r, ty, data, p)) <==> StartsEncoded(r, ty, data)
  {
    if p :| Decodes(r, ty, data, p) { EncodedInFront(r, ty, data, p); }
    if StartsEncoded(r, ty, data) {
      var v, tail :| WellTyped(r, ty, v) && data == Encode(r, false, ty, v) + tail;
      EncodedDecodes(r, ty, v, tail);
    }
  }

  lemma EncodedInFront(r: Reader, ty: IdlType, data: seq<byte>, p: Parsed<DataValue>)
    requires DistinctVariants(r) && Decodes(r, ty, data, p)
    ensures StartsEncoded(r, ty, data)
  {
    var depth :| ParseValue(r, depth, ty, data) == Ok(p);
    EncodeOfDecode(r, depth, ty, data);
  }

  lemma EncodedDecodes(r: Reader, ty: IdlType, v: DataValue, tail: seq<byte>)
    requires WellTyped(r, ty, v)
    ensures Decodes(r, ty, Encode(r, false, ty, v) + tail, Parsed(v, tail))
  {
    DecodeOfEncode(r, Height(v), ty, v, tail);
  }
}
