/** Encoding and decoding undo each other, exactly where 256-bit integers do not occur. */
module BorshRoundTrip {
  import opened Wrappers
  import opened LittleEndian
  import opened Arithmetic
  import opened Idl
  import opened BorshParser
  import opened BorshEncoder

  /** No enum has two variants of the same name. */
  predicate DistinctNames(variants: seq<Variant>) {
    forall i, j :: 0 <= i < j < |variants| ==> variants[i].name != variants[j].name
  }

  ghost predicate DistinctVariants(r: Reader) {
    forall name: string ::
      var def := FindDefined(r, name);
      def.Some? && def.value.Enum? ==> DistinctNames(def.value.variants)
  }

  // ------------------------------------------------------------------ pieces

  lemma TakeOfAppended(bytes: seq<byte>, tail: seq<byte>)
    ensures Take(bytes + tail, |bytes|) == Ok(Parsed(bytes, tail))
  {
    assert (bytes + tail)[..|bytes|] == bytes && (bytes + tail)[|bytes|..] == tail;
  }

  lemma UnsignedOfAppended(n: nat, k: nat, tail: seq<byte>)
    requires n < Pow256(k)
    ensures ParseUnsigned(ToBytes(n, k) + tail, k) == Ok(Parsed(n, tail))
  {
    TakeOfAppended(ToBytes(n, k), tail);
    FromToBytes(n, k);
  }

  lemma Limits()
    ensures Pow256(1) == 256 && Pow256(4) == LENGTH_LIMIT
  {
    assert Pow256(4) == 256 * Pow256(3) && Pow256(3) == 256 * Pow256(2) && Pow256(2) == 256 * Pow256(1);
  }

  lemma LengthOfAppended(n: nat, tail: seq<byte>)
    requires n < LENGTH_LIMIT
    ensures ParseUnsigned(ToBytes(n, 4) + tail, 4) == Ok(Parsed(n, tail))
  {
    Limits();
    UnsignedOfAppended(n, 4, tail);
  }

  lemma LengthAndRest(n: nat, code: seq<byte>, tail: seq<byte>)
    requires n < LENGTH_LIMIT
    ensures ParseUnsigned(ToBytes(n, 4) + code + tail, 4) == Ok(Parsed(n, code + tail))
  {
    LengthOfAppended(n, code + tail);
    InThree(ToBytes(n, 4), code, tail);
  }

  lemma PresentOfAppended(code: seq<byte>, tail: seq<byte>)
    ensures ParseTag([1] + code + tail) == Ok(Parsed(true, code + tail))
  {
    TakeOfAppended([1], code + tail);
    InThree([1], code, tail);
  }

  lemma BlobOfAppended(bytes: seq<byte>, tail: seq<byte>)
    requires |bytes| < LENGTH_LIMIT
    ensures ParseBlob(EncodeBlob(bytes) + tail) == Ok(Parsed(bytes, tail))
  {
    assert EncodeBlob(bytes) + tail == ToBytes(|bytes|, 4) + (bytes + tail);
    LengthOfAppended(|bytes|, bytes + tail);
    TakeOfAppended(bytes, tail);
  }

  lemma IntegerOfAppended(layout: IntLayout, v: DataValue, tail: seq<byte>)
    requires FitsLayout(layout, v) && layout.read <= layout.width
    ensures ParseInteger(EncodeInteger(layout, false, v) + tail, layout) == Ok(Parsed(v, tail))
  {
    if layout.signed {
      SignedUnsigned(v.i, layout.read);
      UnsignedOfAppended(Unsigned(v.i, layout.read), layout.read, tail);
    } else {
      UnsignedOfAppended(v.n, layout.read, tail);
    }
  }

  // ----------------------------------------------------------- encode, decode

  /** How deep values are held within a value; decoding its encoding goes no deeper. */
  function Height(v: DataValue): nat
    decreases v, 1
  {
    match v
    case OptionalValue(inner) => if inner.Some? then 1 + Height(inner.value) else 1
    case ArrayValue(items) => 1 + HeightOfAll(items)
    case StructValue(_, values) => 1 + HeightOfAll(values)
    case EnumTuple(_, values) => 1 + HeightOfAll(values)
    case EnumStruct(_, _, values) => 1 + HeightOfAll(values)
    case _ => 1
  }

  function HeightOfAll(vs: seq<DataValue>): nat
    decreases vs, 0
  {
    if vs == [] then 0
    else
      var first, others := Height(vs[0]), HeightOfAll(vs[1..]);
      if first >= others then first else others
  }

  /** Decoding the encoding of a value, as the parser reads it, gives the value and leaves the tail. */
  lemma {:induction false} DecodeOfEncode(r: Reader, depth: nat, ty: IdlType, v: DataValue, tail: seq<byte>)
    requires WellTyped(r, ty, v) && Height(v) <= depth
    ensures ParseValue(r, depth, ty, Encode(r, false, ty, v) + tail) == Ok(Parsed(v, tail))
    decreases v, 2
  {
    match ty
    case Optional(inner) => DecodeOfEncodeOption(r, depth, inner, v, tail);
    case Array(inner, length) => DecodeOfEncodeAll(r, depth - 1, Repeat(inner, length), v.items, tail);
    case Vec(inner) => DecodeOfEncodeVec(r, depth, inner, v, tail);
    case Defined(name) => DecodeOfEncodeDefined(r, depth, name, v, tail);
    case _ => DecodeOfEncodeLeaf(r, ty, v, tail);
  }

  lemma {:induction false} DecodeOfEncodeOption(r: Reader, depth: nat, inner: IdlType, v: DataValue, tail: seq<byte>)
    requires WellTyped(r, Optional(inner), v) && Height(v) <= depth
    ensures ParseValue(r, depth, Optional(inner), Encode(r, false, Optional(inner), v) + tail) == Ok(Parsed(v, tail))
    decreases v, 1
  {
    if v.value.None? {
      TakeOfAppended([0], tail);
    } else {
      DecodeOfEncode(r, depth - 1, inner, v.value.value, tail);
      PresentOfAppended(Encode(r, false, inner, v.value.value), tail);
    }
  }

  lemma {:induction false} DecodeOfEncodeVec(r: Reader, depth: nat, inner: IdlType, v: DataValue, tail: seq<byte>)
    requires WellTyped(r, Vec(inner), v) && Height(v) <= depth
    ensures ParseValue(r, depth, Vec(inner), Encode(r, false, Vec(inner), v) + tail) == Ok(Parsed(v, tail))
    decreases v, 1
  {
    DecodeOfEncodeAll(r, depth - 1, Repeat(inner, |v.items|), v.items, tail);
    LengthAndRest(|v.items|, EncodeAll(r, false, Repeat(inner, |v.items|), v.items), tail);
  }

  lemma {:induction false} DecodeOfEncodeDefined(r: Reader, depth: nat, name: string, v: DataValue, tail: seq<byte>)
    requires WellTyped(r, Defined(name), v) && Height(v) <= depth
    ensures ParseValue(r, depth, Defined(name), Encode(r, false, Defined(name), v) + tail) == Ok(Parsed(v, tail))
    decreases v, 1
  {
    match FindDefined(r, name).value
    case Struct(fields) => DecodeOfEncodeStruct(r, depth - 1, fields, v, tail);
    case Enum(variants) => DecodeOfEncodeEnum(r, depth - 1, variants, VariantIndex(variants, VariantName(v)), v, tail);
  }

  lemma {:induction false} DecodeOfEncodeStruct(r: Reader, depth: nat, fields: seq<Field>, v: DataValue,
                                                tail: seq<byte>)
    requires v.StructValue? && v.names == FieldNames(fields)
    requires AllTyped(r, FieldTypes(fields), v.values) && HeightOfAll(v.values) <= depth
    ensures ParseStruct(r, depth, fields, EncodeAll(r, false, FieldTypes(fields), v.values) + tail) ==
            Ok(Parsed(v, tail))
    decreases v, 0
  {
    DecodeOfEncodeAll(r, depth, FieldTypes(fields), v.values, tail);
  }

  lemma DecodeOfEncodeLeaf(r: Reader, ty: IdlType, v: DataValue, tail: seq<byte>)
    requires IsLeaf(ty) && LeafTyped(r, ty, v)
    ensures ParseLeaf(r, ty, EncodeLeaf(r, false, ty, v) + tail) == Ok(Parsed(v, tail))
  {
    if Layout(ty).Some? {
      IntegerOfAppended(Layout(ty).value, v, tail);
    } else {
      match ty
      case Bool => TakeOfAppended([if v.b then 1 else 0], tail);
      case Bytes => BlobOfAppended(v.blob, tail);
      case PublicKey => TakeOfAppended(v.key, tail);
      case Str => BlobOfAppended(v.text, tail);
    }
  }

  lemma {:induction false} DecodeOfEncodeEnum(r: Reader, depth: nat, variants: seq<Variant>, i: byte, v: DataValue,
                                              tail: seq<byte>)
    requires i < |variants| && (v.EnumTuple? || v.EnumStruct?) && v.variant == variants[i].name
    requires MatchesVariant(v, variants[i]) && AllTyped(r, VariantTypes(variants[i]), v.values) &&
             HeightOfAll(v.values) <= depth
    ensures ParseEnum(r, depth, variants, [i] + EncodeAll(r, false, VariantTypes(variants[i]), v.values) + tail) ==
            Ok(Parsed(v, tail))
    decreases v, 0
  {
    var types := VariantTypes(variants[i]);
    var code := EncodeAll(r, false, types, v.values);
    InThree([i], code, tail);
    OneByte(i, code + tail);
    DecodeOfEncodeAll(r, depth, types, v.values, tail);
  }

  lemma OneByte(b: byte, tail: seq<byte>)
    ensures ParseUnsigned([b] + tail, 1) == Ok(Parsed(b, tail))
  {
    TakeOfAppended([b], tail);
    assert FromBytes([b]) == b + 256 * FromBytes([b][1..]);
    assert [b][1..] == [];
  }

  lemma {:induction false} DecodeOfEncodeAll(r: Reader, depth: nat, types: seq<IdlType>, vs: seq<DataValue>,
                                             tail: seq<byte>)
    requires AllTyped(r, types, vs) && HeightOfAll(vs) <= depth
    ensures ParseAll(r, depth, types, EncodeAll(r, false, types, vs) + tail) == Ok(Parsed(vs, tail))
    decreases vs, 0
  {
    if vs == [] {
      assert EncodeAll(r, false, types, vs) + tail == tail;
    } else {
      var first := Encode(r, false, types[0], vs[0]);
      var others := EncodeAll(r, false, types[1..], vs[1..]);
      assert first + others + tail == first + (others + tail);
      assert [vs[0]] + vs[1..] == vs;
      DecodeOfEncode(r, depth, types[0], vs[0], others + tail);
      DecodeOfEncodeAll(r, depth, types[1..], vs[1..], tail);
    }
  }

  // ----------------------------------------------------------- decode, encode

  lemma UnsignedIsBytes(data: seq<byte>, k: nat)
    requires ParseUnsigned(data, k).Ok?
    ensures var p := ParseUnsigned(data, k).value;
            p.value < Pow256(k) && data == ToBytes(p.value, k) + p.rest
  {
    ToFromBytes(Take(data, k).value.value);
  }

  lemma LengthIsBytes(data: seq<byte>)
    requires ParseUnsigned(data, 4).Ok?
    ensures var p := ParseUnsigned(data, 4).value;
            p.value < LENGTH_LIMIT && data == ToBytes(p.value, 4) + p.rest
  {
    Limits();
    UnsignedIsBytes(data, 4);
  }

  lemma BlobIsBytes(data: seq<byte>)
    requires ParseBlob(data).Ok?
    ensures var p := ParseBlob(data).value;
            |p.value| < LENGTH_LIMIT && data == EncodeBlob(p.value) + p.rest
  {
    LengthIsBytes(data);
  }

  lemma IntegerIsBytes(layout: IntLayout, data: seq<byte>)
    requires ParseInteger(data, layout).Ok? && layout.read <= layout.width
    ensures var p := ParseInteger(data, layout).value;
            FitsLayout(layout, p.value) && data == EncodeInteger(layout, false, p.value) + p.rest
  {
    UnsignedIsBytes(data, layout.read);
    UnsignedSigned(ParseUnsigned(data, layout.read).value.value, layout.read);
  }

  lemma ByteIsIndex(data: seq<byte>)
    requires ParseUnsigned(data, 1).Ok?
    ensures var p := ParseUnsigned(data, 1).value; p.value < 256 && data == [p.value] + p.rest
  {
    Limits();
    UnsignedIsBytes(data, 1);
    assert Take(data, 1).value.value[1..] == [];
  }

  /** What decodes is well typed, and its encoding, as the parser reads it, is exactly what was consumed. */
  lemma {:induction false} EncodeOfDecode(r: Reader, depth: nat, ty: IdlType, data: seq<byte>)
    requires DistinctVariants(r) && ParseValue(r, depth, ty, data).Ok?
    ensures var p := ParseValue(r, depth, ty, data).value;
            WellTyped(r, ty, p.value) && data == Encode(r, false, ty, p.value) + p.rest
    decreases depth, 1
  {
    match ty
    case Optional(inner) =>
      var t := ParseTag(data).value;
      if t.value { EncodeOfDecode(r, depth - 1, inner, t.rest); }
    case Array(inner, length) =>
      EncodeOfDecodeAll(r, depth - 1, Repeat(inner, length), data);
    case Vec(inner) => EncodeOfDecodeVec(r, depth, inner, data);
    case Defined(name) =>
      match FindDefined(r, name).value {
        case Struct(fields) => EncodeOfDecodeAll(r, depth - 1, FieldTypes(fields), data);
        case Enum(variants) => EncodeOfDecodeEnum(r, depth, name, variants, data);
      }
    case _ => EncodeOfDecodeLeaf(r, ty, data);
  }

  lemma EncodeOfDecodeLeaf(r: Reader, ty: IdlType, data: seq<byte>)
    requires IsLeaf(ty) && ParseLeaf(r, ty, data).Ok?
    ensures var p := ParseLeaf(r, ty, data).value;
            LeafTyped(r, ty, p.value) && data == EncodeLeaf(r, false, ty, p.value) + p.rest
  {
    if Layout(ty).Some? {
      IntegerIsBytes(Layout(ty).value, data);
    } else if ty.Bytes? || ty.Str? {
      BlobIsBytes(data);
    }
  }

  lemma {:induction false} EncodeOfDecodeVec(r: Reader, depth: nat, inner: IdlType, data: seq<byte>)
    requires DistinctVariants(r) && ParseValue(r, depth, Vec(inner), data).Ok?
    ensures var p := ParseValue(r, depth, Vec(inner), data).value;
            WellTyped(r, Vec(inner), p.value) && data == Encode(r, false, Vec(inner), p.value) + p.rest
    decreases depth, 0
  {
    LengthIsBytes(data);
    var n := ParseUnsigned(data, 4).value;
    var vs := ParseAll(r, depth - 1, Repeat(inner, n.value), n.rest).value;
    EncodeOfDecodeAll(r, depth - 1, Repeat(inner, n.value), n.rest);
    InThree(ToBytes(n.value, 4), EncodeAll(r, false, Repeat(inner, n.value), vs.value), vs.rest);
  }

  lemma InThree(a: seq<byte>, b: seq<byte>, c: seq<byte>)
    ensures a + (b + c) == a + b + c
  {
  }

  lemma {:induction false} EncodeOfDecodeEnum(r: Reader, depth: nat, name: string, variants: seq<Variant>,
                                              data: seq<byte>)
    requires DistinctVariants(r) && FindDefined(r, name) == Some(Enum(variants))
    requires ParseValue(r, depth, Defined(name), data).Ok?
    ensures var p := ParseValue(r, depth, Defined(name), data).value;
            WellTyped(r, Defined(name), p.value) && data == Encode(r, false, Defined(name), p.value) + p.rest
    decreases depth, 0
  {
    ByteIsIndex(data);
    var index := ParseUnsigned(data, 1).value;
    var variant := variants[index.value];
    var vs := ParseAll(r, depth - 1, VariantTypes(variant), index.rest).value;
    EncodeOfDecodeAll(r, depth - 1, VariantTypes(variant), index.rest);
    IndexOfVariant(r, name, variants, index.value);
    InThree([index.value], EncodeAll(r, false, VariantTypes(variant), vs.value), vs.rest);
  }

  lemma IndexOfVariant(r: Reader, name: string, variants: seq<Variant>, i: nat)
    requires DistinctVariants(r) && FindDefined(r, name) == Some(Enum(variants)) && i < |variants|
    ensures VariantIndex(variants, variants[i].name) == i
  {
    assert DistinctNames(variants);
  }

  lemma {:induction false} EncodeOfDecodeAll(r: Reader, depth: nat, types: seq<IdlType>, data: seq<byte>)
    requires DistinctVariants(r) && ParseAll(r, depth, types, data).Ok?
    ensures var p := ParseAll(r, depth, types, data).value;
            AllTyped(r, types, p.value) && data == EncodeAll(r, false, types, p.value) + p.rest
    decreases depth, 2 + |types|
  {
    if types != [] {
      var first := ParseValue(r, depth, types[0], data).value;
      EncodeOfDecode(r, depth, types[0], data);
      EncodeOfDecodeAll(r, depth, types[1..], first.rest);
      var others := ParseAll(r, depth, types[1..], first.rest).value;
      assert ([first.value] + others.value)[1..] == others.value;
      InThree(Encode(r, false, types[0], first.value), EncodeAll(r, false, types[1..], others.value), others.rest);
    }
  }

  // ------------------------------------------------------- 256-bit integers

  lemma {:induction false} LengthOfEncoding(r: Reader, ty: IdlType, v: DataValue)
    requires WellTyped(r, ty, v)
    ensures |Encode(r, true, ty, v)| == |Encode(r, false, ty, v)| + 16 * Wide(r, ty, v)
    ensures Wide(r, ty, v) == 0 ==> Encode(r, true, ty, v) == Encode(r, false, ty, v)
    decreases v, 1
  {
    match ty
    case Optional(inner) => if v.value.Some? { LengthOfEncoding(r, inner, v.value.value); }
    case Array(inner, length) => LengthOfEncodingAll(r, Repeat(inner, length), v.items);
    case Vec(inner) => LengthOfEncodingAll(r, Repeat(inner, |v.items|), v.items);
    case Defined(name) =>
      match FindDefined(r, name).value {
        case Struct(fields) => LengthOfEncodingAll(r, FieldTypes(fields), v.values);
        case Enum(variants) =>
          LengthOfEncodingAll(r, VariantTypes(variants[VariantIndex(variants, VariantName(v))]), v.values);
      }
    case _ =>
  }

  lemma {:induction false} LengthOfEncodingAll(r: Reader, types: seq<IdlType>, vs: seq<DataValue>)
    requires AllTyped(r, types, vs)
    ensures |EncodeAll(r, true, types, vs)| == |EncodeAll(r, false, types, vs)| + 16 * WideInAll(r, types, vs)
    ensures WideInAll(r, types, vs) == 0 ==> EncodeAll(r, true, types, vs) == EncodeAll(r, false, types, vs)
    decreases vs, 0
  {
    if vs != [] {
      LengthOfEncoding(r, types[0], vs[0]);
      LengthOfEncodingAll(r, types[1..], vs[1..]);
    }
  }

  /**
   Decoding undoes the Borsh encoding of a value, whatever follows it, exactly
   when the value holds no 256-bit integer: of those the parser reads 16 of 32
   bytes. This holds for all definitions, those included on which the decoder
   does not always end.
   */
  lemma BorshRoundTripExactly(r: Reader, ty: IdlType, v: DataValue, tail: seq<byte>)
    requires DistinctVariants(r) && WellTyped(r, ty, v)
    ensures Decodes(r, ty, Encode(r, true, ty, v) + tail, Parsed(v, tail)) <==> Wide(r, ty, v) == 0
  {
    LengthOfEncoding(r, ty, v);
    DecodeOfEncode(r, Height(v), ty, v, tail);
    var data := Encode(r, true, ty, v) + tail;
    if Decodes(r, ty, data, Parsed(v, tail)) {
      var depth :| ParseValue(r, depth, ty, data) == Ok(Parsed(v, tail));
      EncodeOfDecode(r, depth, ty, data);
      assert |data| == |Encode(r, false, ty, v)| + |tail|;
    }
  }

  /**
   Of a 256-bit integer, signed ones in two's complement, the parser reads the
   low sixteen bytes as a number of the same kind and leaves the high sixteen.
   */
  lemma WideIntegerIsCutShort(r: Reader, depth: nat, ty: IdlType, low: nat, high: nat, tail: seq<byte>)
    requires depth > 0 && (ty == U256 || ty == I256)
    requires low < Pow256(Layout(ty).value.read) && high < Pow256(Layout(ty).value.read)
    ensures Layout(ty).value.read == 16 && Layout(ty).value.width == 32
    ensures var k := Layout(ty).value.read;
            ParseValue(r, depth, ty, ToBytes(Joined(low, high, k), k + k) + tail) ==
              Ok(Parsed(if ty == I256 then IntegerSigned(Signed(low, k)) else IntegerUnsigned(low),
                        ToBytes(high, k) + tail))
  {
    LowHalfIsRead(Layout(ty).value, low, high, tail);
  }

  /** Every number of two halves' width is such a one. */
  lemma EveryNumberHasHalves(n: nat, k: nat) returns (low: nat, high: nat)
    requires n < Pow256(k + k)
    ensures low < Pow256(k) && high < Pow256(k) && n == Joined(low, high, k)
  {
    PowerOfSum(k, k);
    DivBounds(n, Pow256(k));
    DivGalois(n, Pow256(k), Pow256(k));
    DivNat(n, Pow256(k));
    low, high := n % Pow256(k), n / Pow256(k);
  }

  lemma {:induction false} PowerOfSum(k: nat, l: nat)
    ensures Pow256(k + l) == Pow256(k) * Pow256(l)
  {
    if k > 0 { PowerOfSum(k - 1, l); }
  }

  lemma LowHalfIsRead(layout: IntLayout, low: nat, high: nat, tail: seq<byte>)
    requires low < Pow256(layout.read)
    ensures var k := layout.read;
            ParseInteger(ToBytes(Joined(low, high, k), k + k) + tail, layout) ==
              Ok(Parsed(if layout.signed then IntegerSigned(Signed(low, k)) else IntegerUnsigned(low),
                        ToBytes(high, k) + tail))
  {
    var k := layout.read;
    LowAndHigh(low, high, k, k);
    InThree(ToBytes(low, k), ToBytes(high, k), tail);
    UnsignedOfAppended(low, k, ToBytes(high, k) + tail);
  }

  /** The bytes of a number are those of its low part and those of its high part. */
  lemma {:induction false} LowAndHigh(low: nat, high: nat, k: nat, l: nat)
    requires low < Pow256(k)
    ensures ToBytes(Joined(low, high, k), k + l) == ToBytes(low, k) + ToBytes(high, l)
  {
    if k > 0 {
      FirstByteOfJoined(low, high, k);
      LowAndHigh(low / 256, high, k - 1, l);
    }
  }

  lemma FirstByteOfJoined(low: nat, high: nat, k: nat)
    requires k > 0
    ensures Joined(low, high, k) % 256 == low % 256 && Joined(low, high, k) / 256 == Joined(low / 256, high, k - 1)
  {
    var rest := Pow256(k - 1) * high;
    FirstByte(low, rest);
    assert Pow256(k) * high == 256 * rest;
  }

  lemma FirstByte(low: nat, rest: nat)
    ensures (low + 256 * rest) % 256 == low % 256 && (low + 256 * rest) / 256 == low / 256 + rest
  {
  }

  // ------------------------------------------------------------- prefix-free

  /** The bytes up to a point, with another tail after them. */
  function Retail(data: seq<byte>, c: nat, tail: seq<byte>): seq<byte>
    requires c <= |data|
  {
    data[..c] + tail
  }

  lemma RetailInTwo(data: seq<byte>, f: nat, c: nat, tail: seq<byte>)
    requires f <= c <= |data|
    ensures data[f..][c - f..] == data[c..]
    ensures Retail(data, c, tail) == Retail(data, f, Retail(data[f..], c - f, tail))
  {
  }

  lemma TakeRetailed(data: seq<byte>, n: nat, c: nat, tail: seq<byte>)
    requires n <= c <= |data|
    ensures Take(data, n) == Ok(Parsed(data[..n], data[n..]))
    ensures Take(Retail(data, c, tail), n) == Ok(Parsed(data[..n], Retail(data[n..], c - n, tail)))
    ensures data[n..][c - n..] == data[c..]
  {
    var data' := Retail(data, c, tail);
    assert data'[..n] == data[..n];
    assert data'[n..] == Retail(data[n..], c - n, tail);
  }

  /** What a decoding consumed, given what it left. */
  function Used(data: seq<byte>, rest: seq<byte>): nat {
    if |rest| <= |data| then |data| - |rest| else 0
  }

  /**
   A successful decoding consumes a prefix that alone determines the result:
   whatever follows the prefix instead, the value is the same and that is left.
   */
  lemma {:induction false} PrefixDetermines(r: Reader, depth: nat, ty: IdlType, data: seq<byte>, tail: seq<byte>)
    requires ParseValue(r, depth, ty, data).Ok?
    ensures var p := ParseValue(r, depth, ty, data).value;
            p.rest == data[Used(data, p.rest)..] &&
            ParseValue(r, depth, ty, Retail(data, Used(data, p.rest), tail)) == Ok(Parsed(p.value, tail))
    decreases depth, 0, 1
  {
    match ty
    case Optional(inner) => OptionPrefix(r, depth - 1, inner, data, tail);
    case Array(inner, length) =>
      PrefixDeterminesAll(r, depth - 1, Repeat(inner, length), data, tail);
    case Vec(inner) => VecPrefix(r, depth - 1, inner, data, tail);
    case Defined(name) =>
      match FindDefined(r, name).value {
        case Struct(fields) => PrefixDeterminesAll(r, depth - 1, FieldTypes(fields), data, tail);
        case Enum(variants) => EnumPrefix(r, depth - 1, variants, data, tail);
      }
    case _ => LeafPrefix(r, ty, data, tail);
  }

  lemma LeafPrefix(r: Reader, ty: IdlType, data: seq<byte>, tail: seq<byte>)
    requires IsLeaf(ty) && ParseLeaf(r, ty, data).Ok?
    ensures var p := ParseLeaf(r, ty, data).value;
            p.rest == data[Used(data, p.rest)..] &&
            ParseLeaf(r, ty, Retail(data, Used(data, p.rest), tail)) == Ok(Parsed(p.value, tail))
  {
    if Layout(ty).Some? {
      IntegerPrefix(data, Layout(ty).value, tail);
    } else if ty.Bool? {
      TagRetailed(data, 1, tail);
    } else if ty.PublicKey? {
      TakeRetailed(data, 32, 32, tail);
    } else {
      BlobPrefix(data, tail);
    }
  }

  lemma IntegerPrefix(data: seq<byte>, layout: IntLayout, tail: seq<byte>)
    requires ParseInteger(data, layout).Ok?
    ensures var p := ParseInteger(data, layout).value;
            |p.rest| <= |data| && p.rest == data[Used(data, p.rest)..] &&
            ParseInteger(Retail(data, Used(data, p.rest), tail), layout) == Ok(Parsed(p.value, tail))
  {
    TakeRetailed(data, layout.read, layout.read, tail);
  }

  lemma BlobPrefix(data: seq<byte>, tail: seq<byte>)
    requires ParseBlob(data).Ok?
    ensures var p := ParseBlob(data).value;
            |p.rest| <= |data| && p.rest == data[Used(data, p.rest)..] &&
            ParseBlob(Retail(data, Used(data, p.rest), tail)) == Ok(Parsed(p.value, tail))
  {
    var c := Used(data, ParseBlob(data).value.rest);
    TakeRetailed(data, 4, c, tail);
    TakeRetailed(data[4..], c - 4, c - 4, tail);
  }

  lemma {:induction false} OptionPrefix(r: Reader, depth: nat, inner: IdlType, data: seq<byte>, tail: seq<byte>)
    requires ParseOption(r, depth, inner, data).Ok?
    ensures var p := ParseOption(r, depth, inner, data).value;
            p.rest == data[Used(data, p.rest)..] &&
            ParseOption(r, depth, inner, Retail(data, Used(data, p.rest), tail)) == Ok(Parsed(p.value, tail))
    decreases depth, 2, 0
  {
    var t := ParseTag(data).value;
    if t.value {
      PrefixDetermines(r, depth, inner, t.rest, tail);
      PresentPrefix(r, depth, inner, data, ParseValue(r, depth, inner, t.rest).value, tail);
    } else {
      TagRetailed(data, 1, tail);
    }
  }

  lemma PresentPrefix(r: Reader, depth: nat, inner: IdlType, data: seq<byte>, v: Parsed<DataValue>, tail: seq<byte>)
    requires ParseTag(data).Ok? && ParseTag(data).value.value && |v.rest| < |data|
    requires var rest := ParseTag(data).value.rest;
             v.rest == rest[Used(rest, v.rest)..] &&
             ParseValue(r, depth, inner, Retail(rest, Used(rest, v.rest), tail)) == Ok(Parsed(v.value, tail))
    ensures v.rest == data[Used(data, v.rest)..]
    ensures ParseOption(r, depth, inner, Retail(data, Used(data, v.rest), tail)) ==
            Ok(Parsed(OptionalValue(Some(v.value)), tail))
  {
    TagRetailed(data, Used(data, v.rest), tail);
  }

  lemma TagRetailed(data: seq<byte>, c: nat, tail: seq<byte>)
    requires ParseTag(data).Ok? && 1 <= c <= |data|
    ensures ParseTag(data).value.rest == data[1..]
    ensures ParseTag(Retail(data, c, tail)) == Ok(Parsed(ParseTag(data).value.value, Retail(data[1..], c - 1, tail)))
    ensures data[1..][c - 1..] == data[c..]
  {
    TakeRetailed(data, 1, c, tail);
  }

  lemma {:induction false} VecPrefix(r: Reader, depth: nat, inner: IdlType, data: seq<byte>, tail: seq<byte>)
    requires ParseVec(r, depth, inner, data).Ok?
    ensures var p := ParseVec(r, depth, inner, data).value;
            p.rest == data[Used(data, p.rest)..] &&
            ParseVec(r, depth, inner, Retail(data, Used(data, p.rest), tail)) == Ok(Parsed(p.value, tail))
    decreases depth, 2, 0
  {
    var p, n := ParseVec(r, depth, inner, data).value, ParseUnsigned(data, 4).value;
    var c := Used(data, p.rest);
    LengthRetailed(data, c, tail);
    PrefixDeterminesAll(r, depth, Repeat(inner, n.value), n.rest, tail);
    assert Used(n.rest, p.rest) == c - 4;
  }

  lemma LengthRetailed(data: seq<byte>, c: nat, tail: seq<byte>)
    requires ParseUnsigned(data, 4).Ok? && 4 <= c <= |data|
    ensures ParseUnsigned(data, 4).value.rest == data[4..] && data[4..][c - 4..] == data[c..]
    ensures ParseUnsigned(Retail(data, c, tail), 4) ==
            Ok(Parsed(ParseUnsigned(data, 4).value.value, Retail(data[4..], c - 4, tail)))
  {
    TakeRetailed(data, 4, c, tail);
  }

  lemma {:induction false} EnumPrefix(r: Reader, depth: nat, variants: seq<Variant>, data: seq<byte>, tail: seq<byte>)
    requires ParseEnum(r, depth, variants, data).Ok?
    ensures var p := ParseEnum(r, depth, variants, data).value;
            p.rest == data[Used(data, p.rest)..] &&
            ParseEnum(r, depth, variants, Retail(data, Used(data, p.rest), tail)) == Ok(Parsed(p.value, tail))
    decreases depth, 2, 0
  {
    var c := Used(data, ParseEnum(r, depth, variants, data).value.rest);
    PrefixDeterminesAll(r, depth, VariantTypes(variants[ParseUnsigned(data, 1).value.value]), data[1..], tail);
    TakeRetailed(data, 1, c, tail);
  }

  lemma {:induction false} PrefixDeterminesAll(r: Reader, depth: nat, types: seq<IdlType>, data: seq<byte>,
                                               tail: seq<byte>)
    requires ParseAll(r, depth, types, data).Ok?
    ensures var p := ParseAll(r, depth, types, data).value;
            p.rest == data[Used(data, p.rest)..] &&
            ParseAll(r, depth, types, Retail(data, Used(data, p.rest), tail)) == Ok(Parsed(p.value, tail))
    decreases depth, 1, |types|
  {
    var p := ParseAll(r, depth, types, data).value;
    var c := Used(data, p.rest);
    if types == [] {
      assert Retail(data, c, tail) == tail;
    } else {
      var first := ParseValue(r, depth, types[0], data).value;
      var f := Used(data, first.rest);
      PrefixDeterminesAll(r, depth, types[1..], first.rest, tail);
      PrefixDetermines(r, depth, types[0], data, Retail(first.rest, c - f, tail));
      RetailInTwo(data, f, c, tail);
    }
  }
}
