/**
 Which readers decode every input to an end: those in which no struct reaches
 itself in place, through fields in front of which nothing takes a byte.
 */
module IdlNesting {
  import opened Wrappers
  import opened LittleEndian
  import opened Idl
  import opened BorshParser

  predicate IsStruct(r: Reader, name: string) {
    FindDefined(r, name).Some? && FindDefined(r, name).value.Struct?
  }

  /** The types of a struct's fields. */
  function Members(r: Reader, name: string): seq<IdlType>
    requires IsStruct(r, name)
  {
    FieldTypes(FindDefined(r, name).value.fields)
  }

  /** The name that a type holds in place, through non-empty arrays only. */
  function Inside(ty: IdlType): Option<string> {
    match ty
    case Array(inner, length) => if length == 0 then None else Inside(inner)
    case Defined(name) => Some(name)
    case _ => None
  }

  /** The type takes no bytes, as seen by looking into its structs to some depth. */
  predicate EmptyWithin(r: Reader, depth: nat, ty: IdlType)
    decreases depth, 0
  {
    depth > 0 &&
    match ty
    case Array(inner, length) => length == 0 || EmptyWithin(r, depth - 1, inner)
    case Defined(name) => IsStruct(r, name) && AllEmptyWithin(r, depth - 1, Members(r, name))
    case _ => false
  }

  predicate AllEmptyWithin(r: Reader, depth: nat, types: seq<IdlType>)
    decreases depth, 1 + |types|
  {
    types == [] || (EmptyWithin(r, depth, types[0]) && AllEmptyWithin(r, depth, types[1..]))
  }

  /** The type takes no bytes: empty arrays, structs without members, and what is made of them. */
  ghost predicate Empty(r: Reader, ty: IdlType) {
    exists depth :: EmptyWithin(r, depth, ty)
  }

  ghost predicate EmptyBefore(r: Reader, types: seq<IdlType>, i: nat)
    requires i <= |types|
  {
    forall j :: 0 <= j < i ==> Empty(r, types[j])
  }

  /** The outer struct has a member that holds the inner struct in place, behind empty members only. */
  ghost predicate Nests(r: Reader, outer: string, inner: string) {
    IsStruct(r, outer) && IsStruct(r, inner) &&
    exists i :: 0 <= i < |Members(r, outer)| && Inside(Members(r, outer)[i]) == Some(inner) &&
                EmptyBefore(r, Members(r, outer), i)
  }

  ghost predicate NestingPath(r: Reader, path: seq<string>) {
    forall i :: 0 <= i < |path| - 1 ==> Nests(r, path[i], path[i + 1])
  }

  ghost predicate Loop(r: Reader, path: seq<string>) {
    |path| >= 2 && NestingPath(r, path) && path[0] == path[|path| - 1]
  }

  ghost predicate Cyclic(r: Reader) {
    exists path :: Loop(r, path)
  }

  // --------------------------------------------------------- empty types

  /** What decodes without taking a byte is of an empty type. */
  lemma {:induction false} NothingTaken(r: Reader, depth: nat, ty: IdlType, data: seq<byte>)
    requires ParseValue(r, depth, ty, data).Ok? && |ParseValue(r, depth, ty, data).value.rest| == |data|
    ensures EmptyWithin(r, depth, ty) && ParseValue(r, depth, ty, data).value.rest == data
    decreases depth, 0
  {
    match ty
    case Array(inner, length) =>
      NothingTakenByAll(r, depth - 1, Repeat(inner, length), data);
    case Defined(name) =>
      if IsStruct(r, name) { NothingTakenByAll(r, depth - 1, Members(r, name), data); }
    case _ =>
  }

  lemma {:induction false} NothingTakenByAll(r: Reader, depth: nat, types: seq<IdlType>, data: seq<byte>)
    requires ParseAll(r, depth, types, data).Ok? && |ParseAll(r, depth, types, data).value.rest| == |data|
    ensures AllEmptyWithin(r, depth, types) && ParseAll(r, depth, types, data).value.rest == data
    decreases depth, 1 + |types|
  {
    if types != [] {
      NothingTaken(r, depth, types[0], data);
      NothingTakenByAll(r, depth, types[1..], data);
    }
  }

  /** Decoding an empty type takes no byte. */
  lemma {:induction false} EmptyTakesNothing(r: Reader, emptyDepth: nat, depth: nat, ty: IdlType, data: seq<byte>)
    requires EmptyWithin(r, emptyDepth, ty)
    ensures var p := ParseValue(r, depth, ty, data);
            p == Err(DepthExceeded) || (p.Ok? && p.value.rest == data)
    decreases depth, 0
  {
    if depth > 0 {
      match ty
      case Array(inner, length) =>
        forall i | 0 <= i < length ensures EmptyWithin(r, emptyDepth - 1, Repeat(inner, length)[i]) {
        }
        EmptyTakeNothing(r, emptyDepth - 1, depth - 1, Repeat(inner, length), data);
      case Defined(name) =>
        EmptyMembers(r, emptyDepth - 1, Members(r, name));
        EmptyTakeNothing(r, emptyDepth - 1, depth - 1, Members(r, name), data);
    }
  }

  lemma {:induction false} EmptyTakeNothing(r: Reader, emptyDepth: nat, depth: nat, types: seq<IdlType>,
                                            data: seq<byte>)
    requires forall i :: 0 <= i < |types| ==> EmptyWithin(r, emptyDepth, types[i])
    ensures var p := ParseAll(r, depth, types, data);
            p == Err(DepthExceeded) || (p.Ok? && p.value.rest == data)
    decreases depth, 1 + |types|
  {
    if types != [] {
      EmptyTakesNothing(r, emptyDepth, depth, types[0], data);
      EmptyTakeNothing(r, emptyDepth, depth, types[1..], data);
    }
  }

  lemma {:induction false} EmptyMembers(r: Reader, depth: nat, types: seq<IdlType>)
    requires AllEmptyWithin(r, depth, types)
    ensures forall i :: 0 <= i < |types| ==> EmptyWithin(r, depth, types[i])
  {
    if types != [] {
      EmptyMembers(r, depth, types[1..]);
      assert forall i :: 0 < i < |types| ==> types[i] == types[1..][i - 1];
    }
  }

  // ------------------------------------------------- a loop is never decoded

  /** A member behind empty ones that exceeds every depth takes the whole list with it. */
  lemma {:induction false} BlockedMember(r: Reader, depth: nat, types: seq<IdlType>, i: nat, data: seq<byte>)
    requires i < |types| && EmptyBefore(r, types, i)
    requires ParseValue(r, depth, types[i], data) == Err(DepthExceeded)
    ensures ParseAll(r, depth, types, data) == Err(DepthExceeded)
    decreases i
  {
    if i > 0 {
      assert Empty(r, types[0]);
      var emptyDepth :| EmptyWithin(r, emptyDepth, types[0]);
      EmptyTakesNothing(r, emptyDepth, depth, types[0], data);
      assert forall j :: 0 <= j < i - 1 ==> types[1..][j] == types[j + 1];
      BlockedMember(r, depth, types[1..], i - 1, data);
    }
  }

  lemma {:induction false} BlockedInside(r: Reader, depth: nat, ty: IdlType, data: seq<byte>)
    requires Inside(ty).Some?
    requires forall k :: 0 <= k <= depth ==> ParseValue(r, k, Defined(Inside(ty).value), data) == Err(DepthExceeded)
    ensures ParseValue(r, depth, ty, data) == Err(DepthExceeded)
    decreases ty
  {
    if depth > 0 && ty.Array? {
      BlockedInside(r, depth - 1, ty.inner, data);
      assert Repeat(ty.inner, ty.length)[0] == ty.inner;
      assert ParseAll(r, depth - 1, Repeat(ty.inner, ty.length), data) == Err(DepthExceeded);
    }
  }

  /** Every struct on a loop exceeds every depth, whatever the data. */
  lemma {:induction false} LoopNeverEnds(r: Reader, path: seq<string>, i: nat, depth: nat, data: seq<byte>)
    requires Loop(r, path) && i < |path| - 1
    ensures ParseValue(r, depth, Defined(path[i]), data) == Err(DepthExceeded)
    decreases depth
  {
    if depth > 0 {
      assert Nests(r, path[i], path[i + 1]);
      var types := Members(r, path[i]);
      var m :| 0 <= m < |types| && Inside(types[m]) == Some(path[i + 1]) && EmptyBefore(r, types, m);
      var inner := path[i + 1];
      var next := if i + 1 < |path| - 1 then i + 1 else 0;
      assert path[next] == inner;
      forall k | 0 <= k < depth ensures ParseValue(r, k, Defined(inner), data) == Err(DepthExceeded) {
        LoopNeverEnds(r, path, next, k, data);
      }
      BlockedInside(r, depth - 1, types[m], data);
      BlockedMember(r, depth - 1, types, m, data);
    }
  }

  // --------------------------------------------- paths without loops are short

  function NamesIn(defs: Definitions): set<string> {
    set d <- defs :: d.name
  }

  /** Every name that has a definition at all. */
  function DefinedNames(r: Reader): set<string> {
    NamesIn(r.own) + set defs <- r.loaded, d <- defs :: d.name
  }

  lemma {:induction false} FoundIsNamed(defs: Definitions, name: string)
    requires FindIn(defs, name).Some?
    ensures name in NamesIn(defs)
  {
    if defs[0].name != name { FoundIsNamed(defs[1..], name); }
  }

  lemma {:induction false} FoundInAll(all: seq<Definitions>, name: string)
    requires FindInAll(all, name).Some?
    ensures exists defs <- all :: name in NamesIn(defs)
  {
    if FindIn(all[0], name).Some? {
      FoundIsNamed(all[0], name);
    } else {
      FoundInAll(all[1..], name);
      var defs :| defs in all[1..] && name in NamesIn(defs);
      assert defs in all;
    }
  }

  lemma StructIsNamed(r: Reader, name: string)
    requires IsStruct(r, name)
    ensures name in DefinedNames(r)
  {
    if FindIn(r.own, name).Some? { FoundIsNamed(r.own, name); } else { FoundInAll(r.loaded, name); }
  }

  /** More entries than names: some name occurs twice. */
  lemma {:induction false} Repeats(path: seq<string>, names: set<string>) returns (i: nat, j: nat)
    requires |path| > |names| && forall p <- path :: p in names
    ensures i < j < |path| && path[i] == path[j]
  {
    var last := |path| - 1;
    if exists k :: 0 <= k < last && path[k] == path[last] {
      i :| 0 <= i < last && path[i] == path[last];
      j := last;
    } else {
      forall p | p in path[..last] ensures p in names - {path[last]} {
        var k :| 0 <= k < last && path[k] == p;
      }
      i, j := Repeats(path[..last], names - {path[last]});
    }
  }

  lemma LoopInPath(r: Reader, path: seq<string>, i: nat, j: nat)
    requires NestingPath(r, path) && i < j < |path| && path[i] == path[j]
    ensures Cyclic(r)
  {
    var loop := path[i..j + 1];
    forall k | 0 <= k < |loop| - 1 ensures Nests(r, loop[k], loop[k + 1]) {
      assert Nests(r, path[i + k], path[i + k + 1]);
    }
    assert Loop(r, loop);
  }

  /** A path on the way to what is decoded: nested structs, of which none has taken a byte yet. */
  ghost predicate Way(r: Reader, path: seq<string>) {
    NestingPath(r, path) && forall name <- path :: IsStruct(r, name)
  }

  lemma WayIsShort(r: Reader, path: seq<string>)
    requires !Cyclic(r) && Way(r, path)
    ensures |path| <= |DefinedNames(r)|
  {
    forall name <- path ensures name in DefinedNames(r) { StructIsNamed(r, name); }
    if |path| > |DefinedNames(r)| {
      var i, j := Repeats(path, DefinedNames(r));
      LoopInPath(r, path, i, j);
    }
  }

  // --------------------------------------------------- without loops, all ends

  function Size(ty: IdlType): nat
    ensures Size(ty) >= 1
  {
    match ty
    case Array(inner, length) => 2 + length * Size(inner)
    case _ => 1
  }

  function SizeOfAll(types: seq<IdlType>): nat {
    if types == [] then 0 else Size(types[0]) + SizeOfAll(types[1..])
  }

  lemma {:induction false} SizeOfRepeated(ty: IdlType, n: nat)
    ensures SizeOfAll(Repeat(ty, n)) == n * Size(ty)
  {
    if n > 0 {
      SizeOfRepeated(ty, n - 1);
      assert Repeat(ty, n)[1..] == Repeat(ty, n - 1);
      assert n * Size(ty) == (n - 1) * Size(ty) + Size(ty);
    }
  }

  /** The type is reached at the end of the way: a struct in it extends the way. */
  ghost predicate Reached(r: Reader, path: seq<string>, ty: IdlType) {
    path != [] && Inside(ty).Some? && IsStruct(r, Inside(ty).value) ==> Nests(r, path[|path| - 1], Inside(ty).value)
  }

  /** Those of the types are reached that stand behind empty ones only. */
  ghost predicate AllReached(r: Reader, path: seq<string>, types: seq<IdlType>) {
    forall i :: 0 <= i < |types| && EmptyBefore(r, types, i) ==> Reached(r, path, types[i])
  }

  lemma MembersAreReached(r: Reader, path: seq<string>, name: string)
    requires Way(r, path) && IsStruct(r, name) && Reached(r, path, Defined(name))
    ensures Way(r, path + [name]) && AllReached(r, path + [name], Members(r, name))
  {
    var way := path + [name];
    forall i | 0 <= i < |way| - 1 ensures Nests(r, way[i], way[i + 1]) {
      assert i < |path| - 1 ==> Nests(r, path[i], path[i + 1]);
    }
    forall n <- way ensures IsStruct(r, n) {
      assert n in path || n == name;
    }
  }

  lemma OthersAreReached(r: Reader, path: seq<string>, types: seq<IdlType>)
    requires types != [] && AllReached(r, path, types) && Empty(r, types[0])
    ensures AllReached(r, path, types[1..])
  {
    forall i | 0 <= i < |types| - 1 && EmptyBefore(r, types[1..], i) ensures Reached(r, path, types[1..][i]) {
      forall j | 0 <= j < i + 1 ensures Empty(r, types[j]) {
        assert j > 0 ==> types[j] == types[1..][j - 1];
      }
      assert EmptyBefore(r, types, i + 1);
    }
  }

  /** The depth that suffices for a value. */
  lemma {:induction false} ValueEnds(r: Reader, path: seq<string>, ty: IdlType, data: seq<byte>) returns (depth: nat)
    requires !Cyclic(r) && Way(r, path) && Reached(r, path, ty)
    ensures ParseValue(r, depth, ty, data) != Err(DepthExceeded)
    decreases |data|, |DefinedNames(r)| + 1 - |path|, 2 * Size(ty)
  {
    depth := 0;
    WayIsShort(r, path);
    match ty {
      case Optional(inner) => depth := OptionEnds(r, inner, data);
      case Array(inner, length) =>
        SizeOfRepeated(inner, length);
        depth := AllEnd(r, path, Repeat(inner, length), data);
      case Vec(inner) => depth := VecEnds(r, inner, data);
      case Defined(name) =>
        match FindDefined(r, name) {
          case None =>
          case Some(Struct(_)) => depth := StructEnds(r, path, name, data);
          case Some(Enum(variants)) => depth := VariantEnds(r, variants, data);
        }
      case _ =>
    }
    depth := depth + 1;
  }

  lemma {:induction false} StructEnds(r: Reader, path: seq<string>, name: string, data: seq<byte>) returns (depth: nat)
    requires !Cyclic(r) && Way(r, path) && IsStruct(r, name) && Reached(r, path, Defined(name))
    ensures ParseStruct(r, depth, FindDefined(r, name).value.fields, data) != Err(DepthExceeded)
    decreases |data|, |DefinedNames(r)| + 1 - |path|, 0
  {
    MembersAreReached(r, path, name);
    WayIsShort(r, path + [name]);
    depth := AllEnd(r, path + [name], Members(r, name), data);
  }

  lemma {:induction false} OptionEnds(r: Reader, inner: IdlType, data: seq<byte>) returns (depth: nat)
    requires !Cyclic(r)
    ensures ParseOption(r, depth, inner, data) != Err(DepthExceeded)
    decreases |data|, 0, 0
  {
    depth := 0;
    var t := ParseTag(data);
    if t.Ok? && t.value.value { depth := ValueEnds(r, [], inner, t.value.rest); }
  }

  lemma {:induction false} VecEnds(r: Reader, inner: IdlType, data: seq<byte>) returns (depth: nat)
    requires !Cyclic(r)
    ensures ParseVec(r, depth, inner, data) != Err(DepthExceeded)
    decreases |data|, 0, 0
  {
    depth := 0;
    var n := ParseUnsigned(data, 4);
    if n.Ok? { depth := AllEnd(r, [], Repeat(inner, n.value.value), n.value.rest); }
  }

  lemma {:induction false} VariantEnds(r: Reader, variants: seq<Variant>, data: seq<byte>) returns (depth: nat)
    requires !Cyclic(r)
    ensures ParseEnum(r, depth, variants, data) != Err(DepthExceeded)
    decreases |data|, 0, 0
  {
    depth := 0;
    var index := ParseUnsigned(data, 1);
    if index.Ok? && index.value.value < |variants| {
      depth := AllEnd(r, [], VariantTypes(variants[index.value.value]), index.value.rest);
    }
  }

  lemma {:induction false} AllEnd(r: Reader, path: seq<string>, types: seq<IdlType>, data: seq<byte>)
    returns (depth: nat)
    requires !Cyclic(r) && Way(r, path) && AllReached(r, path, types)
    ensures ParseAll(r, depth, types, data) != Err(DepthExceeded)
    decreases |data|, |DefinedNames(r)| + 1 - |path|, 2 * SizeOfAll(types) + 1
  {
    depth := 0;
    if types != [] {
      assert EmptyBefore(r, types, 0);
      depth := ValueEnds(r, path, types[0], data);
      var first := ParseValue(r, depth, types[0], data);
      if first.Ok? {
        var others: nat;
        if |first.value.rest| < |data| {
          others := AllEnd(r, [], types[1..], first.value.rest);
        } else {
          NothingTaken(r, depth, types[0], data);
          OthersAreReached(r, path, types);
          others := AllEnd(r, path, types[1..], data);
        }
        depth := BothEnd(r, depth, others, types, data);
      }
    }
  }

  lemma BothEnd(r: Reader, first: nat, others: nat, types: seq<IdlType>, data: seq<byte>) returns (depth: nat)
    requires types != [] && ParseValue(r, first, types[0], data).Ok?
    requires ParseAll(r, others, types[1..], ParseValue(r, first, types[0], data).value.rest) != Err(DepthExceeded)
    ensures ParseAll(r, depth, types, data) != Err(DepthExceeded)
  {
    depth := if first >= others then first else others;
    DeeperIsSame(r, first, depth, types[0], data);
    DeeperIsSameForAll(r, others, depth, types[1..], ParseValue(r, first, types[0], data).value.rest);
  }

  // ------------------------------------------------------------- main result

  /**
   Decoding ends on every input exactly for the readers without a nesting loop;
   enums, options and vectors may recur freely, and so may structs behind a
   member that takes a byte.
   */
  lemma EndsExactlyIfAcyclic(r: Reader)
    ensures (forall ty, data :: Ends(r, ty, data)) <==> !Cyclic(r)
  {
    if Cyclic(r) {
      var path :| Loop(r, path);
      forall depth: nat ensures ParseValue(r, depth, Defined(path[0]), []) == Err(DepthExceeded) {
        LoopNeverEnds(r, path, 0, depth, []);
      }
      assert !Ends(r, Defined(path[0]), []);
    } else {
      forall ty, data ensures Ends(r, ty, data) {
        var depth := ValueEnds(r, [], ty, data);
      }
    }
  }

  /** Decoding a struct that holds itself behind an empty array never ends. */
  lemma LoopBehindEmptyArray(validText: seq<byte> -> bool, data: seq<byte>)
    ensures var a := Struct([Field("e", Array(U8, 0)), Field("next", Defined("A"))]);
            var r := Reader([NamedDef("A", a)], [], validText);
            Cyclic(r) && !Ends(r, Defined("A"), data)
  {
    var r := Reader([NamedDef("A", Struct([Field("e", Array(U8, 0)), Field("next", Defined("A"))]))], [], validText);
    var types := Members(r, "A");
    assert types == [Array(U8, 0), Defined("A")];
    assert EmptyWithin(r, 1, types[0]);
    assert EmptyBefore(r, types, 1) && Inside(types[1]) == Some("A");
    assert Loop(r, ["A", "A"]);
    forall depth: nat ensures ParseValue(r, depth, Defined("A"), data) == Err(DepthExceeded) {
      LoopNeverEnds(r, ["A", "A"], 0, depth, data);
    }
  }

  lemma FirstOnly(r: Reader, types: seq<IdlType>, i: nat)
    requires i < |types| && !Empty(r, types[0]) && EmptyBefore(r, types, i)
    ensures i == 0
  {
  }

  /** Nothing nests where every struct starts with a member that takes bytes and holds no name in place. */
  lemma NothingNestsBehindBytes(r: Reader)
    requires forall name: string :: IsStruct(r, name) ==>
               Members(r, name) != [] && Inside(Members(r, name)[0]) == None && !Empty(r, Members(r, name)[0])
    ensures !Cyclic(r)
  {
    forall outer: string, inner: string | IsStruct(r, outer) ensures !Nests(r, outer, inner) {
      var types := Members(r, outer);
      forall i | 0 <= i < |types| ensures EmptyBefore(r, types, i) ==> Inside(types[i]) == None {
        if EmptyBefore(r, types, i) { FirstOnly(r, types, i); }
      }
    }
    forall path: seq<string> ensures !Loop(r, path) {
      assert |path| >= 2 ==> !Nests(r, path[0], path[0 + 1]);
    }
  }

  /** Behind a member that takes a byte it always ends. */
  lemma ListBehindByte(validText: seq<byte> -> bool, data: seq<byte>)
    ensures var r := Reader([NamedDef("A", Struct([Field("x", U8), Field("next", Defined("A"))]))], [], validText);
            !Cyclic(r) && Ends(r, Defined("A"), data)
  {
    var r := Reader([NamedDef("A", Struct([Field("x", U8), Field("next", Defined("A"))]))], [], validText);
    assert FindDefined(r, "A") == Some(r.own[0].ty) && Members(r, "A") == [U8, Defined("A")];
    forall name: string | name != "A" ensures !IsStruct(r, name) {
      assert FindIn(r.own[1..], name) == None;
    }
    assert !Empty(r, U8);
    NothingNestsBehindBytes(r);
    EndsExactlyIfAcyclic(r);
  }
}
