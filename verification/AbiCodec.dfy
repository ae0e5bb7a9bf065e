/**
 Packing values by the types of an ABI, and unpacking them again. Packing descends one level of recursion a
 type, unpacking two a struct; both stop at a limit. The codec of the built-in types is a parameter.
 */
module AbiCodec {

  import opened Results
  import opened AbiTypes
  import opened Bytes

  datatype Value =
    | Null
    | Scalar(n: int)
    | Str(s: string)
    | Array(items: seq<Value>)
    | Object(fields: map<string, Value>)

  datatype Field = Field(name: string, typ: string)

  /** An empty base name means no base. */
  datatype Struct = Struct(base: string, fields: seq<Field>)

  type Packed = Result<seq<Byte>, AbiError>
  type Unpacked = Result<(Value, seq<Byte>), AbiError>

  /**
   The built-in types, packed alone, as arrays or as optionals; canonical values are those that come back unchanged.
   */
  datatype Codec = Codec(
    types: set<string>,
    canonical: (string, bool, bool, Value) -> bool,
    pack: (string, bool, bool, Value) -> Packed,
    unpack: (string, bool, bool, seq<Byte>) -> Unpacked)

  datatype Abi = Abi(
    typedefs: Typedefs,
    structs: map<string, Struct>,
    variants: map<string, seq<string>>,
    codec: Codec)

  // ---- Variable-length sizes ----

  const TWO32: nat := 0x1_0000_0000

  type UInt32 = n: nat | n < TWO32

  function PackUint(n: nat): (s: seq<Byte>)
    ensures |s| >= 1
  {
    if n < 128 then [n] else [n % 128 + 128] + PackUint(n / 128)
  }

  /** The number in seven bits a byte, from the `k`-th byte on, at most five bytes in all. */
  function Sevens(s: seq<Byte>, k: nat): Result<(nat, seq<Byte>), AbiError>
    decreases 5 - k
  {
    if s == [] then Err(StreamEnded)
    else if s[0] < 128 || k >= 4 then Ok((s[0] % 128, s[1..]))
    else
      var more := Sevens(s[1..], k + 1);
      if more.Err? then more else Ok((s[0] % 128 + 128 * more.value.0, more.value.1))
  }

  /** The number cut to 32 bits. */
  function UnpackUint(s: seq<Byte>): Result<(UInt32, seq<Byte>), AbiError>
  {
    var r := Sevens(s, 0);
    if r.Err? then Err(r.error) else Ok((r.value.0 % TWO32, r.value.1))
  }

  /** What the bytes from the `k`-th on can still hold of 32 bits. */
  function Room(k: nat): nat
    requires k <= 4
  {
    match k case 0 => TWO32 case 1 => 0x200_0000 case 2 => 0x4_0000 case 3 => 0x800 case 4 => 16
  }

  lemma {:induction false} SevensRoundTrip(n: nat, k: nat, rest: seq<Byte>)
    requires k <= 4 && n < Room(k)
    ensures Sevens(PackUint(n) + rest, k) == Ok((n, rest))
    decreases 5 - k
  {
    var s := PackUint(n) + rest;
    if n < 128 {
      assert s[0] == n && s[1..] == rest;
    } else {
      SevensRoundTrip(n / 128, k + 1, rest);
      assert s[0] == n % 128 + 128 && s[1..] == PackUint(n / 128) + rest;
    }
  }

  lemma UintRoundTrip(n: UInt32, rest: seq<Byte>)
    ensures UnpackUint(PackUint(n) + rest) == Ok((n, rest))
  {
    hide Sevens, PackUint;
    SevensRoundTrip(n, 0, rest);
  }

  // ---- Packing ----

  /** The index of a name among a variant's types, or their number. */
  function IndexOf(types: seq<string>, t: string): (i: nat)
    ensures i <= |types| && (i < |types| ==> types[i] == t) && (t in types ==> i < |types|)
    ensures forall j :: 0 <= j < i ==> types[j] != t
  {
    if types == [] then 0 else if types[0] == t then 0 else 1 + IndexOf(types[1..], t)
  }

  function Append(a: Packed, b: Packed): Packed
  {
    if a.Err? then a else if b.Err? then b else Ok(a.value + b.value)
  }

  /** `_variant_to_binary`; `allow` says whether trailing extensions may be left out, `levels` how deep it may go. */
  function Pack(abi: Abi, typ: string, v: Value, allow: bool, levels: nat): Packed
    decreases levels, 1, 0
  {
    if levels == 0 then Err(TooDeep) else PackAs(abi, Resolve(abi.typedefs, typ), v, allow, levels)
  }

  /** Packing by a resolved type. */
  function PackAs(abi: Abi, r: string, v: Value, allow: bool, levels: nat): Packed
    requires levels > 0
    decreases levels, 0, 0
  {
    if Fundamental(r) in abi.codec.types then abi.codec.pack(Fundamental(r), IsArray(r), IsOptional(r), v)
    else if IsArray(r) then
      if !v.Array? then Err(NotAnArray)
      else Append(Ok(PackUint(|v.items| % TWO32)), PackAll(abi, Fundamental(r), v.items, levels - 1))
    else if IsOptional(r) then
      if v.Null? then Ok([0]) else Append(Ok([1]), Pack(abi, Fundamental(r), v, allow, levels - 1))
    else if r in abi.variants then
      if !v.Array? || |v.items| != 2 then Err(NotAPair)
      else if !v.items[0].Str? then Err(NotAString)
      else
        var i := IndexOf(abi.variants[r], v.items[0].s);
        if i == |abi.variants[r]| then Err(NotInVariant)
        else Append(Ok(PackUint(i % TWO32)), Pack(abi, abi.variants[r][i], v.items[1], allow, levels - 1))
    else if r in abi.structs then PackStruct(abi, abi.structs[r], v, allow, levels - 1)
    else Err(UnknownType)
  }

  /** The elements of an array, which may not leave extensions out. */
  function PackAll(abi: Abi, typ: string, items: seq<Value>, levels: nat): Packed
    decreases levels, 2, |items|
  {
    if items == [] then Ok([])
    else Append(Pack(abi, typ, items[0], false, levels), PackAll(abi, typ, items[1..], levels))
  }

  function PackStruct(abi: Abi, st: Struct, v: Value, allow: bool, levels: nat): Packed
    decreases levels, 3, 0
  {
    match v
    case Object(fields) =>
      Append(PackBase(abi, st, v, levels), PackFields(abi, st.fields, fields, allow, false, levels))
    case Array(items) =>
      if st.base != "" then Err(DerivedFromArray) else PackItems(abi, st.fields, items, allow, levels)
    case _ => Err(UnexpectedInput)
  }

  /** The base takes its fields from the same object, and may not leave extensions out. */
  function PackBase(abi: Abi, st: Struct, v: Value, levels: nat): Packed
    decreases levels, 2, 0
  {
    if st.base == "" then Ok([]) else Pack(abi, Resolve(abi.typedefs, st.base), v, false, levels)
  }

  /** The fields of an object; after an extension is left out only extensions may follow, left out as well. */
  function PackFields(abi: Abi, fs: seq<Field>, vo: map<string, Value>, allow: bool, omitted: bool, levels: nat): Packed
    decreases levels, 2, |fs|
  {
    if fs == [] then Ok([])
    else if fs[0].name in vo then
      if omitted then Err(UnexpectedField)
      else Append(Pack(abi, WithoutExtension(fs[0].typ), vo[fs[0].name], allow && |fs| == 1, levels),
                  PackFields(abi, fs[1..], vo, allow, omitted, levels))
    else if IsExtension(fs[0].typ) && allow then PackFields(abi, fs[1..], vo, allow, true, levels)
    else if omitted then Err(NotAnExtension)
    else Err(MissingField)
  }

  /** The fields of a struct given as an array, which ends where extensions are left out. */
  function PackItems(abi: Abi, fs: seq<Field>, items: seq<Value>, allow: bool, levels: nat): Packed
    decreases levels, 2, |fs|
  {
    if fs == [] then Ok([])
    else if items != [] then
      Append(Pack(abi, WithoutExtension(fs[0].typ), items[0], allow && |fs| == 1, levels),
             PackItems(abi, fs[1..], items[1..], allow, levels))
    else if IsExtension(fs[0].typ) && allow then Ok([])
    else Err(MissingField)
  }

  // ---- Unpacking ----

  /** `_binary_to_variant` of a value: the value and the rest of the stream. */
  function Unpack(abi: Abi, typ: string, s: seq<Byte>, levels: nat): Unpacked
    decreases levels, 1, 0
  {
    if levels == 0 then Err(TooDeep) else UnpackAs(abi, Resolve(abi.typedefs, typ), s, levels)
  }

  /** Unpacking by a resolved type. */
  function UnpackAs(abi: Abi, r: string, s: seq<Byte>, levels: nat): Unpacked
    requires levels > 0
    decreases levels, 0, 0
  {
    if Fundamental(r) in abi.codec.types then abi.codec.unpack(Fundamental(r), IsArray(r), IsOptional(r), s)
    else if IsArray(r) then
      var size := UnpackUint(s);
      if size.Err? then Err(size.error)
      else
        var items := UnpackAll(abi, Fundamental(r), size.value.0, size.value.1, levels - 1);
        if items.Err? then Err(items.error) else Ok((Array(items.value.0), items.value.1))
    else if IsOptional(r) then
      if s == [] then Err(StreamEnded)
      else if s[0] != 0 then Unpack(abi, Fundamental(r), s[1..], levels - 1)
      else Ok((Null, s[1..]))
    else if r in abi.variants then
      var tag := UnpackUint(s);
      if tag.Err? then Err(tag.error)
      else if tag.value.0 >= |abi.variants[r]| then Err(InvalidTag)
      else
        var t := abi.variants[r][tag.value.0];
        var inner := Unpack(abi, t, tag.value.1, levels - 1);
        if inner.Err? then inner else Ok((Array([Str(t), inner.value.0]), inner.value.1))
    else
      var obj := UnpackObject(abi, r, s, map[], levels - 1);
      if obj.Err? then Err(obj.error)
      else if obj.value.0.Keys == {} then Err(EmptyStruct)
      else Ok((Object(obj.value.0), obj.value.1))
  }

  function UnpackAll(abi: Abi, typ: string, n: nat, s: seq<Byte>, levels: nat)
    : Result<(seq<Value>, seq<Byte>), AbiError>
    decreases levels, 2, n
  {
    if n == 0 then Ok(([], s))
    else
      var head := Unpack(abi, typ, s, levels);
      if head.Err? then Err(head.error)
      else if head.value.0.Null? then Err(NullInArray)
      else
        var tail := UnpackAll(abi, typ, n - 1, head.value.1, levels);
        if tail.Err? then tail else Ok(([head.value.0] + tail.value.0, tail.value.1))
  }

  type UnpackedFields = Result<(map<string, Value>, seq<Byte>), AbiError>

  /** `_binary_to_variant` of a struct's fields, the base's first, into an object. */
  function UnpackObject(abi: Abi, typ: string, s: seq<Byte>, obj: map<string, Value>, levels: nat): UnpackedFields
    decreases levels, 0, 0
  {
    if levels == 0 then Err(TooDeep)
    else if typ !in abi.structs then Err(UnknownType)
    else
      var st := abi.structs[typ];
      var base := UnpackBase(abi, st, s, obj, levels - 1);
      if base.Err? then base
      else UnpackFields(abi, st.fields, base.value.1, base.value.0, false, levels - 1)
  }

  function UnpackBase(abi: Abi, st: Struct, s: seq<Byte>, obj: map<string, Value>, levels: nat): UnpackedFields
    decreases levels, 1, 0
  {
    if st.base == "" then Ok((obj, s)) else UnpackObject(abi, Resolve(abi.typedefs, st.base), s, obj, levels)
  }

  function UnpackFields(abi: Abi, fs: seq<Field>, s: seq<Byte>, obj: map<string, Value>, extension: bool,
                        levels: nat): UnpackedFields
    decreases levels, 2, |fs|
  {
    if fs == [] then Ok((obj, s))
    else
      var ext := IsExtension(fs[0].typ);
      if s == [] then
        if ext then UnpackFields(abi, fs[1..], s, obj, true, levels)
        else if extension then Err(NotAnExtension)
        else Err(StreamEnded)
      else
        var t := Resolve(abi.typedefs, if ext then WithoutExtension(fs[0].typ) else fs[0].typ);
        var v := Unpack(abi, t, s, levels);
        if v.Err? then Err(v.error)
        else UnpackFields(abi, fs[1..], v.value.1, obj[fs[0].name := v.value.0], extension || ext, levels)
  }

  // ---- What is needed of an ABI and of a value ----

  ghost predicate BuiltinOk(codec: Codec, t: string, isArray: bool, isOptional: bool, v: Value, rest: seq<Byte>)
  {
    var p := codec.pack(t, isArray, isOptional, v);
    t in codec.types && codec.canonical(t, isArray, isOptional, v) && p.Ok? ==>
      |p.value| >= 1 && codec.unpack(t, isArray, isOptional, p.value + rest) == Ok((v, rest))
  }

  ghost predicate CodecOk(codec: Codec)
  {
    forall t, isArray, isOptional, v, rest :: BuiltinOk(codec, t, isArray, isOptional, v, rest)
  }

  /**
   A struct whose name packing does not mistake for another type that accepts an object. Named like an array or a
   variant type it never packs an object; named like a built-in or an optional type it may pack as that.
   */
  ghost predicate BaseOk(abi: Abi, t: string)
  {
    && t in abi.structs
    && if Fundamental(t) in abi.codec.types then forall vo :: RefusesObject(abi.codec, t, vo)
       else IsArray(t) || !IsOptional(t)
  }

  predicate RefusesObject(codec: Codec, t: string, vo: map<string, Value>)
  {
    codec.pack(Fundamental(t), IsArray(t), IsOptional(t), Object(vo)).Err?
  }

  /** Validated definitions, and bases that pack as the structs they are. */
  ghost predicate AbiOk(abi: Abi)
  {
    && AllEnd(abi.typedefs)
    && CodecOk(abi.codec)
    && forall s :: s in abi.structs && abi.structs[s].base != "" ==>
      BaseOk(abi, Resolve(abi.typedefs, abi.structs[s].base))
  }

  /** An object-form value: arrays without nulls, structs with at least one field and only fields of theirs. */
  ghost predicate Canonical(abi: Abi, typ: string, v: Value, levels: nat)
    decreases levels, 2, 0
  {
    levels > 0 ==> CanonicalAs(abi, Resolve(abi.typedefs, typ), v, levels)
  }

  ghost predicate CanonicalAs(abi: Abi, r: string, v: Value, levels: nat)
    requires levels > 0
    decreases levels, 1, 0
  {
    if Fundamental(r) in abi.codec.types then abi.codec.canonical(Fundamental(r), IsArray(r), IsOptional(r), v)
    else if IsArray(r) then v.Array? && |v.items| < TWO32 && CanonicalItems(abi, Fundamental(r), v.items, levels - 1)
    else if IsOptional(r) then v.Null? || Canonical(abi, Fundamental(r), v, levels - 1)
    else if r in abi.variants then
      && v.Array? && |v.items| == 2 && v.items[0].Str?
      && |abi.variants[r]| <= TWO32
      && Canonical(abi, v.items[0].s, v.items[1], levels - 1)
    else
      && v.Object? && v.fields.Keys != {}
      && v.fields.Keys <= ChainNames(abi, r, levels)
      && CanonicalChain(abi, r, v.fields, levels)
  }

  ghost predicate CanonicalItems(abi: Abi, typ: string, items: seq<Value>, levels: nat)
    decreases levels, 3, |items|
  {
    items != [] ==>
      !items[0].Null? && Canonical(abi, typ, items[0], levels) && CanonicalItems(abi, typ, items[1..], levels)
  }

  ghost predicate CanonicalChain(abi: Abi, s: string, vo: map<string, Value>, levels: nat)
    decreases levels, 0, 0
  {
    levels > 0 && s in abi.structs ==>
      && (abi.structs[s].base != "" ==> CanonicalChain(abi, Resolve(abi.typedefs, abi.structs[s].base), vo, levels - 1))
      && CanonicalFields(abi, abi.structs[s].fields, vo, levels - 1)
  }

  ghost predicate CanonicalFields(abi: Abi, fs: seq<Field>, vo: map<string, Value>, levels: nat)
    decreases levels, 3, |fs|
  {
    fs != [] ==>
      && (fs[0].name in vo ==> Canonical(abi, WithoutExtension(fs[0].typ), vo[fs[0].name], levels))
      && CanonicalFields(abi, fs[1..], vo, levels)
  }

  function Names(fs: seq<Field>): set<string>
  {
    if fs == [] then {} else {fs[0].name} + Names(fs[1..])
  }

  /** The names of a struct's fields and of its bases'. */
  function ChainNames(abi: Abi, s: string, levels: nat): set<string>
    decreases levels
  {
    if levels == 0 || s !in abi.structs then {}
    else
      var st := abi.structs[s];
      (if st.base == "" then {} else ChainNames(abi, Resolve(abi.typedefs, st.base), levels - 1)) + Names(st.fields)
  }

  // ---- How deep unpacking goes ----

  function Max(a: nat, b: nat): nat
  {
    if a < b then b else a
  }

  /** The levels unpacking takes for a value that was packed within `levels`. */
  function Depth(abi: Abi, typ: string, v: Value, levels: nat): nat
    decreases levels, 2, 0
  {
    if levels == 0 then 0 else DepthAs(abi, Resolve(abi.typedefs, typ), v, levels)
  }

  function DepthAs(abi: Abi, r: string, v: Value, levels: nat): nat
    requires levels > 0
    decreases levels, 1, 0
  {
    if Fundamental(r) in abi.codec.types then 1
    else if IsArray(r) then 1 + (if v.Array? then DepthOfItems(abi, Fundamental(r), v.items, levels - 1) else 0)
    else if IsOptional(r) then 1 + (if v.Null? then 0 else Depth(abi, Fundamental(r), v, levels - 1))
    else if r in abi.variants then
      1 + (if v.Array? && |v.items| == 2 && v.items[0].Str?
           then Depth(abi, v.items[0].s, v.items[1], levels - 1) else 0)
    else 1 + (if v.Object? then DepthOfObject(abi, r, v.fields, levels) else 0)
  }

  function DepthOfItems(abi: Abi, typ: string, items: seq<Value>, levels: nat): nat
    decreases levels, 3, |items|
  {
    if items == [] then 0 else Max(Depth(abi, typ, items[0], levels), DepthOfItems(abi, typ, items[1..], levels))
  }

  function DepthOfObject(abi: Abi, s: string, vo: map<string, Value>, levels: nat): nat
    decreases levels, 0, 0
  {
    if levels == 0 then 0
    else if s !in abi.structs then 1
    else
      var st := abi.structs[s];
      1 + Max(DepthOfBase(abi, st, vo, levels - 1), DepthOfFields(abi, st.fields, vo, levels - 1))
  }

  function DepthOfBase(abi: Abi, st: Struct, vo: map<string, Value>, levels: nat): nat
    decreases levels, 1, 0
  {
    if st.base == "" then 0 else DepthOfObject(abi, Resolve(abi.typedefs, st.base), vo, levels)
  }

  function DepthOfFields(abi: Abi, fs: seq<Field>, vo: map<string, Value>, levels: nat): nat
    decreases levels, 3, |fs|
  {
    if fs == [] then 0
    else
      Max(if fs[0].name in vo then Depth(abi, WithoutExtension(fs[0].typ), vo[fs[0].name], levels) else 0,
          DepthOfFields(abi, fs[1..], vo, levels))
  }

  // ---- What comes back ----

  /** The fields present in the object. */
  function Present(fs: seq<Field>, vo: map<string, Value>): map<string, Value>
  {
    map k | k in vo && k in Names(fs) :: vo[k]
  }

  function BasePresent(abi: Abi, st: Struct, vo: map<string, Value>, levels: nat): map<string, Value>
  {
    if st.base == "" then map[] else ChainPresent(abi, Resolve(abi.typedefs, st.base), vo, levels)
  }

  function ChainPresent(abi: Abi, s: string, vo: map<string, Value>, levels: nat): map<string, Value>
  {
    map k | k in vo && k in ChainNames(abi, s, levels) :: vo[k]
  }

  lemma PresentStep(fs: seq<Field>, vo: map<string, Value>, obj: map<string, Value>)
    requires fs != []
    ensures fs[0].name in vo ==>
      obj + Present(fs, vo) == obj[fs[0].name := vo[fs[0].name]] + Present(fs[1..], vo) && fs[0].name in Present(fs, vo)
    ensures fs[0].name !in vo ==> Present(fs, vo) == Present(fs[1..], vo)
  {
  }

  lemma ResolveTwice(abi: Abi, t: string)
    requires AllEnd(abi.typedefs)
    ensures Resolve(abi.typedefs, Resolve(abi.typedefs, t)) == Resolve(abi.typedefs, t)
  {
    if t !in abi.typedefs { assert Follow(abi.typedefs, t, 0) !in abi.typedefs; }
    ResolveReachesEnd(abi.typedefs, t);
  }

  lemma UnpackResolved(abi: Abi, t: string, s: seq<Byte>, levels: nat)
    requires AllEnd(abi.typedefs)
    ensures Unpack(abi, Resolve(abi.typedefs, t), s, levels) == Unpack(abi, t, s, levels)
  {
    hide Resolve, UnpackAs;
    ResolveTwice(abi, t);
  }

  // ---- The round trip ----

  /** What unpacking answers: the value, or that it went too deep. */
  function ComesBack<T>(depth: nat, levels: nat, t: T): Result<T, AbiError>
  {
    if depth <= levels then Ok(t) else Err(TooDeep)
  }

  /**
   Unpacking what was packed gives the value back and leaves the rest of the stream, exactly if it may go as deep
   as `Depth`. Where extensions may have been left out, the stream must end with the value.
   */
  lemma {:induction false} RoundTrip(abi: Abi, typ: string, v: Value, allow: bool, levels: nat, rest: seq<Byte>, u: nat)
    requires AbiOk(abi) && Pack(abi, typ, v, allow, levels).Ok?
    requires Canonical(abi, typ, v, levels) && (allow ==> rest == [])
    ensures var b := Pack(abi, typ, v, allow, levels).value;
      |b| >= 1 && Unpack(abi, typ, b + rest, u) == ComesBack(Depth(abi, typ, v, levels), u, (v, rest))
    decreases levels, 2, 0
  {
    hide Resolve, PackAs, UnpackAs, DepthAs, CanonicalAs, AbiOk;
    var r := Resolve(abi.typedefs, typ);
    RoundTripAs(abi, r, v, allow, levels, rest, u);
  }

  lemma {:induction false} RoundTripAs(abi: Abi, r: string, v: Value, allow: bool, levels: nat, rest: seq<Byte>, u: nat)
    requires levels > 0 && AbiOk(abi) && PackAs(abi, r, v, allow, levels).Ok?
    requires CanonicalAs(abi, r, v, levels) && (allow ==> rest == [])
    ensures var b := PackAs(abi, r, v, allow, levels).value;
      && |b| >= 1
      && DepthAs(abi, r, v, levels) > 0
      && (u > 0 ==> UnpackAs(abi, r, b + rest, u) == ComesBack(DepthAs(abi, r, v, levels), u, (v, rest)))
    decreases levels, 1, 0
  {
    if Fundamental(r) in abi.codec.types {
      hide Resolve, PackAll, UnpackAll, PackStruct, UnpackObject, Canonical, ChainNames, CanonicalChain, CanonicalItems;
      hide IsArray, IsOptional, Fundamental, DepthOfItems, DepthOfObject, Depth, Pack, Unpack;
      assert BuiltinOk(abi.codec, Fundamental(r), IsArray(r), IsOptional(r), v, rest);
    } else if IsArray(r) {
      ArrayRoundTrip(abi, r, v, allow, levels, rest, u);
    } else if IsOptional(r) {
      OptionalRoundTrip(abi, r, v, allow, levels, rest, u);
    } else if r in abi.variants {
      VariantRoundTrip(abi, r, v, allow, levels, rest, u);
    } else {
      StructRoundTrip(abi, r, v, allow, levels, rest, u);
    }
  }

  lemma {:induction false} ArrayRoundTrip(abi: Abi, r: string, v: Value, allow: bool, levels: nat, rest: seq<Byte>,
                                          u: nat)
    requires levels > 0 && AbiOk(abi) && PackAs(abi, r, v, allow, levels).Ok? && CanonicalAs(abi, r, v, levels)
    requires Fundamental(r) !in abi.codec.types && IsArray(r)
    ensures var b := PackAs(abi, r, v, allow, levels).value;
      && |b| >= 1
      && (u > 0 ==> UnpackAs(abi, r, b + rest, u) == ComesBack(DepthAs(abi, r, v, levels), u, (v, rest)))
    decreases levels, 0, 0
  {
    hide AbiOk, IsArray, Fundamental, PackAll, UnpackAll, CanonicalItems, DepthOfItems, PackUint, UnpackUint;
    var items := PackAll(abi, Fundamental(r), v.items, levels - 1).value;
    var b := PackAs(abi, r, v, allow, levels).value;
    assert b + rest == PackUint(|v.items|) + (items + rest);
    UintRoundTrip(|v.items|, items + rest);
    if u > 0 { ItemsRoundTrip(abi, Fundamental(r), v.items, levels - 1, rest, u - 1); }
  }

  lemma {:induction false} ItemsRoundTrip(abi: Abi, typ: string, items: seq<Value>, levels: nat, rest: seq<Byte>,
                                          u: nat)
    requires AbiOk(abi) && PackAll(abi, typ, items, levels).Ok? && CanonicalItems(abi, typ, items, levels)
    ensures var b := PackAll(abi, typ, items, levels).value;
      UnpackAll(abi, typ, |items|, b + rest, u) == ComesBack(DepthOfItems(abi, typ, items, levels), u, (items, rest))
    decreases levels, 3, |items|
  {
    hide AbiOk, Pack, Unpack, Canonical, Depth;
    if items != [] {
      var h, t := Pack(abi, typ, items[0], false, levels).value, PackAll(abi, typ, items[1..], levels).value;
      RoundTrip(abi, typ, items[0], false, levels, t + rest, u);
      ItemsRoundTrip(abi, typ, items[1..], levels, rest, u);
      assert (h + t) + rest == h + (t + rest);
      assert [items[0]] + items[1..] == items;
    } else {
      assert [] + rest == rest;
    }
  }

  lemma {:induction false} OptionalRoundTrip(abi: Abi, r: string, v: Value, allow: bool, levels: nat, rest: seq<Byte>,
                                             u: nat)
    requires levels > 0 && AbiOk(abi) && PackAs(abi, r, v, allow, levels).Ok?
    requires CanonicalAs(abi, r, v, levels) && (allow ==> rest == [])
    requires Fundamental(r) !in abi.codec.types && !IsArray(r) && IsOptional(r)
    ensures var b := PackAs(abi, r, v, allow, levels).value;
      && |b| >= 1
      && (u > 0 ==> UnpackAs(abi, r, b + rest, u) == ComesBack(DepthAs(abi, r, v, levels), u, (v, rest)))
    decreases levels, 0, 0
  {
    hide AbiOk, IsArray, IsOptional, Fundamental, Pack, Unpack, Canonical, Depth;
    if v.Null? {
      assert ([0] + rest)[1..] == rest;
    } else {
      var inner := Pack(abi, Fundamental(r), v, allow, levels - 1).value;
      assert ([1] + inner + rest)[1..] == inner + rest;
      if u > 0 { RoundTrip(abi, Fundamental(r), v, allow, levels - 1, rest, u - 1); }
    }
  }

  lemma {:induction false} VariantRoundTrip(abi: Abi, r: string, v: Value, allow: bool, levels: nat, rest: seq<Byte>,
                                            u: nat)
    requires levels > 0 && AbiOk(abi) && PackAs(abi, r, v, allow, levels).Ok?
    requires CanonicalAs(abi, r, v, levels) && (allow ==> rest == [])
    requires Fundamental(r) !in abi.codec.types && !IsArray(r) && !IsOptional(r) && r in abi.variants
    ensures var b := PackAs(abi, r, v, allow, levels).value;
      && |b| >= 1
      && (u > 0 ==> UnpackAs(abi, r, b + rest, u) == ComesBack(DepthAs(abi, r, v, levels), u, (v, rest)))
    decreases levels, 0, 0
  {
    hide AbiOk, IsArray, IsOptional, Fundamental, Pack, Unpack, Canonical, Depth, PackUint, UnpackUint, IndexOf;
    var t := v.items[0].s;
    var i := IndexOf(abi.variants[r], t);
    var inner := Pack(abi, t, v.items[1], allow, levels - 1).value;
    assert PackUint(i) + inner + rest == PackUint(i) + (inner + rest);
    UintRoundTrip(i, inner + rest);
    assert v == Array([Str(t), v.items[1]]);
    if u > 0 { RoundTrip(abi, t, v.items[1], allow, levels - 1, rest, u - 1); }
  }

  lemma {:induction false} StructRoundTrip(abi: Abi, r: string, v: Value, allow: bool, levels: nat, rest: seq<Byte>,
                                           u: nat)
    requires levels > 0 && AbiOk(abi) && PackAs(abi, r, v, allow, levels).Ok?
    requires CanonicalAs(abi, r, v, levels) && (allow ==> rest == [])
    requires Fundamental(r) !in abi.codec.types && !IsArray(r) && !IsOptional(r) && r !in abi.variants
    ensures var b := PackAs(abi, r, v, allow, levels).value;
      && |b| >= 1
      && (u > 0 ==> UnpackAs(abi, r, b + rest, u) == ComesBack(DepthAs(abi, r, v, levels), u, (v, rest)))
    decreases levels, 0, 1
  {
    hide AbiOk, IsArray, IsOptional, Fundamental, PackStruct, UnpackObject, CanonicalChain, DepthOfObject, ChainNames;
    var vo := v.fields;
    ObjectRoundTrip(abi, r, vo, allow, levels, rest, map[], if u > 0 then u - 1 else 0);
    assert ChainPresent(abi, r, vo, levels) == vo;
    assert map[] + vo == vo;
  }

  /** A struct's fields and its bases' come back as the part of the object they name. */
  lemma {:induction false} ObjectRoundTrip(abi: Abi, s: string, vo: map<string, Value>, allow: bool, levels: nat,
                                           rest: seq<Byte>, obj: map<string, Value>, u: nat)
    requires levels > 0 && AbiOk(abi) && s in abi.structs
    requires CanonicalChain(abi, s, vo, levels) && (allow ==> rest == [])
    requires PackStruct(abi, abi.structs[s], Object(vo), allow, levels - 1).Ok?
    ensures var b := PackStruct(abi, abi.structs[s], Object(vo), allow, levels - 1).value;
      && UnpackObject(abi, s, b + rest, obj, u) ==
           ComesBack(DepthOfObject(abi, s, vo, levels), u, (obj + ChainPresent(abi, s, vo, levels), rest))
      && (ChainPresent(abi, s, vo, levels).Keys != {} ==> |b| >= 1)
    decreases levels, 0, 0
  {
    hide AbiOk, PackFields, UnpackFields, CanonicalFields, DepthOfFields, ChainPresent, BasePresent, Present;
    hide PackBase, UnpackBase, DepthOfBase, PackItems;
    var st := abi.structs[s];
    var base := PackBase(abi, st, Object(vo), levels - 1).value;
    var fields := PackFields(abi, st.fields, vo, allow, false, levels - 1).value;
    var u' := if u > 0 then u - 1 else 0;
    BaseRoundTrip(abi, s, vo, levels, fields + rest, obj, u');
    var below := obj + BasePresent(abi, st, vo, levels - 1);
    FieldsRoundTrip(abi, st.fields, vo, allow, false, levels - 1, rest, below, false, u');
    assert base + fields + rest == base + (fields + rest);
    ChainPresentStep(abi, s, vo, levels, obj);
  }

  lemma {:induction false} BaseRoundTrip(abi: Abi, s: string, vo: map<string, Value>, levels: nat,
                                         rest: seq<Byte>, obj: map<string, Value>, u: nat)
    requires levels > 0 && AbiOk(abi) && s in abi.structs && CanonicalChain(abi, s, vo, levels)
    requires PackBase(abi, abi.structs[s], Object(vo), levels - 1).Ok?
    ensures var st := abi.structs[s];
      var b := PackBase(abi, st, Object(vo), levels - 1).value;
      && UnpackBase(abi, st, b + rest, obj, u) ==
           ComesBack(DepthOfBase(abi, st, vo, levels - 1), u, (obj + BasePresent(abi, st, vo, levels - 1), rest))
      && (BasePresent(abi, st, vo, levels - 1).Keys != {} ==> |b| >= 1)
    decreases levels - 1, 0, 1
  {
    hide AbiOk, Resolve, CanonicalFields, ChainPresent, Pack, PackStruct, UnpackObject, DepthOfObject;
    var st := abi.structs[s];
    if st.base == "" {
      assert [] + rest == rest;
      assert obj + map[] == obj;
    } else {
      BasePacks(abi, s, vo, levels);
      ObjectRoundTrip(abi, Resolve(abi.typedefs, st.base), vo, false, levels - 1, rest, obj, u);
    }
  }

  lemma ChainPresentStep(abi: Abi, s: string, vo: map<string, Value>, levels: nat, obj: map<string, Value>)
    requires levels > 0 && s in abi.structs
    ensures var st := abi.structs[s];
      var below := BasePresent(abi, st, vo, levels - 1);
      && obj + ChainPresent(abi, s, vo, levels) == obj + below + Present(st.fields, vo)
      && (ChainPresent(abi, s, vo, levels).Keys != {} ==> below.Keys != {} || Present(st.fields, vo).Keys != {})
  {
    hide Resolve, Names;
    var st := abi.structs[s];
    assert ChainPresent(abi, s, vo, levels) == BasePresent(abi, st, vo, levels - 1) + Present(st.fields, vo);
  }

  /** A base is packed as the struct it names. */
  lemma BasePacks(abi: Abi, s: string, vo: map<string, Value>, levels: nat)
    requires levels > 0 && AbiOk(abi) && s in abi.structs && abi.structs[s].base != ""
    requires Pack(abi, Resolve(abi.typedefs, abi.structs[s].base), Object(vo), false, levels - 1).Ok?
    ensures var base := Resolve(abi.typedefs, abi.structs[s].base);
      && levels > 1 && base in abi.structs
      && PackStruct(abi, abi.structs[base], Object(vo), false, levels - 2) ==
        Pack(abi, base, Object(vo), false, levels - 1)
  {
    hide Resolve, PackStruct, PackAll, IsArray, IsOptional, Fundamental;
    ResolveTwice(abi, abi.structs[s].base);
    var base := Resolve(abi.typedefs, abi.structs[s].base);
    assert BaseOk(abi, base) && (Fundamental(base) in abi.codec.types ==> RefusesObject(abi.codec, base, vo));
  }

  lemma {:induction false} FieldsRoundTrip(abi: Abi, fs: seq<Field>, vo: map<string, Value>, allow: bool, omitted: bool,
                                           levels: nat, rest: seq<Byte>, obj: map<string, Value>, ext: bool, u: nat)
    requires AbiOk(abi) && CanonicalFields(abi, fs, vo, levels) && (allow ==> rest == []) && (omitted ==> allow)
    requires PackFields(abi, fs, vo, allow, omitted, levels).Ok?
    ensures var b := PackFields(abi, fs, vo, allow, omitted, levels).value;
      && UnpackFields(abi, fs, b + rest, obj, ext, u) ==
        ComesBack(DepthOfFields(abi, fs, vo, levels), u, (obj + Present(fs, vo), rest))
      && (Present(fs, vo).Keys != {} ==> |b| >= 1)
      && (omitted ==> b == [])
    decreases levels, 3, |fs|
  {
    hide Pack, Unpack, Canonical, Depth, Resolve, IsExtension, WithoutExtension, AbiOk;
    if fs == [] {
      assert Present(fs, vo) == map[];
      assert obj + map[] == obj;
      assert [] + rest == rest;
    } else if fs[0].name in vo {
      var t := WithoutExtension(fs[0].typ);
      var last := allow && |fs| == 1;
      var h := Pack(abi, t, vo[fs[0].name], last, levels).value;
      var tail := PackFields(abi, fs[1..], vo, allow, omitted, levels).value;
      RoundTrip(abi, t, vo[fs[0].name], last, levels, tail + rest, u);
      var obj', ext' := obj[fs[0].name := vo[fs[0].name]], ext || IsExtension(fs[0].typ);
      FieldsRoundTrip(abi, fs[1..], vo, allow, omitted, levels, rest, obj', ext', u);
      assert (h + tail) + rest == h + (tail + rest);
      PresentStep(fs, vo, obj);
      FieldType(abi, fs[0].typ, h + (tail + rest), u);
    } else {
      FieldsRoundTrip(abi, fs[1..], vo, allow, true, levels, rest, obj, true, u);
      PresentStep(fs, vo, obj);
    }
  }

  /** Both ways of naming a field's type unpack alike. */
  lemma FieldType(abi: Abi, typ: string, s: seq<Byte>, levels: nat)
    requires AbiOk(abi)
    ensures Unpack(abi, Resolve(abi.typedefs, if IsExtension(typ) then WithoutExtension(typ) else typ), s, levels) ==
      Unpack(abi, WithoutExtension(typ), s, levels)
  {
    hide Resolve, Unpack;
    UnpackResolved(abi, WithoutExtension(typ), s, levels);
  }

  // ---- The bytes ----

  /** The number that groups of seven bits stand for, the lowest first. */
  function Base128(s: seq<Byte>): nat
  {
    if s == [] then 0 else s[0] % 128 + 128 * Base128(s[1..])
  }

  /** The bytes of a size are its groups of seven bits; all but the last have the highest bit set. */
  lemma {:induction false} UintBytes(n: nat)
    ensures var s := PackUint(n);
      Base128(s) == n && s[|s| - 1] < 128 && forall i :: 0 <= i < |s| - 1 ==> s[i] >= 128
  {
    if n >= 128 {
      UintBytes(n / 128);
      assert PackUint(n)[1..] == PackUint(n / 128);
    }
  }

  /**
   Reading a size takes bytes up to the first without the highest bit, at most five, and gives the number they stand for
   cut to 32 bits; it fails if the stream ends before.
   */
  lemma UintReads(s: seq<Byte>)
    ensures var r := UnpackUint(s);
      if r.Ok? then Reads(s, 0, r.value.1) && r.value.0 == Base128(s[..|s| - |r.value.1|]) % TWO32
      else |s| < 5 && forall i :: 0 <= i < |s| ==> s[i] >= 128
  {
    hide Base128;
    SevensRead(s, 0);
  }

  predicate Reads(s: seq<Byte>, k: nat, rest: seq<Byte>)
  {
    var n := |s| - |rest|;
    && 1 <= n <= 5 - k && n <= |s| && s[n..] == rest
    && (n < 5 - k ==> s[n - 1] < 128)
    && forall i :: 0 <= i < n - 1 ==> s[i] >= 128
  }

  lemma {:induction false} SevensRead(s: seq<Byte>, k: nat)
    requires k <= 4
    ensures var r := Sevens(s, k);
      if r.Ok? then Reads(s, k, r.value.1) && r.value.0 == Base128(s[..|s| - |r.value.1|])
      else |s| < 5 - k && forall i :: 0 <= i < |s| ==> s[i] >= 128
    decreases 5 - k
  {
    if s != [] {
      if s[0] < 128 || k >= 4 {
        assert s[..1][1..] == [];
      } else {
        hide Base128, Reads;
        SevensRead(s[1..], k + 1);
        var more := Sevens(s[1..], k + 1);
        if more.Ok? { ReadOneMore(s, k, more.value.1); }
      }
    }
  }

  lemma ReadOneMore(s: seq<Byte>, k: nat, rest: seq<Byte>)
    requires s != [] && s[0] >= 128 && k < 4 && Reads(s[1..], k + 1, rest)
    ensures Reads(s, k, rest) && Base128(s[..|s| - |rest|]) == s[0] % 128 + 128 * Base128(s[1..][..|s| - 1 - |rest|])
  {
    var n := |s| - |rest|;
    assert s[..n][1..] == s[1..][..n - 1] && s[n..] == s[1..][n - 1..];
    assert forall i :: 0 < i < n - 1 ==> s[i] == s[1..][i - 1];
    hide Base128;
    assert s[n - 1] == s[1..][n - 2];
  }

  /** The elements of an array are packed one after the other. */
  lemma {:induction false} ItemsInOrder(abi: Abi, typ: string, a: seq<Value>, b: seq<Value>, levels: nat)
    ensures PackAll(abi, typ, a + b, levels) == Append(PackAll(abi, typ, a, levels), PackAll(abi, typ, b, levels))
    decreases |a|
  {
    hide Pack;
    if a == [] {
      assert a + b == b;
      AppendNothing(PackAll(abi, typ, b, levels));
    } else {
      ItemsInOrder(abi, typ, a[1..], b, levels);
      assert (a + b)[1..] == a[1..] + b;
      AppendAssociates(Pack(abi, typ, a[0], false, levels), PackAll(abi, typ, a[1..], levels),
                       PackAll(abi, typ, b, levels));
    }
  }

  /** So are the fields of a struct. */
  lemma {:induction false} FieldsInOrder(abi: Abi, a: seq<Field>, b: seq<Field>, vo: map<string, Value>, levels: nat)
    ensures PackFields(abi, a + b, vo, false, false, levels) ==
      Append(PackFields(abi, a, vo, false, false, levels), PackFields(abi, b, vo, false, false, levels))
    decreases |a|
  {
    hide Pack, WithoutExtension, IsExtension;
    if a == [] {
      assert a + b == b;
      AppendNothing(PackFields(abi, b, vo, false, false, levels));
    } else {
      FieldsInOrder(abi, a[1..], b, vo, levels);
      assert (a + b)[1..] == a[1..] + b;
      if a[0].name in vo {
        AppendAssociates(Pack(abi, WithoutExtension(a[0].typ), vo[a[0].name], false, levels),
                         PackFields(abi, a[1..], vo, false, false, levels),
                         PackFields(abi, b, vo, false, false, levels));
      }
    }
  }

  lemma AppendNothing(b: Packed)
    ensures Append(Ok([]), b) == b
  {
    if b.Ok? { assert [] + b.value == b.value; }
  }

  lemma AppendAssociates(a: Packed, b: Packed, c: Packed)
    ensures Append(a, Append(b, c)) == Append(Append(a, b), c)
  {
    if a.Ok? && b.Ok? && c.Ok? { assert a.value + (b.value + c.value) == (a.value + b.value) + c.value; }
  }

  // ---- Structs given as arrays ----

  /** The object that an array stands for: the values for the fields of a struct, in order. */
  function AsObject(fs: seq<Field>, items: seq<Value>): map<string, Value>
  {
    if fs == [] || items == [] then map[] else AsObject(fs[1..], items[1..])[fs[0].name := items[0]]
  }

  predicate DistinctNames(fs: seq<Field>)
  {
    forall i, j :: 0 <= i < j < |fs| ==> fs[i].name != fs[j].name
  }

  /** The i-th value is that of the i-th field, and there are no others. */
  lemma {:induction false} AsObjectAt(fs: seq<Field>, items: seq<Value>)
    requires DistinctNames(fs)
    ensures forall i :: 0 <= i < |fs| ==> (fs[i].name in AsObject(fs, items) <==> i < |items|)
    ensures forall i :: 0 <= i < |fs| && i < |items| ==> AsObject(fs, items)[fs[i].name] == items[i]
    ensures AsObject(fs, items).Keys <= Names(fs)
    decreases |fs|
  {
    if fs != [] && items != [] {
      AsObjectAt(fs[1..], items[1..]);
      forall i | 0 <= i < |fs|
        ensures fs[i].name in AsObject(fs, items) <==> i < |items|
        ensures i < |items| ==> AsObject(fs, items)[fs[i].name] == items[i]
      {
        if i > 0 { assert fs[1..][i - 1] == fs[i]; }
        if 0 < i < |items| { assert items[1..][i - 1] == items[i]; }
      }
    }
  }

  /** From the first field without a value on, if that is an extension, all are. */
  predicate ExtensionsLast(fs: seq<Field>, n: nat)
  {
    n < |fs| && IsExtension(fs[n].typ) ==> forall i :: n <= i < |fs| ==> IsExtension(fs[i].typ)
  }

  /** The fields that have values pack. */
  predicate ItemsPack(abi: Abi, fs: seq<Field>, items: seq<Value>, allow: bool, levels: nat)
  {
    fs != [] && items != [] ==>
      && Pack(abi, WithoutExtension(fs[0].typ), items[0], allow && |fs| == 1, levels).Ok?
      && ItemsPack(abi, fs[1..], items[1..], allow, levels)
  }

  /** Left-out extensions that are the last fields leave nothing behind. */
  lemma {:induction false} OmittedFields(abi: Abi, fs: seq<Field>, vo: map<string, Value>, omitted: bool, levels: nat)
    requires forall i :: 0 <= i < |fs| ==> fs[i].name !in vo
    requires omitted || (fs != [] && IsExtension(fs[0].typ))
    ensures PackFields(abi, fs, vo, true, omitted, levels) ==
      if forall i :: 0 <= i < |fs| ==> IsExtension(fs[i].typ) then Ok([]) else Err(NotAnExtension)
    decreases |fs|
  {
    hide Pack, IsExtension;
    if fs != [] {
      assert forall i :: 0 <= i < |fs| - 1 ==> fs[1..][i] == fs[i + 1];
      if IsExtension(fs[0].typ) {
        OmittedFields(abi, fs[1..], vo, true, levels);
        assert (forall i :: 0 <= i < |fs| ==> IsExtension(fs[i].typ)) <==>
               (forall i :: 0 <= i < |fs[1..]| ==> IsExtension(fs[1..][i].typ));
      }
    }
  }

  /**
   An array packs like the object it stands for, if and only if it does not end before an extension that a plain field
   follows: the loop over an array stops there, and does not see the plain field.
   */
  lemma {:induction false} ArrayPacksAsObject(abi: Abi, fs: seq<Field>, items: seq<Value>, vo: map<string, Value>,
                                              allow: bool, levels: nat)
    requires forall i :: 0 <= i < |fs| ==> (fs[i].name in vo <==> i < |items|)
    requires forall i :: 0 <= i < |fs| && i < |items| ==> vo[fs[i].name] == items[i]
    ensures PackItems(abi, fs, items, allow, levels) == PackFields(abi, fs, vo, allow, false, levels) <==>
      !(allow && !ExtensionsLast(fs, |items|) && ItemsPack(abi, fs, items, allow, levels))
    decreases |fs|
  {
    hide Pack, WithoutExtension, IsExtension;
    if fs != [] {
      assert forall i :: 0 <= i < |fs| - 1 ==> fs[1..][i] == fs[i + 1];
      if items != [] {
        assert forall i :: 0 <= i < |items| - 1 ==> items[1..][i] == items[i + 1];
        ArrayPacksAsObject(abi, fs[1..], items[1..], vo, allow, levels);
        ExtensionsLastStep(fs, |items|);
        AppendCancels(Pack(abi, WithoutExtension(fs[0].typ), items[0], allow && |fs| == 1, levels),
                      PackItems(abi, fs[1..], items[1..], allow, levels),
                      PackFields(abi, fs[1..], vo, allow, false, levels));
      } else if allow && IsExtension(fs[0].typ) {
        OmittedFields(abi, fs, vo, false, levels);
      }
    }
  }

  lemma ExtensionsLastStep(fs: seq<Field>, n: nat)
    requires fs != [] && n > 0
    ensures ExtensionsLast(fs, n) <==> ExtensionsLast(fs[1..], n - 1)
  {
    hide IsExtension;
    assert forall i :: 0 <= i < |fs| - 1 ==> fs[1..][i] == fs[i + 1];
    if ExtensionsLast(fs[1..], n - 1) {
      forall i | n <= i < |fs| && IsExtension(fs[n].typ)
        ensures IsExtension(fs[i].typ)
      {
        assert fs[1..][i - 1] == fs[i] && fs[1..][n - 1] == fs[n];
      }
    }
  }

  lemma AppendCancels(a: Packed, b: Packed, c: Packed)
    ensures Append(a, b) == Append(a, c) <==> a.Err? || b == c
  {
    if a.Ok? && b.Ok? && c.Ok? {
      assert (a.value + b.value)[|a.value|..] == b.value && (a.value + c.value)[|a.value|..] == c.value;
    }
  }

  /** A struct without a base, and of no other type's name. */
  predicate IsPlainStruct(abi: Abi, r: string)
  {
    && Fundamental(r) !in abi.codec.types && !IsArray(r) && !IsOptional(r) && r !in abi.variants
    && r in abi.structs && abi.structs[r].base == ""
  }

  function FieldsOf(abi: Abi, typ: string): seq<Field>
    requires Resolve(abi.typedefs, typ) in abi.structs
  {
    abi.structs[Resolve(abi.typedefs, typ)].fields
  }

  lemma StructForms(abi: Abi, typ: string, items: seq<Value>, vo: map<string, Value>, allow: bool, levels: nat)
    requires IsPlainStruct(abi, Resolve(abi.typedefs, typ)) && levels > 0
    ensures var fs := FieldsOf(abi, typ);
      && Pack(abi, typ, Array(items), allow, levels) == PackItems(abi, fs, items, allow, levels - 1)
      && Pack(abi, typ, Object(vo), allow, levels) == PackFields(abi, fs, vo, allow, false, levels - 1)
  {
    hide Resolve, IsArray, IsOptional, Fundamental, PackItems, PackFields;
    var st := abi.structs[Resolve(abi.typedefs, typ)];
    var p := PackFields(abi, st.fields, vo, allow, false, levels - 1);
    assert p.Ok? ==> [] + p.value == p.value;
    assert PackStruct(abi, st, Object(vo), allow, levels - 1) == p;
    assert PackStruct(abi, st, Array(items), allow, levels - 1) == PackItems(abi, st.fields, items, allow, levels - 1);
  }

  /**
   A struct given as an array packs like the object with the array's values for the fields, in order, and is unpacked as
   that object; unless it ends before an extension that a plain field follows.
   */
  lemma ArrayRoundTripAsObject(abi: Abi, typ: string, items: seq<Value>, allow: bool, levels: nat, rest: seq<Byte>,
                               u: nat)
    requires AbiOk(abi) && IsPlainStruct(abi, Resolve(abi.typedefs, typ)) && (allow ==> rest == [])
    requires DistinctNames(FieldsOf(abi, typ)) && ExtensionsLast(FieldsOf(abi, typ), |items|)
    requires Pack(abi, typ, Array(items), allow, levels).Ok?
    requires Canonical(abi, typ, Object(AsObject(FieldsOf(abi, typ), items)), levels)
    ensures var v := Object(AsObject(FieldsOf(abi, typ), items));
      var b := Pack(abi, typ, Array(items), allow, levels).value;
      && Pack(abi, typ, v, allow, levels) == Ok(b)
      && Unpack(abi, typ, b + rest, u) == ComesBack(Depth(abi, typ, v, levels), u, (v, rest))
  {
    hide Resolve, Unpack, Depth, Canonical, AbiOk, IsExtension, AsObject, PackItems, PackFields;
    hide PackAs, ItemsPack, ExtensionsLast, Fundamental, IsArray, IsOptional;
    var fs := FieldsOf(abi, typ);
    var vo := AsObject(fs, items);
    AsObjectAt(fs, items);
    assert levels > 0;
    StructForms(abi, typ, items, vo, allow, levels);
    ArrayPacksAsObject(abi, fs, items, vo, allow, levels - 1);
    RoundTrip(abi, typ, Object(vo), allow, levels, rest, u);
  }

  /** An empty stream does not unpack to fields of which one is no extension. */
  lemma {:induction false} NothingForPlainField(abi: Abi, fs: seq<Field>, obj: map<string, Value>, ext: bool, u: nat,
                                                i: nat)
    requires i < |fs| && !IsExtension(fs[i].typ)
    ensures UnpackFields(abi, fs, [], obj, ext, u).Err?
    decreases |fs|
  {
    hide IsExtension, Unpack;
    if i > 0 && IsExtension(fs[0].typ) { NothingForPlainField(abi, fs[1..], obj, true, u, i - 1); }
  }

  /** What an array that ends before an extension, with a plain field after it, packs to is never unpacked. */
  lemma {:induction false} ArrayStopsEarly(abi: Abi, fs: seq<Field>, items: seq<Value>, levels: nat,
                                           obj: map<string, Value>, ext: bool, u: nat)
    requires AbiOk(abi) && !ExtensionsLast(fs, |items|) && PackItems(abi, fs, items, true, levels).Ok?
    requires forall i :: 0 <= i < |items| ==> Canonical(abi, WithoutExtension(fs[i].typ), items[i], levels)
    ensures UnpackFields(abi, fs, PackItems(abi, fs, items, true, levels).value, obj, ext, u).Err?
    decreases |fs|
  {
    hide IsExtension, WithoutExtension, Pack, Unpack, Canonical, Depth, AbiOk, Resolve;
    if items == [] {
      var i :| 0 <= i < |fs| && !IsExtension(fs[i].typ);
      NothingForPlainField(abi, fs, obj, ext, u, i);
    } else {
      var f, t := fs[0], WithoutExtension(fs[0].typ);
      var h, tail := Pack(abi, t, items[0], false, levels).value,
        PackItems(abi, fs[1..], items[1..], true, levels).value;
      ExtensionsLastStep(fs, |items|);
      assert forall i :: 0 <= i < |items| - 1 ==> fs[1..][i] == fs[i + 1] && items[1..][i] == items[i + 1];
      RoundTrip(abi, t, items[0], false, levels, tail, u);
      FieldType(abi, f.typ, h + tail, u);
      ArrayStopsEarly(abi, fs[1..], items[1..], levels, obj[f.name := items[0]], ext || IsExtension(f.typ), u);
    }
  }

  // ---- Limits ----

  /** Unpacking never takes more than twice the levels packing was allowed. */
  lemma {:induction false} DepthAtMostTwice(abi: Abi, typ: string, v: Value, levels: nat)
    ensures Depth(abi, typ, v, levels) <= 2 * levels
    decreases levels, 2, 0
  {
    hide Resolve, IsArray, IsOptional, Fundamental;
    if levels > 0 {
      var r := Resolve(abi.typedefs, typ);
      if Fundamental(r) in abi.codec.types {
      } else if IsArray(r) {
        if v.Array? { ItemsAtMostTwice(abi, Fundamental(r), v.items, levels - 1); }
      } else if IsOptional(r) {
        DepthAtMostTwice(abi, Fundamental(r), v, levels - 1);
      } else if r in abi.variants {
        if v.Array? && |v.items| == 2 && v.items[0].Str? {
          DepthAtMostTwice(abi, v.items[0].s, v.items[1], levels - 1);
        }
      } else if v.Object? {
        ObjectAtMostTwice(abi, r, v.fields, levels);
      }
    }
  }

  lemma {:induction false} ItemsAtMostTwice(abi: Abi, typ: string, items: seq<Value>, levels: nat)
    ensures DepthOfItems(abi, typ, items, levels) <= 2 * levels
    decreases levels, 3, |items|
  {
    hide Depth;
    if items != [] {
      DepthAtMostTwice(abi, typ, items[0], levels);
      ItemsAtMostTwice(abi, typ, items[1..], levels);
    }
  }

  lemma {:induction false} ObjectAtMostTwice(abi: Abi, s: string, vo: map<string, Value>, levels: nat)
    requires levels > 0
    ensures DepthOfObject(abi, s, vo, levels) <= 2 * levels - 1
    decreases levels, 0, 0
  {
    hide Resolve, DepthOfFields;
    if s in abi.structs {
      var st := abi.structs[s];
      FieldsAtMostTwice(abi, st.fields, vo, levels - 1);
      if levels > 1 { ObjectAtMostTwice(abi, Resolve(abi.typedefs, st.base), vo, levels - 1); }
    }
  }

  lemma {:induction false} FieldsAtMostTwice(abi: Abi, fs: seq<Field>, vo: map<string, Value>, levels: nat)
    ensures DepthOfFields(abi, fs, vo, levels) <= 2 * levels
    decreases levels, 3, |fs|
  {
    hide Depth, WithoutExtension;
    if fs != [] {
      if fs[0].name in vo { DepthAtMostTwice(abi, WithoutExtension(fs[0].typ), vo[fs[0].name], levels); }
      FieldsAtMostTwice(abi, fs[1..], vo, levels);
    }
  }

  /** A whole value packed within some levels is unpacked within twice as many. */
  lemma WholeRoundTrip(abi: Abi, typ: string, v: Value, levels: nat, u: nat)
    requires AbiOk(abi) && Pack(abi, typ, v, true, levels).Ok? && Canonical(abi, typ, v, levels) && u >= 2 * levels
    ensures Unpack(abi, typ, Pack(abi, typ, v, true, levels).value, u) == Ok((v, []))
  {
    hide Pack, Unpack, Canonical, Depth, AbiOk;
    RoundTrip(abi, typ, v, true, levels, [], u);
    DepthAtMostTwice(abi, typ, v, levels);
    var b := Pack(abi, typ, v, true, levels).value;
    assert b + [] == b;
  }
}
