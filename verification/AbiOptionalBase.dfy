/** A struct named like an optional type as the base of another: packed as the one and unpacked as the other. */
module AbiOptionalBase {

  import opened Results
  import opened AbiTypes
  import opened AbiCodec
  import opened AbiFormat
  import opened Bytes

  /** A struct named like an optional type, as the base of another. */
  function OptionalBaseAbi(): Abi
  {
    Abi(map[],
        map["a" := Struct("", [Field("x", "t")]), "a?" := Struct("", [Field("x", "t")]), "s" := Struct("a?", [])],
        map[],
        ByteCodec())
  }

  lemma OptionalBaseNames()
    ensures !IsArray("a?") && IsOptional("a?") && Fundamental("a?") == "a" && IsExtension("t$")
    ensures forall t :: t in {"a", "s", "t"} ==> !IsArray(t) && !IsOptional(t) && !IsExtension(t) && Fundamental(t) == t
  {
    hide IsArray, IsOptional, IsExtension, Fundamental, WithoutExtension;
    assert "a?" == "a" + "?" && "t$" == "t" + "$";
    SuffixedNames("a");
    SuffixedNames("t");
    forall t | t in {"a", "s", "t"}
      ensures !IsArray(t) && !IsOptional(t) && !IsExtension(t) && Fundamental(t) == t
    {
      PlainName(t);
    }
  }

  lemma ByteCodecExact()
    ensures CodecExact(ByteCodec())
  {
    forall t, isArray, isOptional, s
      ensures BuiltinExact(ByteCodec(), t, isArray, isOptional, s)
    {
      if s != [] { assert s == [s[0]] + s[1..]; }
    }
  }

  lemma OptionalBaseIsFlat()
    ensures FlatOptionalBase(OptionalBaseAbi(), OptionalBaseAbi().structs["s"])
  {
    hide EndsWith;
    OptionalBaseNames();
    assert [Field("x", "t")][1..] == [];
  }

  lemma OptionalBasePacks(n: int, levels: nat)
    requires 0 <= n < 256 && levels >= 4
    ensures Pack(OptionalBaseAbi(), "s", Object(map["x" := Scalar(n)]), true, levels) == Ok([1, n])
  {
    hide EndsWith;
    OptionalBaseNames();
    var abi, vo := OptionalBaseAbi(), map["x" := Scalar(n)];
    var fs := [Field("x", "t")];
    var none: seq<Byte>, b: seq<Byte>, flag: seq<Byte> := [], [n], [1];
    assert fs[1..] == [] && b + none == b && none + b == b && flag + b == [1, n] && flag + b + none == [1, n];
    assert Pack(abi, "t", Scalar(n), false, levels - 3) == Ok(b);
    assert PackFields(abi, fs, vo, false, false, levels - 3) == Ok(b);
    assert PackStruct(abi, abi.structs["a"], Object(vo), false, levels - 3) == Ok(b);
    assert Pack(abi, "a", Object(vo), false, levels - 2) == Ok(b);
    assert Pack(abi, "a?", Object(vo), false, levels - 1) == Ok(flag + b);
    assert PackFields(abi, [], vo, true, false, levels - 1) == Ok(none);
    assert PackStruct(abi, abi.structs["s"], Object(vo), true, levels - 1) == Ok(flag + b + none);
    assert Resolve(abi.typedefs, "s") == "s" && "s" !in abi.variants;
    assert PackAs(abi, "s", Object(vo), true, levels) ==
      PackStruct(abi, abi.structs["s"], Object(vo), true, levels - 1);
  }

  lemma OptionalBaseUnpacks(n: Byte, u: nat)
    requires u >= 4
    ensures Unpack(OptionalBaseAbi(), "s", [1, n], u) == Ok((Object(map["x" := Scalar(1)]), [n]))
  {
    hide EndsWith;
    OptionalBaseNames();
    var abi, s := OptionalBaseAbi(), [1, n];
    var fs := [Field("x", "t")];
    assert fs[1..] == [] && s[1..] == [n];
    var obj := map["x" := Scalar(1)];
    assert Unpack(abi, "t", s, u - 3) == Ok((Scalar(1), [n]));
    assert UnpackFields(abi, fs, s, map[], false, u - 3) == Ok((obj, [n]));
    assert UnpackObject(abi, "a?", s, map[], u - 2) == Ok((obj, [n]));
    assert UnpackFields(abi, [], [n], obj, false, u - 2) == Ok((obj, [n]));
    assert UnpackObject(abi, "s", s, map[], u - 1) == Ok((obj, [n])) && "x" in obj;
  }

  lemma OptionalBaseIsCanonical(n: int, levels: nat)
    requires 0 <= n < 256 && levels >= 4
    ensures Canonical(OptionalBaseAbi(), "s", Object(map["x" := Scalar(n)]), levels)
  {
    hide EndsWith;
    OptionalBaseNames();
    var abi, vo := OptionalBaseAbi(), map["x" := Scalar(n)];
    var fs := [Field("x", "t")];
    assert fs[1..] == [] && Names(fs) == {"x"};
    assert Canonical(abi, "t", Scalar(n), levels - 2);
    assert CanonicalFields(abi, fs, vo, levels - 2);
    assert CanonicalChain(abi, "a?", vo, levels - 1);
    assert ChainNames(abi, "a?", levels - 1) == {"x"};
    assert ChainNames(abi, "s", levels) == {"x"} && "x" in vo;
    assert CanonicalChain(abi, "s", vo, levels);
  }

  lemma OptionalIsNoArray(t: string)
    requires IsOptional(t)
    ensures !IsArray(t)
  {
    assert t[|t| - 1] == t[|t| - 1..][0] == '?';
    assert |t| >= 2 ==> t[|t| - 2..][1] == t[|t| - 1];
  }

  /**
   Any base whose name resolves to that of an optional type packs an object as a presence flag and the type that the
   name is an optional of, where a struct of that very name would be unpacked.
   */
  lemma OptionalBaseIsFlagged(abi: Abi, st: Struct, vo: map<string, Value>, levels: nat)
    requires AllEnd(abi.typedefs) && st.base != ""
    requires var base := Resolve(abi.typedefs, st.base); IsOptional(base) && Fundamental(base) !in abi.codec.types
    ensures PackBase(abi, st, Object(vo), levels) ==
      if levels == 0 then Err(TooDeep)
      else Append(Ok([1]), Pack(abi, Fundamental(Resolve(abi.typedefs, st.base)), Object(vo), false, levels - 1))
    ensures forall s, obj, u ::
      UnpackBase(abi, st, s, obj, u) == UnpackObject(abi, Resolve(abi.typedefs, st.base), s, obj, u)
  {
    hide Resolve, Fundamental;
    ResolveTwice(abi, st.base);
    var base := Resolve(abi.typedefs, st.base);
    OptionalIsNoArray(base);
    hide IsArray, IsOptional;
    if levels > 0 {
      var inner := Pack(abi, Fundamental(base), Object(vo), false, levels - 1);
      assert PackAs(abi, base, Object(vo), false, levels) == Append(Ok([1]), inner);
    }
  }

  /** Unpacking a built-in type accepts nothing but what packing the value gives. */
  ghost predicate BuiltinExact(codec: Codec, t: string, isArray: bool, isOptional: bool, s: seq<Byte>)
  {
    var v := codec.unpack(t, isArray, isOptional, s);
    t in codec.types && v.Ok? ==>
      var p := codec.pack(t, isArray, isOptional, v.value.0);
      p.Ok? && s == p.value + v.value.1
  }

  ghost predicate CodecExact(codec: Codec)
  {
    forall t, isArray, isOptional, s :: BuiltinExact(codec, t, isArray, isOptional, s)
  }

  /** A struct without a base, of built-in fields with different names, none of them an extension. */
  predicate Flat(abi: Abi, fs: seq<Field>)
  {
    fs != [] ==>
      && !IsExtension(fs[0].typ) && Fundamental(Resolve(abi.typedefs, fs[0].typ)) in abi.codec.types
      && fs[0].name !in Names(fs[1..]) && Flat(abi, fs[1..])
  }

  /** What unpacks as the fields of a flat struct is what they pack to. */
  lemma {:induction false} FlatFieldsExact(abi: Abi, fs: seq<Field>, s: seq<Byte>, obj: map<string, Value>, u: nat,
                                           levels: nat)
    requires AllEnd(abi.typedefs) && CodecExact(abi.codec) && Flat(abi, fs) && levels > 0
    requires UnpackFields(abi, fs, s, obj, false, u).Ok?
    ensures var r := UnpackFields(abi, fs, s, obj, false, u).value;
      && Names(fs) <= r.0.Keys && (forall k | k in obj && k !in Names(fs) :: k in r.0 && r.0[k] == obj[k])
      && PackFields(abi, fs, r.0, false, false, levels).Ok?
      && s == PackFields(abi, fs, r.0, false, false, levels).value + r.1
    decreases |fs|
  {
    hide Resolve, Fundamental, IsArray, IsOptional, IsExtension;
    var r := UnpackFields(abi, fs, s, obj, false, u).value;
    if fs == [] {
      assert [] + s == s;
    } else {
      var f := fs[0];
      var t := Resolve(abi.typedefs, f.typ);
      ResolveTwice(abi, f.typ);
      var v := Unpack(abi, t, s, u).value;
      FlatFieldsExact(abi, fs[1..], v.1, obj[f.name := v.0], u, levels);
      FlatBuiltinExact(abi, f.typ, s, levels, u);
      hide Pack, Unpack;
      var p := Pack(abi, f.typ, v.0, false, levels).value;
      var q := PackFields(abi, fs[1..], r.0, false, false, levels).value;
      assert p + (q + r.1) == (p + q) + r.1;
    }
  }

  lemma FlatBuiltinExact(abi: Abi, typ: string, s: seq<Byte>, levels: nat, u: nat)
    requires AllEnd(abi.typedefs) && CodecExact(abi.codec) && levels > 0
    requires Fundamental(Resolve(abi.typedefs, typ)) in abi.codec.types
    requires Unpack(abi, Resolve(abi.typedefs, typ), s, u).Ok?
    ensures var v := Unpack(abi, Resolve(abi.typedefs, typ), s, u).value;
      var p := Pack(abi, typ, v.0, false, levels);
      p.Ok? && s == p.value + v.1
  {
    hide Resolve, Fundamental, IsArray, IsOptional;
    var t := Resolve(abi.typedefs, typ);
    ResolveTwice(abi, typ);
    assert BuiltinExact(abi.codec, Fundamental(t), IsArray(t), IsOptional(t), s);
  }

  /** Only the named fields matter to packing. */
  lemma {:induction false} PackFieldsFrame(abi: Abi, fs: seq<Field>, vo: map<string, Value>, vo': map<string, Value>,
                                           levels: nat)
    requires forall k | k in Names(fs) :: k in vo && k in vo' && vo[k] == vo'[k]
    ensures PackFields(abi, fs, vo, false, false, levels) == PackFields(abi, fs, vo', false, false, levels)
    decreases |fs|
  {
    hide Pack, WithoutExtension;
    if fs != [] { PackFieldsFrame(abi, fs[1..], vo, vo', levels); }
  }

  lemma {:induction false} FlatFieldsRoundTrip(abi: Abi, fs: seq<Field>, vo: map<string, Value>, levels: nat,
                                               rest: seq<Byte>, obj: map<string, Value>, u: nat)
    requires AllEnd(abi.typedefs) && CodecOk(abi.codec) && Flat(abi, fs) && CanonicalFields(abi, fs, vo, 1) && u > 0
    requires PackFields(abi, fs, vo, false, false, levels).Ok?
    ensures UnpackFields(abi, fs, PackFields(abi, fs, vo, false, false, levels).value + rest, obj, false, u) ==
      Ok((obj + Present(fs, vo), rest))
    decreases |fs|
  {
    hide Resolve, Fundamental, IsArray, IsOptional, IsExtension, CodecOk;
    if fs == [] {
      assert [] + rest == rest && obj + Present(fs, vo) == obj;
    } else {
      var f, t := fs[0], Resolve(abi.typedefs, fs[0].typ);
      ResolveTwice(abi, f.typ);
      var q := PackFields(abi, fs[1..], vo, false, false, levels).value;
      FlatBuiltin(abi, f.typ, vo[f.name], levels, q + rest, u);
      hide Pack, Unpack, Canonical;
      var p := Pack(abi, f.typ, vo[f.name], false, levels).value;
      FlatFieldsRoundTrip(abi, fs[1..], vo, levels, rest, obj[f.name := vo[f.name]], u);
      PresentStep(fs, vo, obj);
      assert (p + q) + rest == p + (q + rest);
    }
  }

  lemma FlatBuiltin(abi: Abi, typ: string, v: Value, levels: nat, rest: seq<Byte>, u: nat)
    requires AllEnd(abi.typedefs) && CodecOk(abi.codec) && Canonical(abi, typ, v, 1) && u > 0
    requires Fundamental(Resolve(abi.typedefs, typ)) in abi.codec.types && Pack(abi, typ, v, false, levels).Ok?
    ensures var p := Pack(abi, typ, v, false, levels).value;
      |p| >= 1 && Unpack(abi, Resolve(abi.typedefs, typ), p + rest, u) == Ok((v, rest))
  {
    hide Resolve, Fundamental, IsArray, IsOptional;
    var t := Resolve(abi.typedefs, typ);
    ResolveTwice(abi, typ);
    assert BuiltinOk(abi.codec, Fundamental(t), IsArray(t), IsOptional(t), v, rest);
  }

  /** The base of `st` is a flat struct named like an optional type. */
  predicate FlatOptionalBase(abi: Abi, st: Struct)
  {
    var base := Resolve(abi.typedefs, st.base);
    && st.base != "" && IsOptional(base) && Fundamental(base) !in abi.codec.types
    && base in abi.structs && abi.structs[base].base == "" && Flat(abi, abi.structs[base].fields)
  }

  /**
   A value behind a base named like an optional type comes back if and only if the struct of that name packs to the very
   bytes that the optional type does; for a flat struct, and a codec that accepts nothing but what it packs.
   */
  lemma OptionalBaseComesBackExactly(abi: Abi, st: Struct, vo: map<string, Value>, levels: nat, rest: seq<Byte>, u: nat)
    requires AllEnd(abi.typedefs) && CodecOk(abi.codec) && CodecExact(abi.codec) && FlatOptionalBase(abi, st)
    requires CanonicalFields(abi, abi.structs[Resolve(abi.typedefs, st.base)].fields, vo, 1)
    requires levels > 0 && PackBase(abi, st, Object(vo), levels).Ok? && u >= 2
    ensures var base, b := abi.structs[Resolve(abi.typedefs, st.base)], PackBase(abi, st, Object(vo), levels);
      UnpackBase(abi, st, b.value + rest, map[], u) == Ok((Present(base.fields, vo), rest)) <==>
        PackStruct(abi, base, Object(vo), false, levels - 1) == b
  {
    hide Resolve, Fundamental, IsArray, IsOptional, CodecOk, CodecExact, Flat, CanonicalFields, Present, PackFields;
    OptionalBaseIsFlagged(abi, st, vo, levels);
    assert levels > 1;
    hide Pack;
    var base, b := abi.structs[Resolve(abi.typedefs, st.base)], PackBase(abi, st, Object(vo), levels).value;
    var p := PackFields(abi, base.fields, vo, false, false, levels - 1);
    FlatAsStruct(abi, st, vo, levels, b + rest, u);
    assert map[] + Present(base.fields, vo) == Present(base.fields, vo);
    hide UnpackBase, UnpackFields, PackStruct, PackBase;
    if p == Ok(b) {
      FlatFieldsRoundTrip(abi, base.fields, vo, levels - 1, rest, map[], u - 1);
    } else if UnpackFields(abi, base.fields, b + rest, map[], false, u - 1) == Ok((Present(base.fields, vo), rest)) {
      FlatFieldsExact(abi, base.fields, b + rest, map[], u - 1, levels - 1);
      PresentIsFrame(abi, base.fields, vo, levels - 1);
      SamePrefix(b, p.value, rest);
    }
  }

  lemma FlatAsStruct(abi: Abi, st: Struct, vo: map<string, Value>, levels: nat, s: seq<Byte>, u: nat)
    requires FlatOptionalBase(abi, st) && levels > 0 && u >= 2
    ensures var base := abi.structs[Resolve(abi.typedefs, st.base)];
      && UnpackBase(abi, st, s, map[], u) == UnpackFields(abi, base.fields, s, map[], false, u - 1)
      && PackStruct(abi, base, Object(vo), false, levels - 1) ==
           PackFields(abi, base.fields, vo, false, false, levels - 1)
  {
    hide Resolve, Fundamental, IsOptional, Flat, UnpackFields, PackFields;
    var base := abi.structs[Resolve(abi.typedefs, st.base)];
    var p := PackFields(abi, base.fields, vo, false, false, levels - 1);
    assert p.Ok? ==> [] + p.value == p.value;
    assert UnpackObject(abi, Resolve(abi.typedefs, st.base), s, map[], u) ==
      UnpackFields(abi, base.fields, s, map[], false, u - 1);
  }

  lemma PresentIsFrame(abi: Abi, fs: seq<Field>, vo: map<string, Value>, levels: nat)
    requires Names(fs) <= Present(fs, vo).Keys
    ensures PackFields(abi, fs, Present(fs, vo), false, false, levels) == PackFields(abi, fs, vo, false, false, levels)
  {
    hide PackFields;
    PackFieldsFrame(abi, fs, Present(fs, vo), vo, levels);
  }

  lemma SamePrefix(a: seq<Byte>, b: seq<Byte>, rest: seq<Byte>)
    requires a + rest == b + rest
    ensures a == b
  {
    assert |a| == |b|;
    assert a == (a + rest)[..|a|] && b == (b + rest)[..|b|];
  }

  /**
   A base named like an optional type is packed behind a presence flag and unpacked without it: every value but one
   comes back changed, and a byte too many stays in the stream.
   */
  lemma OptionalBaseLosesValue(n: Byte, levels: nat, u: nat)
    requires levels >= 4 && u >= 4
    ensures var abi, v := OptionalBaseAbi(), Object(map["x" := Scalar(n)]);
      && AllEnd(abi.typedefs) && CodecOk(abi.codec) && Canonical(abi, "s", v, levels)
      && CodecExact(abi.codec) && FlatOptionalBase(abi, abi.structs["s"])
      && Pack(abi, "s", v, true, levels) == Ok([1, n])
      && Unpack(abi, "s", [1, n], u) == Ok((Object(map["x" := Scalar(1)]), [n]))
  {
    hide Pack, Unpack, Canonical, CodecOk, CodecExact, FlatOptionalBase;
    ByteCodecOk();
    ByteCodecExact();
    OptionalBaseIsFlat();
    OptionalBasePacks(n, levels);
    OptionalBaseUnpacks(n, u);
    OptionalBaseIsCanonical(n, levels);
  }
}
