/** Structs nested in structs: what packing and unpacking need for them, exactly. */
module AbiNesting {

  import opened Results
  import opened AbiTypes
  import opened AbiCodec
  import opened Bytes

  /** The source's limit on the depth of recursion: the depth reached stays below it. */
  const MAX_RECURSION_DEPTH: nat := 32

  /** A built-in type, and a struct of a field of it and an extension that is the struct again. */
  ghost predicate PlainType(codec: Codec, t: string)
  {
    && t in codec.types && "s" !in codec.types
    && !IsArray(t) && !IsOptional(t) && !IsExtension(t)
  }

  function NestAbi(codec: Codec, t: string): Abi
  {
    Abi(map[], map["s" := Struct("", [Field("x", t), Field("y", "s$")])], map[], codec)
  }

  /** `n + 1` structs, one inside the other. */
  function Nest(v: Value, n: nat): (r: Value)
    ensures r.Object? && "x" in r.fields && r.fields["x"] == v && r.fields.Keys <= {"x", "y"}
    ensures "y" in r.fields <==> n > 0
  {
    if n == 0 then Object(map["x" := v]) else Object(map["x" := v, "y" := Nest(v, n - 1)])
  }

  lemma NestNames()
    ensures !IsArray("s") && !IsOptional("s") && Fundamental("s") == "s"
    ensures IsExtension("s$") && WithoutExtension("s$") == "s"
  {
    PlainName("s");
    assert "s$" == "s" + "$";
    SuffixedNames("s");
  }

  /** The fields of the struct, packed: first the built-in one, then the inner struct, if there is one. */
  lemma NestFields(codec: Codec, t: string, v: Value, n: nat, levels: nat)
    requires PlainType(codec, t) && codec.pack(t, false, false, v).Ok?
    ensures var abi, vo := NestAbi(codec, t), Nest(v, n).fields;
      PackFields(abi, abi.structs["s"].fields, vo, true, false, levels) ==
        Append(if levels == 0 then Err(TooDeep) else codec.pack(t, false, false, v),
               if n == 0 then Ok([]) else Append(Pack(abi, "s", Nest(v, n - 1), true, levels), Ok([])))
  {
    hide EndsWith;
    NestNames();
    var abi, vo := NestAbi(codec, t), Nest(v, n).fields;
    var fs := abi.structs["s"].fields;
    assert fs[1..] == [Field("y", "s$")] && fs[1..][1..] == [];
    assert Pack(abi, t, v, false, levels) == if levels == 0 then Err(TooDeep) else codec.pack(t, false, false, v);
    hide Pack;
    assert PackFields(abi, fs[1..][1..], vo, true, true, levels) == Ok([]);
    assert PackFields(abi, fs[1..][1..], vo, true, false, levels) == Ok([]);
  }

  lemma NestAsStruct(codec: Codec, t: string, vo: map<string, Value>, levels: nat)
    requires PlainType(codec, t) && levels > 0
    ensures var abi := NestAbi(codec, t);
      && Pack(abi, "s", Object(vo), true, levels) ==
        Append(Ok([]), PackFields(abi, abi.structs["s"].fields, vo, true, false, levels - 1))
      && Depth(abi, "s", Object(vo), levels) == 2 + DepthOfFields(abi, abi.structs["s"].fields, vo, levels - 1)
      && (Canonical(abi, "s", Object(vo), levels) <==>
            vo.Keys != {} && vo.Keys <= {"x", "y"} && CanonicalFields(abi, abi.structs["s"].fields, vo, levels - 1))
  {
    hide EndsWith, PackFields, DepthOfFields, CanonicalFields;
    NestNames();
    var abi := NestAbi(codec, t);
    var fs := abi.structs["s"].fields;
    assert fs[1..] == [Field("y", "s$")] && fs[1..][1..] == [];
    assert Names(fs[1..][1..]) == {} && Names(fs[1..]) == {"y"} && Names(fs) == {"x", "y"};
    assert ChainNames(abi, "s", levels) == {"x", "y"};
    assert CanonicalChain(abi, "s", vo, levels) <==> CanonicalFields(abi, fs, vo, levels - 1);
    assert DepthOfObject(abi, "s", vo, levels) == 1 + DepthOfFields(abi, fs, vo, levels - 1);
    assert PackStruct(abi, abi.structs["s"], Object(vo), true, levels - 1) ==
      Append(Ok([]), PackFields(abi, fs, vo, true, false, levels - 1));
  }

  /** `n + 1` nested structs pack in exactly `n + 2` levels. */
  lemma {:induction false} NestPacks(codec: Codec, t: string, v: Value, n: nat, levels: nat)
    requires PlainType(codec, t) && codec.pack(t, false, false, v).Ok?
    ensures var p := Pack(NestAbi(codec, t), "s", Nest(v, n), true, levels);
      if n + 2 <= levels then p.Ok? else p == Err(TooDeep)
    decreases n
  {
    if levels > 0 {
      hide Pack, PackFields, PlainType, Nest;
      NestFields(codec, t, v, n, levels - 1);
      NestAsStruct(codec, t, Nest(v, n).fields, levels);
      if n > 0 { NestPacks(codec, t, v, n - 1, levels - 1); }
    }
  }

  /** Unpacking them goes exactly `2 n + 3` levels deep. */
  lemma {:induction false} NestDepth(codec: Codec, t: string, v: Value, n: nat, levels: nat)
    requires PlainType(codec, t) && n + 2 <= levels
    ensures Depth(NestAbi(codec, t), "s", Nest(v, n), levels) == 2 * n + 3
    decreases n
  {
    hide EndsWith;
    NestNames();
    var abi, vo := NestAbi(codec, t), Nest(v, n).fields;
    var fs := abi.structs["s"].fields;
    assert fs[1..] == [Field("y", "s$")] && fs[1..][1..] == [];
    NestAsStruct(codec, t, vo, levels);
    if n > 0 { NestDepth(codec, t, v, n - 1, levels - 1); }
    assert Depth(abi, t, v, levels - 1) == 1;
    hide Depth;
    assert DepthOfFields(abi, fs[1..][1..], vo, levels - 1) == 0;
    assert DepthOfFields(abi, fs[1..], vo, levels - 1) == if n == 0 then 0 else 2 * n + 1;
  }

  lemma {:induction false} NestIsCanonical(codec: Codec, t: string, v: Value, n: nat, levels: nat)
    requires PlainType(codec, t) && codec.canonical(t, false, false, v)
    ensures Canonical(NestAbi(codec, t), "s", Nest(v, n), levels)
    decreases n
  {
    hide EndsWith;
    NestNames();
    if levels > 0 {
      var abi, vo := NestAbi(codec, t), Nest(v, n).fields;
      var fs := abi.structs["s"].fields;
      assert fs[1..] == [Field("y", "s$")] && fs[1..][1..] == [];
      NestAsStruct(codec, t, vo, levels);
      if n > 0 { NestIsCanonical(codec, t, v, n - 1, levels - 1); }
      assert Canonical(abi, t, v, levels - 1);
      hide Canonical;
      assert CanonicalFields(abi, fs[1..][1..], vo, levels - 1);
      assert CanonicalFields(abi, fs[1..], vo, levels - 1);
    }
  }

  lemma NestAbiOk(codec: Codec, t: string)
    requires CodecOk(codec)
    ensures AbiOk(NestAbi(codec, t))
  {
  }

  /**
   One limit for both is not enough: `n + 1` nested structs pack within `n + 2` levels and no fewer, and unpack within
   `2 n + 3` and no fewer, for every `n` and every built-in type.
   */
  lemma NestedStructs(codec: Codec, t: string, v: Value, n: nat, levels: nat, u: nat)
    requires CodecOk(codec) && PlainType(codec, t)
    requires codec.canonical(t, false, false, v) && codec.pack(t, false, false, v).Ok?
    ensures var p := Pack(NestAbi(codec, t), "s", Nest(v, n), true, levels);
      if n + 2 <= levels
      then
        && p.Ok?
        && Unpack(NestAbi(codec, t), "s", p.value, u) == if 2 * n + 3 <= u then Ok((Nest(v, n), [])) else Err(TooDeep)
      else p == Err(TooDeep)
  {
    hide Pack, Unpack, Depth, Canonical, AbiOk, NestAbi, Nest, CodecOk;
    NestPacks(codec, t, v, n, levels);
    if n + 2 <= levels {
      var abi := NestAbi(codec, t);
      NestAbiOk(codec, t);
      NestIsCanonical(codec, t, v, n, levels);
      NestDepth(codec, t, v, n, levels);
      RoundTrip(abi, "s", Nest(v, n), true, levels, [], u);
      var b := Pack(abi, "s", Nest(v, n), true, levels).value;
      assert b + [] == b;
    }
  }

  /** At the source's limit sixteen to thirty nested structs pack and do not unpack. */
  lemma SameLimitCanFail(codec: Codec, t: string, v: Value, structs: nat)
    requires CodecOk(codec) && PlainType(codec, t) && 16 <= structs <= 30
    requires codec.canonical(t, false, false, v) && codec.pack(t, false, false, v).Ok?
    ensures var abi, value, levels := NestAbi(codec, t), Nest(v, structs - 1), MAX_RECURSION_DEPTH - 1;
      var p := Pack(abi, "s", value, true, levels);
      p.Ok? && Unpack(abi, "s", p.value, levels) == Err(TooDeep)
  {
    hide Pack, Unpack, NestAbi, Nest, CodecOk;
    NestedStructs(codec, t, v, structs - 1, MAX_RECURSION_DEPTH - 1, MAX_RECURSION_DEPTH - 1);
  }
}
