/** The layout of packed values, and where extensions may be left out, shown on small ABIs. */
module AbiFormat {

  import opened Results
  import opened AbiTypes
  import opened AbiCodec
  import opened Bytes

  /** One byte for a small number. */
  function ByteCodec(): Codec
  {
    Codec({"t"},
          (t, isArray, isOptional, v: Value) => v.Scalar? && 0 <= v.n < 256,
          (t, isArray, isOptional, v: Value) => if v.Scalar? && 0 <= v.n < 256 then Ok([v.n]) else Err(BuiltinFailed),
          (t, isArray, isOptional, s: seq<Byte>) => if s == [] then Err(StreamEnded) else Ok((Scalar(s[0]), s[1..])))
  }

  lemma ByteCodecOk()
    ensures CodecOk(ByteCodec())
  {
    forall t, isArray, isOptional, v, rest
      ensures BuiltinOk(ByteCodec(), t, isArray, isOptional, v, rest)
    {
      if v.Scalar? && 0 <= v.n < 256 { assert ([v.n] + rest)[1..] == rest; }
    }
  }

  /** A struct with a base and an array, two optionals and a variant of structs. */
  function FormatAbi(): Abi
  {
    Abi(map[],
        map["b" := Struct("", [Field("x", "t")]),
            "s" := Struct("b", [Field("y", "b[]"), Field("z", "b?"), Field("n", "b?"), Field("w", "v")])],
        map["v" := ["t", "b"]],
        ByteCodec())
  }

  function Inner(n: int): Value
  {
    Object(map["x" := Scalar(n)])
  }

  function FormatFields(): map<string, Value>
  {
    map["x" := Scalar(7), "y" := Array([Inner(1), Inner(2)]), "z" := Inner(3), "n" := Null,
        "w" := Array([Str("b"), Inner(4)])]
  }

  lemma FormatNames()
    ensures IsArray("b[]") && Fundamental("b[]") == "b"
    ensures !IsArray("b?") && IsOptional("b?") && Fundamental("b?") == "b"
    ensures forall t :: t in {"b", "s", "t", "v"} ==>
      !IsArray(t) && !IsOptional(t) && !IsExtension(t) && Fundamental(t) == t
    ensures forall t :: t in {"b[]", "b?"} ==> !IsExtension(t)
  {
    hide IsArray, IsOptional, IsExtension, Fundamental, WithoutExtension;
    assert "b[]" == "b" + "[]" && "b?" == "b" + "?";
    SuffixedNames("b");
    forall t | t in {"b", "s", "t", "v"}
      ensures !IsArray(t) && !IsOptional(t) && !IsExtension(t) && Fundamental(t) == t
    {
      PlainName(t);
    }
  }

  lemma InnerPacks(n: int, allow: bool, levels: nat)
    requires 0 <= n < 256 && levels >= 2
    ensures Pack(FormatAbi(), "b", Inner(n), allow, levels) == Ok([n])
  {
    hide EndsWith;
    FormatNames();
    var abi, fs := FormatAbi(), [Field("x", "t")];
    assert fs[1..] == [];
    assert Resolve(abi.typedefs, "b") == "b" && FieldsOf(abi, "b") == fs;
    StructForms(abi, "b", [], Inner(n).fields, allow, levels);
    var b: seq<Byte> := [n];
    assert b + [] == b;
    assert Pack(abi, "t", Scalar(n), allow, levels - 1) == Ok(b);
    assert Pack(abi, "t", Scalar(n), false, levels - 1) == Ok(b);
    assert PackFields(abi, fs[1..], Inner(n).fields, allow, false, levels - 1) == Ok([]);
  }

  lemma FormatBase(levels: nat)
    requires levels >= 2
    ensures Pack(FormatAbi(), "b", Object(FormatFields()), false, levels) == Ok([7])
  {
    hide EndsWith;
    FormatNames();
    var abi, fs := FormatAbi(), [Field("x", "t")];
    assert fs[1..] == [];
    assert Resolve(abi.typedefs, "b") == "b" && FieldsOf(abi, "b") == fs;
    StructForms(abi, "b", [], FormatFields(), false, levels);
    var b: seq<Byte> := [7];
    assert b + [] == b;
    assert Pack(abi, "t", Scalar(7), false, levels - 1) == Ok(b);
    assert PackFields(abi, fs[1..], FormatFields(), false, false, levels - 1) == Ok([]);
  }

  lemma FormatArray(levels: nat)
    requires levels >= 3
    ensures Pack(FormatAbi(), "b[]", Array([Inner(1), Inner(2)]), false, levels) == Ok([2, 1, 2])
  {
    hide EndsWith;
    FormatNames();
    var abi, items := FormatAbi(), [Inner(1), Inner(2)];
    InnerPacks(1, false, levels - 1);
    InnerPacks(2, false, levels - 1);
    var one: seq<Byte>, two: seq<Byte>, none: seq<Byte> := [1], [2], [];
    assert items[1..] == [Inner(2)] && items[1..][1..] == [];
    assert two + none == two && one + two == [1, 2] && two + [1, 2] == [2, 1, 2];
    hide Inner;
    assert PackAll(abi, "b", items[1..][1..], levels - 1) == Ok(none);
    assert PackAll(abi, "b", items[1..], levels - 1) == Ok(two);
    assert PackAll(abi, "b", items, levels - 1) == Ok([1, 2]);
    assert Resolve(abi.typedefs, "b[]") == "b[]" && PackUint(2) == [2];
  }

  lemma FormatOthers(levels: nat)
    requires levels >= 3
    ensures Pack(FormatAbi(), "b?", Inner(3), false, levels) == Ok([1, 3])
    ensures Pack(FormatAbi(), "b?", Null, false, levels) == Ok([0])
    ensures Pack(FormatAbi(), "v", Array([Str("b"), Inner(4)]), false, levels) == Ok([1, 4])
  {
    hide EndsWith;
    FormatNames();
    var abi := FormatAbi();
    InnerPacks(3, false, levels - 1);
    InnerPacks(4, false, levels - 1);
    var flag: seq<Byte> := [1];
    assert flag + [3] == [1, 3] && flag + [4] == [1, 4];
    assert Resolve(abi.typedefs, "b?") == "b?" && Resolve(abi.typedefs, "v") == "v";
    var types := abi.variants["v"];
    assert types[0] == "t" && types[1] == "b" && "b" in types && "t" != "b";
    assert IndexOf(types, "b") == 1 && PackUint(1) == [1];
  }

  lemma FormatFieldsJoin(levels: nat)
    requires levels >= 3
    ensures PackFields(FormatAbi(), FormatAbi().structs["s"].fields, FormatFields(), false, false, levels) ==
      Ok([2, 1, 2, 1, 3, 0, 1, 4])
  {
    hide EndsWith;
    FormatNames();
    FormatArray(levels);
    FormatOthers(levels);
    hide Pack, Inner;
    var abi, vo := FormatAbi(), FormatFields();
    var fs := abi.structs["s"].fields;
    var fs1, fs2, fs3, fs4 := fs[1..], fs[1..][1..], fs[1..][1..][1..], fs[1..][1..][1..][1..];
    assert fs4 == [];
    var none: seq<Byte>, w: seq<Byte>, n: seq<Byte>, z: seq<Byte>, y: seq<Byte> := [], [1, 4], [0], [1, 3], [2, 1, 2];
    assert w + none == w && n + w == [0, 1, 4] && z + [0, 1, 4] == [1, 3, 0, 1, 4];
    assert y + [1, 3, 0, 1, 4] == [2, 1, 2, 1, 3, 0, 1, 4];
    assert PackFields(abi, fs4, vo, false, false, levels) == Ok(none);
    assert PackFields(abi, fs3, vo, false, false, levels) == Ok(w);
    assert PackFields(abi, fs2, vo, false, false, levels) == Ok([0, 1, 4]);
    assert PackFields(abi, fs1, vo, false, false, levels) == Ok([1, 3, 0, 1, 4]);
  }

  /**
   Its layout: the base comes before the fields, a size before the elements, a flag before an optional value, an index
   before the value of a variant.
   */
  lemma FormatBytes(levels: nat)
    requires levels >= 4
    ensures Pack(FormatAbi(), "s", Object(FormatFields()), false, levels) == Ok([7, 2, 1, 2, 1, 3, 0, 1, 4])
  {
    hide EndsWith;
    FormatNames();
    FormatBase(levels - 1);
    FormatFieldsJoin(levels - 1);
    var abi, vo := FormatAbi(), FormatFields();
    var base: seq<Byte> := [7];
    assert base + [2, 1, 2, 1, 3, 0, 1, 4] == [7, 2, 1, 2, 1, 3, 0, 1, 4];
    assert Resolve(abi.typedefs, "s") == "s" && Resolve(abi.typedefs, "b") == "b";
    assert Pack(abi, "s", Object(vo), false, levels) == PackAs(abi, "s", Object(vo), false, levels);
    assert "s" !in abi.variants;
    assert PackAs(abi, "s", Object(vo), false, levels) ==
      PackStruct(abi, abi.structs["s"], Object(vo), false, levels - 1);
    hide Pack, PackFields;
    assert PackBase(abi, abi.structs["s"], Object(vo), levels - 1) == Ok(base);
  }

  /** A struct of one extension, and types that hold it in each of the ways there are. */
  function TailAbi(): Abi
  {
    Abi(map[],
        map["e" := Struct("", [Field("x", "t$")]),
            "l" := Struct("", [Field("p", "t"), Field("q", "e")]),
            "f" := Struct("", [Field("q", "e"), Field("p", "t")]),
            "d" := Struct("e", [])],
        map["v" := ["e"]],
        ByteCodec())
  }

  lemma TailNames()
    ensures IsArray("e[]") && Fundamental("e[]") == "e"
    ensures !IsArray("e?") && IsOptional("e?") && Fundamental("e?") == "e"
    ensures IsExtension("t$") && WithoutExtension("t$") == "t"
    ensures forall t :: t in {"d", "e", "f", "l", "t", "v"} ==>
      !IsArray(t) && !IsOptional(t) && !IsExtension(t) && Fundamental(t) == t
  {
    hide IsArray, IsOptional, IsExtension, Fundamental, WithoutExtension;
    assert "e[]" == "e" + "[]" && "e?" == "e" + "?" && "t$" == "t" + "$";
    SuffixedNames("e");
    SuffixedNames("t");
    forall t | t in {"d", "e", "f", "l", "t", "v"}
      ensures !IsArray(t) && !IsOptional(t) && !IsExtension(t) && Fundamental(t) == t
    {
      PlainName(t);
    }
  }

  lemma TailAlone(allow: bool, levels: nat)
    requires levels >= 1
    ensures Pack(TailAbi(), "e", Object(map[]), allow, levels) == if allow then Ok([]) else Err(MissingField)
  {
    hide EndsWith;
    TailNames();
    var abi, fs := TailAbi(), [Field("x", "t$")];
    assert fs[1..] == [];
    assert Resolve(abi.typedefs, "e") == "e" && FieldsOf(abi, "e") == fs;
    StructForms(abi, "e", [], map[], allow, levels);
  }

  /** The extension may be left out inside an optional, a variant and the last field; not inside an array or a base. */
  lemma TailMayBeLeftOut(levels: nat)
    requires levels >= 2
    ensures Pack(TailAbi(), "e?", Object(map[]), true, levels) == Ok([1])
    ensures Pack(TailAbi(), "v", Array([Str("e"), Object(map[])]), true, levels) == Ok([0])
    ensures Pack(TailAbi(), "e[]", Array([Object(map[])]), true, levels) == Err(MissingField)
    ensures Pack(TailAbi(), "d", Object(map[]), true, levels) == Err(MissingField)
  {
    hide EndsWith;
    TailNames();
    TailAlone(true, levels - 1);
    TailAlone(false, levels - 1);
    var abi, types, items := TailAbi(), ["e"], [Object(map[])];
    var flag: seq<Byte>, none: seq<Byte> := [1], [];
    assert flag + none == flag && PackUint(0) + none == [0];
    assert Resolve(abi.typedefs, "e?") == "e?" && Resolve(abi.typedefs, "v") == "v";
    assert Resolve(abi.typedefs, "d") == "d";
    assert Resolve(abi.typedefs, "e[]") == "e[]" && Resolve(abi.typedefs, "e") == "e";
    assert types[0] == "e" && IndexOf(types, "e") == 0;
    assert PackAll(abi, "e", items, levels - 1) == Err(MissingField);
    assert PackBase(abi, abi.structs["d"], Object(map[]), levels - 1) == Err(MissingField);
    assert PackStruct(abi, abi.structs["d"], Object(map[]), true, levels - 1) == Err(MissingField);
  }

  lemma LastFieldMayLeaveOut(n: Byte, levels: nat)
    requires levels >= 2
    ensures var vo := Object(map["p" := Scalar(n), "q" := Object(map[])]);
      && Pack(TailAbi(), "l", vo, true, levels) == Ok([n])
      && Pack(TailAbi(), "f", vo, true, levels) == Err(MissingField)
  {
    hide EndsWith;
    TailNames();
    TailAlone(true, levels - 1);
    TailAlone(false, levels - 1);
    var abi, vo := TailAbi(), map["p" := Scalar(n), "q" := Object(map[])];
    var p, q := Field("p", "t"), Field("q", "e");
    var b: seq<Byte>, none: seq<Byte> := [n], [];
    assert [p, q][1..] == [q] && [q][1..] == [] && b + none == b && none + none == none;
    assert Resolve(abi.typedefs, "l") == "l" && FieldsOf(abi, "l") == [p, q];
    assert Resolve(abi.typedefs, "f") == "f" && FieldsOf(abi, "f") == [q, p];
    StructForms(abi, "l", [], vo, true, levels);
    StructForms(abi, "f", [], vo, true, levels);
    assert Pack(abi, "t", Scalar(n), false, levels - 1) == Ok(b);
    hide Pack;
    assert PackFields(abi, [q][1..], vo, true, false, levels - 1) == Ok(none);
    assert PackFields(abi, [q], vo, true, false, levels - 1) == Ok(none);
    assert PackFields(abi, [p, q], vo, true, false, levels - 1) == Ok(b);
    assert PackFields(abi, [q, p], vo, true, false, levels - 1) == Err(MissingField);
  }

  /** A struct whose first field is an extension and whose second is not. */
  function EarlyExtensionAbi(): Abi
  {
    Abi(map[], map["s" := Struct("", [Field("x", "t$"), Field("y", "t")])], map[], ByteCodec())
  }

  /** An empty array packs by it, to nothing; the object without fields does not, and nothing does not unpack. */
  lemma EmptyArrayPacks(levels: nat)
    requires levels >= 3
    ensures var abi := EarlyExtensionAbi();
      && Pack(abi, "s", Array([]), true, levels) == Ok([])
      && Pack(abi, "s", Object(map[]), true, levels) == Err(NotAnExtension)
      && Unpack(abi, "s", [], levels) == Err(NotAnExtension)
  {
    hide EndsWith;
    TailNames();
    PlainName("s");
    var abi, fs := EarlyExtensionAbi(), [Field("x", "t$"), Field("y", "t")];
    assert fs[1..] == [Field("y", "t")];
    assert Resolve(abi.typedefs, "s") == "s" && FieldsOf(abi, "s") == fs;
    StructForms(abi, "s", [], map[], true, levels);
    assert PackFields(abi, fs[1..], map[], true, true, levels - 1) == Err(NotAnExtension);
    assert UnpackFields(abi, fs[1..], [], map[], true, levels - 2) == Err(NotAnExtension);
    assert UnpackFields(abi, fs, [], map[], false, levels - 2) == Err(NotAnExtension);
    assert UnpackObject(abi, "s", [], map[], levels - 1) == Err(NotAnExtension);
  }
}
