/**
 What unpacking can produce: any bytes that unpack give a canonical value, one that comes back when it is packed again.
 */
module AbiValues {

  import opened Results
  import opened AbiTypes
  import opened AbiCodec
  import opened Bytes

  predicate BuiltinValueOk(codec: Codec, t: string, isArray: bool, isOptional: bool, s: seq<Byte>)
  {
    var r := codec.unpack(t, isArray, isOptional, s);
    t in codec.types && r.Ok? ==> codec.canonical(t, isArray, isOptional, r.value.0)
  }

  /** The names of the fields a struct has from its bases. */
  function BaseNames(abi: Abi, st: Struct, levels: nat): set<string>
  {
    if st.base == "" then {} else ChainNames(abi, Resolve(abi.typedefs, st.base), levels)
  }

  /** No struct has two fields of the same name, its bases' included. */
  ghost predicate OwnNames(abi: Abi, st: Struct)
  {
    DistinctNames(st.fields) && forall n: nat :: Names(st.fields) !! BaseNames(abi, st, n)
  }

  ghost predicate ValuesOk(abi: Abi)
  {
    && AllEnd(abi.typedefs)
    && (forall t, isArray, isOptional, s :: BuiltinValueOk(abi.codec, t, isArray, isOptional, s))
    && (forall r :: r in abi.variants ==> |abi.variants[r]| <= TWO32)
    && forall s :: s in abi.structs ==> OwnNames(abi, abi.structs[s])
  }

  /** Whatever unpacks is canonical. */
  lemma {:induction false} UnpackedIsCanonical(abi: Abi, typ: string, s: seq<Byte>, u: nat, levels: nat)
    requires ValuesOk(abi) && u <= levels
    ensures var r := Unpack(abi, typ, s, u);
      r.Ok? ==> Canonical(abi, typ, r.value.0, levels)
    decreases u, 1, 0
  {
    hide ValuesOk, Resolve, UnpackAs, CanonicalAs;
    if u > 0 { UnpackedAsIsCanonical(abi, Resolve(abi.typedefs, typ), s, u, levels); }
  }

  lemma {:induction false} UnpackedAsIsCanonical(abi: Abi, r: string, s: seq<Byte>, u: nat, levels: nat)
    requires ValuesOk(abi) && 0 < u <= levels
    ensures var v := UnpackAs(abi, r, s, u);
      v.Ok? ==> CanonicalAs(abi, r, v.value.0, levels)
    decreases u, 0, 1
  {
    if Fundamental(r) in abi.codec.types {
      hide Unpack, UnpackAll, UnpackObject, UnpackUint, Canonical, CanonicalItems, CanonicalChain, ChainNames;
      hide IsArray, IsOptional, Fundamental, AllEnd, OwnNames;
      assert BuiltinValueOk(abi.codec, Fundamental(r), IsArray(r), IsOptional(r), s);
    } else if IsArray(r) {
      hide ValuesOk, IsArray, IsOptional, Fundamental, CanonicalItems, UnpackAll, UnpackUint;
      var size := UnpackUint(s);
      if size.Ok? { ItemsAreCanonical(abi, Fundamental(r), size.value.0, size.value.1, u - 1, levels - 1); }
    } else if IsOptional(r) {
      hide ValuesOk, IsArray, IsOptional, Fundamental, Canonical, Unpack;
      if s != [] { UnpackedIsCanonical(abi, Fundamental(r), s[1..], u - 1, levels - 1); }
    } else if r in abi.variants {
      VariantIsCanonical(abi, r, s, u, levels);
    } else {
      hide ValuesOk, IsArray, IsOptional, Fundamental, CanonicalChain, ChainNames, UnpackObject;
      NoneInEmpty(abi, r);
      ObjectIsCanonical(abi, r, s, map[], u - 1, levels);
      NamesGrow(abi, r, u - 1, levels);
    }
  }

  lemma {:induction false} VariantIsCanonical(abi: Abi, r: string, s: seq<Byte>, u: nat, levels: nat)
    requires ValuesOk(abi) && 0 < u <= levels
    requires Fundamental(r) !in abi.codec.types && !IsArray(r) && !IsOptional(r) && r in abi.variants
    ensures var v := UnpackAs(abi, r, s, u);
      v.Ok? ==> CanonicalAs(abi, r, v.value.0, levels)
    decreases u, 0, 0
  {
    assert |abi.variants[r]| <= TWO32;
    hide ValuesOk, IsArray, IsOptional, Fundamental, Canonical, Unpack, UnpackUint;
    var tag := UnpackUint(s);
    if tag.Ok? && tag.value.0 < |abi.variants[r]| {
      UnpackedIsCanonical(abi, abi.variants[r][tag.value.0], tag.value.1, u - 1, levels - 1);
    }
  }

  lemma NoneInEmpty(abi: Abi, s: string)
    ensures NoneOf(abi, s, map[])
  {
  }

  /** An array of the size that was asked for, and no nulls. */
  lemma {:induction false} ItemsAreCanonical(abi: Abi, typ: string, n: nat, s: seq<Byte>, u: nat, levels: nat)
    requires ValuesOk(abi) && u <= levels
    ensures var r := UnpackAll(abi, typ, n, s, u);
      r.Ok? ==> |r.value.0| == n && CanonicalItems(abi, typ, r.value.0, levels)
    decreases u, 2, n
  {
    hide ValuesOk, Canonical, Unpack;
    if n > 0 {
      UnpackedIsCanonical(abi, typ, s, u, levels);
      var head := Unpack(abi, typ, s, u);
      if head.Ok? {
        ItemsAreCanonical(abi, typ, n - 1, head.value.1, u, levels);
        var tail := UnpackAll(abi, typ, n - 1, head.value.1, u);
        if tail.Ok? { assert ([head.value.0] + tail.value.0)[1..] == tail.value.0; }
      }
    }
  }

  lemma {:induction false} NamesGrow(abi: Abi, s: string, n: nat, m: nat)
    requires n <= m
    ensures ChainNames(abi, s, n) <= ChainNames(abi, s, m)
    decreases n
  {
    if n > 0 && s in abi.structs && abi.structs[s].base != "" {
      NamesGrow(abi, Resolve(abi.typedefs, abi.structs[s].base), n - 1, m - 1);
    }
  }

  /** `more` has the fields of `obj` and, at most, fields with these names besides. */
  ghost predicate Adds(obj: map<string, Value>, names: set<string>, more: map<string, Value>)
  {
    obj.Keys <= more.Keys <= obj.Keys + names && forall k :: k in obj ==> more[k] == obj[k]
  }

  ghost predicate NoneOf(abi: Abi, s: string, obj: map<string, Value>)
  {
    forall n: nat :: obj.Keys !! ChainNames(abi, s, n)
  }

  /** A struct's fields are added to the object: no others, and each a canonical value. */
  lemma {:induction false} ObjectIsCanonical(abi: Abi, s: string, bytes: seq<Byte>, obj: map<string, Value>, u: nat,
                                             levels: nat)
    requires ValuesOk(abi) && u <= levels && NoneOf(abi, s, obj)
    ensures var r := UnpackObject(abi, s, bytes, obj, u);
      r.Ok? ==> Adds(obj, ChainNames(abi, s, u), r.value.0) && CanonicalChain(abi, s, r.value.0, levels)
    decreases u, 0, 0
  {
    if u > 0 && s in abi.structs {
      var st := abi.structs[s];
      assert OwnNames(abi, st);
      OwnAndBaseNames(abi, s, obj);
      hide ValuesOk, Resolve, CanonicalFields, CanonicalChain, UnpackBase, UnpackFields, Names, ChainNames;
      hide OwnNames, NoneOf, Adds, BaseNames;
      BaseIsCanonical(abi, s, bytes, obj, u - 1, levels - 1);
      var base := UnpackBase(abi, st, bytes, obj, u - 1);
      if base.Ok? {
        OwnNamesAreNew(abi, st, obj, base.value.0, u - 1);
        FieldsAreCanonical(abi, st.fields, base.value.1, base.value.0, false, u - 1, levels - 1);
        var r := UnpackFields(abi, st.fields, base.value.1, base.value.0, false, u - 1);
        if r.Ok? { ChainIsCanonical(abi, s, obj, base.value.0, r.value.0, u - 1, levels - 1); }
      }
    }
  }

  lemma {:induction false} BaseIsCanonical(abi: Abi, s: string, bytes: seq<Byte>, obj: map<string, Value>, u: nat,
                                           levels: nat)
    requires ValuesOk(abi) && u <= levels && s in abi.structs && NoneOf(abi, s, obj)
    ensures var st := abi.structs[s];
      var r := UnpackBase(abi, st, bytes, obj, u);
      r.Ok? ==>
        && Adds(obj, BaseNames(abi, st, u), r.value.0)
        && (st.base != "" ==> CanonicalChain(abi, Resolve(abi.typedefs, st.base), r.value.0, levels))
    decreases u, 0, 1
  {
    hide ValuesOk, Resolve, CanonicalChain, UnpackObject, ChainNames, NoneOf;
    OwnAndBaseNames(abi, s, obj);
    var st := abi.structs[s];
    if st.base != "" { ObjectIsCanonical(abi, Resolve(abi.typedefs, st.base), bytes, obj, u, levels); }
  }

  lemma OwnNamesAreNew(abi: Abi, st: Struct, obj: map<string, Value>, mid: map<string, Value>, u: nat)
    requires OwnNames(abi, st) && Adds(obj, BaseNames(abi, st, u), mid) && obj.Keys !! Names(st.fields)
    ensures DistinctNames(st.fields) && mid.Keys !! Names(st.fields)
  {
    hide Names, BaseNames;
    assert Names(st.fields) !! BaseNames(abi, st, u);
  }

  /** The bases' fields and then a struct's own make its chain. */
  lemma ChainIsCanonical(abi: Abi, s: string, obj: map<string, Value>, mid: map<string, Value>, all: map<string, Value>,
                         u: nat, levels: nat)
    requires s in abi.structs && OwnNames(abi, abi.structs[s])
    requires Adds(obj, BaseNames(abi, abi.structs[s], u), mid) && Adds(mid, Names(abi.structs[s].fields), all)
    requires var st := abi.structs[s];
      && (st.base != "" ==> CanonicalChain(abi, Resolve(abi.typedefs, st.base), mid, levels))
      && CanonicalFields(abi, st.fields, all, levels)
    ensures Adds(obj, ChainNames(abi, s, u + 1), all) && CanonicalChain(abi, s, all, levels + 1)
  {
    hide Names, Resolve, CanonicalFields, OwnNames;
    var st := abi.structs[s];
    if st.base != "" { BaseStays(abi, st, mid, all, levels); }
    hide CanonicalChain, OwnNames;
    assert ChainNames(abi, s, u + 1) == BaseNames(abi, st, u) + Names(st.fields);
  }

  /** An object without the names of a struct's chain has neither its own nor its bases'. */
  lemma OwnAndBaseNames(abi: Abi, s: string, obj: map<string, Value>)
    requires s in abi.structs && NoneOf(abi, s, obj)
    ensures var st := abi.structs[s];
      obj.Keys !! Names(st.fields) && (st.base != "" ==> NoneOf(abi, Resolve(abi.typedefs, st.base), obj))
  {
    hide Names, Resolve;
    var st := abi.structs[s];
    assert obj.Keys !! ChainNames(abi, s, 1);
    forall n: nat | st.base != ""
      ensures obj.Keys !! ChainNames(abi, Resolve(abi.typedefs, st.base), n)
    {
      assert obj.Keys !! ChainNames(abi, s, n + 1);
    }
  }

  /** The fields of the bases stay as they are when a struct's own are added. */
  lemma BaseStays(abi: Abi, st: Struct, mid: map<string, Value>, all: map<string, Value>, levels: nat)
    requires OwnNames(abi, st) && st.base != "" && Adds(mid, Names(st.fields), all)
    requires CanonicalChain(abi, Resolve(abi.typedefs, st.base), mid, levels)
    ensures CanonicalChain(abi, Resolve(abi.typedefs, st.base), all, levels)
  {
    hide Names, Resolve, CanonicalChain, ChainNames;
    assert Names(st.fields) !! BaseNames(abi, st, levels);
    ChainFrame(abi, Resolve(abi.typedefs, st.base), mid, all, levels);
  }

  lemma {:induction false} FieldsAreCanonical(abi: Abi, fs: seq<Field>, s: seq<Byte>, obj: map<string, Value>,
                                              extension: bool, u: nat, levels: nat)
    requires ValuesOk(abi) && u <= levels && DistinctNames(fs) && obj.Keys !! Names(fs)
    ensures var r := UnpackFields(abi, fs, s, obj, extension, u);
      r.Ok? ==> Adds(obj, Names(fs), r.value.0) && CanonicalFields(abi, fs, r.value.0, levels)
    decreases u, 2, |fs|
  {
    if fs != [] {
      var ext := IsExtension(fs[0].typ);
      FirstIsOwn(fs);
      var r := UnpackFields(abi, fs, s, obj, extension, u);
      if s == [] {
        hide ValuesOk, Resolve, IsExtension, Unpack, Canonical, Adds, CanonicalFields;
        FieldsAreCanonical(abi, fs[1..], s, obj, true, u, levels);
        if r.Ok? { FieldLeftOut(abi, fs, obj, r.value.0, levels); }
      } else {
        var t := Resolve(abi.typedefs, if ext then WithoutExtension(fs[0].typ) else fs[0].typ);
        FieldIsCanonical(abi, fs[0].typ, s, u, levels);
        hide ValuesOk, Resolve, IsExtension, Unpack, Canonical, Adds, CanonicalFields;
        var v := Unpack(abi, t, s, u);
        if v.Ok? {
          FieldsAreCanonical(abi, fs[1..], v.value.1, obj[fs[0].name := v.value.0], extension || ext, u, levels);
          if r.Ok? { FieldAdded(abi, fs, obj, v.value.0, r.value.0, levels); }
        }
      }
    }
  }

  lemma {:induction false} FieldIsCanonical(abi: Abi, typ: string, s: seq<Byte>, u: nat, levels: nat)
    requires ValuesOk(abi) && u <= levels
    ensures var t := Resolve(abi.typedefs, if IsExtension(typ) then WithoutExtension(typ) else typ);
      var v := Unpack(abi, t, s, u);
      v.Ok? ==> Canonical(abi, WithoutExtension(typ), v.value.0, levels)
    decreases u, 1, 1
  {
    ResolveTwice(abi, WithoutExtension(typ));
    hide ValuesOk, Resolve, IsExtension, Unpack, CanonicalAs;
    UnpackedIsCanonical(abi, Resolve(abi.typedefs, WithoutExtension(typ)), s, u, levels);
  }

  lemma FieldLeftOut(abi: Abi, fs: seq<Field>, obj: map<string, Value>, all: map<string, Value>, levels: nat)
    requires fs != [] && DistinctNames(fs) && obj.Keys !! Names(fs)
    requires Adds(obj, Names(fs[1..]), all) && CanonicalFields(abi, fs[1..], all, levels)
    ensures Adds(obj, Names(fs), all) && CanonicalFields(abi, fs, all, levels)
  {
    hide Canonical;
    FirstIsOwn(fs);
  }

  lemma FieldAdded(abi: Abi, fs: seq<Field>, obj: map<string, Value>, v: Value, all: map<string, Value>, levels: nat)
    requires fs != [] && DistinctNames(fs) && obj.Keys !! Names(fs)
    requires Canonical(abi, WithoutExtension(fs[0].typ), v, levels)
    requires Adds(obj[fs[0].name := v], Names(fs[1..]), all) && CanonicalFields(abi, fs[1..], all, levels)
    ensures Adds(obj, Names(fs), all) && CanonicalFields(abi, fs, all, levels)
  {
    hide Canonical;
  }

  lemma FirstIsOwn(fs: seq<Field>)
    requires fs != [] && DistinctNames(fs)
    ensures DistinctNames(fs[1..]) && fs[0].name !in Names(fs[1..])
  {
    NamesAre(fs[1..]);
  }

  lemma {:induction false} NamesAre(fs: seq<Field>)
    ensures forall k :: k in Names(fs) ==> exists i :: 0 <= i < |fs| && fs[i].name == k
  {
    if fs != [] {
      NamesAre(fs[1..]);
      forall k | k in Names(fs)
        ensures exists i :: 0 <= i < |fs| && fs[i].name == k
      {
        if k == fs[0].name {
          assert fs[0].name == k;
        } else {
          assert k in Names(fs[1..]);
          var i :| 0 <= i < |fs[1..]| && fs[1..][i].name == k;
          assert fs[i + 1].name == k;
        }
      }
    }
  }

  ghost predicate SameOn(names: set<string>, vo: map<string, Value>, vo': map<string, Value>)
  {
    forall k :: k in names ==> (k in vo <==> k in vo') && (k in vo && k in vo' ==> vo[k] == vo'[k])
  }

  lemma {:induction false} ChainFrame(abi: Abi, s: string, vo: map<string, Value>, vo': map<string, Value>, levels: nat)
    requires CanonicalChain(abi, s, vo, levels) && SameOn(ChainNames(abi, s, levels), vo, vo')
    ensures CanonicalChain(abi, s, vo', levels)
    decreases levels
  {
    hide Resolve, CanonicalFields, Names;
    if levels > 0 && s in abi.structs {
      FieldsFrame(abi, abi.structs[s].fields, vo, vo', levels - 1);
      if abi.structs[s].base != "" {
        ChainFrame(abi, Resolve(abi.typedefs, abi.structs[s].base), vo, vo', levels - 1);
      }
    }
  }

  lemma {:induction false} FieldsFrame(abi: Abi, fs: seq<Field>, vo: map<string, Value>, vo': map<string, Value>,
                                       levels: nat)
    requires CanonicalFields(abi, fs, vo, levels) && SameOn(Names(fs), vo, vo')
    ensures CanonicalFields(abi, fs, vo', levels)
  {
    hide Canonical;
    if fs != [] { FieldsFrame(abi, fs[1..], vo, vo', levels); }
  }

  /** A value that was unpacked comes back unchanged whenever it packs again. */
  lemma UnpackedComesBack(abi: Abi, typ: string, s: seq<Byte>, u: nat, allow: bool, levels: nat, rest: seq<Byte>,
                          w: nat)
    requires AbiOk(abi) && ValuesOk(abi) && u <= levels && (allow ==> rest == [])
    requires Unpack(abi, typ, s, u).Ok? && Pack(abi, typ, Unpack(abi, typ, s, u).value.0, allow, levels).Ok?
    ensures var v := Unpack(abi, typ, s, u).value.0;
      var b := Pack(abi, typ, v, allow, levels).value;
      Unpack(abi, typ, b + rest, w) == ComesBack(Depth(abi, typ, v, levels), w, (v, rest))
  {
    hide AbiOk, ValuesOk, Unpack, Pack, Canonical, Depth;
    UnpackedIsCanonical(abi, typ, s, u, levels);
    RoundTrip(abi, typ, Unpack(abi, typ, s, u).value.0, allow, levels, rest, w);
  }

  // ---- What packs ----

  /**
   The shapes that pack: an array, any value for an optional, a type's name with a value for a variant, an object for a
   struct, or an array for one without a base.
   */
  ghost predicate Shaped(abi: Abi, r: string, v: Value)
  {
    if IsArray(r) then v.Array?
    else if IsOptional(r) then true
    else if r in abi.variants then
      v.Array? && |v.items| == 2 && v.items[0].Str? && v.items[0].s in abi.variants[r]
    else r in abi.structs && (v.Object? || (v.Array? && abi.structs[r].base == ""))
  }

  /** Only these pack; the size written for an array is the number of its elements cut to 32 bits. */
  lemma PackedShape(abi: Abi, r: string, v: Value, allow: bool, levels: nat)
    requires levels > 0 && Fundamental(r) !in abi.codec.types && PackAs(abi, r, v, allow, levels).Ok?
    ensures Shaped(abi, r, v)
    ensures var size := UnpackUint(PackAs(abi, r, v, allow, levels).value);
      IsArray(r) ==> size.Ok? && size.value.0 == |v.items| % TWO32
  {
    hide IsArray, IsOptional, Fundamental, UnpackUint, PackUint, Pack, PackAll, PackBase, PackFields, PackItems;
    if IsArray(r) {
      UintRoundTrip(|v.items| % TWO32, PackAll(abi, Fundamental(r), v.items, levels - 1).value);
    }
  }
}
