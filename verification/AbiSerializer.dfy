/** The serializer itself: a packer that appends to a stream and an unpacker that consumes one. */
module AbiSerializer {

  import opened Results
  import opened AbiTypes
  import opened AbiCodec
  import opened Bytes

  /** What a packing step does to the stream, by what the type and value pack to. */
  ghost predicate Wrote(before: seq<Byte>, after: seq<Byte>, r: Result<(), AbiError>, p: Packed)
  {
    && (r.Ok? <==> p.Ok?)
    && (r.Ok? ==> after == before + p.value)
    && (r.Err? ==> r.error == p.error)
  }

  lemma WroteTwice(s0: seq<Byte>, s1: seq<Byte>, s2: seq<Byte>, r: Result<(), AbiError>, p: Packed, q: Packed)
    requires Wrote(s0, s1, Ok(()), p) && Wrote(s1, s2, r, q)
    ensures Wrote(s0, s2, r, Append(p, q))
  {
  }

  lemma FailedFirst(s0: seq<Byte>, s1: seq<Byte>, r: Result<(), AbiError>, p: Packed, q: Packed)
    requires r.Err? && Wrote(s0, s1, r, p)
    ensures Wrote(s0, s1, r, Append(p, q))
  {
  }

  class Packer {
    const abi: Abi
    const limit: nat
    var stream: seq<Byte>
    var allowExtensions: bool
    var depth: nat

    constructor (a: Abi, l: nat)
      ensures abi == a && limit == l && stream == [] && allowExtensions && depth == 0
    {
      abi, limit, stream, allowExtensions, depth := a, l, [], true, 0;
    }

    /** `_variant_to_binary`. */
    method VariantToBinary(typ: string, v: Value) returns (r: Result<(), AbiError>)
      requires depth <= limit
      modifies this
      ensures depth == old(depth) && allowExtensions == old(allowExtensions)
      ensures Wrote(old(stream), stream, r, Pack(abi, typ, v, old(allowExtensions), limit - old(depth)))
      decreases limit - depth, 1, 0
    {
      hide PackAs, Resolve;
      if depth == limit { return Err(TooDeep); }
      depth := depth + 1;
      var rtype := ResolveType(abi.typedefs, typ);
      r := PackResolved(rtype, v);
      depth := depth - 1;
    }

    method PackResolved(rtype: string, v: Value) returns (r: Result<(), AbiError>)
      requires 0 < depth <= limit
      modifies this
      ensures depth == old(depth) && allowExtensions == old(allowExtensions)
      ensures Wrote(old(stream), stream, r, PackAs(abi, rtype, v, old(allowExtensions), limit + 1 - old(depth)))
      decreases limit - depth, 5, 0
    {
      hide IsArray, IsOptional, Fundamental, PackAll, PackStruct, Pack, PackUint;
      if Fundamental(rtype) in abi.codec.types {
        var bytes := abi.codec.pack(Fundamental(rtype), IsArray(rtype), IsOptional(rtype), v);
        if bytes.Err? { return Err(bytes.error); }
        stream := stream + bytes.value;
        return Ok(());
      } else if IsArray(rtype) {
        if !v.Array? { return Err(NotAnArray); }
        stream := stream + PackUint(|v.items| % TWO32);
        r := PackElements(Fundamental(rtype), v.items);
      } else if IsOptional(rtype) {
        if v.Null? {
          stream := stream + [0];
          return Ok(());
        }
        stream := stream + [1];
        r := VariantToBinary(Fundamental(rtype), v);
      } else if rtype in abi.variants {
        var types := abi.variants[rtype];
        if !v.Array? || |v.items| != 2 { return Err(NotAPair); }
        if !v.items[0].Str? { return Err(NotAString); }
        var i := IndexOf(types, v.items[0].s);
        if i == |types| { return Err(NotInVariant); }
        stream := stream + PackUint(i % TWO32);
        r := VariantToBinary(types[i], v.items[1]);
      } else if rtype in abi.structs {
        r := PackStructure(abi.structs[rtype], v);
      } else {
        return Err(UnknownType);
      }
    }

    /** The elements of an array, with extensions disallowed meanwhile. */
    method PackElements(typ: string, items: seq<Value>) returns (r: Result<(), AbiError>)
      requires depth <= limit
      modifies this
      ensures depth == old(depth) && allowExtensions == old(allowExtensions)
      ensures Wrote(old(stream), stream, r, PackAll(abi, typ, items, limit - old(depth)))
      decreases limit - depth, 2, 0
    {
      hide Pack, Wrote, Append;
      var saved := allowExtensions;
      allowExtensions := false;
      ghost var all, done: Packed := PackAll(abi, typ, items, limit - depth), Ok([]);
      NothingYet(stream, all);
      assert items[0..] == items;
      for i := 0 to |items|
        invariant depth == old(depth) && !allowExtensions
        invariant Wrote(old(stream), stream, Ok(()), done)
        invariant all == Append(done, PackAll(abi, typ, items[i..], limit - depth))
      {
        assert items[i..][0] == items[i] && items[i..][1..] == items[i + 1..];
        ghost var p, s0 := Pack(abi, typ, items[i], false, limit - depth), stream;
        r := VariantToBinary(typ, items[i]);
        WroteTwice(old(stream), s0, stream, r, done, p);
        AppendAssociates(done, p, PackAll(abi, typ, items[i + 1..], limit - depth));
        done := Append(done, p);
        if r.Err? {
          FailedFirst(old(stream), stream, r, done, PackAll(abi, typ, items[i + 1..], limit - depth));
          allowExtensions := saved;
          return;
        }
        SucceededSoFar(old(stream), stream, r, done);
      }
      NothingLeft(old(stream), stream, done);
      allowExtensions := saved;
      return Ok(());
    }

    method PackStructure(st: Struct, v: Value) returns (r: Result<(), AbiError>)
      requires depth <= limit
      modifies this
      ensures depth == old(depth) && allowExtensions == old(allowExtensions)
      ensures Wrote(old(stream), stream, r, PackStruct(abi, st, v, old(allowExtensions), limit - old(depth)))
      decreases limit - depth, 4, 0
    {
      hide Pack, PackFields, PackItems;
      match v {
        case Object(vo) =>
          if st.base != "" {
            var saved := allowExtensions;
            allowExtensions := false;
            var base := ResolveType(abi.typedefs, st.base);
            r := VariantToBinary(base, v);
            allowExtensions := saved;
            if r.Err? { return; }
          }
          r := PackObject(st.fields, vo);
        case Array(items) =>
          if st.base != "" { return Err(DerivedFromArray); }
          r := PackList(st.fields, items);
        case _ =>
          return Err(UnexpectedInput);
      }
    }

    /** One field's value; only the last field may leave out extensions of its own. */
    method PackField(field: Field, last: bool, v: Value) returns (r: Result<(), AbiError>)
      requires depth <= limit
      modifies this
      ensures depth == old(depth) && allowExtensions == old(allowExtensions)
      ensures Wrote(old(stream), stream, r,
        Pack(abi, WithoutExtension(field.typ), v, old(allowExtensions) && last, limit - old(depth)))
      decreases limit - depth, 2, 0
    {
      var saved := allowExtensions;
      if !last { allowExtensions := false; }
      r := VariantToBinary(WithoutExtension(field.typ), v);
      allowExtensions := saved;
    }

    method PackObject(fields: seq<Field>, vo: map<string, Value>) returns (r: Result<(), AbiError>)
      requires depth <= limit
      modifies this
      ensures depth == old(depth) && allowExtensions == old(allowExtensions)
      ensures Wrote(old(stream), stream, r,
                    PackFields(abi, fields, vo, old(allowExtensions), false, limit - old(depth)))
      decreases limit - depth, 3, 0
    {
      hide Pack, Wrote, Append, IsExtension, WithoutExtension;
      var disallowAdditional := false;
      ghost var all, done: Packed := PackFields(abi, fields, vo, allowExtensions, false, limit - depth), Ok([]);
      NothingYet(stream, all);
      assert fields[0..] == fields;
      for i := 0 to |fields|
        invariant depth == old(depth) && allowExtensions == old(allowExtensions)
        invariant Wrote(old(stream), stream, Ok(()), done)
        invariant all == Append(done,
                                PackFields(abi, fields[i..], vo, allowExtensions, disallowAdditional, limit - depth))
      {
        assert fields[i..][0] == fields[i] && fields[i..][1..] == fields[i + 1..];
        var field := fields[i];
        if field.name in vo {
          if disallowAdditional { Failed(old(stream), stream, UnexpectedField, done); return Err(UnexpectedField); }
          ghost var last := allowExtensions && i == |fields| - 1;
          ghost var p := Pack(abi, WithoutExtension(field.typ), vo[field.name], last, limit - depth);
          ghost var s0 := stream;
          r := PackField(field, i == |fields| - 1, vo[field.name]);
          WroteTwice(old(stream), s0, stream, r, done, p);
          AppendAssociates(done, p, PackFields(abi, fields[i + 1..], vo, allowExtensions, false, limit - depth));
          done := Append(done, p);
          if r.Err? {
            FailedFirst(old(stream), stream, r, done,
                        PackFields(abi, fields[i + 1..], vo, allowExtensions, false, limit - depth));
            return;
          }
          SucceededSoFar(old(stream), stream, r, done);
        } else if IsExtension(field.typ) && allowExtensions {
          disallowAdditional := true;
        } else if disallowAdditional {
          Failed(old(stream), stream, NotAnExtension, done);
          return Err(NotAnExtension);
        } else {
          Failed(old(stream), stream, MissingField, done);
          return Err(MissingField);
        }
      }
      NothingLeft(old(stream), stream, done);
      return Ok(());
    }

    method PackList(fields: seq<Field>, items: seq<Value>) returns (r: Result<(), AbiError>)
      requires depth <= limit
      modifies this
      ensures depth == old(depth) && allowExtensions == old(allowExtensions)
      ensures Wrote(old(stream), stream, r, PackItems(abi, fields, items, old(allowExtensions), limit - old(depth)))
      decreases limit - depth, 3, 0
    {
      hide Pack, Wrote, Append, IsExtension, WithoutExtension;
      ghost var all, done: Packed := PackItems(abi, fields, items, allowExtensions, limit - depth), Ok([]);
      NothingYet(stream, all);
      assert fields[0..] == fields && items[0..] == items;
      for i := 0 to |fields|
        invariant depth == old(depth) && allowExtensions == old(allowExtensions) && i <= |items|
        invariant Wrote(old(stream), stream, Ok(()), done)
        invariant all == Append(done, PackItems(abi, fields[i..], items[i..], allowExtensions, limit - depth))
      {
        assert fields[i..][0] == fields[i] && fields[i..][1..] == fields[i + 1..];
        var field := fields[i];
        if |items| > i {
          assert items[i..][0] == items[i] && items[i..][1..] == items[i + 1..];
          ghost var last := allowExtensions && i == |fields| - 1;
          ghost var p := Pack(abi, WithoutExtension(field.typ), items[i], last, limit - depth);
          ghost var s0 := stream;
          r := PackField(field, i == |fields| - 1, items[i]);
          WroteTwice(old(stream), s0, stream, r, done, p);
          AppendAssociates(done, p, PackItems(abi, fields[i + 1..], items[i + 1..], allowExtensions, limit - depth));
          done := Append(done, p);
          if r.Err? {
            FailedFirst(old(stream), stream, r, done,
                        PackItems(abi, fields[i + 1..], items[i + 1..], allowExtensions, limit - depth));
            return;
          }
          SucceededSoFar(old(stream), stream, r, done);
        } else if IsExtension(field.typ) && allowExtensions {
          NothingLeft(old(stream), stream, done);
          return Ok(());
        } else {
          Failed(old(stream), stream, MissingField, done);
          return Err(MissingField);
        }
      }
      NothingLeft(old(stream), stream, done);
      return Ok(());
    }
  }

  lemma NothingYet(s: seq<Byte>, p: Packed)
    ensures Wrote(s, s, Ok(()), Ok([])) && Append(Ok([]), p) == p
  {
    if p.Ok? { assert [] + p.value == p.value; }
  }

  lemma NothingLeft(s0: seq<Byte>, s1: seq<Byte>, done: Packed)
    requires Wrote(s0, s1, Ok(()), done)
    ensures Wrote(s0, s1, Ok(()), Append(done, Ok([])))
  {
    assert done.value + [] == done.value;
  }

  lemma Failed(s0: seq<Byte>, s1: seq<Byte>, e: AbiError, done: Packed)
    requires Wrote(s0, s1, Ok(()), done)
    ensures Wrote(s0, s1, Err(e), Append(done, Err(e)))
  {
  }

  lemma SucceededSoFar(s0: seq<Byte>, s1: seq<Byte>, r: Result<(), AbiError>, done: Packed)
    requires r.Ok? && Wrote(s0, s1, r, done)
    ensures Wrote(s0, s1, Ok(()), done)
  {
  }

  /** What an unpacking step answers and leaves in the stream. */
  ghost predicate Took<T>(after: seq<Byte>, r: Result<T, AbiError>, p: Result<(T, seq<Byte>), AbiError>)
  {
    && (r.Ok? <==> p.Ok?)
    && (r.Ok? ==> p.value == (r.value, after))
    && (r.Err? ==> r.error == p.error)
  }

  class Unpacker {
    const abi: Abi
    const limit: nat
    /** What remains of the stream. */
    var stream: seq<Byte>
    var depth: nat

    constructor (a: Abi, l: nat, bytes: seq<Byte>)
      ensures abi == a && limit == l && stream == bytes && depth == 0
    {
      abi, limit, stream, depth := a, l, bytes, 0;
    }

    method ReadUint() returns (r: Result<UInt32, AbiError>)
      modifies this`stream
      ensures Took(stream, r, UnpackUint(old(stream)))
    {
      hide UnpackUint;
      var n := UnpackUint(stream);
      if n.Err? { return Err(n.error); }
      stream := n.value.1;
      return Ok(n.value.0);
    }

    /** `_binary_to_variant` of a value. */
    method BinaryToVariant(typ: string) returns (r: Result<Value, AbiError>)
      requires depth <= limit
      modifies this
      ensures depth == old(depth)
      ensures Took(stream, r, Unpack(abi, typ, old(stream), limit - old(depth)))
      decreases limit - depth, 1
    {
      hide UnpackAs, Resolve;
      if depth == limit { return Err(TooDeep); }
      depth := depth + 1;
      var rtype := ResolveType(abi.typedefs, typ);
      r := UnpackResolved(rtype);
      depth := depth - 1;
    }

    method UnpackResolved(rtype: string) returns (r: Result<Value, AbiError>)
      requires 0 < depth <= limit
      modifies this
      ensures depth == old(depth)
      ensures Took(stream, r, UnpackAs(abi, rtype, old(stream), limit + 1 - old(depth)))
      decreases limit - depth, 5
    {
      hide IsArray, IsOptional, Fundamental, UnpackAll, UnpackObject, Unpack, UnpackUint;
      var ftype := Fundamental(rtype);
      if ftype in abi.codec.types {
        var v := abi.codec.unpack(ftype, IsArray(rtype), IsOptional(rtype), stream);
        if v.Err? { return Err(v.error); }
        stream := v.value.1;
        return Ok(v.value.0);
      } else if IsArray(rtype) {
        var size := ReadUint();
        if size.Err? { return Err(size.error); }
        var items := UnpackElements(ftype, size.value);
        if items.Err? { return Err(items.error); }
        return Ok(Array(items.value));
      } else if IsOptional(rtype) {
        if stream == [] { return Err(StreamEnded); }
        var flag := stream[0];
        stream := stream[1..];
        if flag == 0 { return Ok(Null); }
        r := BinaryToVariant(ftype);
      } else if rtype in abi.variants {
        var tag := ReadUint();
        if tag.Err? { return Err(tag.error); }
        var types := abi.variants[rtype];
        if tag.value >= |types| { return Err(InvalidTag); }
        var inner := BinaryToVariant(types[tag.value]);
        if inner.Err? { return inner; }
        return Ok(Array([Str(types[tag.value]), inner.value]));
      } else {
        var obj := UnpackInto(rtype, map[]);
        if obj.Err? { return Err(obj.error); }
        if obj.value.Keys == {} { return Err(EmptyStruct); }
        return Ok(Object(obj.value));
      }
    }

    method UnpackElements(typ: string, n: nat) returns (r: Result<seq<Value>, AbiError>)
      requires depth <= limit
      modifies this
      ensures depth == old(depth)
      ensures Took(stream, r, UnpackAll(abi, typ, n, old(stream), limit - old(depth)))
      decreases limit - depth, 2
    {
      hide Unpack;
      var items := [];
      ghost var whole := UnpackAll(abi, typ, n, stream, limit - depth);
      assert whole.Ok? ==> [] + whole.value.0 == whole.value.0;
      for i := 0 to n
        invariant depth == old(depth)
        invariant whole == Prepend(items, UnpackAll(abi, typ, n - i, stream, limit - depth))
      {
        var v := BinaryToVariant(typ);
        if v.Err? { return Err(v.error); }
        if v.value.Null? { return Err(NullInArray); }
        PrependAll(items, v.value, UnpackAll(abi, typ, n - i - 1, stream, limit - depth));
        items := items + [v.value];
      }
      assert items + [] == items;
      return Ok(items);
    }

    /** `_binary_to_variant` of a struct into an object, the base's fields first. */
    method UnpackInto(typ: string, obj: map<string, Value>) returns (r: Result<map<string, Value>, AbiError>)
      requires depth <= limit
      modifies this
      ensures depth == old(depth)
      ensures Took(stream, r, UnpackObject(abi, typ, old(stream), obj, limit - old(depth)))
      decreases limit - depth, 4
    {
      hide UnpackFields, Resolve;
      if depth == limit { return Err(TooDeep); }
      depth := depth + 1;
      if typ !in abi.structs {
        depth := depth - 1;
        return Err(UnknownType);
      }
      var st := abi.structs[typ];
      r := Ok(obj);
      if st.base != "" {
        var base := ResolveType(abi.typedefs, st.base);
        r := UnpackInto(base, obj);
      }
      if r.Ok? { r := UnpackFieldList(st.fields, r.value); }
      depth := depth - 1;
    }

    method UnpackFieldList(fields: seq<Field>, given: map<string, Value>)
      returns (r: Result<map<string, Value>, AbiError>)
      requires depth <= limit
      modifies this
      ensures depth == old(depth)
      ensures Took(stream, r, UnpackFields(abi, fields, old(stream), given, false, limit - old(depth)))
      decreases limit - depth, 3
    {
      hide Unpack, Resolve, IsExtension, WithoutExtension;
      var obj := given;
      var encounteredExtension := false;
      ghost var whole := UnpackFields(abi, fields, stream, obj, false, limit - depth);
      assert fields[0..] == fields;
      for i := 0 to |fields|
        invariant depth == old(depth)
        invariant whole == UnpackFields(abi, fields[i..], stream, obj, encounteredExtension, limit - depth)
      {
        assert fields[i..][0] == fields[i] && fields[i..][1..] == fields[i + 1..];
        var field := fields[i];
        var extension := IsExtension(field.typ);
        if stream == [] && !extension {
          return Err(if encounteredExtension then NotAnExtension else StreamEnded);
        }
        encounteredExtension := encounteredExtension || extension;
        if stream != [] {
          var t := ResolveType(abi.typedefs, if extension then WithoutExtension(field.typ) else field.typ);
          var v := BinaryToVariant(t);
          if v.Err? { return Err(v.error); }
          obj := obj[field.name := v.value];
        }
      }
      return Ok(obj);
    }
  }

  type UnpackedItems = Result<(seq<Value>, seq<Byte>), AbiError>

  function Prepend(items: seq<Value>, rest: UnpackedItems): UnpackedItems
  {
    if rest.Err? then rest else Ok((items + rest.value.0, rest.value.1))
  }

  lemma PrependAll(items: seq<Value>, v: Value, rest: UnpackedItems)
    ensures Prepend(items, Prepend([v], rest)) == Prepend(items + [v], rest)
  {
    if rest.Ok? { assert items + ([v] + rest.value.0) == items + [v] + rest.value.0; }
  }

  /** Packing a canonical value and unpacking the bytes with twice the limit returns the value. */
  method PackThenUnpack(abi: Abi, typ: string, v: Value, limit: nat)
    returns (bytes: Packed, back: Result<Value, AbiError>)
    requires AbiOk(abi) && Canonical(abi, typ, v, limit)
    ensures bytes.Ok? ==> back == Ok(v)
  {
    hide Pack, Unpack, AbiOk, Canonical;
    var packer := new Packer(abi, limit);
    var packed := packer.VariantToBinary(typ, v);
    if packed.Err? { return Err(packed.error), Err(packed.error); }
    assert packer.stream == Pack(abi, typ, v, true, limit).value;
    WholeRoundTrip(abi, typ, v, limit, 2 * limit);
    var unpacker := new Unpacker(abi, 2 * limit, packer.stream);
    back := unpacker.BinaryToVariant(typ);
    bytes := Ok(packer.stream);
  }
}
