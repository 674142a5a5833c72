/** The encoder of value trees: it writes a value's bytes exactly when the limits admit the value. */
module TaggedEncoder {
  import opened Bytes
  import opened Canonical
  import opened Tagged

  const MAX_DEPTH := 128

  datatype Status = Done | Failed(error: WireError)

  class Encoder {
    const config: Config
    var out: seq<Byte>
    var depth: nat
    const counts: array<nat>

    /** Every open container has a counter, and those of containers not yet open are zero. */
    ghost predicate Valid()
      reads this, counts
    {
      && config.depthLimit <= MAX_DEPTH == counts.Length
      && depth <= config.depthLimit
      && (forall i :: depth <= i < MAX_DEPTH ==> counts[i] == 0)
      && |out| < U64_LIMIT && Within(config.limit, |out|)
    }

    constructor (config: Config)
      requires config.depthLimit <= MAX_DEPTH
      ensures Valid() && fresh(counts) && this.config == config && out == [] && depth == 0
    {
      this.config := config;
      out := [];
      depth := 0;
      counts := new nat[MAX_DEPTH](_ => 0);
    }

    /** All of the bytes, or none of them when the total would pass the byte limit. */
    method Emit(bytes: seq<Byte>) returns (status: Status)
      requires Valid()
      modifies this`out
      ensures Valid() && (status.Done? <==> Room(config, |old(out)| + |bytes|))
      ensures out == if status.Done? then old(out) + bytes else old(out)
      ensures status.Failed? ==> status.error.SizeLimit?
    {
      var next := |out| + |bytes|;
      if next >= U64_LIMIT {
        return Failed(SizeLimit(U64_LIMIT - 1));
      }
      if config.limit.Some? && next > config.limit.value {
        return Failed(SizeLimit(config.limit.value));
      }
      out := out + bytes;
      return Done;
    }

    /** A tag and the bytes behind it. */
    method EmitBoth(a: seq<Byte>, b: seq<Byte>) returns (status: Status)
      requires Valid()
      modifies this`out
      ensures Valid() && Wrote(config, old(out), out, a + b, true, status)
    {
      status := Emit(a);
      if status.Done? {
        assert (out + b) == old(out) + (a + b);
        status := Emit(b);
      }
    }

    method WriteStr(text: seq<Byte>) returns (status: Status)
      requires Valid() && |text| < U64_LIMIT
      modifies this`out
      ensures Valid() && Wrote(config, old(out), out, StrBytes(text), true, status)
    {
      status := EmitBoth([TAG_STRING], EncodeVarint(|text|));
      if status.Done? {
        var head := [TAG_STRING] + EncodeVarint(|text|);
        assert head + text == StrBytes(text);
        assert (old(out) + head) + text == old(out) + (head + text);
        status := Emit(text);
      }
    }

    /** Opens a container: the depth limit comes before the tag. */
    method EnterContainer(tag: Byte) returns (status: Status)
      requires Valid()
      modifies this`out, this`depth
      ensures Valid() && Wrote(config, old(out), out, [tag], old(depth) < config.depthLimit, status)
      ensures depth == if status.Done? then old(depth) + 1 else old(depth)
    {
      if depth >= config.depthLimit {
        return Failed(DepthLimit);
      }
      status := Emit([tag]);
      if status.Done? {
        depth := depth + 1;
      }
    }

    /** One more entry of the innermost container. */
    method CountElement() returns (status: Status)
      requires Valid() && depth > 0 && counts[depth - 1] + 1 < U64_LIMIT
      modifies counts
      ensures status.Done? <==> Within(config.collectionLimit, old(counts[depth - 1]) + 1)
      ensures status.Failed? ==> status.error.CollectionLimit?
      ensures counts[..] == if status.Done? then old(counts[..])[depth - 1 := old(counts[depth - 1]) + 1]
                            else old(counts[..])
    {
      var count := counts[depth - 1] + 1;
      if config.collectionLimit.Some? && count > config.collectionLimit.value {
        return Failed(CollectionLimit(config.collectionLimit.value));
      }
      counts[depth - 1] := count;
      return Done;
    }

    /** Closes a container and gives the next one at this depth a fresh count. */
    method ExitContainer() returns (status: Status)
      requires depth > 0 && counts.Length == MAX_DEPTH && config.depthLimit <= MAX_DEPTH && depth <= config.depthLimit
      requires |out| < U64_LIMIT && Within(config.limit, |out|)
      requires forall i :: depth <= i < MAX_DEPTH ==> counts[i] == 0
      modifies this`out, this`depth, counts
      ensures Valid() && depth == old(depth) - 1
      ensures counts[..] == old(counts[..])[old(depth) - 1 := 0]
      ensures Wrote(config, old(out), out, [TAG_END], true, status)
    {
      depth := depth - 1;
      counts[depth] := 0;
      status := Emit([TAG_END]);
    }

    /** A float: its tag and bits, refused unless finite. */
    method WriteFloat(tag: Byte, bits: nat, width: nat, finite: bool) returns (status: Status)
      requires Valid()
      modifies this`out
      ensures Valid() && Wrote(config, old(out), out, [tag] + LeBytes(bits, width), finite, status)
    {
      if !finite {
        return Failed(NonFiniteFloat);
      }
      status := EmitBoth([tag], LeBytes(bits, width));
    }

    /** A value, event by event: its bytes, exactly when the limits admit it. */
    method EmitValue(v: Value) returns (status: Status)
      requires Valid() && Typed(v)
      modifies this, counts
      ensures status.Done? ==> Valid() && depth == old(depth) && counts[..] == old(counts[..])
      ensures Wrote(config, old(out), out, Emitted(v), Emittable(config, v, old(depth)), status)
      decreases v, 0
    {
      match v {
        case Null => status := Emit([TAG_NULL]);
        case Bool(flag) => status := Emit([if flag then TAG_TRUE else TAG_FALSE]);
        case U64(u) => status := EmitBoth([TAG_U64], EncodeVarint(u));
        case U128(u) => status := EmitBoth([TAG_U128], EncodeVarint(u));
        case I64(i) => status := EmitBoth([TAG_I64], EncodeVarint(ZigZag(i)));
        case I128(i) => status := EmitBoth([TAG_I128], EncodeVarint(ZigZag(i)));
        case F64(bits) => status := WriteFloat(TAG_F64, bits, 8, Finite64(bits));
        case F32(bits) => status := WriteFloat(TAG_F32, bits, 4, Finite32(bits));
        case Text(text) => status := WriteStr(text);
        case Array(items) => status := EmitArray(v);
        case Object(fields) => status := EmitObject(v);
      }
    }

    method EmitArray(v: Value) returns (status: Status)
      requires Valid() && v.Array? && Typed(v)
      modifies this, counts
      ensures status.Done? ==> Valid() && depth == old(depth) && counts[..] == old(counts[..])
      ensures Wrote(config, old(out), out, Emitted(v), Emittable(config, v, old(depth)), status)
      decreases v.items, 1
    {
      ghost var before, entries := out, ItemBytes(v.items);
      ghost var inside := Within(config.collectionLimit, |v.items|) && AllEmittable(config, v.items, depth + 1);
      ghost var shallow := depth < config.depthLimit;
      status := EnterContainer(TAG_ARRAY);
      if status.Failed? {
        Stops(config, before, out, [TAG_ARRAY], entries, Emitted(v), shallow, inside, status);
        return;
      }
      ghost var middle := out;
      status := EmitItems(v.items);
      Then(config, before, middle, out, [TAG_ARRAY], entries, Emitted(v), shallow, inside, status);
    }

    /** The elements of the array just opened, each counted first, and its terminator. */
    method EmitItems(items: seq<Value>) returns (status: Status)
      requires Valid() && depth > 0 && counts[depth - 1] == 0 && |items| < U64_LIMIT && AllTyped(items)
      modifies this, counts
      ensures status.Done? ==> Valid() && depth == old(depth) - 1 && counts[..] == old(counts[..])
      ensures Wrote(config, old(out), out, ItemBytes(items),
                    Within(config.collectionLimit, |items|) && AllEmittable(config, items, old(depth)), status)
      decreases items, 0
    {
      ghost var before, whole, open, was := out, ItemBytes(items), depth, counts[..];
      assert items[0..] == items;
      var i: nat := 0;
      while i < |items|
        invariant i <= |items| && Valid() && depth == open && counts[..] == was[open - 1 := i]
        invariant AllTyped(items[i..]) && out + ItemBytes(items[i..]) == before + whole
        invariant AllEmittable(config, items[i..], open) == AllEmittable(config, items, open)
        invariant Within(config.collectionLimit, i)
      {
        ghost var start, first, rest := out, Emitted(items[i..][0]), ItemBytes(items[i..][1..]);
        assert items[i..][0] == items[i] && items[i..][1..] == items[i + 1..];
        status := CountElement();
        if status.Failed? {
          return;
        }
        status := EmitValue(items[i]);
        Piece(start, first, rest, before, whole);
        if status.Failed? {
          return;
        }
        i := i + 1;
      }
      assert items[i..] == [];
      ghost var last := out;
      status := ExitContainer();
      assert |last + [TAG_END]| == |before + whole|;
    }

    method EmitObject(v: Value) returns (status: Status)
      requires Valid() && v.Object? && Typed(v)
      modifies this, counts
      ensures status.Done? ==> Valid() && depth == old(depth) && counts[..] == old(counts[..])
      ensures Wrote(config, old(out), out, Emitted(v), Emittable(config, v, old(depth)), status)
      decreases v.fields, 1
    {
      ghost var before, entries := out, FieldBytes(v.fields);
      ghost var inside := Within(config.collectionLimit, |v.fields|) && FieldsEmittable(config, v.fields, depth + 1);
      ghost var shallow := depth < config.depthLimit;
      status := EnterContainer(TAG_OBJECT);
      if status.Failed? {
        Stops(config, before, out, [TAG_OBJECT], entries, Emitted(v), shallow, inside, status);
        return;
      }
      ghost var middle := out;
      status := EmitFields(v.fields);
      Then(config, before, middle, out, [TAG_OBJECT], entries, Emitted(v), shallow, inside, status);
    }

    method EmitField(field: Field) returns (status: Status)
      requires Valid() && IsText(field.key) && Typed(field.value)
      modifies this, counts
      ensures status.Done? ==> Valid() && depth == old(depth) && counts[..] == old(counts[..])
      ensures Wrote(config, old(out), out, StrBytes(field.key) + Emitted(field.value),
                    Emittable(config, field.value, old(depth)), status)
      decreases field, 1
    {
      ghost var before, key, value := out, StrBytes(field.key), Emitted(field.value);
      ghost var admitted := Emittable(config, field.value, depth);
      status := WriteStr(field.key);
      if status.Failed? {
        Stops(config, before, out, key, value, key + value, true, admitted, status);
        return;
      }
      ghost var middle := out;
      status := EmitValue(field.value);
      Then(config, before, middle, out, key, value, key + value, true, admitted, status);
    }

    /** An entry, counted before its key and value. */
    method EmitEntry(field: Field) returns (status: Status)
      requires Valid() && depth > 0 && counts[depth - 1] + 1 < U64_LIMIT && IsText(field.key) && Typed(field.value)
      modifies this, counts
      ensures status.Done? ==> Valid() && depth == old(depth)
      ensures status.Done? ==> counts[..] == old(counts[..])[old(depth) - 1 := old(counts[depth - 1]) + 1]
      ensures Wrote(config, old(out), out, EntryBytes(field),
                    Within(config.collectionLimit, old(counts[depth - 1]) + 1)
                    && Emittable(config, field.value, old(depth)),
                    status)
      decreases field, 2
    {
      status := CountElement();
      if status.Done? {
        status := EmitField(field);
      }
    }

    /** The fields of the object just opened: counted, key, value; and its terminator. */
    method EmitFields(fields: seq<Field>) returns (status: Status)
      requires Valid() && depth > 0 && counts[depth - 1] == 0 && |fields| < U64_LIMIT && FieldsTyped(fields)
      modifies this, counts
      ensures status.Done? ==> Valid() && depth == old(depth) - 1 && counts[..] == old(counts[..])
      ensures Wrote(config, old(out), out, FieldBytes(fields),
                    Within(config.collectionLimit, |fields|) && FieldsEmittable(config, fields, old(depth)), status)
      decreases fields, 0
    {
      ghost var before, whole, open, was := out, FieldBytes(fields), depth, counts[..];
      ghost var admitted := FieldsEmittable(config, fields, depth);
      assert fields[0..] == fields;
      var i: nat := 0;
      while i < |fields|
        invariant i <= |fields| && Valid() && depth == open && counts[..] == was[open - 1 := i]
        invariant FieldsLeft(config, out, fields[i..], before + whole, open, admitted)
        invariant Within(config.collectionLimit, i)
      {
        ghost var start := out;
        NextField(config, out, fields[i..], fields[i], fields[i + 1..], before + whole, open, admitted);
        status := EmitEntry(fields[i]);
        if status.Failed? {
          return;
        }
        i := i + 1;
      }
      assert fields[i..] == [];
      ghost var last := out;
      status := ExitContainer();
      assert |last + [TAG_END]| == |before + whole|;
    }
  }

  function EntryBytes(field: Field): seq<Byte>
    requires IsText(field.key) && Typed(field.value)
  {
    StrBytes(field.key) + Emitted(field.value)
  }

  /** What is written and the fields left make up the whole, and decide whether it is admitted. */
  ghost predicate FieldsLeft(c: Config, out: seq<Byte>, left: seq<Field>, whole: seq<Byte>, depth: nat,
                             admitted: bool) {
    FieldsTyped(left) && out + FieldBytes(left) == whole && FieldsEmittable(c, left, depth) == admitted
  }

  lemma NextField(c: Config, out: seq<Byte>, left: seq<Field>, first: Field, others: seq<Field>, whole: seq<Byte>,
                  depth: nat, admitted: bool)
    requires FieldsLeft(c, out, left, whole, depth, admitted) && left == [first] + others
    ensures IsText(first.key) && Typed(first.value) && (admitted ==> Emittable(c, first.value, depth))
    ensures Emittable(c, first.value, depth) ==>
      FieldsLeft(c, out + EntryBytes(first), others, whole, depth, admitted)
    ensures |out| + |EntryBytes(first)| <= |whole|
  {
    assert left[1..] == others;
    var rest := FieldBytes(others);
    Reassociate(StrBytes(first.key), Emitted(first.value), rest);
    Reassociate(out, EntryBytes(first), rest);
    assert |out + FieldBytes(left)| == |whole|;
  }

  lemma Then(c: Config, before: seq<Byte>, middle: seq<Byte>, after: seq<Byte>, a: seq<Byte>, b: seq<Byte>,
             whole: seq<Byte>, first: bool, second: bool, status: Status)
    requires Wrote(c, before, middle, a, first, Done) && whole == a + b
    requires Wrote(c, middle, after, b, second, status)
    ensures Wrote(c, before, after, whole, first && second, status)
  {
    assert (before + a) + b == before + (a + b);
  }

  lemma Stops(c: Config, before: seq<Byte>, after: seq<Byte>, a: seq<Byte>, b: seq<Byte>, whole: seq<Byte>,
              first: bool, second: bool, status: Status)
    requires Wrote(c, before, after, a, first, status) && status.Failed? && whole == a + b
    ensures Wrote(c, before, after, whole, first && second, status)
  {
  }

  /** The next piece of what is left to write. */
  lemma Piece(out: seq<Byte>, first: seq<Byte>, rest: seq<Byte>, before: seq<Byte>, whole: seq<Byte>)
    requires out + (first + rest) == before + whole
    ensures (out + first) + rest == before + whole && |out| + |first| <= |before| + |whole|
  {
    assert (out + first) + rest == out + (first + rest);
    assert |out + (first + rest)| == |before + whole|;
  }

  /** Encodes a value into a fresh vector: its bytes, exactly when depth, entries, floats and bytes allow. */
  method ToVec(config: Config, v: Value) returns (status: Status, bytes: seq<Byte>)
    requires Typed(v) && config.depthLimit <= MAX_DEPTH
    ensures status.Done? ==> bytes == Emitted(v) && Emittable(config, v, 0) && Room(config, |bytes|)
    ensures status.Failed? ==> !(Emittable(config, v, 0) && Room(config, |Emitted(v)|))
  {
    var encoder := new Encoder(config);
    status := encoder.EmitValue(v);
    bytes := encoder.out;
    assert [] + Emitted(v) == Emitted(v);
  }

  predicate Room(c: Config, total: nat) {
    total < U64_LIMIT && Within(c.limit, total)
  }

  /** Bytes written as a whole; the byte limit refuses a whole without room, another error a value not admitted. */
  predicate Wrote(c: Config, before: seq<Byte>, after: seq<Byte>, bytes: seq<Byte>, admitted: bool, status: Status) {
    if status.Done? then after == before + bytes && admitted
    else if status.error.SizeLimit? then !Room(c, |before| + |bytes|)
    else !admitted
  }
}
