/** The bounded writer, the batched varint writer, and encoding by type over them. */
module CompactEncoder {
  import opened Bytes
  import opened Canonical
  import opened CompactWire

  /** How a write ended. */
  datatype Status = Done | Failed(error: CompactError)

  type U64 = n: nat | n < 0x1_0000_0000_0000_0000

  function EncodeVarints(values: seq<U64>): seq<Byte> {
    if values == [] then [] else EncodeVarint(values[0]) + EncodeVarints(values[1..])
  }

  lemma VarintsOfFirst(values: seq<U64>, first: U64, rest: seq<U64>)
    requires values == [first] + rest
    ensures EncodeVarints(values) == EncodeVarint(first) + EncodeVarints(rest)
  {
    assert values[1..] == rest;
  }

  lemma ConsConcat<T>(a: seq<T>, b: seq<T>)
    requires a != []
    ensures a + b == [a[0]] + (a[1..] + b)
  {
  }

  lemma {:induction false} EncodeVarintsConcat(a: seq<U64>, b: seq<U64>)
    ensures EncodeVarints(a + b) == EncodeVarints(a) + EncodeVarints(b)
    decreases |a|
  {
    if a == [] {
      assert a + b == b;
    } else {
      var rest := a[1..];
      EncodeVarintsConcat(rest, b);
      VarintsOfFirst(a, a[0], rest);
      ConsConcat(a, b);
      VarintsOfFirst(a + b, a[0], rest + b);
      Reassociate(EncodeVarint(a[0]), EncodeVarints(rest), EncodeVarints(b));
    }
  }

  /** Writes one canonical varint into a buffer with room for the widest, and returns its length. */
  method WriteVarintInto(buffer: array<Byte>, at: nat, value: U64) returns (n: nat)
    requires at + 17 <= buffer.Length
    modifies buffer
    ensures n == |EncodeVarint(value)| && at + n <= buffer.Length
    ensures buffer[..at + n] == old(buffer[..at]) + EncodeVarint(value)
  {
    if value <= 250 {
      WriteMarked(buffer, at, value, []);
      n := 1;
    } else if value <= 0xffff {
      WriteMarked(buffer, at, MARKER_U16, LeBytes(value, 2));
      n := 3;
    } else if value <= 0xffff_ffff {
      WriteMarked(buffer, at, MARKER_U32, LeBytes(value, 4));
      n := 5;
    } else {
      WriteMarked(buffer, at, MARKER_U64, LeBytes(value, 8));
      n := 9;
    }
  }

  method WriteMarked(buffer: array<Byte>, at: nat, marker: Byte, payload: seq<Byte>)
    requires at + 1 + |payload| <= buffer.Length
    modifies buffer
    ensures buffer[..at + 1 + |payload|] == old(buffer[..at]) + ([marker] + payload)
  {
    buffer[at] := marker;
    forall i | 0 <= i < |payload| {
      buffer[at + 1 + i] := payload[i];
    }
  }

  /** Room for a total of so many bytes. */
  predicate RoomFor(limit: Option<nat>, total: nat) {
    total < U64_LIMIT && (limit.Some? ==> total <= limit.value)
  }

  /**
   Bytes written as a whole; or a limit that refuses the whole: the byte limit, or for a value
   that is not `within` it the depth limit.
   */
  predicate Encodes(limit: Option<nat>, before: seq<Byte>, after: seq<Byte>, bytes: seq<Byte>, within: bool,
                    status: Status) {
    match status
    case Done => within && after == before + bytes
    case Failed(error) => (error.SizeLimit? && !RoomFor(limit, |before| + |bytes|)) || (error.DepthLimit? && !within)
  }

  class BoundedWriter {
    var out: seq<Byte>
    const limit: Option<nat>
    const depthLimit: nat
    var depth: nat

    /** Nothing was ever written past the limit. */
    predicate Valid()
      reads this
    {
      out == [] || RoomFor(limit, |out|)
    }

    constructor (cfg: Config)
      ensures Valid() && out == [] && depth == 0 && limit == cfg.limit && depthLimit == cfg.depthLimit
    {
      out := [];
      limit := cfg.limit;
      depthLimit := cfg.depthLimit;
      depth := 0;
    }

    /** All of the bytes, or none of them and the limit that refuses them. */
    method WriteAll(bytes: seq<Byte>) returns (status: Status)
      requires Valid()
      modifies this`out
      ensures Valid() && Encodes(limit, old(out), out, bytes, true, status)
      ensures if status.Done? then RoomFor(limit, |out|) else out == old(out)
    {
      var next := |out| + |bytes|;
      if next >= U64_LIMIT {
        return Failed(SizeLimit(U64_LIMIT - 1));
      }
      if limit.Some? && next > limit.value {
        return Failed(SizeLimit(limit.value));
      }
      out := out + bytes;
      return Done;
    }

    method EnterContainer() returns (status: Status)
      modifies this`depth
      ensures status == if old(depth) < depthLimit then Done else Failed(DepthLimit)
      ensures depth == if old(depth) < depthLimit then old(depth) + 1 else old(depth)
    {
      if depth >= depthLimit {
        return Failed(DepthLimit);
      }
      depth := depth + 1;
      return Done;
    }

    method ExitContainer()
      requires depth > 0
      modifies this`depth
      ensures depth == old(depth) - 1
    {
      depth := depth - 1;
    }

    /**
     Varints through a 64-byte buffer, flushed when the next might not fit: whatever the batching,
     what reaches the writer is the concatenation of the canonical encodings.
     */
    method EncodeVarintsBulk(values: seq<U64>) returns (status: Status)
      requires Valid()
      modifies this`out
      ensures Valid() && Encodes(limit, old(out), out, EncodeVarints(values), true, status)
    {
      var buffer := new Byte[64](_ => 0);
      var used: nat := 0;
      ghost var start := out;
      assert values[..0] == [] && start + buffer[..0] == start + [];
      for i := 0 to |values|
        invariant Valid() && used <= 64 && fresh(buffer) && buffer.Length == 64 && (i > 0 ==> used > 0)
        invariant out + buffer[..used] == start + EncodeVarints(values[..i])
      {
        VarintsUpTo(values, i);
        status, used := AppendVarint(buffer, used, values[i], start, EncodeVarints(values[..i]));
        if status.Failed? {
          return;
        }
      }
      assert values[..|values|] == values;
      status := Done;
      if used > 0 {
        Shorter(out, buffer[..used], start, EncodeVarints(values));
        status := WriteAll(buffer[..used]);
      } else {
        assert out + buffer[..0] == out;
      }
    }

    /** One more varint behind those in the buffer, which may be flushed first. */
    method AppendVarint(buffer: array<Byte>, used: nat, value: U64, ghost start: seq<Byte>, ghost bytes: seq<Byte>)
      returns (status: Status, left: nat)
      requires Valid() && used <= 64 == buffer.Length && out + buffer[..used] == start + bytes
      modifies this`out, buffer
      ensures Valid() && left <= 64
      ensures status.Done? ==> left > 0 && out + buffer[..left] == start + (bytes + EncodeVarint(value))
      ensures status.Failed? ==> status.error.SizeLimit? && !RoomFor(limit, |start| + |bytes|)
    {
      status, left := MakeRoom(buffer, used, start, bytes);
      if status.Failed? {
        return;
      }
      Extend(out, buffer[..left], start, bytes, EncodeVarint(value));
      var n := WriteVarintInto(buffer, left, value);
      left := left + n;
    }

    /** Flushes the buffer when the widest varint would not fit behind what it holds. */
    method MakeRoom(buffer: array<Byte>, used: nat, ghost start: seq<Byte>, ghost bytes: seq<Byte>)
      returns (status: Status, left: nat)
      requires Valid() && used <= 64 == buffer.Length && out + buffer[..used] == start + bytes
      modifies this`out
      ensures Valid() && left + 17 <= 64
      ensures status.Done? ==> out + buffer[..left] == start + bytes
      ensures status.Failed? ==> status.error.SizeLimit? && !RoomFor(limit, |start| + |bytes|)
    {
      if used + 17 <= 64 {
        return Done, used;
      }
      Shorter(out, buffer[..used], start, bytes);
      status := WriteAll(buffer[..used]);
      left := 0;
      assert out + buffer[..0] == out;
    }
  }

  lemma Shorter(out: seq<Byte>, pending: seq<Byte>, start: seq<Byte>, bytes: seq<Byte>)
    requires out + pending == start + bytes
    ensures |out| + |pending| == |start| + |bytes|
  {
    assert |out + pending| == |start + bytes|;
  }

  lemma Extend(out: seq<Byte>, pending: seq<Byte>, start: seq<Byte>, bytes: seq<Byte>, more: seq<Byte>)
    requires out + pending == start + bytes
    ensures out + (pending + more) == start + (bytes + more)
  {
    Reassociate(out, pending, more);
    Reassociate(start, bytes, more);
  }

  lemma VarintsUpTo(values: seq<U64>, i: nat)
    requires i < |values|
    ensures EncodeVarints(values[..i + 1]) == EncodeVarints(values[..i]) + EncodeVarint(values[i])
    ensures |EncodeVarints(values[..i])| <= |EncodeVarints(values)|
  {
    assert values[..i] + [values[i]] == values[..i + 1];
    EncodeVarintsConcat(values[..i], [values[i]]);
    assert EncodeVarints([values[i]]) == EncodeVarint(values[i]);
    assert values[..i] + values[i..] == values;
    EncodeVarintsConcat(values[..i], values[i..]);
  }

  // ---------- Composition ----------

  lemma Then(limit: Option<nat>, before: seq<Byte>, middle: seq<Byte>, after: seq<Byte>, a: seq<Byte>, b: seq<Byte>,
             whole: seq<Byte>, withinA: bool, withinB: bool, status: Status)
    requires Encodes(limit, before, middle, a, withinA, Done) && whole == a + b
    requires Encodes(limit, middle, after, b, withinB, status)
    ensures Encodes(limit, before, after, whole, withinA && withinB, status)
  {
    Reassociate(before, a, b);
  }

  lemma Stops(limit: Option<nat>, before: seq<Byte>, after: seq<Byte>, a: seq<Byte>, b: seq<Byte>, whole: seq<Byte>,
              withinA: bool, withinB: bool, status: Status)
    requires Encodes(limit, before, after, a, withinA, status) && status.Failed? && whole == a + b
    ensures Encodes(limit, before, after, whole, withinA && withinB, status)
  {
  }

  // ---------- Fast paths ----------

  predicate OneByte(element: Type) {
    element.U8? || element.I8?
  }

  function RawByte(element: Type, v: Value): Byte
    requires OneByte(element) && HasType(element, v)
  {
    match element
    case U8 => v.number
    case I8 => SignedByte(v.number)
  }

  /** The bytes of a slice of one-byte integers, as they lie in memory. */
  function RawBytes(element: Type, items: seq<Value>): seq<Byte>
    requires OneByte(element) && AllHaveType(element, items)
  {
    if items == [] then [] else [RawByte(element, items[0])] + RawBytes(element, items[1..])
  }

  predicate Varints(element: Type) {
    element.Unsigned? || element.Signed?
  }

  /** The `u64` each element of 16, 32 or 64 bits is written as. */
  function AsU64(element: Type, v: Value): U64
    requires Varints(element) && WellFormed(element) && HasType(element, v)
  {
    if element.Unsigned? then v.number
    else
      ZigZagFits(v.number, element.half);
      ZigZag(v.number)
  }

  function AllAsU64(element: Type, items: seq<Value>): seq<U64>
    requires Varints(element) && WellFormed(element) && AllHaveType(element, items)
  {
    if items == [] then [] else [AsU64(element, items[0])] + AllAsU64(element, items[1..])
  }

  lemma {:induction false} RawBytesAreWire(limits: Limits, element: Type, items: seq<Value>, depth: nat)
    requires OneByte(element) && AllHaveType(element, items)
    ensures WireAll(element, items) == RawBytes(element, items) && AllWithin(limits, element, items, depth)
    decreases |items|
  {
    if items != [] {
      RawBytesAreWire(limits, element, items[1..], depth);
    }
  }

  lemma {:induction false} BulkIsWire(limits: Limits, element: Type, items: seq<Value>, depth: nat)
    requires Varints(element) && WellFormed(element) && AllHaveType(element, items)
    ensures WireAll(element, items) == EncodeVarints(AllAsU64(element, items))
    ensures AllWithin(limits, element, items, depth)
    decreases |items|
  {
    if items != [] {
      BulkIsWire(limits, element, items[1..], depth);
      var values := AllAsU64(element, items);
      assert values[0] == AsU64(element, items[0]) && values[1..] == AllAsU64(element, items[1..]);
    }
  }

  // ---------- Encoding by type ----------

  function WriterLimits(w: BoundedWriter): Limits {
    Limits(None, w.depthLimit, false)
  }

  /** Writes a value of a type, leaving the depth as it was. */
  method EncodeCompact(w: BoundedWriter, t: Type, v: Value) returns (status: Status)
    requires w.Valid() && WellFormed(t) && HasType(t, v)
    modifies w
    ensures w.Valid() && w.depth == old(w.depth)
    ensures Encodes(w.limit, old(w.out), w.out, Wire(t, v), Within(WriterLimits(w), t, v, w.depth), status)
    decreases t, 1, 0
  {
    match t {
      case Unit =>
        assert w.out + [] == w.out;
        status := Done;
      case Bool => status := w.WriteAll([if v.flag then 1 else 0]);
      case U8 => status := w.WriteAll([v.number]);
      case I8 => status := w.WriteAll([SignedByte(v.number)]);
      case Unsigned(_) => status := w.WriteAll(EncodeVarint(v.number));
      case U128 => status := w.WriteAll(EncodeVarint(v.number));
      case Signed(_) => status := w.WriteAll(EncodeVarint(ZigZag(v.number)));
      case I128 => status := w.WriteAll(EncodeVarint(ZigZag(v.number)));
      case Char => status := w.WriteAll(EncodeVarint(v.number));
      case Str => status := EncodeBytes(w, v.text);
      case Vec(_) => status := EncodeSlice(w, t, v.items);
      case Array(element, _) => status := EncodeElements(w, element, v.items);
      case Optional(_) => status := EncodeOption(w, t, v);
      case Tuple(members) => status := EncodeMembers(w, members, v.items);
      case Map(_, _, _) => status := EncodeMap(w, t, v.entries);
      case Enum(_) => status := EncodeEnum(w, t, v);
    }
  }

  method EncodeBytes(w: BoundedWriter, bytes: seq<Byte>) returns (status: Status)
    requires w.Valid() && |bytes| < U64_LIMIT
    modifies w
    ensures w.Valid() && w.depth == old(w.depth)
    ensures Encodes(w.limit, old(w.out), w.out, EncodeVarint(|bytes|) + bytes, true, status)
  {
    ghost var before := w.out;
    var prefix := EncodeVarint(|bytes|);
    status := w.WriteAll(prefix);
    if status.Failed? {
      Stops(w.limit, before, w.out, prefix, bytes, prefix + bytes, true, true, status);
      return;
    }
    ghost var middle := w.out;
    status := w.WriteAll(bytes);
    Then(w.limit, before, middle, w.out, prefix, bytes, prefix + bytes, true, true, status);
  }

  method EncodeOption(w: BoundedWriter, t: Type, v: Value) returns (status: Status)
    requires w.Valid() && t.Optional? && WellFormed(t) && HasType(t, v)
    modifies w
    ensures w.Valid() && w.depth == old(w.depth)
    ensures Encodes(w.limit, old(w.out), w.out, Wire(t, v), Within(WriterLimits(w), t, v, w.depth), status)
    decreases t, 0, 0
  {
    if v.Absent? {
      status := w.WriteAll([0]);
      return;
    }
    ghost var before, inner := w.out, Wire(t.inner, v.value);
    ghost var within := Within(WriterLimits(w), t.inner, v.value, w.depth);
    status := w.WriteAll([1]);
    if status.Failed? {
      Stops(w.limit, before, w.out, [1], inner, Wire(t, v), true, within, status);
      return;
    }
    ghost var middle := w.out;
    status := EncodeCompact(w, t.inner, v.value);
    Then(w.limit, before, middle, w.out, [1], inner, Wire(t, v), true, within, status);
  }

  method EncodeEnum(w: BoundedWriter, t: Type, v: Value) returns (status: Status)
    requires w.Valid() && t.Enum? && WellFormed(t) && HasType(t, v)
    modifies w
    ensures w.Valid() && w.depth == old(w.depth)
    ensures Encodes(w.limit, old(w.out), w.out, Wire(t, v), Within(WriterLimits(w), t, v, w.depth), status)
    decreases t, 0, 0
  {
    var payload := t.variants[v.index];
    ghost var before, tag, rest := w.out, EncodeVarint(v.index), Wire(payload, v.payload);
    ghost var within := Within(WriterLimits(w), payload, v.payload, w.depth);
    status := w.WriteAll(EncodeVarint(v.index));
    if status.Failed? {
      Stops(w.limit, before, w.out, tag, rest, Wire(t, v), true, within, status);
      return;
    }
    ghost var middle := w.out;
    WellFormedAt(t.variants, v.index);
    status := EncodeCompact(w, payload, v.payload);
    Then(w.limit, before, middle, w.out, tag, rest, Wire(t, v), true, within, status);
  }

  /** A length prefix, then the elements one level deeper. */
  method EncodeSlice(w: BoundedWriter, t: Type, items: seq<Value>) returns (status: Status)
    requires w.Valid() && t.Vec? && WellFormed(t) && HasType(t, Items(items))
    modifies w
    ensures w.Valid() && w.depth == old(w.depth)
    ensures Encodes(w.limit, old(w.out), w.out, Wire(t, Items(items)),
                    Within(WriterLimits(w), t, Items(items), w.depth), status)
    decreases t, 0, 1
  {
    ghost var before, prefix, rest := w.out, EncodeVarint(|items|), WireAll(t.element, items);
    ghost var whole, within := Wire(t, Items(items)), Within(WriterLimits(w), t, Items(items), w.depth);
    status := w.WriteAll(EncodeVarint(|items|));
    if status.Failed? {
      Stops(w.limit, before, w.out, prefix, rest, whole, true, within, status);
      return;
    }
    status := w.EnterContainer();
    if status.Failed? {
      return;
    }
    ghost var middle := w.out;
    status := EncodeElements(w, t.element, items);
    Then(w.limit, before, middle, w.out, prefix, rest, whole, true, within, status);
    w.ExitContainer();
  }

  /** Bytes at once, integers in batches, anything else one by one. */
  method EncodeElements(w: BoundedWriter, element: Type, items: seq<Value>) returns (status: Status)
    requires w.Valid() && WellFormed(element) && AllHaveType(element, items)
    modifies w
    ensures w.Valid() && w.depth == old(w.depth)
    ensures Encodes(w.limit, old(w.out), w.out, WireAll(element, items),
                    AllWithin(WriterLimits(w), element, items, w.depth), status)
    decreases element, 2, |items|
  {
    if OneByte(element) {
      RawBytesAreWire(WriterLimits(w), element, items, w.depth);
      status := w.WriteAll(RawBytes(element, items));
    } else if Varints(element) {
      BulkIsWire(WriterLimits(w), element, items, w.depth);
      status := w.EncodeVarintsBulk(AllAsU64(element, items));
    } else {
      status := EncodeOneByOne(w, element, items);
    }
  }

  method EncodeOneByOne(w: BoundedWriter, element: Type, items: seq<Value>) returns (status: Status)
    requires w.Valid() && WellFormed(element) && AllHaveType(element, items)
    modifies w
    ensures w.Valid() && w.depth == old(w.depth)
    ensures Encodes(w.limit, old(w.out), w.out, WireAll(element, items),
                    AllWithin(WriterLimits(w), element, items, w.depth), status)
    decreases element, 1, |items|
  {
    ghost var before, limits := w.out, WriterLimits(w);
    var i := 0;
    assert items[0..] == items;
    while i < |items|
      invariant i <= |items| && w.Valid() && w.depth == old(w.depth)
      invariant AllHaveType(element, items[i..])
      invariant w.out + WireAll(element, items[i..]) == before + WireAll(element, items)
      invariant AllWithin(limits, element, items[i..], w.depth) == AllWithin(limits, element, items, w.depth)
    {
      ghost var out, rest, next := w.out, items[i..], items[i + 1..];
      assert rest[0] == items[i] && rest[1..] == next;
      status := EncodeCompact(w, element, items[i]);
      OneItem(out, Wire(element, items[i]), WireAll(element, next), before, WireAll(element, items));
      if status.Failed? {
        return;
      }
      i := i + 1;
    }
    assert items[i..] == [];
    assert w.out + [] == w.out;
    status := Done;
  }

  lemma OneItem(out: seq<Byte>, first: seq<Byte>, rest: seq<Byte>, before: seq<Byte>, whole: seq<Byte>)
    requires out + (first + rest) == before + whole
    ensures (out + first) + rest == before + whole && |out| + |first| <= |before| + |whole|
  {
    Reassociate(out, first, rest);
    assert |out + (first + rest)| == |before + whole|;
  }

  method EncodeMembers(w: BoundedWriter, members: seq<Type>, items: seq<Value>) returns (status: Status)
    requires w.Valid() && AllWellFormed(members) && EachHasType(members, items)
    modifies w
    ensures w.Valid() && w.depth == old(w.depth)
    ensures Encodes(w.limit, old(w.out), w.out, WireEach(members, items),
                    EachWithin(WriterLimits(w), members, items, w.depth), status)
    decreases members, 0, 0
  {
    if members == [] {
      assert w.out + [] == w.out;
      return Done;
    }
    ghost var before, first, rest := w.out, Wire(members[0], items[0]), WireEach(members[1..], items[1..]);
    ghost var one := Within(WriterLimits(w), members[0], items[0], w.depth);
    ghost var others := EachWithin(WriterLimits(w), members[1..], items[1..], w.depth);
    status := EncodeCompact(w, members[0], items[0]);
    if status.Failed? {
      Stops(w.limit, before, w.out, first, rest, WireEach(members, items), one, others, status);
      return;
    }
    ghost var middle := w.out;
    status := EncodeMembers(w, members[1..], items[1..]);
    Then(w.limit, before, middle, w.out, first, rest, WireEach(members, items), one, others, status);
  }

  method EncodeMap(w: BoundedWriter, t: Type, entries: seq<Entry>) returns (status: Status)
    requires w.Valid() && t.Map? && WellFormed(t) && HasType(t, Entries(entries))
    modifies w
    ensures w.Valid() && w.depth == old(w.depth)
    ensures Encodes(w.limit, old(w.out), w.out, Wire(t, Entries(entries)),
                    Within(WriterLimits(w), t, Entries(entries), w.depth), status)
    decreases t, 0, |entries| + 2
  {
    ghost var before, prefix, rest := w.out, EncodeVarint(|entries|), WireEntries(t, entries);
    ghost var whole, within := Wire(t, Entries(entries)), Within(WriterLimits(w), t, Entries(entries), w.depth);
    status := w.WriteAll(EncodeVarint(|entries|));
    if status.Failed? {
      Stops(w.limit, before, w.out, prefix, rest, whole, true, within, status);
      return;
    }
    status := w.EnterContainer();
    if status.Failed? {
      return;
    }
    ghost var middle := w.out;
    status := EncodeEntries(w, t, entries);
    Then(w.limit, before, middle, w.out, prefix, rest, whole, true, within, status);
    w.ExitContainer();
  }

  /** Keys and values alternately, in key order. */
  method EncodeEntries(w: BoundedWriter, t: Type, entries: seq<Entry>) returns (status: Status)
    requires w.Valid() && t.Map? && WellFormed(t) && EntriesHaveType(t, entries)
    modifies w
    ensures w.Valid() && w.depth == old(w.depth)
    ensures Encodes(w.limit, old(w.out), w.out, WireEntries(t, entries),
                    EntriesWithin(WriterLimits(w), t, entries, w.depth), status)
    decreases t, 0, |entries| + 1
  {
    ghost var before, limits := w.out, WriterLimits(w);
    var i := 0;
    assert entries[0..] == entries;
    while i < |entries|
      invariant i <= |entries| && w.Valid() && w.depth == old(w.depth)
      invariant EntriesHaveType(t, entries[i..])
      invariant w.out + WireEntries(t, entries[i..]) == before + WireEntries(t, entries)
      invariant EntriesWithin(limits, t, entries[i..], w.depth) == EntriesWithin(limits, t, entries, w.depth)
    {
      ghost var out, next := w.out, entries[i + 1..];
      EntriesUnfold(limits, t, entries, i, w.depth);
      ghost var pair := Wire(t.key, entries[i].key) + Wire(t.value, entries[i].value);
      status := EncodePair(w, t, entries[i]);
      OneItem(out, pair, WireEntries(t, next), before, WireEntries(t, entries));
      if status.Failed? {
        return;
      }
      i := i + 1;
    }
    assert entries[i..] == [];
    assert w.out + [] == w.out;
    status := Done;
  }

  lemma EntriesUnfold(limits: Limits, t: Type, entries: seq<Entry>, i: nat, depth: nat)
    requires t.Map? && i < |entries| && EntriesHaveType(t, entries[i..])
    ensures HasType(t.key, entries[i].key) && HasType(t.value, entries[i].value)
    ensures EntriesHaveType(t, entries[i + 1..])
    ensures WireEntries(t, entries[i..])
         == (Wire(t.key, entries[i].key) + Wire(t.value, entries[i].value)) + WireEntries(t, entries[i + 1..])
    ensures EntriesWithin(limits, t, entries[i..], depth)
        <==> Within(limits, t.key, entries[i].key, depth) && Within(limits, t.value, entries[i].value, depth)
             && EntriesWithin(limits, t, entries[i + 1..], depth)
  {
    assert entries[i..][0] == entries[i] && entries[i..][1..] == entries[i + 1..];
  }

  method EncodePair(w: BoundedWriter, t: Type, entry: Entry) returns (status: Status)
    requires w.Valid() && t.Map? && WellFormed(t) && HasType(t.key, entry.key) && HasType(t.value, entry.value)
    modifies w
    ensures w.Valid() && w.depth == old(w.depth)
    ensures Encodes(w.limit, old(w.out), w.out, Wire(t.key, entry.key) + Wire(t.value, entry.value),
                    Within(WriterLimits(w), t.key, entry.key, w.depth)
                    && Within(WriterLimits(w), t.value, entry.value, w.depth), status)
    decreases t, 0, 0
  {
    ghost var before, k, v := w.out, Wire(t.key, entry.key), Wire(t.value, entry.value);
    ghost var keyWithin := Within(WriterLimits(w), t.key, entry.key, w.depth);
    ghost var valueWithin := Within(WriterLimits(w), t.value, entry.value, w.depth);
    status := EncodeCompact(w, t.key, entry.key);
    if status.Failed? {
      Stops(w.limit, before, w.out, k, v, k + v, keyWithin, valueWithin, status);
      return;
    }
    ghost var middle := w.out;
    status := EncodeCompact(w, t.value, entry.value);
    Then(w.limit, before, middle, w.out, k, v, k + v, keyWithin, valueWithin, status);
  }

  /** Encodes a value into a fresh vector: its bytes, exactly when every limit admits it. */
  method SerializeCompact(cfg: Config, t: Type, v: Value) returns (status: Status, bytes: seq<Byte>)
    requires WellFormed(t) && HasType(t, v) && |Wire(t, v)| < U64_LIMIT
    ensures status.Done? <==> Serializes(cfg, t, v)
    ensures status.Done? ==> bytes == Wire(t, v)
    ensures status.Failed? ==> status.error.SizeLimit? || status.error.DepthLimit?
    ensures status.Failed? && status.error.DepthLimit? ==> !Within(EncodeLimits(cfg), t, v, 0)
    ensures status.Failed? && status.error.SizeLimit? ==> cfg.limit.Some? && |Wire(t, v)| > cfg.limit.value
  {
    var w := new BoundedWriter(cfg);
    status := EncodeCompact(w, t, v);
    bytes := w.out;
    assert [] + Wire(t, v) == Wire(t, v);
  }
}
