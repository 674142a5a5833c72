/**
 The bytes of a compact value by their places, type by type: what a reader with the types at hand
 finds at every position.
 */
module CompactLayout {
  import opened Bytes
  import opened Canonical
  import opened VarintLayout
  import opened CompactWire

  predicate ByteAt(bytes: seq<Byte>, pos: nat, b: int, end: nat) {
    pos < |bytes| && bytes[pos] as int == b && end == pos + 1
  }

  predicate TextAt(bytes: seq<Byte>, pos: nat, text: seq<Byte>, end: nat) {
    pos <= end <= |bytes| && bytes[pos..end] == text
  }

  /** `v` of type `t` lies between two positions; counts stand before what they count, keys before values. */
  ghost predicate Lies(t: Type, v: Value, bytes: seq<Byte>, pos: nat, end: nat)
    requires HasType(t, v)
    decreases t, 1, 0
  {
    match t
    case Unit => pos == end
    case Bool => ByteAt(bytes, pos, if v.flag then 1 else 0, end)
    case U8 => ByteAt(bytes, pos, v.number, end)
    case I8 => ByteAt(bytes, pos, v.number % 256, end)
    case Unsigned(_) => NumberAt(bytes, pos, v.number, end)
    case U128 => NumberAt(bytes, pos, v.number, end)
    case Signed(_) => SignedAt(bytes, pos, v.number, end)
    case I128 => SignedAt(bytes, pos, v.number, end)
    case Char => NumberAt(bytes, pos, v.number, end)
    case Str => exists start: nat :: NumberAt(bytes, pos, |v.text|, start) && TextAt(bytes, start, v.text, end)
    case Vec(element) =>
      exists start: nat :: NumberAt(bytes, pos, |v.items|, start) && AllLie(element, v.items, bytes, start, end)
    case Array(element, _) => AllLie(element, v.items, bytes, pos, end)
    case Optional(inner) =>
      if v.Absent? then ByteAt(bytes, pos, 0, end)
      else ByteAt(bytes, pos, 1, pos + 1) && Lies(inner, v.value, bytes, pos + 1, end)
    case Tuple(members) => EachLies(members, v.items, bytes, pos, end)
    case Map(_, _, _) =>
      exists start: nat :: NumberAt(bytes, pos, |v.entries|, start) && EntriesLie(t, v.entries, bytes, start, end)
    case Enum(variants) =>
      exists start: nat ::
        NumberAt(bytes, pos, v.index, start) && Lies(variants[v.index], v.payload, bytes, start, end)
  }

  ghost predicate AllLie(element: Type, items: seq<Value>, bytes: seq<Byte>, pos: nat, end: nat)
    requires AllHaveType(element, items)
    decreases element, 2, |items|
  {
    if items == [] then pos == end
    else
      exists next: nat ::
        Lies(element, items[0], bytes, pos, next) && AllLie(element, items[1..], bytes, next, end)
  }

  ghost predicate EachLies(members: seq<Type>, items: seq<Value>, bytes: seq<Byte>, pos: nat, end: nat)
    requires EachHasType(members, items)
    decreases members, 0, 0
  {
    if members == [] then pos == end
    else
      exists next: nat ::
        Lies(members[0], items[0], bytes, pos, next) && EachLies(members[1..], items[1..], bytes, next, end)
  }

  ghost predicate EntriesLie(t: Type, entries: seq<Entry>, bytes: seq<Byte>, pos: nat, end: nat)
    requires t.Map? && EntriesHaveType(t, entries)
    decreases t, 0, |entries|
  {
    if entries == [] then pos == end
    else
      exists middle: nat, next: nat ::
        && Lies(t.key, entries[0].key, bytes, pos, middle) && Lies(t.value, entries[0].value, bytes, middle, next)
        && EntriesLie(t, entries[1..], bytes, next, end)
  }

  /** The bytes stand between two positions. */
  predicate Spans(bytes: seq<Byte>, pos: nat, wire: seq<Byte>, end: nat) {
    At(bytes, pos, wire) && end == pos + |wire|
  }

  lemma SpanParts(bytes: seq<Byte>, pos: nat, wire: seq<Byte>, end: nat, a: seq<Byte>, b: seq<Byte>)
      returns (next: nat)
    requires Spans(bytes, pos, wire, end) && wire == a + b
    ensures Spans(bytes, pos, a, next) && Spans(bytes, next, b, end)
  {
    next := pos + |a|;
    AtParts(bytes, pos, wire, a, b, next);
  }

  lemma NumberLies(bytes: seq<Byte>, pos: nat, n: nat, end: nat)
    requires n < U128_LIMIT && Spans(bytes, pos, EncodeVarint(n), end)
    ensures NumberAt(bytes, pos, n, end)
  {
    EncodedLies(bytes, pos, n, end);
  }

  /** A number and what stands behind it. */
  lemma CountLies(bytes: seq<Byte>, pos: nat, wire: seq<Byte>, end: nat, n: nat, rest: seq<Byte>)
      returns (start: nat)
    requires n < U128_LIMIT && Spans(bytes, pos, wire, end) && wire == EncodeVarint(n) + rest
    ensures NumberAt(bytes, pos, n, start) && Spans(bytes, start, rest, end)
  {
    start := SpanParts(bytes, pos, wire, end, EncodeVarint(n), rest);
    NumberLies(bytes, pos, n, start);
  }

  lemma OneByte(bytes: seq<Byte>, pos: nat, b: Byte, end: nat)
    requires Spans(bytes, pos, [b], end)
    ensures ByteAt(bytes, pos, b as int, end)
  {
    assert bytes[pos..pos + 1][0] == bytes[pos];
  }

  predicate IsNumber(t: Type) {
    t.Unsigned? || t.U128? || t.Char? || t.Signed? || t.I128?
  }

  predicate IsOneByte(t: Type) {
    t.Bool? || t.U8? || t.I8?
  }

  lemma NumbersLie(t: Type, v: Value, bytes: seq<Byte>, pos: nat, end: nat)
    requires IsNumber(t) && HasType(t, v) && Spans(bytes, pos, Wire(t, v), end)
    ensures Lies(t, v, bytes, pos, end)
  {
    if t.Signed? || t.I128? {
      SignedLies(bytes, pos, v.number, end);
    } else {
      NumberLies(bytes, pos, v.number, end);
    }
  }

  lemma BytesLie(t: Type, v: Value, bytes: seq<Byte>, pos: nat, end: nat)
    requires IsOneByte(t) && HasType(t, v) && Spans(bytes, pos, Wire(t, v), end)
    ensures Lies(t, v, bytes, pos, end)
  {
    OneByte(bytes, pos, Wire(t, v)[0], end);
  }

  lemma StrLies(t: Type, v: Value, bytes: seq<Byte>, pos: nat, end: nat)
    requires t.Str? && HasType(t, v) && Spans(bytes, pos, Wire(t, v), end)
    ensures Lies(t, v, bytes, pos, end)
  {
    var start := CountLies(bytes, pos, Wire(t, v), end, |v.text|, v.text);
    assert TextAt(bytes, start, v.text, end);
  }

  /** Where the bytes of a value stand, the value lies. */
  lemma {:induction false} WireLies(t: Type, v: Value, bytes: seq<Byte>, pos: nat, wire: seq<Byte>, end: nat)
    requires HasType(t, v) && wire == Wire(t, v) && Spans(bytes, pos, wire, end)
    ensures Lies(t, v, bytes, pos, end)
    decreases t, 1, 0
  {
    match t
    case Unit =>
    case Str => StrLies(t, v, bytes, pos, end);
    case Vec(element) =>
      var start := CountLies(bytes, pos, wire, end, |v.items|, WireAll(element, v.items));
      AllWireLies(element, v.items, bytes, start, WireAll(element, v.items), end);
    case Array(element, _) => AllWireLies(element, v.items, bytes, pos, wire, end);
    case Optional(inner) => OptionalLies(t, v, bytes, pos, wire, end);
    case Tuple(members) => EachWireLies(members, v.items, bytes, pos, wire, end);
    case Map(_, _, _) =>
      var start := CountLies(bytes, pos, wire, end, |v.entries|, WireEntries(t, v.entries));
      EntriesWireLie(t, v.entries, bytes, start, WireEntries(t, v.entries), end);
    case Enum(variants) =>
      var start := CountLies(bytes, pos, wire, end, v.index, Wire(variants[v.index], v.payload));
      WireLies(variants[v.index], v.payload, bytes, start, Wire(variants[v.index], v.payload), end);
    case _ =>
      if IsNumber(t) {
        NumbersLie(t, v, bytes, pos, end);
      } else {
        BytesLie(t, v, bytes, pos, end);
      }
  }

  lemma {:induction false} OptionalLies(t: Type, v: Value, bytes: seq<Byte>, pos: nat, wire: seq<Byte>, end: nat)
    requires t.Optional? && HasType(t, v) && wire == Wire(t, v) && Spans(bytes, pos, wire, end)
    ensures Lies(t, v, bytes, pos, end)
    decreases t, 0, 0
  {
    if v.Absent? {
      OneByte(bytes, pos, 0, end);
    } else {
      var inner := Wire(t.inner, v.value);
      var next := SpanParts(bytes, pos, wire, end, [1], inner);
      OneByte(bytes, pos, 1, next);
      WireLies(t.inner, v.value, bytes, next, inner, end);
    }
  }

  lemma {:induction false} AllWireLies(element: Type, items: seq<Value>, bytes: seq<Byte>, pos: nat, wire: seq<Byte>,
                                       end: nat)
    requires AllHaveType(element, items) && wire == WireAll(element, items) && Spans(bytes, pos, wire, end)
    ensures AllLie(element, items, bytes, pos, end)
    decreases element, 2, |items|
  {
    if items != [] {
      var first, rest := Wire(element, items[0]), WireAll(element, items[1..]);
      var next := SpanParts(bytes, pos, wire, end, first, rest);
      WireLies(element, items[0], bytes, pos, first, next);
      AllWireLies(element, items[1..], bytes, next, rest, end);
    }
  }

  lemma {:induction false} EachWireLies(members: seq<Type>, items: seq<Value>, bytes: seq<Byte>, pos: nat,
                                        wire: seq<Byte>, end: nat)
    requires EachHasType(members, items) && wire == WireEach(members, items) && Spans(bytes, pos, wire, end)
    ensures EachLies(members, items, bytes, pos, end)
    decreases members, 0, 0
  {
    if members != [] {
      var first, rest := Wire(members[0], items[0]), WireEach(members[1..], items[1..]);
      var next := SpanParts(bytes, pos, wire, end, first, rest);
      WireLies(members[0], items[0], bytes, pos, first, next);
      EachWireLies(members[1..], items[1..], bytes, next, rest, end);
    }
  }

  lemma {:induction false} EntriesWireLie(t: Type, entries: seq<Entry>, bytes: seq<Byte>, pos: nat, wire: seq<Byte>,
                                          end: nat)
    requires t.Map? && EntriesHaveType(t, entries) && wire == WireEntries(t, entries) && Spans(bytes, pos, wire, end)
    ensures EntriesLie(t, entries, bytes, pos, end)
    decreases t, 0, |entries|
  {
    if entries != [] {
      var key, value := Wire(t.key, entries[0].key), Wire(t.value, entries[0].value);
      var rest := WireEntries(t, entries[1..]);
      var next := SpanParts(bytes, pos, wire, end, key + value, rest);
      var middle := SpanParts(bytes, pos, key + value, next, key, value);
      WireLies(t.key, entries[0].key, bytes, pos, key, middle);
      WireLies(t.value, entries[0].value, bytes, middle, value, next);
      EntriesWireLie(t, entries[1..], bytes, next, rest, end);
    }
  }
}
