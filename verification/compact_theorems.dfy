/**
 Round trip and canonicity of the compact profile: decoding inverts encoding over every type, and
 strict decoding accepts exactly what encoding produces, but for maps whose keys arrive unsorted.
 */
module CompactTheorems {
  import opened Bytes
  import opened Canonical
  import opened Utf
  import opened CompactWire

  /** An input that fits in memory, with a byte limit only when it is longer than that. */
  predicate Sane(e: Env) {
    |e.input| < U64_LIMIT && e.limits.decoding && (e.limitEnd.Some? ==> e.limitEnd.value < |e.input|)
  }

  /** The bytes stand at a position, before the byte limit. */
  predicate Stands(e: Env, pos: nat, bytes: seq<Byte>) {
    At(e.input, pos, bytes) && !Past(e, pos + |bytes|) && Sane(e)
  }

  lemma StandsParts(e: Env, pos: nat, whole: seq<Byte>, a: seq<Byte>, b: seq<Byte>, next: nat)
    requires Stands(e, pos, whole) && whole == a + b && next == pos + |a|
    ensures Stands(e, pos, a) && Stands(e, next, b) && next + |b| == pos + |whole|
  {
    AtParts(e.input, pos, whole, a, b, next);
  }

  // ---------- Round trip: leaves ----------

  lemma VarintStands(e: Env, pos: nat, value: nat, bytes: seq<Byte>)
    requires value < U128_LIMIT && bytes == EncodeVarint(value) && Stands(e, pos, bytes)
    ensures Varint(e, pos) == Ok(value, pos + |bytes|)
  {
    VarintReadsBack(e.input, pos, value);
  }

  lemma ZigStands(e: Env, pos: nat, number: int, half: int, bytes: seq<Byte>)
    requires IsI128(number) && -half <= number < half
    requires bytes == EncodeVarint(ZigZag(number)) && Stands(e, pos, bytes)
    ensures Zig(e, pos, half) == Ok(number, pos + |bytes|)
  {
    VarintStands(e, pos, ZigZag(number), bytes);
    ZigZagReadsBack(number);
  }

  lemma ByteStands(e: Env, pos: nat, b: Byte)
    requires Stands(e, pos, [b])
    ensures ReadByte(e, pos) == Ok(b, pos + 1)
  {
    assert e.input[pos..pos + 1][0] == e.input[pos];
  }

  /** A length prefix and what follows it. */
  lemma PrefixStands(e: Env, pos: nat, len: nat, rest: seq<Byte>, bytes: seq<Byte>, start: nat)
    requires len < U64_LIMIT && bytes == EncodeVarint(len) + rest && start == pos + |EncodeVarint(len)|
    requires Stands(e, pos, bytes)
    ensures Below(e, pos, U64_LIMIT) == Ok(len, start) && Stands(e, start, rest)
    ensures start + |rest| == pos + |bytes| && start <= |e.input| && !Past(e, start)
  {
    StandsParts(e, pos, bytes, EncodeVarint(len), rest, start);
    VarintStands(e, pos, len, EncodeVarint(len));
  }

  lemma TextStands(e: Env, pos: nat, text: seq<Byte>, bytes: seq<Byte>, depth: nat)
    requires |text| < U64_LIMIT && Utf8(text) && bytes == EncodeVarint(|text|) + text && Stands(e, pos, bytes)
    ensures Decode(e, Str, pos, depth) == Ok(Text(text), pos + |bytes|)
  {
    var start := pos + |EncodeVarint(|text|)|;
    PrefixStands(e, pos, |text|, text, bytes, start);
    TakeStands(e, start, text);
  }

  lemma TakeStands(e: Env, pos: nat, bytes: seq<Byte>)
    requires Stands(e, pos, bytes)
    ensures Take(e, pos, |bytes|) == Ok(bytes, pos + |bytes|)
  {
  }

  predicate Scalar(t: Type) {
    t.Unit? || t.Bool? || t.U8? || t.I8? || t.Unsigned? || t.U128? || t.Signed? || t.I128? || t.Char?
  }

  lemma ScalarReadsBack(e: Env, t: Type, v: Value, pos: nat, depth: nat, bytes: seq<Byte>)
    requires Scalar(t) && HasType(t, v) && bytes == Wire(t, v) && Stands(e, pos, bytes)
    ensures Decode(e, t, pos, depth) == Ok(v, pos + |bytes|)
  {
    match t
    case Unit =>
    case Bool => ByteStands(e, pos, if v.flag then 1 else 0);
    case U8 => ByteStands(e, pos, v.number);
    case I8 => ByteStands(e, pos, SignedByte(v.number));
    case Unsigned(_) => VarintStands(e, pos, v.number, bytes);
    case U128 => VarintStands(e, pos, v.number, bytes);
    case Signed(half) => ZigStands(e, pos, v.number, half, bytes);
    case I128 => ZigStands(e, pos, v.number, I128_LIMIT, bytes);
    case Char => VarintStands(e, pos, v.number, bytes);
  }

  // ---------- Round trip: all types ----------

  /** A value is read back from its bytes, wherever they stand, with the position right behind them. */
  lemma {:induction false} ReadsBack(e: Env, t: Type, v: Value, pos: nat, depth: nat, bytes: seq<Byte>)
    requires WellFormed(t) && HasType(t, v) && bytes == Wire(t, v) && Stands(e, pos, bytes)
    requires Within(e.limits, t, v, depth)
    ensures Decode(e, t, pos, depth) == Ok(v, pos + |bytes|)
    decreases t, 1, 0
  {
    if Scalar(t) {
      ScalarReadsBack(e, t, v, pos, depth, bytes);
    } else {
      match t
      case Str => TextStands(e, pos, v.text, bytes, depth);
      case Vec(element) => VectorReadsBack(e, t, v, pos, depth, bytes);
      case Array(element, length) => ManyReadBack(e, element, v.items, pos, depth, bytes, pos + |bytes|);
      case Optional(inner) => OptionReadsBack(e, t, v, pos, depth, bytes);
      case Tuple(members) => EachReadsBack(e, members, v.items, pos, depth, bytes);
      case Map(_, _, _) => MapReadsBack(e, t, v, pos, depth, bytes);
      case Enum(variants) => EnumReadsBack(e, t, v, pos, depth, bytes);
    }
  }

  lemma {:induction false} OptionReadsBack(e: Env, t: Type, v: Value, pos: nat, depth: nat, bytes: seq<Byte>)
    requires t.Optional? && WellFormed(t) && HasType(t, v) && bytes == Wire(t, v) && Stands(e, pos, bytes)
    requires Within(e.limits, t, v, depth)
    ensures Decode(e, t, pos, depth) == Ok(v, pos + |bytes|)
    decreases t, 0, 0
  {
    if v.Absent? {
      ByteStands(e, pos, 0);
    } else {
      var inner := Wire(t.inner, v.value);
      StandsParts(e, pos, bytes, [1], inner, pos + 1);
      ByteStands(e, pos, 1);
      ReadsBack(e, t.inner, v.value, pos + 1, depth, inner);
    }
  }

  lemma {:induction false} EnumReadsBack(e: Env, t: Type, v: Value, pos: nat, depth: nat, bytes: seq<Byte>)
    requires t.Enum? && WellFormed(t) && HasType(t, v) && bytes == Wire(t, v) && Stands(e, pos, bytes)
    requires Within(e.limits, t, v, depth)
    ensures Decode(e, t, pos, depth) == Ok(v, pos + |bytes|)
    decreases t, 0, 0
  {
    var payload := Wire(t.variants[v.index], v.payload);
    var start := pos + |EncodeVarint(v.index)|;
    PrefixStands(e, pos, v.index, payload, bytes, start);
    WellFormedAt(t.variants, v.index);
    ReadsBack(e, t.variants[v.index], v.payload, start, depth, payload);
    EnumStep(e, t, v.index, v.payload, pos, depth, start, start + |payload|);
  }

  lemma EnumStep(e: Env, t: Type, index: nat, payload: Value, pos: nat, depth: nat, start: nat, next: nat)
    requires t.Enum? && index < |t.variants| && index < U32_LIMIT && Below(e, pos, U64_LIMIT) == Ok(index, start)
    requires Decode(e, t.variants[index], start, depth) == Ok(payload, next)
    ensures Decode(e, t, pos, depth) == Ok(Variant(index, payload), next)
  {
  }

  lemma {:induction false} VectorReadsBack(e: Env, t: Type, v: Value, pos: nat, depth: nat, bytes: seq<Byte>)
    requires t.Vec? && WellFormed(t) && HasType(t, v) && bytes == Wire(t, v) && Stands(e, pos, bytes)
    requires Within(e.limits, t, v, depth)
    ensures Decode(e, t, pos, depth) == Ok(v, pos + |bytes|)
    decreases t, 0, 0
  {
    var elements := WireAll(t.element, v.items);
    var start := pos + |EncodeVarint(|v.items|)|;
    PrefixStands(e, pos, |v.items|, elements, bytes, start);
    ManyReadBack(e, t.element, v.items, start, depth + 1, elements, start + |elements|);
    BytesFit(e, t.element, v.items, start, elements);
    VectorStep(e, t, v.items, pos, depth, start, start + |elements|);
  }

  lemma BytesFit(e: Env, element: Type, items: seq<Value>, start: nat, bytes: seq<Byte>)
    requires AllHaveType(element, items) && bytes == WireAll(element, items) && Stands(e, start, bytes)
    ensures element.U8? ==> start + |items| < U64_LIMIT
  {
    if element.U8? {
      BytesAreItems(items);
    }
  }

  lemma {:induction false} BytesAreItems(items: seq<Value>)
    requires AllHaveType(U8, items)
    ensures |WireAll(U8, items)| == |items|
    decreases |items|
  {
    if items != [] {
      BytesAreItems(items[1..]);
    }
  }

  lemma VectorStep(e: Env, t: Type, items: seq<Value>, pos: nat, depth: nat, start: nat, next: nat)
    requires t.Vec? && Below(e, pos, U64_LIMIT) == Ok(|items|, start)
    requires Admits(e.limits, |items|, depth) && (t.element.I8? ==> items == [])
    requires DecodeMany(e, t.element, |items|, start, depth + 1) == Ok(items, next)
    requires start <= |e.input| && !Past(e, start) && Sane(e)
    requires t.element.U8? ==> start + |items| < U64_LIMIT
    ensures Decode(e, t, pos, depth) == Ok(Items(items), next)
  {
    if t.element.I8? {
      assert Take(e, start, 0) == Ok([], start);
    } else if t.element.U8? {
      ManyBytes(e, |items|, start, depth + 1);
    }
  }

  /** The byte fast path: one bounded take yields what reading the bytes one by one yields. */
  lemma {:induction false} ManyBytes(e: Env, count: nat, pos: nat, depth: nat)
    requires Bounded(e, pos) && !Past(e, pos) && pos + count < U64_LIMIT
    ensures DecodeMany(e, U8, count, pos, depth) == AsBytes(Take(e, pos, count))
    decreases count
  {
    if count == 0 {
      assert Take(e, pos, 0) == Ok([], pos);
    } else {
      var first := ReadByte(e, pos);
      assert Decode(e, U8, pos, depth) == Numbered(first);
      if first.Ok? {
        ManyBytes(e, count - 1, pos + 1, depth);
        if Take(e, pos, count).Ok? {
          var bytes := e.input[pos..pos + count];
          assert bytes[1..] == e.input[pos + 1..pos + 1 + (count - 1)] && bytes[0] == first.value;
        }
      }
    }
  }


  lemma {:induction false} ManyReadBack(e: Env, element: Type, items: seq<Value>, pos: nat, depth: nat,
                                        bytes: seq<Byte>, end: nat)
    requires WellFormed(element) && AllHaveType(element, items) && bytes == WireAll(element, items)
    requires Stands(e, pos, bytes) && AllWithin(e.limits, element, items, depth) && end == pos + |bytes|
    ensures DecodeMany(e, element, |items|, pos, depth) == Ok(items, end)
    decreases element, 2, |items|
  {
    if items == [] {
      NoElements(e, element, items, pos, depth);
    } else {
      var others := items[1..];
      OtherItems(e.limits, element, items, others, depth);
      var first, rest := Wire(element, items[0]), WireAll(element, others);
      var next := pos + |first|;
      StandsParts(e, pos, bytes, first, rest, next);
      ReadsBack(e, element, items[0], pos, depth, first);
      ManyReadBack(e, element, others, next, depth, rest, end);
      ManyStep(e, element, items, pos, depth, next, end);
    }
  }

  lemma OtherItems(limits: Limits, element: Type, items: seq<Value>, others: seq<Value>, depth: nat)
    requires items != [] && others == items[1..] && AllHaveType(element, items)
    requires AllWithin(limits, element, items, depth)
    ensures HasType(element, items[0]) && Within(limits, element, items[0], depth)
    ensures AllHaveType(element, others) && AllWithin(limits, element, others, depth)
    ensures WireAll(element, items) == Wire(element, items[0]) + WireAll(element, others)
  {
  }

  lemma NoElements(e: Env, element: Type, items: seq<Value>, pos: nat, depth: nat)
    requires items == []
    ensures AllHaveType(element, items) && WireAll(element, items) == []
    ensures DecodeMany(e, element, |items|, pos, depth) == Ok(items, pos)
  {
  }

  lemma ManyStep(e: Env, element: Type, items: seq<Value>, pos: nat, depth: nat, next: nat, end: nat)
    requires items != [] && Decode(e, element, pos, depth) == Ok(items[0], next)
    requires DecodeMany(e, element, |items| - 1, next, depth) == Ok(items[1..], end)
    ensures DecodeMany(e, element, |items|, pos, depth) == Ok(items, end)
  {
    assert items == [items[0]] + items[1..];
  }

  lemma {:induction false} EachReadsBack(e: Env, members: seq<Type>, items: seq<Value>, pos: nat, depth: nat,
                                         bytes: seq<Byte>)
    requires AllWellFormed(members) && EachHasType(members, items) && bytes == WireEach(members, items)
    requires Stands(e, pos, bytes) && EachWithin(e.limits, members, items, depth)
    ensures DecodeEach(e, members, pos, depth) == Ok(items, pos + |bytes|)
    decreases members, 0, 0
  {
    if members == [] {
      NoMembers(e, members, items, pos, depth);
    } else {
      var first, rest := Wire(members[0], items[0]), WireEach(members[1..], items[1..]);
      var next := pos + |first|;
      StandsParts(e, pos, bytes, first, rest, next);
      ReadsBack(e, members[0], items[0], pos, depth, first);
      EachReadsBack(e, members[1..], items[1..], next, depth, rest);
      EachStep(e, members, items, pos, depth, next, pos + |bytes|);
    }
  }

  lemma NoMembers(e: Env, members: seq<Type>, items: seq<Value>, pos: nat, depth: nat)
    requires members == [] && items == []
    ensures EachHasType(members, items) && WireEach(members, items) == []
    ensures DecodeEach(e, members, pos, depth) == Ok(items, pos)
  {
  }

  lemma EachStep(e: Env, members: seq<Type>, items: seq<Value>, pos: nat, depth: nat, next: nat, end: nat)
    requires members != [] && items != [] && Decode(e, members[0], pos, depth) == Ok(items[0], next)
    requires DecodeEach(e, members[1..], next, depth) == Ok(items[1..], end)
    ensures DecodeEach(e, members, pos, depth) == Ok(items, end)
  {
    assert items == [items[0]] + items[1..];
  }

  // ---------- Round trip: maps ----------

  lemma {:induction false} MapReadsBack(e: Env, t: Type, v: Value, pos: nat, depth: nat, bytes: seq<Byte>)
    requires t.Map? && WellFormed(t) && HasType(t, v) && bytes == Wire(t, v) && Stands(e, pos, bytes)
    requires Within(e.limits, t, v, depth)
    ensures Decode(e, t, pos, depth) == Ok(v, pos + |bytes|)
    decreases t, 0, |v.entries| + 1
  {
    var pairs := WireEntries(t, v.entries);
    var start := pos + |EncodeVarint(|v.entries|)|;
    PrefixStands(e, pos, |v.entries|, pairs, bytes, start);
    assert [] + v.entries == v.entries;
    EntriesReadBack(e, t, [], v.entries, start, depth + 1, pairs);
  }

  lemma {:induction false} EntriesReadBack(e: Env, t: Type, sofar: seq<Entry>, entries: seq<Entry>, pos: nat,
                                           depth: nat, bytes: seq<Byte>)
    requires t.Map? && WellFormed(t) && EntriesHaveType(t, entries) && bytes == WireEntries(t, entries)
    requires Stands(e, pos, bytes) && EntriesWithin(e.limits, t, entries, depth)
    requires Ascending(t.less, sofar + entries)
    ensures DecodeEntries(e, t, |entries|, pos, depth, sofar) == Ok(sofar + entries, pos + |bytes|)
    decreases t, 0, |entries|
  {
    if entries == [] {
      NoEntries(e, t, sofar, entries, pos, depth);
    } else {
      var middle := pos + |Wire(t.key, entries[0].key)|;
      var pair := Wire(t.key, entries[0].key) + Wire(t.value, entries[0].value);
      var rest, next, longer := WireEntries(t, entries[1..]), pos + |pair|, sofar + [entries[0]];
      StandsParts(e, pos, bytes, pair, rest, next);
      PairReadsBack(e, t, entries[0], pos, depth, pair, middle, next);
      EntriesStep(e, t, sofar, entries, pos, depth, middle, next, longer);
      EntriesReadBack(e, t, longer, entries[1..], next, depth, rest);
    }
  }

  lemma NoEntries(e: Env, t: Type, sofar: seq<Entry>, entries: seq<Entry>, pos: nat, depth: nat)
    requires t.Map? && entries == []
    ensures EntriesHaveType(t, entries) && WireEntries(t, entries) == []
    ensures DecodeEntries(e, t, |entries|, pos, depth, sofar) == Ok(sofar + entries, pos)
  {
    assert sofar + entries == sofar;
  }

  lemma EntriesStep(e: Env, t: Type, sofar: seq<Entry>, entries: seq<Entry>, pos: nat, depth: nat,
                    middle: nat, next: nat, longer: seq<Entry>)
    requires t.Map? && StrictOrder(t.less) && entries != [] && Ascending(t.less, sofar + entries)
    requires Decode(e, t.key, pos, depth) == Ok(entries[0].key, middle)
    requires Decode(e, t.value, middle, depth) == Ok(entries[0].value, next)
    requires longer == sofar + [entries[0]]
    ensures DecodeEntries(e, t, |entries|, pos, depth, sofar)
         == DecodeEntries(e, t, |entries[1..]|, next, depth, longer)
    ensures Ascending(t.less, longer + entries[1..]) && longer + entries[1..] == sofar + entries
  {
    AppendsInOrder(t.less, sofar, entries);
    assert longer + entries[1..] == sofar + entries;
    assert Entry(entries[0].key, entries[0].value) == entries[0];
  }

  lemma {:induction false} PairReadsBack(e: Env, t: Type, entry: Entry, pos: nat, depth: nat, pair: seq<Byte>,
                                         middle: nat, next: nat)
    requires t.Map? && WellFormed(t) && HasType(t.key, entry.key) && HasType(t.value, entry.value)
    requires pair == Wire(t.key, entry.key) + Wire(t.value, entry.value) && Stands(e, pos, pair)
    requires Within(e.limits, t.key, entry.key, depth) && Within(e.limits, t.value, entry.value, depth)
    requires middle == pos + |Wire(t.key, entry.key)| && next == pos + |pair|
    ensures Decode(e, t.key, pos, depth) == Ok(entry.key, middle)
    ensures Decode(e, t.value, middle, depth) == Ok(entry.value, next)
    decreases t, 0, 0
  {
    var k, v := Wire(t.key, entry.key), Wire(t.value, entry.value);
    StandsParts(e, pos, pair, k, v, middle);
    ReadsBack(e, t.key, entry.key, pos, depth, k);
    ReadsBack(e, t.value, entry.value, middle, depth, v);
  }

  /** A key behind all others is new, in order, and inserted at the end. */
  lemma AppendsInOrder(less: (Value, Value) -> bool, sofar: seq<Entry>, entries: seq<Entry>)
    requires StrictOrder(less) && entries != [] && Ascending(less, sofar + entries)
    ensures !HasKey(sofar, entries[0].key) && Follows(less, sofar, entries[0].key)
    ensures InsertEntry(less, sofar, entries[0]) == sofar + [entries[0]]
    ensures Ascending(less, (sofar + [entries[0]]) + entries[1..])
    decreases |sofar|
  {
    assert (sofar + [entries[0]]) + entries[1..] == sofar + entries;
    if sofar != [] {
      var all := sofar + entries;
      assert all[1..] == sofar[1..] + entries;
      FirstIsLeast(less, all, |sofar|);
      AppendsInOrder(less, sofar[1..], entries);
      assert [sofar[0]] + (sofar[1..] + [entries[0]]) == sofar + [entries[0]];
    }
  }

  lemma {:induction false} FirstIsLeast(less: (Value, Value) -> bool, entries: seq<Entry>, i: nat)
    requires StrictOrder(less) && Ascending(less, entries) && 0 < i < |entries|
    ensures less(entries[0].key, entries[i].key)
    decreases i
  {
    if i > 1 {
      FirstIsLeast(less, entries[1..], i - 1);
      assert entries[1..][i - 1] == entries[i];
    }
  }

  // ---------- Canonicity ----------

  /** The bytes consumed are the value's own encoding. */
  predicate Consumed(e: Env, pos: nat, next: nat, bytes: seq<Byte>) {
    At(e.input, pos, bytes) && next == pos + |bytes|
  }

  predicate Moves(e: Env, pos: nat, next: nat) {
    pos <= next <= |e.input| && (next == pos || !Past(e, next))
  }

  /** Nothing but map order can make decoding accept other bytes than the encoding. */
  predicate Strict(e: Env, t: Type) {
    e.ordered || MapFree(t)
  }

  /** What is true of every decoded value. */
  predicate Sound(e: Env, t: Type, v: Value, pos: nat, depth: nat, next: nat) {
    HasType(t, v) && Within(e.limits, t, v, depth) && Moves(e, pos, next)
    && (Strict(e, t) ==> Consumed(e, pos, next, Wire(t, v)))
  }

  predicate Bounded(e: Env, pos: nat) {
    pos <= |e.input| && Sane(e)
  }

  lemma ConsumedBoth(e: Env, pos: nat, middle: nat, next: nat, a: seq<Byte>, b: seq<Byte>, whole: seq<Byte>)
    requires Consumed(e, pos, middle, a) && Consumed(e, middle, next, b) && whole == a + b
    ensures Consumed(e, pos, next, whole)
  {
    AtBoth(e.input, pos, a, b);
  }

  lemma VarintConsumed(e: Env, pos: nat)
    requires Bounded(e, pos) && Varint(e, pos).Ok?
    ensures var r := Varint(e, pos);
      r.value < U128_LIMIT && Consumed(e, pos, r.next, EncodeVarint(r.value)) && Moves(e, pos, r.next)
  {
    VarintIsCanonical(e.input, pos);
  }

  lemma ByteConsumed(e: Env, pos: nat)
    requires Bounded(e, pos) && ReadByte(e, pos).Ok?
    ensures var r := ReadByte(e, pos); Consumed(e, pos, r.next, [r.value]) && Moves(e, pos, r.next)
  {
  }

  lemma ScalarSound(e: Env, t: Type, pos: nat, depth: nat)
    requires Scalar(t) && WellFormed(t) && Bounded(e, pos) && Decode(e, t, pos, depth).Ok?
    ensures Sound(e, t, Decode(e, t, pos, depth).value, pos, depth, Decode(e, t, pos, depth).next)
  {
    if t.Bool? || t.U8? || t.I8? {
      ByteConsumed(e, pos);
    } else if !t.Unit? {
      VarintConsumed(e, pos);
      UnZigZagReadsBack(Varint(e, pos).value);
    }
  }

  lemma TextSound(e: Env, pos: nat, depth: nat)
    requires Bounded(e, pos) && Decode(e, Str, pos, depth).Ok?
    ensures Sound(e, Str, Decode(e, Str, pos, depth).value, pos, depth, Decode(e, Str, pos, depth).next)
  {
    VarintConsumed(e, pos);
    var len, start := Varint(e, pos).value, Varint(e, pos).next;
    var text, next := Take(e, start, len).value, Take(e, start, len).next;
    ConsumedBoth(e, pos, start, next, EncodeVarint(len), text, EncodeVarint(len) + text);
  }

  /** Whatever decodes is well typed and within limits, and strictly read bytes are the encoding. */
  lemma {:induction false} DecodedIsSound(e: Env, t: Type, pos: nat, depth: nat)
    requires WellFormed(t) && Bounded(e, pos) && Decode(e, t, pos, depth).Ok?
    ensures Sound(e, t, Decode(e, t, pos, depth).value, pos, depth, Decode(e, t, pos, depth).next)
    decreases t, 1, 0
  {
    if Scalar(t) {
      ScalarSound(e, t, pos, depth);
    } else {
      match t
      case Str => TextSound(e, pos, depth);
      case Vec(_) => VectorSound(e, t, pos, depth);
      case Array(element, length) => ManySound(e, element, length, pos, depth);
      case Optional(_) => OptionSound(e, t, pos, depth);
      case Tuple(members) => EachSound(e, members, pos, depth);
      case Map(_, _, _) => MapSound(e, t, pos, depth);
      case Enum(_) => EnumSound(e, t, pos, depth);
    }
  }

  lemma {:induction false} OptionSound(e: Env, t: Type, pos: nat, depth: nat)
    requires t.Optional? && WellFormed(t) && Bounded(e, pos) && Decode(e, t, pos, depth).Ok?
    ensures Sound(e, t, Decode(e, t, pos, depth).value, pos, depth, Decode(e, t, pos, depth).next)
    decreases t, 0, 0
  {
    ByteConsumed(e, pos);
    if Decode(e, t, pos, depth).value.Present? {
      DecodedIsSound(e, t.inner, pos + 1, depth);
      var v, next := Decode(e, t, pos, depth).value, Decode(e, t, pos, depth).next;
      if Strict(e, t) {
        ConsumedBoth(e, pos, pos + 1, next, [1], Wire(t.inner, v.value), Wire(t, v));
      }
    }
  }

  lemma {:induction false} EnumSound(e: Env, t: Type, pos: nat, depth: nat)
    requires t.Enum? && WellFormed(t) && Bounded(e, pos) && Decode(e, t, pos, depth).Ok?
    ensures Sound(e, t, Decode(e, t, pos, depth).value, pos, depth, Decode(e, t, pos, depth).next)
    decreases t, 0, 0
  {
    VarintConsumed(e, pos);
    var index, start := Varint(e, pos).value, Varint(e, pos).next;
    WellFormedAt(t.variants, index);
    DecodedIsSound(e, t.variants[index], start, depth);
    var v, next := Decode(e, t, pos, depth).value, Decode(e, t, pos, depth).next;
    if Strict(e, t) {
      if !e.ordered {
        OneMapFree(t.variants, index);
      }
      ConsumedBoth(e, pos, start, next, EncodeVarint(index), Wire(t.variants[index], v.payload), Wire(t, v));
    }
  }

  lemma {:induction false} OneMapFree(types: seq<Type>, i: nat)
    requires AllMapFree(types) && i < |types|
    ensures MapFree(types[i])
  {
    if i > 0 {
      OneMapFree(types[1..], i - 1);
    }
  }

  predicate SoundMany(e: Env, element: Type, items: seq<Value>, pos: nat, depth: nat, next: nat) {
    AllHaveType(element, items) && AllWithin(e.limits, element, items, depth) && Moves(e, pos, next)
    && (Strict(e, element) ==> Consumed(e, pos, next, WireAll(element, items)))
  }

  lemma {:induction false} ManySound(e: Env, element: Type, count: nat, pos: nat, depth: nat)
    requires WellFormed(element) && Bounded(e, pos) && DecodeMany(e, element, count, pos, depth).Ok?
    ensures var r := DecodeMany(e, element, count, pos, depth);
      |r.value| == count && SoundMany(e, element, r.value, pos, depth, r.next)
    decreases element, 2, count
  {
    var r := DecodeMany(e, element, count, pos, depth);
    if count == 0 {
      NoElements(e, element, r.value, pos, depth);
    } else {
      DecodedIsSound(e, element, pos, depth);
      var first := Decode(e, element, pos, depth);
      ManySound(e, element, count - 1, first.next, depth);
      var rest := DecodeMany(e, element, count - 1, first.next, depth);
      ManySoundStep(e, element, first.value, rest.value, r.value, pos, depth, first.next, r.next);
    }
  }

  lemma ManySoundStep(e: Env, element: Type, first: Value, rest: seq<Value>, items: seq<Value>, pos: nat, depth: nat,
                      middle: nat, next: nat)
    requires Sound(e, element, first, pos, depth, middle) && SoundMany(e, element, rest, middle, depth, next)
    requires items == [first] + rest
    ensures SoundMany(e, element, items, pos, depth, next)
  {
    assert items[1..] == rest;
    if Strict(e, element) {
      ConsumedBoth(e, pos, middle, next, Wire(element, first), WireAll(element, rest), WireAll(element, items));
    }
  }

  lemma {:induction false} VectorSound(e: Env, t: Type, pos: nat, depth: nat)
    requires t.Vec? && WellFormed(t) && Bounded(e, pos) && Decode(e, t, pos, depth).Ok?
    ensures Sound(e, t, Decode(e, t, pos, depth).value, pos, depth, Decode(e, t, pos, depth).next)
    decreases t, 0, 0
  {
    VarintConsumed(e, pos);
    var len, start := Varint(e, pos).value, Varint(e, pos).next;
    var v, next := Decode(e, t, pos, depth).value, Decode(e, t, pos, depth).next;
    if t.element.I8? {
      NoElements(e, t.element, v.items, start, depth + 1);
    } else {
      if t.element.U8? {
        ManyBytes(e, len, start, depth + 1);
      }
      ManySound(e, t.element, len, start, depth + 1);
    }
    VectorSoundStep(e, t, v, len, pos, depth, start, next);
  }

  lemma VectorSoundStep(e: Env, t: Type, v: Value, len: nat, pos: nat, depth: nat, start: nat, next: nat)
    requires t.Vec? && v.Items? && |v.items| == len < U64_LIMIT
    requires Consumed(e, pos, start, EncodeVarint(len)) && Moves(e, pos, start)
    requires SoundMany(e, t.element, v.items, start, depth + 1, next)
    requires Admits(e.limits, len, depth) && (t.element.I8? ==> len == 0)
    ensures Sound(e, t, v, pos, depth, next)
  {
    if Strict(e, t) {
      ConsumedBoth(e, pos, start, next, EncodeVarint(len), WireAll(t.element, v.items), Wire(t, v));
    }
  }

  predicate StrictEach(e: Env, members: seq<Type>) {
    e.ordered || AllMapFree(members)
  }

  predicate SoundEach(e: Env, members: seq<Type>, items: seq<Value>, pos: nat, depth: nat, next: nat) {
    EachHasType(members, items) && EachWithin(e.limits, members, items, depth) && Moves(e, pos, next)
    && (StrictEach(e, members) ==> Consumed(e, pos, next, WireEach(members, items)))
  }

  lemma {:induction false} EachSound(e: Env, members: seq<Type>, pos: nat, depth: nat)
    requires AllWellFormed(members) && Bounded(e, pos) && DecodeEach(e, members, pos, depth).Ok?
    ensures var r := DecodeEach(e, members, pos, depth); SoundEach(e, members, r.value, pos, depth, r.next)
    decreases members, 0, 0
  {
    var r := DecodeEach(e, members, pos, depth);
    if members == [] {
      NoMembers(e, members, r.value, pos, depth);
    } else {
      DecodedIsSound(e, members[0], pos, depth);
      var first := Decode(e, members[0], pos, depth);
      EachSound(e, members[1..], first.next, depth);
      var rest := DecodeEach(e, members[1..], first.next, depth);
      EachSoundStep(e, members, first.value, rest.value, r.value, pos, depth, first.next, r.next);
    }
  }

  lemma EachSoundStep(e: Env, members: seq<Type>, first: Value, rest: seq<Value>, items: seq<Value>,
                      pos: nat, depth: nat, middle: nat, next: nat)
    requires members != [] && Sound(e, members[0], first, pos, depth, middle)
    requires SoundEach(e, members[1..], rest, middle, depth, next)
    requires items == [first] + rest
    ensures SoundEach(e, members, items, pos, depth, next)
  {
    assert items[1..] == rest;
    if StrictEach(e, members) {
      ConsumedBoth(e, pos, middle, next, Wire(members[0], first), WireEach(members[1..], rest),
                   WireEach(members, items));
    }
  }

  // ---------- Canonicity: maps ----------

  predicate SoundEntries(e: Env, t: Type, entries: seq<Entry>, depth: nat) {
    t.Map? && EntriesHaveType(t, entries) && EntriesWithin(e.limits, t, entries, depth) && Ascending(t.less, entries)
  }

  lemma {:induction false} MapSound(e: Env, t: Type, pos: nat, depth: nat)
    requires t.Map? && WellFormed(t) && Bounded(e, pos) && Decode(e, t, pos, depth).Ok?
    ensures Sound(e, t, Decode(e, t, pos, depth).value, pos, depth, Decode(e, t, pos, depth).next)
    decreases t, 0, U64_LIMIT + 1
  {
    VarintConsumed(e, pos);
    var len, start := Varint(e, pos).value, Varint(e, pos).next;
    EntriesSound(e, t, len, start, depth + 1, [], DecodeEntries(e, t, len, start, depth + 1, []));
    var v, next := Decode(e, t, pos, depth).value, Decode(e, t, pos, depth).next;
    if e.ordered {
      assert v.entries[0..] == v.entries;
      ConsumedBoth(e, pos, start, next, EncodeVarint(len), WireEntries(t, v.entries), Wire(t, v));
    }
  }

  lemma {:induction false} EntriesSound(e: Env, t: Type, count: nat, pos: nat, depth: nat, sofar: seq<Entry>,
                                        r: Outcome<seq<Entry>>)
    requires t.Map? && WellFormed(t) && Bounded(e, pos) && SoundEntries(e, t, sofar, depth)
    requires r == DecodeEntries(e, t, count, pos, depth, sofar) && r.Ok?
    ensures |r.value| == |sofar| + count && SoundEntries(e, t, r.value, depth) && Moves(e, pos, r.next)
    ensures e.ordered ==> Added(e, t, sofar, r.value, pos, r.next)
    decreases t, 0, count
  {
    if count == 0 {
      NothingAdded(e, t, sofar, pos);
    } else {
      var key := Decode(e, t.key, pos, depth);
      FirstEntryRead(e, t, count, pos, depth, sofar, key, r);
      var value := Decode(e, t.value, key.next, depth);
      PairSound(e, t, pos, depth, key, value);
      var entry := Entry(key.value, value.value);
      InsertSound(e, t, sofar, entry, depth);
      EntriesSound(e, t, count - 1, value.next, depth, InsertEntry(t.less, sofar, entry), r);
      if e.ordered {
        InsertAtEnd(t.less, sofar, entry);
        AddedStep(e, t, sofar, entry, r.value, pos, key.next, value.next, r.next);
      }
    }
  }

  /** What reading at least one more entry goes through. */
  lemma FirstEntryRead(e: Env, t: Type, count: nat, pos: nat, depth: nat, sofar: seq<Entry>, key: Outcome<Value>,
                       r: Outcome<seq<Entry>>)
    requires t.Map? && count > 0 && key == Decode(e, t.key, pos, depth)
    requires r == DecodeEntries(e, t, count, pos, depth, sofar) && r.Ok?
    ensures key.Ok? && Decode(e, t.value, key.next, depth).Ok? && !HasKey(sofar, key.value)
    ensures e.ordered ==> Follows(t.less, sofar, key.value)
    ensures var value := Decode(e, t.value, key.next, depth);
      r == DecodeEntries(e, t, count - 1, value.next, depth, InsertEntry(t.less, sofar, Entry(key.value, value.value)))
  {
  }

  /** A key and its value, read one after the other. */
  lemma {:induction false} PairSound(e: Env, t: Type, pos: nat, depth: nat, key: Outcome<Value>, value: Outcome<Value>)
    requires t.Map? && WellFormed(t) && Bounded(e, pos)
    requires key == Decode(e, t.key, pos, depth) && key.Ok?
    requires value == Decode(e, t.value, key.next, depth) && value.Ok?
    ensures HasType(t.key, key.value) && HasType(t.value, value.value)
    ensures Within(e.limits, t.key, key.value, depth) && Within(e.limits, t.value, value.value, depth)
    ensures Moves(e, pos, key.next) && Moves(e, key.next, value.next) && Moves(e, pos, value.next)
    ensures Bounded(e, value.next)
    ensures e.ordered ==> Consumed(e, pos, key.next, Wire(t.key, key.value))
    ensures e.ordered ==> Consumed(e, key.next, value.next, Wire(t.value, value.value))
    decreases t, 0, 0
  {
    DecodedIsSound(e, t.key, pos, depth);
    DecodedIsSound(e, t.value, key.next, depth);
  }

  /** In order, the entries read stand behind those already there, as their own encoding. */
  predicate Added(e: Env, t: Type, sofar: seq<Entry>, result: seq<Entry>, pos: nat, next: nat) {
    t.Map? && sofar <= result && EntriesHaveType(t, result[|sofar|..])
    && Consumed(e, pos, next, WireEntries(t, result[|sofar|..]))
  }

  lemma NothingAdded(e: Env, t: Type, sofar: seq<Entry>, pos: nat)
    requires t.Map? && pos <= |e.input|
    ensures Added(e, t, sofar, sofar, pos, pos)
  {
  }

  lemma AddedStep(e: Env, t: Type, sofar: seq<Entry>, entry: Entry, result: seq<Entry>, pos: nat, middle: nat,
                  behind: nat, next: nat)
    requires t.Map? && HasType(t.key, entry.key) && HasType(t.value, entry.value)
    requires Consumed(e, pos, middle, Wire(t.key, entry.key)) && Consumed(e, middle, behind, Wire(t.value, entry.value))
    requires Added(e, t, sofar + [entry], result, behind, next)
    ensures Added(e, t, sofar, result, pos, next)
  {
    var longer := sofar + [entry];
    var rest, added := result[|longer|..], result[|sofar|..];
    assert added == [entry] + rest && added[1..] == rest;
    var pair := Wire(t.key, entry.key) + Wire(t.value, entry.value);
    ConsumedBoth(e, pos, middle, behind, Wire(t.key, entry.key), Wire(t.value, entry.value), pair);
    ConsumedBoth(e, pos, behind, next, pair, WireEntries(t, rest), WireEntries(t, added));
  }

  lemma {:induction false} InsertAtEnd(less: (Value, Value) -> bool, entries: seq<Entry>, entry: Entry)
    requires StrictOrder(less) && Ascending(less, entries) && Follows(less, entries, entry.key)
    ensures InsertEntry(less, entries, entry) == entries + [entry]
    decreases |entries|
  {
    if entries != [] {
      if |entries| > 1 {
        FirstIsLeast(less, entries, |entries| - 1);
      }
      InsertAtEnd(less, entries[1..], entry);
      assert [entries[0]] + (entries[1..] + [entry]) == entries + [entry];
    }
  }

  /** Inserting a new key keeps a map sorted, typed and within limits. */
  lemma {:induction false} InsertSound(e: Env, t: Type, entries: seq<Entry>, entry: Entry, depth: nat)
    requires t.Map? && StrictOrder(t.less) && SoundEntries(e, t, entries, depth) && !HasKey(entries, entry.key)
    requires HasType(t.key, entry.key) && HasType(t.value, entry.value)
    requires Within(e.limits, t.key, entry.key, depth) && Within(e.limits, t.value, entry.value, depth)
    ensures SoundEntries(e, t, InsertEntry(t.less, entries, entry), depth)
    ensures |InsertEntry(t.less, entries, entry)| == |entries| + 1
    decreases |entries|
  {
    var inserted := InsertEntry(t.less, entries, entry);
    if entries == [] {
      assert inserted == [entry] && inserted[1..] == [];
    } else if t.less(entry.key, entries[0].key) {
      assert inserted[1..] == entries;
    } else {
      InsertSound(e, t, entries[1..], entry, depth);
      assert inserted[1..] == InsertEntry(t.less, entries[1..], entry);
    }
  }

  // ---------- The whole profile ----------

  /** Limits of decoding imply those of encoding, which has no collection limit and cannot panic. */
  lemma {:induction false} WithinRelaxes(limits: Limits, looser: Limits, t: Type, v: Value, depth: nat)
    requires HasType(t, v) && Within(limits, t, v, depth)
    requires looser == Limits(None, limits.depth, false)
    ensures Within(looser, t, v, depth)
    decreases t, 1, 0
  {
    match t
    case Vec(element) => AllWithinRelaxes(limits, looser, element, v.items, depth + 1);
    case Array(element, _) => AllWithinRelaxes(limits, looser, element, v.items, depth);
    case Optional(inner) => if v.Present? { WithinRelaxes(limits, looser, inner, v.value, depth); }
    case Tuple(members) => EachWithinRelaxes(limits, looser, members, v.items, depth);
    case Map(_, _, _) => EntriesWithinRelaxes(limits, looser, t, v.entries, depth + 1);
    case Enum(variants) => WithinRelaxes(limits, looser, variants[v.index], v.payload, depth);
    case _ =>
  }

  lemma {:induction false} AllWithinRelaxes(limits: Limits, looser: Limits, element: Type, items: seq<Value>,
                                            depth: nat)
    requires AllHaveType(element, items) && AllWithin(limits, element, items, depth)
    requires looser == Limits(None, limits.depth, false)
    ensures AllWithin(looser, element, items, depth)
    decreases element, 2, |items|
  {
    if items != [] {
      WithinRelaxes(limits, looser, element, items[0], depth);
      AllWithinRelaxes(limits, looser, element, items[1..], depth);
    }
  }

  lemma {:induction false} EachWithinRelaxes(limits: Limits, looser: Limits, members: seq<Type>, items: seq<Value>,
                                             depth: nat)
    requires EachHasType(members, items) && EachWithin(limits, members, items, depth)
    requires looser == Limits(None, limits.depth, false)
    ensures EachWithin(looser, members, items, depth)
    decreases members, 0, 0
  {
    if members != [] {
      WithinRelaxes(limits, looser, members[0], items[0], depth);
      EachWithinRelaxes(limits, looser, members[1..], items[1..], depth);
    }
  }

  lemma {:induction false} EntriesWithinRelaxes(limits: Limits, looser: Limits, t: Type, entries: seq<Entry>,
                                                depth: nat)
    requires t.Map? && EntriesHaveType(t, entries) && EntriesWithin(limits, t, entries, depth)
    requires looser == Limits(None, limits.depth, false)
    ensures EntriesWithin(looser, t, entries, depth)
    decreases t, 0, |entries|
  {
    if entries != [] {
      WithinRelaxes(limits, looser, t.key, entries[0].key, depth);
      WithinRelaxes(limits, looser, t.value, entries[0].value, depth);
      EntriesWithinRelaxes(limits, looser, t, entries[1..], depth);
    }
  }

  /**
   Round trip: decoding what encoding wrote gives the value back and consumes every byte, exactly
   when the value is within the limits of decoding.
   */
  lemma RoundTrip(cfg: Config, t: Type, v: Value, ordered: bool)
    requires WellFormed(t) && HasType(t, v) && |Wire(t, v)| < U64_LIMIT && Serializes(cfg, t, v)
    ensures Deserialize(cfg, t, Wire(t, v), ordered) == Ok(v, |Wire(t, v)|) <==> Within(DecodeLimits(cfg), t, v, 0)
  {
    var bytes := Wire(t, v);
    if Within(DecodeLimits(cfg), t, v, 0) {
      var e := EnvOf(cfg, bytes, ordered);
      assert Stands(e, 0, bytes);
      ReadsBack(e, t, v, 0, 0, bytes);
    } else if Deserialize(cfg, t, bytes, ordered) == Ok(v, |bytes|) {
      Decodes(cfg, t, bytes, ordered);
    }
  }

  lemma Decodes(cfg: Config, t: Type, input: seq<Byte>, ordered: bool)
    requires WellFormed(t) && |input| < U64_LIMIT && Deserialize(cfg, t, input, ordered).Ok?
    ensures var r, e := Deserialize(cfg, t, input, ordered), EnvOf(cfg, input, ordered);
      && HasType(t, r.value) && Within(DecodeLimits(cfg), t, r.value, 0) && Moves(e, 0, r.next)
      && (Strict(e, t) ==> Consumed(e, 0, r.next, Wire(t, r.value)))
  {
    DecodedIsSound(EnvOf(cfg, input, ordered), t, 0, 0);
  }

  lemma AcceptedIsEncoding(cfg: Config, t: Type, input: seq<Byte>, v: Value)
    requires WellFormed(t) && MapFree(t) && |input| < U64_LIMIT
    requires Deserialize(cfg, t, input, false) == Ok(v, |input|)
    ensures HasType(t, v) && Serializes(cfg, t, v) && Within(DecodeLimits(cfg), t, v, 0) && Wire(t, v) == input
  {
    Decodes(cfg, t, input, false);
    assert input[0..|input|] == input;
    WithinRelaxes(DecodeLimits(cfg), EncodeLimits(cfg), t, v, 0);
  }

  /** Without maps, strict decoding accepts exactly the encodings, each as the value it encodes. */
  lemma AcceptsExactlyEncodings(cfg: Config, t: Type, input: seq<Byte>, v: Value)
    requires WellFormed(t) && MapFree(t) && cfg.rejectTrailing && |input| < U64_LIMIT
    ensures Deserialize(cfg, t, input, false) == Ok(v, |input|)
       <==> HasType(t, v) && Serializes(cfg, t, v) && Within(DecodeLimits(cfg), t, v, 0) && Wire(t, v) == input
  {
    var r := Deserialize(cfg, t, input, false);
    if r == Ok(v, |input|) {
      AcceptedIsEncoding(cfg, t, input, v);
    } else if HasType(t, v) && Serializes(cfg, t, v) && Within(DecodeLimits(cfg), t, v, 0) && Wire(t, v) == input {
      RoundTrip(cfg, t, v, false);
    }
  }

  /**
   With maps, the bytes a value was decoded from are its encoding exactly when the keys of every
   map in them arrive in ascending order.
   */
  lemma CanonicalIffOrdered(cfg: Config, t: Type, input: seq<Byte>)
    requires WellFormed(t) && |input| < U64_LIMIT && Deserialize(cfg, t, input, false).Ok?
    ensures var r := Deserialize(cfg, t, input, false);
      && HasType(t, r.value) && r.next <= |input|
      && (Wire(t, r.value) == input[..r.next] <==> Deserialize(cfg, t, input, true).Ok?)
      && (Deserialize(cfg, t, input, true).Ok? ==> Deserialize(cfg, t, input, true) == r)
  {
    var r, strict := Deserialize(cfg, t, input, false), Deserialize(cfg, t, input, true);
    Decodes(cfg, t, input, false);
    if strict.Ok? {
      Decodes(cfg, t, input, true);
      ReadsAgain(cfg, t, input, strict.value, strict.next, false);
    }
    if Wire(t, r.value) == input[..r.next] {
      ReadsAgain(cfg, t, input, r.value, r.next, true);
    }
  }

  lemma ReadsAgain(cfg: Config, t: Type, input: seq<Byte>, v: Value, next: nat, ordered: bool)
    requires WellFormed(t) && |input| < U64_LIMIT && HasType(t, v) && Within(DecodeLimits(cfg), t, v, 0)
    requires next <= |input| && Wire(t, v) == input[..next] && Moves(EnvOf(cfg, input, !ordered), 0, next)
    requires cfg.rejectTrailing ==> next == |input|
    ensures Deserialize(cfg, t, input, ordered) == Ok(v, next)
  {
    var e := EnvOf(cfg, input, ordered);
    assert input[0..next] == input[..next];
    assert Stands(e, 0, Wire(t, v));
    ReadsBack(e, t, v, 0, 0, Wire(t, v));
  }

  /** Two keys out of order decode all the same, and encode as other bytes. */
  lemma UnsortedMapIsAccepted(cfg: Config, less: (Value, Value) -> bool)
    requires cfg == Config(None, None, 128, true) && StrictOrder(less) && less(Number(0), Number(1))
    ensures var t, v := Map(U8, Unit, less), Entries([Entry(Number(0), Nothing), Entry(Number(1), Nothing)]);
      && Deserialize(cfg, t, [2, 1, 0], false) == Ok(v, 3)
      && HasType(t, v) && Wire(t, v) == [2, 0, 1]
      && Deserialize(cfg, t, [2, 1, 0], true) == Err(KeyOutOfOrder)
  {
    var t := Map(U8, Unit, less);
    var zero, one := Entry(Number(0), Nothing), Entry(Number(1), Nothing);
    SortedPair(t, zero, one);
    UnsortedPair(EnvOf(cfg, [2, 1, 0], false), t, zero, one);
    UnsortedPair(EnvOf(cfg, [2, 1, 0], true), t, zero, one);
  }

  lemma SortedPair(t: Type, zero: Entry, one: Entry)
    requires t.Map? && t.key.U8? && t.value.Unit? && t.less(zero.key, one.key)
    requires zero == Entry(Number(0), Nothing) && one == Entry(Number(1), Nothing)
    ensures HasType(t, Entries([zero, one])) && Wire(t, Entries([zero, one])) == [2, 0, 1]
  {
    var none: seq<Entry>, single, both := [], [one], [zero, one];
    assert both[1..] == single && single[1..] == none && single[0] == one && both[0] == zero;
    assert HasType(t.key, zero.key) && HasType(t.key, one.key) && HasType(t.value, Nothing);
    assert EntriesHaveType(t, none) && WireEntries(t, none) == [];
    assert EntriesHaveType(t, single);
    assert EntriesHaveType(t, both);
    assert Wire(t.key, one.key) == [1] && Wire(t.key, zero.key) == [0] && Wire(t.value, Nothing) == [];
    assert WireEntries(t, single) == [1];
    assert WireEntries(t, both) == [0, 1];
  }

  lemma UnsortedPair(e: Env, t: Type, zero: Entry, one: Entry)
    requires e.input == [2, 1, 0] && e.limitEnd == None && e.limits == Limits(None, 128, true)
    requires t.Map? && t.key.U8? && t.value.Unit? && StrictOrder(t.less) && t.less(zero.key, one.key)
    requires zero == Entry(Number(0), Nothing) && one == Entry(Number(1), Nothing)
    ensures Decode(e, t, 0, 0) == if e.ordered then Err(KeyOutOfOrder) else Ok(Entries([zero, one]), 3)
  {
    assert Varint(e, 0) == Ok(2, 1);
    assert Decode(e, t.key, 1, 1) == Ok(one.key, 2) && Decode(e, t.value, 2, 1) == Ok(one.value, 2);
    assert Decode(e, t.key, 2, 1) == Ok(zero.key, 3) && Decode(e, t.value, 3, 1) == Ok(zero.value, 3);
    assert InsertEntry(t.less, [], one) == [one];
    assert DecodeEntries(e, t, 2, 1, 1, []) == DecodeEntries(e, t, 1, 2, 1, [one]);
    assert [one][1..] == [] && !HasKey([], zero.key);
    assert !HasKey([one], zero.key);
    assert !Follows(t.less, [one], zero.key);
    assert InsertEntry(t.less, [one], zero) == [zero, one];
    assert !e.ordered ==> DecodeEntries(e, t, 1, 2, 1, [one]) == DecodeEntries(e, t, 0, 3, 1, [zero, one]);
  }

  /** Decoding a non-empty vector of `i8` panics on the bytes its encoding wrote, if it gets that far. */
  lemma SignedBytesPanic(cfg: Config, items: seq<Value>, ordered: bool)
    requires items != [] && HasType(Vec(I8), Items(items)) && |Wire(Vec(I8), Items(items))| < U64_LIMIT
    requires Serializes(cfg, Vec(I8), Items(items)) && Admits(DecodeLimits(cfg), |items|, 0)
    ensures Deserialize(cfg, Vec(I8), Wire(Vec(I8), Items(items)), ordered) == Err(Panic)
  {
    var bytes, rest := Wire(Vec(I8), Items(items)), WireAll(I8, items);
    var e, start := EnvOf(cfg, bytes, ordered), |EncodeVarint(|items|)|;
    assert Stands(e, 0, bytes);
    PrefixStands(e, 0, |items|, rest, bytes, start);
    SignedBytesAreItems(items);
    TakeStands(e, start, rest);
  }

  lemma {:induction false} SignedBytesAreItems(items: seq<Value>)
    requires AllHaveType(I8, items)
    ensures |WireAll(I8, items)| == |items|
    decreases |items|
  {
    if items != [] {
      SignedBytesAreItems(items[1..]);
    }
  }
}
