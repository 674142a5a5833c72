/**
 The recursive walk against the flat skip, and against the emitter: where both readers succeed they
 stop at the same byte, and on emitted bytes the probe reports exactly the value's shape.
 */
module TaggedTheorems {
  import opened Bytes
  import opened Canonical
  import opened Utf
  import opened Tagged

  // ---------- Skip versus walk ----------

  /** A scalar that the decoder can read at all ends where the walk says. */
  lemma ScalarEnds(c: Config, input: seq<Byte>, pos: nat, depth: nat)
    requires Walk(c, false, input, pos, depth).Ok? && input[pos] != TAG_ARRAY && input[pos] != TAG_OBJECT
    ensures input[pos] != TAG_END
    ensures var token := ReadToken(c, input, pos);
      && (token.Ok? ==> token.value == Token(false, Walk(c, false, input, pos, depth).value.next))
      && Walk(c, true, input, pos, depth) == if token.Ok? then Walk(c, false, input, pos, depth) else Err(token.error)
  {
  }

  predicate Opens(input: seq<Byte>, pos: nat) {
    pos < |input| && (input[pos] == TAG_ARRAY || input[pos] == TAG_OBJECT)
  }

  /** Both readers step over the tag of a container. */
  lemma OpensBoth(c: Config, input: seq<Byte>, pos: nat, depth: nat, nested: nat)
    requires nested > 0 && Opens(input, pos) && Walk(c, false, input, pos, depth).Ok?
    ensures var keyed := input[pos] == TAG_OBJECT;
      && Walk(c, false, input, pos, depth) == Nest(WalkEntries(c, false, input, pos + 1, depth + 1, keyed, 0))
      && Walk(c, true, input, pos, depth) == Nest(WalkEntries(c, true, input, pos + 1, depth + 1, keyed, 0))
      && SkipFlat(c, input, pos, nested) == SkipFlat(c, input, pos + 1, nested + 1)
  {
    WalksInside(c, false, input, pos, depth);
    WalksInside(c, true, input, pos, depth);
    assert ReadToken(c, input, pos) == Ok(Token(true, pos + 1));
  }

  /** After a walked value the flat skip has the same containers open and stands at the same byte. */
  lemma {:induction false} SkipsValue(c: Config, input: seq<Byte>, pos: nat, depth: nat, nested: nat)
    requires nested > 0 && Walk(c, false, input, pos, depth).Ok?
    ensures var walked, checked := Walk(c, false, input, pos, depth), Walk(c, true, input, pos, depth);
      && pos < |input| && input[pos] != TAG_END
      && (if checked.Ok? then
            checked == walked && SkipFlat(c, input, pos, nested) == SkipFlat(c, input, walked.value.next, nested)
          else SkipFlat(c, input, pos, nested).Err?)
    decreases |input| - pos, 0
  {
    if Opens(input, pos) {
      OpensBoth(c, input, pos, depth, nested);
      SkipsEntries(c, input, pos + 1, depth + 1, input[pos] == TAG_OBJECT, 0, nested + 1);
    } else {
      ScalarEnds(c, input, pos, depth);
    }
  }

  /** After the entries of a container and its terminator the flat skip has closed that container. */
  lemma {:induction false} SkipsEntries(c: Config, input: seq<Byte>, pos: nat, depth: nat, keyed: bool, count: nat,
                                        nested: nat)
    requires nested > 0 && WalkEntries(c, false, input, pos, depth, keyed, count).Ok?
    ensures var walked, checked := WalkEntries(c, false, input, pos, depth, keyed, count),
                                   WalkEntries(c, true, input, pos, depth, keyed, count);
      if checked.Ok? then
        checked == walked
        && SkipFlat(c, input, pos, nested)
           == if nested == 1 then Ok(walked.value.next) else SkipFlat(c, input, walked.value.next, nested - 1)
      else SkipFlat(c, input, pos, nested).Err?
    decreases |input| - pos, 1
  {
    if input[pos] != TAG_END {
      var start := EntryValue(c, false, input, pos, keyed).value;
      SkipsKey(c, input, pos, keyed, nested);
      SkipsValue(c, input, start, depth, nested);
      if EntryValue(c, true, input, pos, keyed).Ok? && Walk(c, true, input, start, depth).Ok? {
        SkipsEntries(c, input, Walk(c, false, input, start, depth).value.next, depth, keyed, count + 1, nested);
      }
    }
  }

  lemma SkipsKey(c: Config, input: seq<Byte>, pos: nat, keyed: bool, nested: nat)
    requires nested > 0 && pos < |input| && input[pos] != TAG_END && EntryValue(c, false, input, pos, keyed).Ok?
    ensures var start, checked := EntryValue(c, false, input, pos, keyed).value, EntryValue(c, true, input, pos, keyed);
      if checked.Ok? then checked.value == start && SkipFlat(c, input, pos, nested) == SkipFlat(c, input, start, nested)
      else SkipFlat(c, input, pos, nested).Err?
  {
  }

  /**
   On an input the probe walks, the decoder's skip succeeds exactly when the decoder can read every
   token of it, and then stops where the walk stops.
   */
  lemma SkipVersusWalk(c: Config, input: seq<Byte>, pos: nat, depth: nat)
    requires Walk(c, false, input, pos, depth).Ok?
    ensures Skip(c, input, pos).Ok? <==> Walk(c, true, input, pos, depth).Ok?
    ensures Skip(c, input, pos).Ok? ==> Skip(c, input, pos).value == Walk(c, false, input, pos, depth).value.next
  {
    if Opens(input, pos) {
      WalksInside(c, false, input, pos, depth);
      WalksInside(c, true, input, pos, depth);
      SkipsEntries(c, input, pos + 1, depth + 1, input[pos] == TAG_OBJECT, 0, 1);
    } else {
      ScalarEnds(c, input, pos, depth);
    }
  }

  /** The probe accepts a string that no decoder reads. */
  lemma ProbeIgnoresUtf8(c: Config)
    requires c == Config(None, None, 128, true)
    ensures ProbeOutcome(c, [TAG_STRING, 1, 0xff]) == Ok(Probe(3, 0, 0, 0))
    ensures Skip(c, [TAG_STRING, 1, 0xff], 0) == Err(InvalidUtf8)
  {
    var input: seq<Byte> := [TAG_STRING, 1, 0xff];
    assert Length(c, input, 1) == Ok(Got(1, 2));
    assert Str(c, input, 1) == Ok(Got(2, 3));
    assert input[2..3] == [0xff] && !Utf8([0xff]);
  }

  /** The skip accepts an object whose key is not a string, and a terminator beyond the byte limit. */
  lemma SkipIgnoresKeysAndLimit(c: Config)
    requires c == Config(None, None, 128, true)
    ensures Skip(c, [TAG_OBJECT, TAG_NULL, TAG_END], 0) == Ok(3)
    ensures Walk(c, false, [TAG_OBJECT, TAG_NULL, TAG_END], 0, 0) == Err(InvalidKey)
    ensures var limited := c.(limit := Some(1));
      && Skip(limited, [TAG_ARRAY, TAG_END], 0) == Ok(2)
      && Walk(limited, false, [TAG_ARRAY, TAG_END], 0, 0) == Err(SizeLimit(1))
  {
    var input: seq<Byte> := [TAG_OBJECT, TAG_NULL, TAG_END];
    assert SkipFlat(c, input, 2, 1) == Ok(3);
    assert SkipFlat(c, input, 1, 1) == SkipFlat(c, input, 2, 1);
    assert WalkEntries(c, false, input, 1, 1, true, 0) == Err(InvalidKey);
    var limited, empty: seq<Byte> := c.(limit := Some(1)), [TAG_ARRAY, TAG_END];
    assert SkipFlat(limited, empty, 1, 1) == Ok(2);
    assert WalkEntries(limited, false, empty, 1, 1, false, 0) == Err(SizeLimit(1));
  }

  // ---------- Emitted bytes ----------

  /** The bytes stand at a position, within the byte limit. */
  predicate Stands(c: Config, input: seq<Byte>, pos: nat, bytes: seq<Byte>) {
    At(input, pos, bytes) && Within(c.limit, pos + |bytes|) && |input| < U64_LIMIT
  }

  lemma StandsParts(c: Config, input: seq<Byte>, pos: nat, whole: seq<Byte>, a: seq<Byte>, b: seq<Byte>, next: nat)
    requires Stands(c, input, pos, whole) && whole == a + b && next == pos + |a|
    ensures Stands(c, input, pos, a) && Stands(c, input, next, b) && next + |b| == pos + |whole|
  {
    AtParts(input, pos, whole, a, b, next);
  }

  lemma TagStands(c: Config, input: seq<Byte>, pos: nat, whole: seq<Byte>, tag: Byte, rest: seq<Byte>)
    requires Stands(c, input, pos, whole) && whole == [tag] + rest
    ensures Take(c, input, pos, 1) == Ok(pos + 1) && input[pos] == tag
    ensures Stands(c, input, pos + 1, rest) && pos + 1 + |rest| == pos + |whole|
  {
    AtFirst(input, pos, whole, tag, rest);
  }

  lemma VarintStands(c: Config, input: seq<Byte>, pos: nat, value: nat, bytes: seq<Byte>)
    requires value < U128_LIMIT && bytes == EncodeVarint(value) && Stands(c, input, pos, bytes)
    ensures Varint(c, input, pos) == Ok(Got(value, pos + |bytes|))
  {
    VarintReadsBack(input, pos, value);
  }

  lemma TextStands(c: Config, input: seq<Byte>, pos: nat, text: seq<Byte>, rest: seq<Byte>)
    requires IsText(text) && rest == EncodeVarint(|text|) + text && Stands(c, input, pos, rest)
    ensures var start, end := pos + |EncodeVarint(|text|)|, pos + |rest|;
      Str(c, input, pos) == Ok(Got(start, end)) && start <= end <= |input| && Utf8(input[start..end])
  {
    var start := pos + |EncodeVarint(|text|)|;
    StandsParts(c, input, pos, rest, EncodeVarint(|text|), text, start);
    VarintStands(c, input, pos, |text|, EncodeVarint(|text|));
  }

  /** A string at a position, as a value, as a key and as a token. */
  lemma StrStands(c: Config, checked: bool, input: seq<Byte>, pos: nat, depth: nat, text: seq<Byte>, bytes: seq<Byte>)
    requires IsText(text) && bytes == StrBytes(text) && Stands(c, input, pos, bytes)
    ensures Walk(c, checked, input, pos, depth) == Ok(Shape(pos + |bytes|, 0, 0, 0))
    ensures EntryValue(c, checked, input, pos, true) == Ok(pos + |bytes|) && input[pos] == TAG_STRING
  {
    var rest := EncodeVarint(|text|) + text;
    TagStands(c, input, pos, bytes, TAG_STRING, rest);
    TextStands(c, input, pos + 1, text, rest);
  }

  predicate IsScalar(v: Value) {
    !v.Array? && !v.Object? && !v.Text?
  }

  lemma ScalarStands(c: Config, checked: bool, input: seq<Byte>, pos: nat, depth: nat, v: Value, bytes: seq<Byte>)
    requires IsScalar(v) && Typed(v) && bytes == Emitted(v) && Stands(c, input, pos, bytes)
    ensures Walk(c, checked, input, pos, depth) == Ok(Shape(pos + |bytes|, 0, 0, 0))
  {
    var tag, rest, end := bytes[0], bytes[1..], pos + |bytes|;
    TagStands(c, input, pos, bytes, tag, rest);
    match v
    case Null =>
    case Bool(_) =>
    case U64(u) => NumberStands(c, checked, input, pos, depth, u, rest, end);
    case U128(u) => NumberStands(c, checked, input, pos, depth, u, rest, end);
    case I64(i) =>
      ZigZagReadsBack(i);
      NumberStands(c, checked, input, pos, depth, ZigZag(i), rest, end);
    case I128(i) => NumberStands(c, checked, input, pos, depth, ZigZag(i), rest, end);
    case F64(_) => FloatStands(c, checked, input, pos, depth, rest, end);
    case F32(_) => FloatStands(c, checked, input, pos, depth, rest, end);
  }

  /** An integer behind its tag, in the range of the tag. */
  lemma NumberStands(c: Config, checked: bool, input: seq<Byte>, pos: nat, depth: nat, number: nat, rest: seq<Byte>,
                     end: nat)
    requires Take(c, input, pos, 1) == Ok(pos + 1) && TAG_U64 <= input[pos] <= TAG_I128
    requires number < U128_LIMIT && rest == EncodeVarint(number) && Stands(c, input, pos + 1, rest)
    requires end == pos + 1 + |rest|
    requires input[pos] == TAG_U64 ==> number < U64_LIMIT
    requires input[pos] == TAG_I64 ==> -U63_LIMIT <= UnZigZag(number) < U63_LIMIT
    ensures Walk(c, checked, input, pos, depth) == Ok(Shape(end, 0, 0, 0))
  {
    VarintStands(c, input, pos + 1, number, rest);
  }

  /** The bits of a float behind their tag. */
  lemma FloatStands(c: Config, checked: bool, input: seq<Byte>, pos: nat, depth: nat, rest: seq<Byte>, end: nat)
    requires Take(c, input, pos, 1) == Ok(pos + 1) && Stands(c, input, pos + 1, rest) && end == pos + 1 + |rest|
    requires (input[pos] == TAG_F64 && |rest| == 8) || (input[pos] == TAG_F32 && |rest| == 4)
    ensures Walk(c, checked, input, pos, depth) == Ok(Shape(end, 0, 0, 0))
  {
  }

  /** The shape of a value whose bytes end at a position. */
  function ShapeOf(v: Value, next: nat): Shape {
    Shape(next, Containers(v), Elements(v), Height(v))
  }

  function ItemShape(items: seq<Value>, count: nat, next: nat): Shape {
    Shape(next, ItemContainers(items), count + |items| + ItemElements(items), ItemHeight(items))
  }

  function FieldShape(fields: seq<Field>, count: nat, next: nat): Shape {
    Shape(next, FieldContainers(fields), count + |fields| + FieldElements(fields), FieldHeight(fields))
  }

  /** Walking emitted bytes finds the value's shape, and the decoder can read all of them. */
  lemma {:induction false} WalksValue(c: Config, checked: bool, input: seq<Byte>, pos: nat, depth: nat, v: Value,
                                      bytes: seq<Byte>, end: nat)
    requires Typed(v) && Emittable(c, v, depth) && bytes == Emitted(v) && Stands(c, input, pos, bytes)
    requires end == pos + |bytes|
    ensures Walk(c, checked, input, pos, depth) == Ok(ShapeOf(v, end))
    decreases v, 0
  {
    if IsScalar(v) {
      ScalarStands(c, checked, input, pos, depth, v, bytes);
    } else {
      match v
      case Text(text) => StrStands(c, checked, input, pos, depth, text, bytes);
      case Array(items) => WalksArray(c, checked, input, pos, depth, v, bytes, ItemBytes(items), end);
      case Object(fields) => WalksObject(c, checked, input, pos, depth, v, bytes, FieldBytes(fields), end);
    }
  }

  lemma {:induction false} WalksArray(c: Config, checked: bool, input: seq<Byte>, pos: nat, depth: nat, v: Value,
                                      bytes: seq<Byte>, entries: seq<Byte>, end: nat)
    requires v.Array? && Typed(v) && Emittable(c, v, depth) && entries == ItemBytes(v.items)
    requires bytes == [TAG_ARRAY] + entries && Stands(c, input, pos, bytes) && end == pos + |bytes|
    ensures Walk(c, checked, input, pos, depth) == Ok(ShapeOf(v, end))
    decreases v.items, 1
  {
    TagStands(c, input, pos, bytes, TAG_ARRAY, entries);
    WalksItems(c, checked, input, pos + 1, depth + 1, v.items, 0, entries, end);
    ContainerStep(c, checked, input, pos, depth, ItemShape(v.items, 0, end), v);
  }

  lemma {:induction false} WalksObject(c: Config, checked: bool, input: seq<Byte>, pos: nat, depth: nat, v: Value,
                                       bytes: seq<Byte>, entries: seq<Byte>, end: nat)
    requires v.Object? && Typed(v) && Emittable(c, v, depth) && entries == FieldBytes(v.fields)
    requires bytes == [TAG_OBJECT] + entries && Stands(c, input, pos, bytes) && end == pos + |bytes|
    ensures Walk(c, checked, input, pos, depth) == Ok(ShapeOf(v, end))
    decreases v.fields, 2
  {
    TagStands(c, input, pos, bytes, TAG_OBJECT, entries);
    WalksFields(c, checked, input, pos + 1, depth + 1, v.fields, 0, entries, end);
    ContainerStep(c, checked, input, pos, depth, FieldShape(v.fields, 0, end), v);
  }

  /** The shape of the entries of a container. */
  function Inside(v: Value, next: nat): Shape
    requires v.Array? || v.Object?
  {
    if v.Array? then ItemShape(v.items, 0, next) else FieldShape(v.fields, 0, next)
  }

  lemma ContainerStep(c: Config, checked: bool, input: seq<Byte>, pos: nat, depth: nat, s: Shape, v: Value)
    requires Take(c, input, pos, 1) == Ok(pos + 1) && Opens(input, pos) && depth < c.depthLimit
    requires WalkEntries(c, checked, input, pos + 1, depth + 1, input[pos] == TAG_OBJECT, 0) == Ok(s)
    requires (v.Array? || v.Object?) && s == Inside(v, s.next)
    ensures Walk(c, checked, input, pos, depth) == Ok(ShapeOf(v, s.next))
  {
    WalksInside(c, checked, input, pos, depth);
  }

  /** A container within the depth limit is its entries, nested. */
  lemma WalksInside(c: Config, checked: bool, input: seq<Byte>, pos: nat, depth: nat)
    requires Take(c, input, pos, 1) == Ok(pos + 1) && Opens(input, pos) && depth < c.depthLimit
    ensures Walk(c, checked, input, pos, depth)
         == Nest(WalkEntries(c, checked, input, pos + 1, depth + 1, input[pos] == TAG_OBJECT, 0))
  {
  }

  lemma EmittedIsNoTerminator(v: Value)
    requires Typed(v)
    ensures Emitted(v)[0] != TAG_END
  {
  }

  lemma EndStands(c: Config, checked: bool, input: seq<Byte>, pos: nat, depth: nat, keyed: bool, count: nat)
    requires Stands(c, input, pos, [TAG_END])
    ensures WalkEntries(c, checked, input, pos, depth, keyed, count) == Ok(Shape(pos + 1, 0, count, 0))
  {
    assert input[pos..pos + 1][0] == input[pos];
  }

  lemma {:induction false} WalksItems(c: Config, checked: bool, input: seq<Byte>, pos: nat, depth: nat,
                                      items: seq<Value>, count: nat, bytes: seq<Byte>, end: nat)
    requires AllTyped(items) && AllEmittable(c, items, depth) && Within(c.collectionLimit, count + |items|)
    requires bytes == ItemBytes(items) && Stands(c, input, pos, bytes) && end == pos + |bytes|
    ensures WalkEntries(c, checked, input, pos, depth, false, count) == Ok(ItemShape(items, count, end))
    decreases items, 0
  {
    if items == [] {
      EndStands(c, checked, input, pos, depth, false, count);
      assert ItemShape(items, count, end) == Shape(pos + 1, 0, count, 0);
    } else {
      var others := items[1..];
      var first, rest := Emitted(items[0]), ItemBytes(others);
      var next := pos + |first|;
      StandsParts(c, input, pos, bytes, first, rest, next);
      EmittedIsNoTerminator(items[0]);
      WalksValue(c, checked, input, pos, depth, items[0], first, next);
      WalksItems(c, checked, input, next, depth, others, count + 1, rest, end);
      ItemStep(c, checked, input, pos, depth, items, others, count, first, next, end);
    }
  }

  /** One entry in front of those behind it. */
  lemma EntryStep(c: Config, checked: bool, input: seq<Byte>, pos: nat, depth: nat, keyed: bool, count: nat,
                  start: nat, first: Shape)
    requires pos < |input| && input[pos] != TAG_END && Within(c.collectionLimit, count + 1)
    requires EntryValue(c, checked, input, pos, keyed) == Ok(start)
    requires Walk(c, checked, input, start, depth) == Ok(first)
    ensures WalkEntries(c, checked, input, pos, depth, keyed, count)
         == Beside(first, WalkEntries(c, checked, input, first.next, depth, keyed, count + 1))
  {
  }

  lemma ItemStep(c: Config, checked: bool, input: seq<Byte>, pos: nat, depth: nat, items: seq<Value>,
                 others: seq<Value>, count: nat, first: seq<Byte>, next: nat, end: nat)
    requires items != [] && others == items[1..] && Within(c.collectionLimit, count + |items|)
    requires At(input, pos, first) && first != [] && first[0] != TAG_END
    requires Walk(c, checked, input, pos, depth) == Ok(ShapeOf(items[0], next))
    requires WalkEntries(c, checked, input, next, depth, false, count + 1) == Ok(ItemShape(others, count + 1, end))
    ensures WalkEntries(c, checked, input, pos, depth, false, count) == Ok(ItemShape(items, count, end))
  {
    assert input[pos] == first[0];
    EntryStep(c, checked, input, pos, depth, false, count, pos, ShapeOf(items[0], next));
    ItemShapes(items, others, count, next, end);
  }

  lemma ItemShapes(items: seq<Value>, others: seq<Value>, count: nat, next: nat, end: nat)
    requires items != [] && others == items[1..]
    ensures Beside(ShapeOf(items[0], next), Ok(ItemShape(others, count + 1, end))) == Ok(ItemShape(items, count, end))
  {
  }

  lemma {:induction false} WalksFields(c: Config, checked: bool, input: seq<Byte>, pos: nat, depth: nat,
                                       fields: seq<Field>, count: nat, bytes: seq<Byte>, end: nat)
    requires FieldsTyped(fields) && FieldsEmittable(c, fields, depth) && Within(c.collectionLimit, count + |fields|)
    requires bytes == FieldBytes(fields) && Stands(c, input, pos, bytes) && end == pos + |bytes|
    ensures WalkEntries(c, checked, input, pos, depth, true, count) == Ok(FieldShape(fields, count, end))
    decreases fields, 1
  {
    if fields == [] {
      EndStands(c, checked, input, pos, depth, true, count);
      assert FieldShape(fields, count, end) == Shape(pos + 1, 0, count, 0);
    } else {
      var others := fields[1..];
      OtherFields(c, fields, others, depth);
      var key, value, rest := StrBytes(fields[0].key), Emitted(fields[0].value), FieldBytes(others);
      var start, next := pos + |key|, pos + |key| + |value|;
      FirstField(c, checked, input, pos, depth, fields, key, value, rest, bytes, start, next);
      WalksFields(c, checked, input, next, depth, others, count + 1, rest, end);
      FieldStep(c, checked, input, pos, depth, fields, others, count, start, next, end);
    }
  }

  lemma OtherFields(c: Config, fields: seq<Field>, others: seq<Field>, depth: nat)
    requires fields != [] && others == fields[1..] && FieldsTyped(fields) && FieldsEmittable(c, fields, depth)
    ensures FieldsTyped(others) && FieldsEmittable(c, others, depth) && |fields| == |others| + 1
  {
  }

  lemma {:induction false} FirstField(c: Config, checked: bool, input: seq<Byte>, pos: nat, depth: nat,
                                      fields: seq<Field>, key: seq<Byte>, value: seq<Byte>, rest: seq<Byte>,
                                      bytes: seq<Byte>, start: nat, next: nat)
    requires fields != [] && FieldsTyped(fields) && FieldsEmittable(c, fields, depth)
    requires key == StrBytes(fields[0].key) && value == Emitted(fields[0].value) && bytes == key + (value + rest)
    requires Stands(c, input, pos, bytes) && start == pos + |key| && next == start + |value|
    ensures pos < |input| && input[pos] == TAG_STRING && EntryValue(c, checked, input, pos, true) == Ok(start)
    ensures Walk(c, checked, input, start, depth) == Ok(ShapeOf(fields[0].value, next))
    ensures Stands(c, input, next, rest) && next + |rest| == pos + |bytes|
    decreases fields, 0
  {
    FieldParts(c, input, pos, bytes, key, value, rest, start, next);
    KeyStands(c, checked, input, pos, depth, fields[0].key, key, start);
    WalksValue(c, checked, input, start, depth, fields[0].value, value, next);
  }

  lemma KeyStands(c: Config, checked: bool, input: seq<Byte>, pos: nat, depth: nat, text: seq<Byte>, key: seq<Byte>,
                  start: nat)
    requires IsText(text) && key == StrBytes(text) && Stands(c, input, pos, key) && start == pos + |key|
    ensures pos < |input| && input[pos] == TAG_STRING && EntryValue(c, checked, input, pos, true) == Ok(start)
  {
    StrStands(c, checked, input, pos, depth, text, key);
  }

  lemma FieldParts(c: Config, input: seq<Byte>, pos: nat, bytes: seq<Byte>, key: seq<Byte>, value: seq<Byte>,
                   rest: seq<Byte>, start: nat, next: nat)
    requires Stands(c, input, pos, bytes) && bytes == key + (value + rest)
    requires start == pos + |key| && next == start + |value|
    ensures Stands(c, input, pos, key) && Stands(c, input, start, value) && Stands(c, input, next, rest)
    ensures next + |rest| == pos + |bytes|
  {
    StandsParts(c, input, pos, bytes, key, value + rest, start);
    StandsParts(c, input, start, value + rest, value, rest, next);
  }

  lemma FieldStep(c: Config, checked: bool, input: seq<Byte>, pos: nat, depth: nat, fields: seq<Field>,
                  others: seq<Field>, count: nat, start: nat, next: nat, end: nat)
    requires fields != [] && others == fields[1..] && Within(c.collectionLimit, count + |fields|)
    requires pos < |input| && input[pos] == TAG_STRING && EntryValue(c, checked, input, pos, true) == Ok(start)
    requires Walk(c, checked, input, start, depth) == Ok(ShapeOf(fields[0].value, next))
    requires WalkEntries(c, checked, input, next, depth, true, count + 1) == Ok(FieldShape(others, count + 1, end))
    ensures WalkEntries(c, checked, input, pos, depth, true, count) == Ok(FieldShape(fields, count, end))
  {
    EntryStep(c, checked, input, pos, depth, true, count, start, ShapeOf(fields[0].value, next));
    FieldShapes(fields, others, count, next, end);
  }

  lemma FieldShapes(fields: seq<Field>, others: seq<Field>, count: nat, next: nat, end: nat)
    requires fields != [] && others == fields[1..]
    ensures Beside(ShapeOf(fields[0].value, next), Ok(FieldShape(others, count + 1, end)))
         == Ok(FieldShape(fields, count, end))
  {
  }

  /** Probing emitted bytes reports exactly their length and the value's containers, entries and depth. */
  lemma ProbeIsExact(c: Config, v: Value)
    requires Typed(v) && Emittable(c, v, 0) && Within(c.limit, |Emitted(v)|) && |Emitted(v)| < U64_LIMIT
    ensures ProbeOutcome(c, Emitted(v)) == Ok(Probe(|Emitted(v)|, Containers(v), Elements(v), Height(v)))
  {
    WalksValue(c, false, Emitted(v), 0, 0, v, Emitted(v), |Emitted(v)|);
  }
}
