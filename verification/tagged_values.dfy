/**
 Reading values back: the tokens of the decoder put together into a tree, containers up to their
 terminators and object keys as strings. It is the inverse of the emitter, in both directions.
 */
module TaggedValues {
  import opened Bytes
  import opened Canonical
  import opened Utf
  import opened Tagged
  import opened TaggedTheorems

  /** Something read, and where it ends. */
  datatype Parsed<+T> = Parsed(value: T, next: nat)

  function ReadValue(c: Config, input: seq<Byte>, pos: nat): (r: Result<Parsed<Value>>)
    ensures r.Ok? ==> pos < r.value.next <= |input|
    decreases |input| - pos, 0
  {
    match Lex(c, input, pos)
    case Err(error) => Err(error)
    case Ok(lexed) =>
      TokenAdvances(c, input, pos);
      match lexed.lexeme
      case Whole(value) => Ok(Parsed(value, lexed.next))
      case BeginArray =>
        (match ReadItems(c, input, lexed.next)
         case Err(error) => Err(error)
         case Ok(items) => Ok(Parsed(Array(items.value), items.next)))
      case BeginObject =>
        (match ReadFields(c, input, lexed.next)
         case Err(error) => Err(error)
         case Ok(fields) => Ok(Parsed(Object(fields.value), fields.next)))
  }

  /** Elements up to the terminator. */
  function ReadItems(c: Config, input: seq<Byte>, pos: nat): (r: Result<Parsed<seq<Value>>>)
    ensures r.Ok? ==> pos < r.value.next <= |input|
    decreases |input| - pos, 1
  {
    if pos >= |input| then Err(UnexpectedEnd)
    else if input[pos] == TAG_END then ReadEnd(c, input, pos, [])
    else
      match ReadValue(c, input, pos)
      case Err(error) => Err(error)
      case Ok(first) =>
        match ReadItems(c, input, first.next)
        case Err(error) => Err(error)
        case Ok(others) => Ok(Parsed([first.value] + others.value, others.next))
  }

  /** Keys and values up to the terminator. */
  function ReadFields(c: Config, input: seq<Byte>, pos: nat): (r: Result<Parsed<seq<Field>>>)
    ensures r.Ok? ==> pos < r.value.next <= |input|
    decreases |input| - pos, 1
  {
    if pos >= |input| then Err(UnexpectedEnd)
    else if input[pos] == TAG_END then ReadEnd(c, input, pos, [])
    else
      match ReadField(c, input, pos)
      case Err(error) => Err(error)
      case Ok(first) =>
        match ReadFields(c, input, first.next)
        case Err(error) => Err(error)
        case Ok(others) => Ok(Parsed([first.value] + others.value, others.next))
  }

  function ReadField(c: Config, input: seq<Byte>, pos: nat): (r: Result<Parsed<Field>>)
    ensures r.Ok? ==> pos < r.value.next <= |input|
    decreases |input| - pos, 0
  {
    match ReadKey(c, input, pos)
    case Err(error) => Err(error)
    case Ok(key) =>
      match ReadValue(c, input, key.next)
      case Err(error) => Err(error)
      case Ok(first) => Ok(Parsed(Field(key.value, first.value), first.next))
  }

  /** A key is a string token and nothing else. */
  function ReadKey(c: Config, input: seq<Byte>, pos: nat): (r: Result<Parsed<seq<Byte>>>)
    ensures r.Ok? ==> pos < r.value.next <= |input|
  {
    match Lex(c, input, pos)
    case Err(error) => Err(error)
    case Ok(lexed) =>
      TokenAdvances(c, input, pos);
      if lexed.lexeme.Whole? && lexed.lexeme.value.Text? then Ok(Parsed(lexed.lexeme.value.text, lexed.next))
      else Err(InvalidKey)
  }

  function ReadEnd<T>(c: Config, input: seq<Byte>, pos: nat, value: T): (r: Result<Parsed<T>>)
    ensures r.Ok? ==> pos < r.value.next <= |input|
  {
    match Take(c, input, pos, 1)
    case Err(error) => Err(error)
    case Ok(next) => Ok(Parsed(value, next))
  }

  // ---------- Emitted bytes are read back ----------

  lemma NumberLexes(c: Config, input: seq<Byte>, pos: nat, number: nat, rest: seq<Byte>)
    requires Take(c, input, pos, 1) == Ok(pos + 1) && TAG_U64 <= input[pos] <= TAG_I128
    requires number < U128_LIMIT && rest == EncodeVarint(number) && Stands(c, input, pos + 1, rest)
    requires input[pos] == TAG_U64 ==> number < U64_LIMIT
    ensures Lex(c, input, pos) ==
      if input[pos] <= TAG_U128 then LexUnsigned(input[pos], Ok(Got(number, pos + 1 + |rest|)))
      else LexSigned(input[pos], Ok(Got(number, pos + 1 + |rest|)))
  {
    VarintStands(c, input, pos + 1, number, rest);
  }

  lemma FloatLexes(c: Config, input: seq<Byte>, pos: nat, bits: nat, width: nat, rest: seq<Byte>)
    requires Take(c, input, pos, 1) == Ok(pos + 1) && Stands(c, input, pos + 1, rest)
    requires (input[pos] == TAG_F64 && width == 8 && bits < U64_LIMIT)
          || (input[pos] == TAG_F32 && width == 4 && bits < U32_LIMIT)
    requires rest == LeBytes(bits, width)
    ensures Lex(c, input, pos)
         == Ok(Lexed(Whole(if input[pos] == TAG_F64 then F64(bits) else F32(bits)), pos + 1 + width))
  {
    FloatReadsBack(bits, width, rest);
    FloatIsRead(c, input, pos, bits, width, rest);
  }

  lemma FloatReadsBack(bits: nat, width: nat, rest: seq<Byte>)
    requires (width == 8 && bits < U64_LIMIT) || (width == 4 && bits < U32_LIMIT)
    requires rest == LeBytes(bits, width)
    ensures LeValue(rest) == bits
  {
    Pow2Table();
    LeValueOfBytes(bits, width);
  }

  lemma FloatIsRead(c: Config, input: seq<Byte>, pos: nat, bits: nat, width: nat, rest: seq<Byte>)
    requires Take(c, input, pos, 1) == Ok(pos + 1) && Stands(c, input, pos + 1, rest)
    requires (input[pos] == TAG_F64 && width == 8) || (input[pos] == TAG_F32 && width == 4)
    requires |rest| == width && LeValue(rest) == bits
    ensures Lex(c, input, pos)
         == Ok(Lexed(Whole(if input[pos] == TAG_F64 then F64(bits) else F32(bits)), pos + 1 + width))
  {
  }

  lemma TextLexes(c: Config, input: seq<Byte>, pos: nat, text: seq<Byte>, bytes: seq<Byte>)
    requires IsText(text) && bytes == StrBytes(text) && Stands(c, input, pos, bytes)
    ensures Lex(c, input, pos) == Ok(Lexed(Whole(Text(text)), pos + |bytes|))
  {
    var rest := EncodeVarint(|text|) + text;
    TagStands(c, input, pos, bytes, TAG_STRING, rest);
    TextStands(c, input, pos + 1, text, rest);
    var start := pos + 1 + |EncodeVarint(|text|)|;
    StandsParts(c, input, pos + 1, rest, EncodeVarint(|text|), text, start);
  }

  /** A scalar is a single token. */
  lemma ScalarLexes(c: Config, input: seq<Byte>, pos: nat, v: Value, bytes: seq<Byte>)
    requires IsScalar(v) && Typed(v) && bytes == Emitted(v) && Stands(c, input, pos, bytes)
    ensures Lex(c, input, pos) == Ok(Lexed(Whole(v), pos + |bytes|))
  {
    var rest := bytes[1..];
    TagStands(c, input, pos, bytes, bytes[0], rest);
    match v
    case Null =>
    case Bool(_) =>
    case U64(u) => NumberLexes(c, input, pos, u, rest);
    case U128(u) => NumberLexes(c, input, pos, u, rest);
    case I64(i) =>
      ZigZagReadsBack(i);
      NumberLexes(c, input, pos, ZigZag(i), rest);
    case I128(i) =>
      ZigZagReadsBack(i);
      NumberLexes(c, input, pos, ZigZag(i), rest);
    case F64(bits) => FloatLexes(c, input, pos, bits, 8, rest);
    case F32(bits) => FloatLexes(c, input, pos, bits, 4, rest);
  }

  lemma WholeIsRead(c: Config, input: seq<Byte>, pos: nat, v: Value, end: nat)
    requires Lex(c, input, pos) == Ok(Lexed(Whole(v), end))
    ensures ReadValue(c, input, pos) == Ok(Parsed(v, end))
  {
  }

  lemma ArrayIsRead(c: Config, input: seq<Byte>, pos: nat, items: seq<Value>, end: nat)
    requires Take(c, input, pos, 1) == Ok(pos + 1) && input[pos] == TAG_ARRAY
    requires ReadItems(c, input, pos + 1) == Ok(Parsed(items, end))
    ensures ReadValue(c, input, pos) == Ok(Parsed(Array(items), end))
  {
    assert Lex(c, input, pos) == Ok(Lexed(BeginArray, pos + 1));
  }

  lemma ObjectIsRead(c: Config, input: seq<Byte>, pos: nat, fields: seq<Field>, end: nat)
    requires Take(c, input, pos, 1) == Ok(pos + 1) && input[pos] == TAG_OBJECT
    requires ReadFields(c, input, pos + 1) == Ok(Parsed(fields, end))
    ensures ReadValue(c, input, pos) == Ok(Parsed(Object(fields), end))
  {
    assert Lex(c, input, pos) == Ok(Lexed(BeginObject, pos + 1));
  }

  /** Whatever stands behind them, emitted bytes are read back as the value, up to their end. */
  lemma {:induction false} ReadsBack(c: Config, input: seq<Byte>, pos: nat, v: Value, bytes: seq<Byte>, end: nat)
    requires Typed(v) && bytes == Emitted(v) && Stands(c, input, pos, bytes) && end == pos + |bytes|
    ensures ReadValue(c, input, pos) == Ok(Parsed(v, end))
    decreases v, 0
  {
    match v
    case Array(items) => ArrayReadsBack(c, input, pos, items, bytes, ItemBytes(items), end);
    case Object(fields) => ObjectReadsBack(c, input, pos, fields, bytes, FieldBytes(fields), end);
    case Text(text) =>
      TextLexes(c, input, pos, text, bytes);
      WholeIsRead(c, input, pos, v, end);
    case _ =>
      ScalarLexes(c, input, pos, v, bytes);
      WholeIsRead(c, input, pos, v, end);
  }

  lemma {:induction false} ArrayReadsBack(c: Config, input: seq<Byte>, pos: nat, items: seq<Value>, bytes: seq<Byte>,
                                          entries: seq<Byte>, end: nat)
    requires AllTyped(items) && entries == ItemBytes(items) && bytes == [TAG_ARRAY] + entries
    requires Stands(c, input, pos, bytes) && end == pos + |bytes|
    ensures ReadValue(c, input, pos) == Ok(Parsed(Array(items), end))
    decreases items, 1
  {
    TagStands(c, input, pos, bytes, TAG_ARRAY, entries);
    ItemsReadBack(c, input, pos + 1, items, entries, end);
    ArrayIsRead(c, input, pos, items, end);
  }

  lemma {:induction false} ObjectReadsBack(c: Config, input: seq<Byte>, pos: nat, fields: seq<Field>,
                                           bytes: seq<Byte>, entries: seq<Byte>, end: nat)
    requires FieldsTyped(fields) && entries == FieldBytes(fields) && bytes == [TAG_OBJECT] + entries
    requires Stands(c, input, pos, bytes) && end == pos + |bytes|
    ensures ReadValue(c, input, pos) == Ok(Parsed(Object(fields), end))
    decreases fields, 2
  {
    TagStands(c, input, pos, bytes, TAG_OBJECT, entries);
    FieldsReadBack(c, input, pos + 1, fields, entries, end);
    ObjectIsRead(c, input, pos, fields, end);
  }

  lemma EndReadsBack<T>(c: Config, input: seq<Byte>, pos: nat, value: T)
    requires Stands(c, input, pos, [TAG_END])
    ensures pos < |input| && input[pos] == TAG_END && ReadEnd(c, input, pos, value) == Ok(Parsed(value, pos + 1))
  {
    assert input[pos..pos + 1][0] == input[pos];
  }

  lemma {:induction false} ItemsReadBack(c: Config, input: seq<Byte>, pos: nat, items: seq<Value>, bytes: seq<Byte>,
                                         end: nat)
    requires AllTyped(items) && bytes == ItemBytes(items) && Stands(c, input, pos, bytes) && end == pos + |bytes|
    ensures ReadItems(c, input, pos) == Ok(Parsed(items, end))
    decreases items, 0
  {
    if items == [] {
      EndReadsBack<seq<Value>>(c, input, pos, []);
    } else {
      var others := items[1..];
      var first, rest := Emitted(items[0]), ItemBytes(others);
      var next := pos + |first|;
      StandsParts(c, input, pos, bytes, first, rest, next);
      ReadsBack(c, input, pos, items[0], first, next);
      ItemsReadBack(c, input, next, others, rest, end);
      EmittedIsNoTerminator(items[0]);
      assert input[pos] == first[0];
      assert items == [items[0]] + others;
    }
  }

  lemma {:induction false} FieldsReadBack(c: Config, input: seq<Byte>, pos: nat, fields: seq<Field>,
                                          bytes: seq<Byte>, end: nat)
    requires FieldsTyped(fields) && bytes == FieldBytes(fields) && Stands(c, input, pos, bytes) && end == pos + |bytes|
    ensures ReadFields(c, input, pos) == Ok(Parsed(fields, end))
    decreases fields, 1
  {
    if fields == [] {
      EndReadsBack<seq<Field>>(c, input, pos, []);
    } else {
      var others := fields[1..];
      var key, value, rest := StrBytes(fields[0].key), Emitted(fields[0].value), FieldBytes(others);
      var start, next := pos + |key|, pos + |key| + |value|;
      FieldParts(c, input, pos, bytes, key, value, rest, start, next);
      FieldReadsBack(c, input, pos, fields, key, value, start, next);
      FieldsReadBack(c, input, next, others, rest, end);
      assert fields == [fields[0]] + others;
    }
  }

  lemma {:induction false} FieldReadsBack(c: Config, input: seq<Byte>, pos: nat, fields: seq<Field>, key: seq<Byte>,
                                          value: seq<Byte>, start: nat, next: nat)
    requires fields != [] && FieldsTyped(fields)
    requires key == StrBytes(fields[0].key) && value == Emitted(fields[0].value)
    requires Stands(c, input, pos, key) && Stands(c, input, start, value)
    requires start == pos + |key| && next == start + |value|
    ensures pos < |input| && input[pos] != TAG_END && ReadField(c, input, pos) == Ok(Parsed(fields[0], next))
    decreases fields, 0
  {
    TextLexes(c, input, pos, fields[0].key, key);
    KeyIsRead(c, input, pos, fields[0].key, start);
    ReadsBack(c, input, start, fields[0].value, value, next);
    FieldIsRead(c, input, pos, fields[0], start, next);
  }

  lemma KeyIsRead(c: Config, input: seq<Byte>, pos: nat, key: seq<Byte>, start: nat)
    requires Lex(c, input, pos) == Ok(Lexed(Whole(Text(key)), start))
    ensures pos < |input| && input[pos] != TAG_END && ReadKey(c, input, pos) == Ok(Parsed(key, start))
  {
  }

  lemma FieldIsRead(c: Config, input: seq<Byte>, pos: nat, f: Field, start: nat, next: nat)
    requires ReadKey(c, input, pos) == Ok(Parsed(f.key, start))
    requires ReadValue(c, input, start) == Ok(Parsed(f.value, next))
    ensures ReadField(c, input, pos) == Ok(Parsed(f, next))
  {
  }

  // ---------- Whatever is read is an emitted value ----------

  /** The bytes between two positions. */
  predicate Spans(input: seq<Byte>, pos: nat, bytes: seq<Byte>, next: nat) {
    At(input, pos, bytes) && next == pos + |bytes|
  }

  lemma SpansBoth(input: seq<Byte>, pos: nat, a: seq<Byte>, start: nat, b: seq<Byte>, next: nat, whole: seq<Byte>)
    requires Spans(input, pos, a, start) && Spans(input, start, b, next) && whole == a + b
    ensures Spans(input, pos, whole, next)
  {
    AtBoth(input, pos, a, b);
  }

  lemma TagSpans(input: seq<Byte>, pos: nat, tag: Byte, rest: seq<Byte>, next: nat, whole: seq<Byte>)
    requires pos < |input| && input[pos] == tag && Spans(input, pos + 1, rest, next) && whole == [tag] + rest
    ensures Spans(input, pos, whole, next)
  {
    SpansBoth(input, pos, [tag], pos + 1, rest, next, whole);
  }

  lemma VarintSpans(c: Config, input: seq<Byte>, pos: nat, got: Got)
    requires Varint(c, input, pos) == Ok(got)
    ensures got.value < U128_LIMIT && Spans(input, pos, EncodeVarint(got.value), got.next)
  {
    assert ReadVarint(input, pos) == Read(got.value, got.next);
    VarintIsCanonical(input, pos);
  }

  lemma TextSpans(c: Config, input: seq<Byte>, pos: nat, text: seq<Byte>, next: nat)
    requires LexText(input, Str(c, input, pos)) == Ok(Lexed(Whole(Text(text)), next))
    ensures IsText(text) && Spans(input, pos, EncodeVarint(|text|) + text, next)
  {
    var len := Length(c, input, pos).value;
    VarintSpans(c, input, pos, len);
    SpansBoth(input, pos, EncodeVarint(len.value), len.next, text, next, EncodeVarint(|text|) + text);
  }

  lemma FloatSpans(input: seq<Byte>, pos: nat, width: nat, bits: nat)
    requires (width == 8 || width == 4) && pos + width <= |input| && bits == LeValue(input[pos..pos + width])
    ensures Spans(input, pos, LeBytes(bits, width), pos + width)
    ensures width == 8 ==> bits < U64_LIMIT
    ensures width == 4 ==> bits < U32_LIMIT
  {
    BytesAreBits(input[pos..pos + width], width);
  }

  lemma BytesAreBits(bytes: seq<Byte>, width: nat)
    requires |bytes| == width && (width == 8 || width == 4)
    ensures LeBytes(LeValue(bytes), width) == bytes
    ensures width == 8 ==> LeValue(bytes) < U64_LIMIT
    ensures width == 4 ==> LeValue(bytes) < U32_LIMIT
  {
    LeBytesOfValue(bytes);
    Pow2Table();
  }

  /** What the decoder says of a value, the emitter would have written. */
  predicate IsEmitted(input: seq<Byte>, pos: nat, v: Value, next: nat) {
    Typed(v) && Spans(input, pos, Emitted(v), next)
  }

  lemma UnsignedIsEmitted(c: Config, input: seq<Byte>, pos: nat, v: Value, next: nat)
    requires Take(c, input, pos, 1) == Ok(pos + 1) && (input[pos] == TAG_U64 || input[pos] == TAG_U128)
    requires Lex(c, input, pos) == Ok(Lexed(Whole(v), next))
    ensures IsEmitted(input, pos, v, next)
  {
    var got := Varint(c, input, pos + 1).value;
    VarintSpans(c, input, pos + 1, got);
    TagSpans(input, pos, input[pos], EncodeVarint(got.value), next, Emitted(v));
  }

  lemma SignedIsEmitted(c: Config, input: seq<Byte>, pos: nat, v: Value, next: nat)
    requires Take(c, input, pos, 1) == Ok(pos + 1) && (input[pos] == TAG_I64 || input[pos] == TAG_I128)
    requires Lex(c, input, pos) == Ok(Lexed(Whole(v), next))
    ensures IsEmitted(input, pos, v, next)
  {
    var got := Varint(c, input, pos + 1).value;
    VarintSpans(c, input, pos + 1, got);
    UnZigZagReadsBack(got.value);
    TagSpans(input, pos, input[pos], EncodeVarint(got.value), next, Emitted(v));
  }

  lemma FloatIsEmitted(c: Config, input: seq<Byte>, pos: nat, v: Value, next: nat)
    requires Take(c, input, pos, 1) == Ok(pos + 1) && (input[pos] == TAG_F64 || input[pos] == TAG_F32)
    requires Lex(c, input, pos) == Ok(Lexed(Whole(v), next))
    ensures IsEmitted(input, pos, v, next)
  {
    var width := if input[pos] == TAG_F64 then 8 else 4;
    FloatSpans(input, pos + 1, width, v.bits);
    TagSpans(input, pos, input[pos], LeBytes(v.bits, width), next, Emitted(v));
  }

  lemma TextIsEmitted(c: Config, input: seq<Byte>, pos: nat, v: Value, next: nat)
    requires Take(c, input, pos, 1) == Ok(pos + 1) && input[pos] == TAG_STRING
    requires Lex(c, input, pos) == Ok(Lexed(Whole(v), next))
    ensures v.Text? && IsEmitted(input, pos, v, next)
  {
    TextSpans(c, input, pos + 1, v.text, next);
    TagSpans(input, pos, TAG_STRING, EncodeVarint(|v.text|) + v.text, next, Emitted(v));
  }

  lemma WholeIsEmitted(c: Config, input: seq<Byte>, pos: nat, v: Value, next: nat)
    requires Lex(c, input, pos) == Ok(Lexed(Whole(v), next))
    ensures IsEmitted(input, pos, v, next)
  {
    var tag := input[pos];
    if tag <= TAG_TRUE {
      assert At(input, pos, [tag]);
    } else if tag == TAG_U64 || tag == TAG_U128 {
      UnsignedIsEmitted(c, input, pos, v, next);
    } else if tag == TAG_I64 || tag == TAG_I128 {
      SignedIsEmitted(c, input, pos, v, next);
    } else if tag == TAG_F64 || tag == TAG_F32 {
      FloatIsEmitted(c, input, pos, v, next);
    } else {
      TextIsEmitted(c, input, pos, v, next);
    }
  }

  lemma ArrayIsEmitted(input: seq<Byte>, pos: nat, items: seq<Value>, next: nat)
    requires pos < |input| && input[pos] == TAG_ARRAY && ItemsEmitted(input, pos + 1, items, next)
    ensures IsEmitted(input, pos, Array(items), next)
  {
    TagSpans(input, pos, TAG_ARRAY, ItemBytes(items), next, Emitted(Array(items)));
  }

  lemma ObjectIsEmitted(input: seq<Byte>, pos: nat, fields: seq<Field>, next: nat)
    requires pos < |input| && input[pos] == TAG_OBJECT && FieldsEmitted(input, pos + 1, fields, next)
    ensures IsEmitted(input, pos, Object(fields), next)
  {
    TagSpans(input, pos, TAG_OBJECT, FieldBytes(fields), next, Emitted(Object(fields)));
  }

  /** A token that opens a container is its tag. */
  lemma Openings(c: Config, input: seq<Byte>, pos: nat)
    requires Lex(c, input, pos).Ok? && Opening(Lex(c, input, pos).value.lexeme)
    ensures pos < |input| && Lex(c, input, pos).value.next == pos + 1
    ensures input[pos] == if Lex(c, input, pos).value.lexeme.BeginArray? then TAG_ARRAY else TAG_OBJECT
  {
  }

  lemma {:induction false} ReadIsEmitted(c: Config, input: seq<Byte>, pos: nat, v: Value, next: nat)
    requires ReadValue(c, input, pos) == Ok(Parsed(v, next))
    ensures IsEmitted(input, pos, v, next)
    decreases |input| - pos, 0
  {
    match Lex(c, input, pos).value.lexeme
    case Whole(_) => WholeIsEmitted(c, input, pos, v, next);
    case BeginArray =>
      Openings(c, input, pos);
      ItemsAreEmitted(c, input, pos + 1, v.items, next);
      ArrayIsEmitted(input, pos, v.items, next);
    case BeginObject =>
      Openings(c, input, pos);
      FieldsAreEmitted(c, input, pos + 1, v.fields, next);
      ObjectIsEmitted(input, pos, v.fields, next);
  }

  lemma EndSpans<T>(c: Config, input: seq<Byte>, pos: nat, value: T, got: Parsed<T>)
    requires pos < |input| && input[pos] == TAG_END && ReadEnd(c, input, pos, value) == Ok(got)
    ensures got == Parsed(value, pos + 1) && Spans(input, pos, [TAG_END], pos + 1) && pos + 1 < U64_LIMIT
  {
  }

  predicate ItemsEmitted(input: seq<Byte>, pos: nat, items: seq<Value>, next: nat) {
    AllTyped(items) && Spans(input, pos, ItemBytes(items), next) && |items| < next - pos && next < U64_LIMIT
  }

  lemma {:induction false} ItemsAreEmitted(c: Config, input: seq<Byte>, pos: nat, items: seq<Value>, next: nat)
    requires ReadItems(c, input, pos) == Ok(Parsed(items, next))
    ensures ItemsEmitted(input, pos, items, next)
    decreases |input| - pos, 1
  {
    if input[pos] == TAG_END {
      EndSpans<seq<Value>>(c, input, pos, [], Parsed(items, next));
    } else {
      var first := ReadValue(c, input, pos).value;
      var others := ReadItems(c, input, first.next).value;
      ReadIsEmitted(c, input, pos, first.value, first.next);
      ItemsAreEmitted(c, input, first.next, others.value, next);
      ItemInFront(input, pos, first.value, first.next, others.value, next, items);
    }
  }

  lemma ItemInFront(input: seq<Byte>, pos: nat, v: Value, start: nat, others: seq<Value>, next: nat, items: seq<Value>)
    requires IsEmitted(input, pos, v, start) && ItemsEmitted(input, start, others, next) && items == [v] + others
    ensures ItemsEmitted(input, pos, items, next)
  {
    assert items[1..] == others;
    SpansBoth(input, pos, Emitted(v), start, ItemBytes(others), next, ItemBytes(items));
  }

  predicate FieldsEmitted(input: seq<Byte>, pos: nat, fields: seq<Field>, next: nat) {
    FieldsTyped(fields) && Spans(input, pos, FieldBytes(fields), next) && |fields| < next - pos && next < U64_LIMIT
  }

  lemma {:induction false} FieldsAreEmitted(c: Config, input: seq<Byte>, pos: nat, fields: seq<Field>, next: nat)
    requires ReadFields(c, input, pos) == Ok(Parsed(fields, next))
    ensures FieldsEmitted(input, pos, fields, next)
    decreases |input| - pos, 1
  {
    if input[pos] == TAG_END {
      EndSpans<seq<Field>>(c, input, pos, [], Parsed(fields, next));
    } else {
      var key := ReadKey(c, input, pos).value;
      var first := ReadField(c, input, pos).value;
      var others := ReadFields(c, input, first.next).value;
      WholeIsEmitted(c, input, pos, Text(key.value), key.next);
      ReadIsEmitted(c, input, key.next, first.value.value, first.next);
      FieldsAreEmitted(c, input, first.next, others.value, next);
      FieldInFront(input, pos, first.value, key.next, first.next, others.value, next, fields);
    }
  }

  lemma FieldInFront(input: seq<Byte>, pos: nat, f: Field, start: nat, middle: nat, others: seq<Field>, next: nat,
                   fields: seq<Field>)
    requires IsEmitted(input, pos, Text(f.key), start) && IsEmitted(input, start, f.value, middle)
    requires FieldsEmitted(input, middle, others, next) && fields == [f] + others
    ensures FieldsEmitted(input, pos, fields, next)
  {
    assert fields[1..] == others;
    var behind := Emitted(f.value) + FieldBytes(others);
    SpansBoth(input, start, Emitted(f.value), middle, FieldBytes(others), next, behind);
    SpansBoth(input, pos, StrBytes(f.key), start, behind, next, FieldBytes(fields));
  }

  // ---------- The first byte and the last ----------

  lemma {:induction false} ItemsEndIn255(items: seq<Value>)
    requires AllTyped(items)
    ensures |ItemBytes(items)| > 0 && ItemBytes(items)[|ItemBytes(items)| - 1] == 255
  {
    if items != [] {
      ItemsEndIn255(items[1..]);
    }
  }

  lemma {:induction false} FieldsEndIn255(fields: seq<Field>)
    requires FieldsTyped(fields)
    ensures |FieldBytes(fields)| > 0 && FieldBytes(fields)[|FieldBytes(fields)| - 1] == 255
  {
    if fields != [] {
      FieldsEndIn255(fields[1..]);
    }
  }

  /** Every kind of value has its own number, and containers close with 255. */
  lemma FirstAndLast(v: Value, bytes: seq<Byte>)
    requires Typed(v) && bytes == Emitted(v)
    ensures bytes[0] == match v
      case Null => 0
      case Bool(flag) => if flag then 2 else 1
      case U64(_) => 3
      case U128(_) => 4
      case I64(_) => 5
      case I128(_) => 6
      case F64(_) => 7
      case F32(_) => 8
      case Text(_) => 9
      case Array(_) => 10
      case Object(_) => 11
    ensures v.Array? || v.Object? ==> bytes[|bytes| - 1] == 255
  {
    match v
    case Array(items) => ItemsEndIn255(items);
    case Object(fields) => FieldsEndIn255(fields);
    case _ =>
  }

  // ---------- Both directions ----------

  /**
   On an input that fits `usize`, within the byte limit: a value is read between two positions
   exactly when it is well typed and the bytes between them are those emitted for it.
   */
  lemma ReadsExactlyEmitted(c: Config, input: seq<Byte>, pos: nat, v: Value, next: nat)
    requires |input| < U64_LIMIT && Within(c.limit, next)
    ensures ReadValue(c, input, pos) == Ok(Parsed(v, next)) <==>
      Typed(v) && At(input, pos, Emitted(v)) && next == pos + |Emitted(v)|
  {
    if ReadValue(c, input, pos) == Ok(Parsed(v, next)) {
      ReadIsEmitted(c, input, pos, v, next);
    } else if Typed(v) && At(input, pos, Emitted(v)) && next == pos + |Emitted(v)| {
      ReadsBack(c, input, pos, v, Emitted(v), next);
    }
  }

  /** No two values begin the same input: emitted bytes determine the value, and none continues another. */
  lemma EmittedIsPrefixFree(input: seq<Byte>, v: Value, w: Value)
    requires |input| < U64_LIMIT && Typed(v) && Typed(w) && At(input, 0, Emitted(v)) && At(input, 0, Emitted(w))
    ensures v == w
  {
    var c := Config(None, None, 0, false);
    ReadsBack(c, input, 0, v, Emitted(v), |Emitted(v)|);
    ReadsBack(c, input, 0, w, Emitted(w), |Emitted(w)|);
  }
}
