/**
 The self-describing profile under variable-width little-endian integers: a tag byte before every
 value, containers closed by a terminator. This module gives the bytes of a value tree, what the
 structural probe finds at a position, and where the decoder's flat skip stops.
 */
module Tagged {
  import opened Bytes
  import opened Canonical
  import opened Utf

  const TAG_NULL := 0x00
  const TAG_FALSE := 0x01
  const TAG_TRUE := 0x02
  const TAG_U64 := 0x03
  const TAG_U128 := 0x04
  const TAG_I64 := 0x05
  const TAG_I128 := 0x06
  const TAG_F64 := 0x07
  const TAG_F32 := 0x08
  const TAG_STRING := 0x09
  const TAG_ARRAY := 0x0a
  const TAG_OBJECT := 0x0b
  const TAG_END := 0xff

  datatype WireError =
    | UnexpectedEnd
    | SizeLimit(limit: nat)
    | CollectionLimit(limit: nat)
    | DepthLimit
    | InvalidVarintMarker(marker: Byte)
    | NonCanonicalVarint
    | IntegerOverflow
    | InvalidUtf8
    | InvalidKey
    | InvalidTag
    | UnexpectedTerminator
    | NonFiniteFloat
    | TrailingBytes(remaining: nat)

  datatype Result<+T> = Ok(value: T) | Err(error: WireError)

  datatype Config = Config(limit: Option<nat>, collectionLimit: Option<nat>, depthLimit: nat, rejectTrailing: bool)

  predicate Within(limit: Option<nat>, n: nat) {
    limit.Some? ==> n <= limit.value
  }

  // ---------- Reading ----------

  /** Advances by `len` bytes: an end beyond `usize`, the byte limit, then the end of the input. */
  function Take(c: Config, input: seq<Byte>, pos: nat, len: nat): Result<nat> {
    if pos + len >= U64_LIMIT then Err(UnexpectedEnd)
    else if !Within(c.limit, pos + len) then Err(SizeLimit(c.limit.value))
    else if pos + len > |input| then Err(UnexpectedEnd)
    else Ok(pos + len)
  }

  datatype Got = Got(value: nat, next: nat)

  function Varint(c: Config, input: seq<Byte>, pos: nat): Result<Got> {
    match Take(c, input, pos, 1)
    case Err(error) => Err(error)
    case Ok(start) =>
      match PayloadWidth(input[pos])
      case None => Err(InvalidVarintMarker(input[pos]))
      case Some(width) =>
        match Take(c, input, start, width)
        case Err(error) => Err(error)
        case Ok(next) =>
          match DecodeVarint(input[pos], input[start..next])
          case None => Err(NonCanonicalVarint)
          case Some(value) => Ok(Got(value, next))
  }

  lemma VarintFits(c: Config, input: seq<Byte>, pos: nat)
    requires Varint(c, input, pos).Ok?
    ensures Varint(c, input, pos).value.value < U128_LIMIT
  {
    assert ReadVarint(input, pos).Read?;
    VarintIsCanonical(input, pos);
  }

  /** A varint of 64 bits. */
  function Length(c: Config, input: seq<Byte>, pos: nat): Result<Got> {
    match Varint(c, input, pos)
    case Err(error) => Err(error)
    case Ok(got) => if got.value < U64_LIMIT then Ok(got) else Err(IntegerOverflow)
  }

  /** Where a length-prefixed string starts and ends. */
  function Str(c: Config, input: seq<Byte>, pos: nat): Result<Got> {
    match Length(c, input, pos)
    case Err(error) => Err(error)
    case Ok(len) =>
      match Take(c, input, len.next, len.value)
      case Err(error) => Err(error)
      case Ok(end) => Ok(Got(len.next, end))
  }

  function NextOf(read: Result<Got>): Result<nat> {
    match read
    case Err(error) => Err(error)
    case Ok(got) => Ok(got.next)
  }

  // ---------- Decoder tokens ----------

  datatype Value =
    | Null
    | Bool(flag: bool)
    | U64(u: nat)
    | U128(u: nat)
    | I64(i: int)
    | I128(i: int)
    | F64(bits: nat)
    | F32(bits: nat)
    | Text(text: seq<Byte>)
    | Array(items: seq<Value>)
    | Object(fields: seq<Field>)

  datatype Field = Field(key: seq<Byte>, value: Value)

  /** A token with what it holds: a whole scalar or string, or the tag that opens a container. */
  datatype Lexeme = Whole(value: Value) | BeginArray | BeginObject

  datatype Lexed = Lexed(lexeme: Lexeme, next: nat)

  function LexUnsigned(tag: Byte, read: Result<Got>): Result<Lexed> {
    match read
    case Err(error) => Err(error)
    case Ok(got) => Ok(Lexed(Whole(if tag == TAG_U64 then U64(got.value) else U128(got.value)), got.next))
  }

  /** A signed integer, of 64 bits where the tag says so. */
  function LexSigned(tag: Byte, read: Result<Got>): Result<Lexed> {
    match read
    case Err(error) => Err(error)
    case Ok(got) =>
      if got.value >= U128_LIMIT then Err(IntegerOverflow)
      else
        var i := UnZigZag(got.value);
        if tag == TAG_I128 then Ok(Lexed(Whole(I128(i)), got.next))
        else if -U63_LIMIT <= i < U63_LIMIT then Ok(Lexed(Whole(I64(i)), got.next))
        else Err(IntegerOverflow)
  }

  /** The bits of a float. */
  function LexFloat(tag: Byte, input: seq<Byte>, pos: nat, read: Result<nat>): Result<Lexed> {
    match read
    case Err(error) => Err(error)
    case Ok(next) =>
      var bits := if pos <= next <= |input| then LeValue(input[pos..next]) else 0;
      Ok(Lexed(Whole(if tag == TAG_F64 then F64(bits) else F32(bits)), next))
  }

  function LexText(input: seq<Byte>, read: Result<Got>): Result<Lexed> {
    match read
    case Err(error) => Err(error)
    case Ok(got) =>
      if got.value <= got.next <= |input| && Utf8(input[got.value..got.next]) then
        Ok(Lexed(Whole(Text(input[got.value..got.next])), got.next))
      else Err(InvalidUtf8)
  }

  /** `read_token`. */
  function Lex(c: Config, input: seq<Byte>, pos: nat): Result<Lexed> {
    match Take(c, input, pos, 1)
    case Err(error) => Err(error)
    case Ok(start) =>
      var tag := input[pos];
      if tag == TAG_NULL then Ok(Lexed(Whole(Null), start))
      else if tag == TAG_FALSE || tag == TAG_TRUE then Ok(Lexed(Whole(Bool(tag == TAG_TRUE)), start))
      else if tag == TAG_U64 then LexUnsigned(tag, Length(c, input, start))
      else if tag == TAG_U128 then LexUnsigned(tag, Varint(c, input, start))
      else if tag == TAG_I64 || tag == TAG_I128 then LexSigned(tag, Varint(c, input, start))
      else if tag == TAG_F64 then LexFloat(tag, input, start, Take(c, input, start, 8))
      else if tag == TAG_F32 then LexFloat(tag, input, start, Take(c, input, start, 4))
      else if tag == TAG_STRING then LexText(input, Str(c, input, start))
      else if tag == TAG_ARRAY then Ok(Lexed(BeginArray, start))
      else if tag == TAG_OBJECT then Ok(Lexed(BeginObject, start))
      else if tag == TAG_END then Err(UnexpectedTerminator)
      else Err(InvalidTag)
  }

  /** What a reader needs that looks at no values: whether a token opens a container, and where it ends. */
  datatype Token = Token(opens: bool, next: nat)

  predicate Opening(lexeme: Lexeme) {
    lexeme.BeginArray? || lexeme.BeginObject?
  }

  function ReadToken(c: Config, input: seq<Byte>, pos: nat): Result<Token> {
    match Lex(c, input, pos)
    case Err(error) => Err(error)
    case Ok(lexed) => Ok(Token(Opening(lexed.lexeme), lexed.next))
  }

  lemma TokenAdvances(c: Config, input: seq<Byte>, pos: nat)
    requires ReadToken(c, input, pos).Ok?
    ensures pos < ReadToken(c, input, pos).value.next <= |input|
  {
  }

  /** The flat skip: a counter of open containers, no depth, no keys, no limit on terminators. */
  function SkipFlat(c: Config, input: seq<Byte>, pos: nat, nested: nat): Result<nat>
    requires nested > 0
    decreases |input| - pos
  {
    if pos >= |input| then Err(UnexpectedEnd)
    else if input[pos] == TAG_END then
      if nested == 1 then Ok(pos + 1) else SkipFlat(c, input, pos + 1, nested - 1)
    else
      match ReadToken(c, input, pos)
      case Err(error) => Err(error)
      case Ok(token) =>
        TokenAdvances(c, input, pos);
        SkipFlat(c, input, token.next, if token.opens then nested + 1 else nested)
  }

  /** `skip_value_inner` when no token is pending. */
  function Skip(c: Config, input: seq<Byte>, pos: nat): Result<nat> {
    match ReadToken(c, input, pos)
    case Err(error) => Err(error)
    case Ok(token) => if token.opens then SkipFlat(c, input, token.next, 1) else Ok(token.next)
  }

  /** `skip_value_inner` behind a pending token, if there is one. */
  function SkipFrom(c: Config, input: seq<Byte>, pos: nat, pending: Option<Lexeme>): Result<nat> {
    match pending
    case None => Skip(c, input, pos)
    case Some(lexeme) => if Opening(lexeme) then SkipFlat(c, input, pos, 1) else Ok(pos)
  }

  // ---------- The structural walk ----------

  /** What a walk finds: where the value ends, and how many containers and entries it holds how deep. */
  datatype Shape = Shape(next: nat, containers: nat, elements: nat, height: nat)

  function Flat(read: Result<nat>): Result<Shape> {
    match read
    case Err(error) => Err(error)
    case Ok(next) => Ok(Shape(next, 0, 0, 0))
  }

  function Max(a: nat, b: nat): nat {
    if a < b then b else a
  }

  /**
   One complete value. A checked walk also asks that the decoder can read every token it visits;
   the probe's own walk is unchecked: it looks at neither UTF-8 nor the range of 64-bit integers.
   */
  function Walk(c: Config, checked: bool, input: seq<Byte>, pos: nat, depth: nat): (r: Result<Shape>)
    ensures r.Ok? ==> pos < r.value.next <= |input|
    decreases |input| - pos, 0
  {
    match Take(c, input, pos, 1)
    case Err(error) => Err(error)
    case Ok(start) =>
      var tag := input[pos];
      if checked && ReadToken(c, input, pos).Err? then Err(ReadToken(c, input, pos).error)
      else if tag <= TAG_TRUE then Ok(Shape(start, 0, 0, 0))
      else if tag <= TAG_I128 then Flat(NextOf(Varint(c, input, start)))
      else if tag == TAG_F64 then Flat(Take(c, input, start, 8))
      else if tag == TAG_F32 then Flat(Take(c, input, start, 4))
      else if tag == TAG_STRING then Flat(NextOf(Str(c, input, start)))
      else if tag == TAG_ARRAY || tag == TAG_OBJECT then
        if depth >= c.depthLimit then Err(DepthLimit)
        else Nest(WalkEntries(c, checked, input, start, depth + 1, tag == TAG_OBJECT, 0))
      else if tag == TAG_END then Err(UnexpectedTerminator)
      else Err(InvalidTag)
  }

  /** A container around its entries. */
  function Nest(entries: Result<Shape>): Result<Shape> {
    match entries
    case Err(error) => Err(error)
    case Ok(s) => Ok(Shape(s.next, s.containers + 1, s.elements, s.height + 1))
  }

  /** A value in front of the entries behind it. */
  function Beside(first: Shape, rest: Result<Shape>): Result<Shape> {
    match rest
    case Err(error) => Err(error)
    case Ok(s) =>
      Ok(Shape(s.next, first.containers + s.containers, first.elements + s.elements, Max(first.height, s.height)))
  }

  /** The entries up to the terminator, `count` of them already seen. */
  function WalkEntries(c: Config, checked: bool, input: seq<Byte>, pos: nat, depth: nat, keyed: bool, count: nat)
    : (r: Result<Shape>)
    ensures r.Ok? ==> pos < r.value.next <= |input|
    decreases |input| - pos, 1
  {
    if pos >= |input| then Err(UnexpectedEnd)
    else if input[pos] == TAG_END then
      match Take(c, input, pos, 1)
      case Err(error) => Err(error)
      case Ok(next) => Ok(Shape(next, 0, count, 0))
    else if !Within(c.collectionLimit, count + 1) then Err(CollectionLimit(c.collectionLimit.value))
    else
      match EntryValue(c, checked, input, pos, keyed)
      case Err(error) => Err(error)
      case Ok(start) =>
        match Walk(c, checked, input, start, depth)
        case Err(error) => Err(error)
        case Ok(first) => Beside(first, WalkEntries(c, checked, input, first.next, depth, keyed, count + 1))
  }

  /** Where the value of an entry begins: behind its key, a string and nothing else. */
  function EntryValue(c: Config, checked: bool, input: seq<Byte>, pos: nat, keyed: bool): (r: Result<nat>)
    ensures r.Ok? ==> pos <= r.value
  {
    if !keyed then Ok(pos)
    else
      match Take(c, input, pos, 1)
      case Err(error) => Err(error)
      case Ok(start) =>
        if checked && ReadToken(c, input, pos).Err? then Err(ReadToken(c, input, pos).error)
        else if input[pos] != TAG_STRING then Err(InvalidKey)
        else NextOf(Str(c, input, start))
  }

  datatype Probe = Probe(bytes: nat, containers: nat, elements: nat, depth: nat)

  /** The probe's report on the value an input begins with. */
  function ProbeOutcome(c: Config, input: seq<Byte>): Result<Probe> {
    match Walk(c, false, input, 0, 0)
    case Err(error) => Err(error)
    case Ok(s) =>
      if c.rejectTrailing && s.next < |input| then Err(TrailingBytes(|input| - s.next))
      else Ok(Probe(s.next, s.containers, s.elements, s.height))
  }

  // ---------- Values ----------

  /** An exponent that is not all ones. */
  predicate Finite64(bits: nat) { bits / 0x10_0000_0000_0000 % 0x800 != 0x7ff }
  predicate Finite32(bits: nat) { bits / 0x80_0000 % 0x100 != 0xff }

  predicate IsText(text: seq<Byte>) { |text| < U64_LIMIT && Utf8(text) }

  /** Numbers of their machine types, floats of so many bits, strings in UTF-8. */
  predicate Typed(v: Value)
    decreases v, 0
  {
    match v
    case U64(u) => u < U64_LIMIT
    case U128(u) => u < U128_LIMIT
    case I64(i) => -U63_LIMIT <= i < U63_LIMIT
    case I128(i) => IsI128(i)
    case F64(bits) => bits < U64_LIMIT
    case F32(bits) => bits < U32_LIMIT
    case Text(text) => IsText(text)
    case Array(items) => |items| < U64_LIMIT && AllTyped(items)
    case Object(fields) => |fields| < U64_LIMIT && FieldsTyped(fields)
    case _ => true
  }

  predicate AllTyped(items: seq<Value>)
    decreases items, 0
  {
    items == [] || (Typed(items[0]) && AllTyped(items[1..]))
  }

  predicate FieldsTyped(fields: seq<Field>)
    decreases fields, 0
  {
    fields == [] || (IsText(fields[0].key) && Typed(fields[0].value) && FieldsTyped(fields[1..]))
  }

  /** A string: its tag, its length, its bytes. */
  function StrBytes(text: seq<Byte>): seq<Byte>
    requires |text| < U64_LIMIT
  {
    [TAG_STRING] + (EncodeVarint(|text|) + text)
  }

  /** The bytes emitted for a value. */
  function Emitted(v: Value): (bytes: seq<Byte>)
    requires Typed(v)
    ensures |bytes| >= 1
    decreases v, 0
  {
    match v
    case Null => [TAG_NULL]
    case Bool(flag) => [if flag then TAG_TRUE else TAG_FALSE]
    case U64(u) => [TAG_U64] + EncodeVarint(u)
    case U128(u) => [TAG_U128] + EncodeVarint(u)
    case I64(i) => [TAG_I64] + EncodeVarint(ZigZag(i))
    case I128(i) => [TAG_I128] + EncodeVarint(ZigZag(i))
    case F64(bits) => [TAG_F64] + LeBytes(bits, 8)
    case F32(bits) => [TAG_F32] + LeBytes(bits, 4)
    case Text(text) => StrBytes(text)
    case Array(items) => [TAG_ARRAY] + ItemBytes(items)
    case Object(fields) => [TAG_OBJECT] + FieldBytes(fields)
  }

  /** Elements and their terminator. */
  function ItemBytes(items: seq<Value>): seq<Byte>
    requires AllTyped(items)
    decreases items, 0
  {
    if items == [] then [TAG_END] else Emitted(items[0]) + ItemBytes(items[1..])
  }

  /** Keys and values alternately, and their terminator. */
  function FieldBytes(fields: seq<Field>): seq<Byte>
    requires FieldsTyped(fields)
    decreases fields, 0
  {
    if fields == [] then [TAG_END]
    else StrBytes(fields[0].key) + (Emitted(fields[0].value) + FieldBytes(fields[1..]))
  }

  /** Containers within the depth limit, each with its own budget of entries, and finite floats. */
  predicate Emittable(c: Config, v: Value, depth: nat)
    decreases v, 0
  {
    match v
    case F64(bits) => Finite64(bits)
    case F32(bits) => Finite32(bits)
    case Array(items) => depth < c.depthLimit && Within(c.collectionLimit, |items|) && AllEmittable(c, items, depth + 1)
    case Object(fields) =>
      depth < c.depthLimit && Within(c.collectionLimit, |fields|) && FieldsEmittable(c, fields, depth + 1)
    case _ => true
  }

  predicate AllEmittable(c: Config, items: seq<Value>, depth: nat)
    decreases items, 0
  {
    items == [] || (Emittable(c, items[0], depth) && AllEmittable(c, items[1..], depth))
  }

  predicate FieldsEmittable(c: Config, fields: seq<Field>, depth: nat)
    decreases fields, 0
  {
    fields == [] || (Emittable(c, fields[0].value, depth) && FieldsEmittable(c, fields[1..], depth))
  }

  // ---------- The shape of a value ----------

  function Containers(v: Value): nat
    decreases v, 0
  {
    match v
    case Array(items) => 1 + ItemContainers(items)
    case Object(fields) => 1 + FieldContainers(fields)
    case _ => 0
  }

  function ItemContainers(items: seq<Value>): nat
    decreases items, 0
  {
    if items == [] then 0 else Containers(items[0]) + ItemContainers(items[1..])
  }

  function FieldContainers(fields: seq<Field>): nat
    decreases fields, 0
  {
    if fields == [] then 0 else Containers(fields[0].value) + FieldContainers(fields[1..])
  }

  /** Entries of all containers: an element, or a key with its value, counts once. */
  function Elements(v: Value): nat
    decreases v, 0
  {
    match v
    case Array(items) => |items| + ItemElements(items)
    case Object(fields) => |fields| + FieldElements(fields)
    case _ => 0
  }

  function ItemElements(items: seq<Value>): nat
    decreases items, 0
  {
    if items == [] then 0 else Elements(items[0]) + ItemElements(items[1..])
  }

  function FieldElements(fields: seq<Field>): nat
    decreases fields, 0
  {
    if fields == [] then 0 else Elements(fields[0].value) + FieldElements(fields[1..])
  }

  /** Maximum nesting: nothing for a scalar. */
  function Height(v: Value): nat
    decreases v, 0
  {
    match v
    case Array(items) => 1 + ItemHeight(items)
    case Object(fields) => 1 + FieldHeight(fields)
    case _ => 0
  }

  function ItemHeight(items: seq<Value>): nat
    decreases items, 0
  {
    if items == [] then 0 else Max(Height(items[0]), ItemHeight(items[1..]))
  }

  function FieldHeight(fields: seq<Field>): nat
    decreases fields, 0
  {
    if fields == [] then 0 else Max(Height(fields[0].value), FieldHeight(fields[1..]))
  }
}
