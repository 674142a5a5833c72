/**
 The compact profile: values of statically known types, written without tags or names. This
 module gives the types, their values, the bytes of a value and what decoding at a position
 yields, error for error.
 */
module CompactWire {
  import opened Bytes
  import opened Canonical
  import opened Utf

  // ---------- Types and values ----------

  /** Fixed integers carry the bound of their machine type; a map carries the order of its keys. */
  datatype Type =
    | Unit
    | Bool
    | U8
    | I8
    | Unsigned(limit: nat)
    | U128
    | Signed(half: int)
    | I128
    | Char
    | Str
    | Vec(element: Type)
    | Array(element: Type, length: nat)
    | Optional(inner: Type)
    | Tuple(members: seq<Type>)
    | Map(key: Type, value: Type, less: (Value, Value) -> bool)
    | Enum(variants: seq<Type>)

  datatype Value =
    | Nothing
    | Flag(flag: bool)
    | Number(number: int)
    | Text(text: seq<Byte>)
    | Items(items: seq<Value>)
    | Absent
    | Present(value: Value)
    | Entries(entries: seq<Entry>)
    | Variant(index: nat, payload: Value)

  datatype Entry = Entry(key: Value, value: Value)

  ghost predicate StrictOrder(less: (Value, Value) -> bool) {
    && (forall a :: !less(a, a))
    && (forall a, b, c :: less(a, b) && less(b, c) ==> less(a, c))
    && (forall a, b :: a == b || less(a, b) || less(b, a))
  }

  /** Integer bounds of 16, 32 or 64 bits, key orders that are orders, discriminants of 32 bits. */
  ghost predicate WellFormed(t: Type) {
    match t
    case Unsigned(limit) => limit == U16_LIMIT || limit == U32_LIMIT || limit == U64_LIMIT
    case Signed(half) => half == 0x8000 || half == 0x8000_0000 || half == U63_LIMIT
    case Vec(element) => WellFormed(element)
    case Array(element, _) => WellFormed(element)
    case Optional(inner) => WellFormed(inner)
    case Tuple(members) => AllWellFormed(members)
    case Map(key, value, less) => StrictOrder(less) && WellFormed(key) && WellFormed(value)
    case Enum(variants) => |variants| <= U32_LIMIT && AllWellFormed(variants)
    case _ => true
  }

  ghost predicate AllWellFormed(types: seq<Type>) {
    types == [] || (WellFormed(types[0]) && AllWellFormed(types[1..]))
  }

  lemma {:induction false} WellFormedAt(types: seq<Type>, i: nat)
    requires AllWellFormed(types) && i < |types|
    ensures WellFormed(types[i])
  {
    if i > 0 {
      WellFormedAt(types[1..], i - 1);
    }
  }

  predicate MapFree(t: Type) {
    match t
    case Vec(element) => MapFree(element)
    case Array(element, _) => MapFree(element)
    case Optional(inner) => MapFree(inner)
    case Tuple(members) => AllMapFree(members)
    case Map(_, _, _) => false
    case Enum(variants) => AllMapFree(variants)
    case _ => true
  }

  predicate AllMapFree(types: seq<Type>) {
    types == [] || (MapFree(types[0]) && AllMapFree(types[1..]))
  }

  predicate IsScalar(code: int) {
    0 <= code < 0xd800 || 0xe000 <= code < 0x11_0000
  }

  /** The keys of a sorted map. */
  predicate Ascending(less: (Value, Value) -> bool, entries: seq<Entry>) {
    |entries| < 2 || (less(entries[0].key, entries[1].key) && Ascending(less, entries[1..]))
  }

  predicate HasType(t: Type, v: Value)
    decreases t, 1, 0
  {
    match t
    case Unit => v.Nothing?
    case Bool => v.Flag?
    case U8 => v.Number? && 0 <= v.number < 256
    case I8 => v.Number? && -128 <= v.number < 128
    case Unsigned(limit) => v.Number? && 0 <= v.number < limit && v.number < U128_LIMIT
    case U128 => v.Number? && 0 <= v.number < U128_LIMIT
    case Signed(half) => v.Number? && -half <= v.number < half && IsI128(v.number)
    case I128 => v.Number? && IsI128(v.number)
    case Char => v.Number? && IsScalar(v.number)
    case Str => v.Text? && |v.text| < U64_LIMIT && Utf8(v.text)
    case Vec(element) => v.Items? && |v.items| < U64_LIMIT && AllHaveType(element, v.items)
    case Array(element, length) => v.Items? && |v.items| == length && AllHaveType(element, v.items)
    case Optional(inner) => v.Absent? || (v.Present? && HasType(inner, v.value))
    case Tuple(members) => v.Items? && EachHasType(members, v.items)
    case Map(_, _, less) =>
      v.Entries? && |v.entries| < U64_LIMIT && EntriesHaveType(t, v.entries) && Ascending(less, v.entries)
    case Enum(variants) =>
      v.Variant? && v.index < |variants| && v.index < U32_LIMIT && HasType(variants[v.index], v.payload)
  }

  predicate AllHaveType(element: Type, items: seq<Value>)
    decreases element, 2, |items|
  {
    items == [] || (HasType(element, items[0]) && AllHaveType(element, items[1..]))
  }

  predicate EachHasType(members: seq<Type>, items: seq<Value>)
    decreases members, 0, 0
  {
    if members == [] then items == []
    else items != [] && HasType(members[0], items[0]) && EachHasType(members[1..], items[1..])
  }

  predicate EntriesHaveType(t: Type, entries: seq<Entry>)
    requires t.Map?
    decreases t, 0, |entries|
  {
    entries == [] ||
    (HasType(t.key, entries[0].key) && HasType(t.value, entries[0].value) && EntriesHaveType(t, entries[1..]))
  }

  // ---------- The bytes of a value ----------

  /** Two's complement pattern of an `i8`. */
  function SignedByte(number: int): Byte
    requires -128 <= number < 128
  {
    if number < 0 then number + 256 else number
  }

  function Wire(t: Type, v: Value): seq<Byte>
    requires HasType(t, v)
    decreases t, 1, 0
  {
    match t
    case Unit => []
    case Bool => [if v.flag then 1 else 0]
    case U8 => [v.number]
    case I8 => [SignedByte(v.number)]
    case Unsigned(_) => EncodeVarint(v.number)
    case U128 => EncodeVarint(v.number)
    case Signed(_) => EncodeVarint(ZigZag(v.number))
    case I128 => EncodeVarint(ZigZag(v.number))
    case Char => EncodeVarint(v.number)
    case Str => EncodeVarint(|v.text|) + v.text
    case Vec(element) => EncodeVarint(|v.items|) + WireAll(element, v.items)
    case Array(element, _) => WireAll(element, v.items)
    case Optional(inner) => if v.Absent? then [0] else [1] + Wire(inner, v.value)
    case Tuple(members) => WireEach(members, v.items)
    case Map(_, _, _) => EncodeVarint(|v.entries|) + WireEntries(t, v.entries)
    case Enum(variants) => EncodeVarint(v.index) + Wire(variants[v.index], v.payload)
  }

  function WireAll(element: Type, items: seq<Value>): seq<Byte>
    requires AllHaveType(element, items)
    decreases element, 2, |items|
  {
    if items == [] then [] else Wire(element, items[0]) + WireAll(element, items[1..])
  }

  function WireEach(members: seq<Type>, items: seq<Value>): seq<Byte>
    requires EachHasType(members, items)
    decreases members, 0, 0
  {
    if members == [] then [] else Wire(members[0], items[0]) + WireEach(members[1..], items[1..])
  }

  function WireEntries(t: Type, entries: seq<Entry>): seq<Byte>
    requires t.Map? && EntriesHaveType(t, entries)
    decreases t, 0, |entries|
  {
    if entries == [] then []
    else (Wire(t.key, entries[0].key) + Wire(t.value, entries[0].value)) + WireEntries(t, entries[1..])
  }

  // ---------- Limits ----------

  /** What one direction checks of containers; only decoding has a collection limit, and only it panics. */
  datatype Limits = Limits(collections: Option<nat>, depth: nat, decoding: bool)

  predicate Admits(limits: Limits, len: nat, depth: nat) {
    (limits.collections.Some? ==> len <= limits.collections.value) && depth < limits.depth
  }

  /** Decoding a vector of `i8` copies into a vector of length zero, which panics unless it is empty. */
  predicate Panics(limits: Limits, element: Type, len: nat) {
    limits.decoding && element.I8? && len > 0
  }

  /** Every vector and map within the collection limit, nested within the depth limit, and not panicking. */
  predicate Within(limits: Limits, t: Type, v: Value, depth: nat)
    requires HasType(t, v)
    decreases t, 1, 0
  {
    match t
    case Vec(element) =>
      && Admits(limits, |v.items|, depth) && !Panics(limits, element, |v.items|)
      && AllWithin(limits, element, v.items, depth + 1)
    case Array(element, _) => AllWithin(limits, element, v.items, depth)
    case Optional(inner) => v.Absent? || Within(limits, inner, v.value, depth)
    case Tuple(members) => EachWithin(limits, members, v.items, depth)
    case Map(_, _, _) => Admits(limits, |v.entries|, depth) && EntriesWithin(limits, t, v.entries, depth + 1)
    case Enum(variants) => Within(limits, variants[v.index], v.payload, depth)
    case _ => true
  }

  predicate AllWithin(limits: Limits, element: Type, items: seq<Value>, depth: nat)
    requires AllHaveType(element, items)
    decreases element, 2, |items|
  {
    items == [] || (Within(limits, element, items[0], depth) && AllWithin(limits, element, items[1..], depth))
  }

  predicate EachWithin(limits: Limits, members: seq<Type>, items: seq<Value>, depth: nat)
    requires EachHasType(members, items)
    decreases members, 0, 0
  {
    members == [] ||
    (Within(limits, members[0], items[0], depth) && EachWithin(limits, members[1..], items[1..], depth))
  }

  predicate EntriesWithin(limits: Limits, t: Type, entries: seq<Entry>, depth: nat)
    requires t.Map? && EntriesHaveType(t, entries)
    decreases t, 0, |entries|
  {
    entries == [] ||
    (Within(limits, t.key, entries[0].key, depth) && Within(limits, t.value, entries[0].value, depth)
     && EntriesWithin(limits, t, entries[1..], depth))
  }

  // ---------- Decoding ----------

  datatype CompactError =
    | UnexpectedEnd
    | SizeLimit(limit: nat)
    | CollectionLimit(limit: nat)
    | DepthLimit
    | InvalidVarintMarker(marker: Byte)
    | NonCanonicalVarint
    | IntegerOverflow
    | InvalidBool(byte: Byte)
    | InvalidChar
    | InvalidUtf8
    | DuplicateKey
    | UnknownVariant
    | TrailingBytes(remaining: nat)
    | Panic         // not an error of the source: it aborts
    | KeyOutOfOrder // only of the ordered reading below, never of the source

  datatype Outcome<+T> = Ok(value: T, next: nat) | Err(error: CompactError)

  /**
   An input and what bounds reading it: `limitEnd` is the byte limit when the input is longer.
   An ordered reading refuses map keys that do not arrive in ascending order; the source reads
   with `ordered` false.
   */
  datatype Env = Env(input: seq<Byte>, limitEnd: Option<nat>, limits: Limits, ordered: bool)

  predicate Past(e: Env, end: nat) {
    e.limitEnd.Some? && end > e.limitEnd.value
  }

  function ReadByte(e: Env, pos: nat): Outcome<Byte> {
    if pos >= |e.input| then Err(UnexpectedEnd)
    else if Past(e, pos + 1) then Err(SizeLimit(e.limitEnd.value))
    else Ok(e.input[pos], pos + 1)
  }

  /** Takes raw bytes: an end beyond `usize` and one beyond the input are the same error. */
  function Take(e: Env, pos: nat, len: nat): Outcome<seq<Byte>> {
    if pos + len >= U64_LIMIT then Err(UnexpectedEnd)
    else if Past(e, pos + len) then Err(SizeLimit(e.limitEnd.value))
    else if pos + len > |e.input| then Err(UnexpectedEnd)
    else Ok(e.input[pos..pos + len], pos + len)
  }

  /** A marker varint; the marker is read before the byte limit is consulted. */
  function Varint(e: Env, pos: nat): Outcome<nat> {
    if pos >= |e.input| then Err(UnexpectedEnd)
    else
      match PayloadWidth(e.input[pos])
      case None => Err(InvalidVarintMarker(e.input[pos]))
      case Some(width) =>
        if Past(e, pos + 1 + width) then Err(SizeLimit(e.limitEnd.value))
        else
          match ReadVarint(e.input, pos)
          case Read(value, next) => Ok(value, next)
          case NonCanonical => Err(NonCanonicalVarint)
          case _ => Err(UnexpectedEnd)
  }

  /** A varint below a bound. */
  function Below(e: Env, pos: nat, limit: nat): Outcome<nat> {
    match Varint(e, pos)
    case Err(error) => Err(error)
    case Ok(value, next) => if value < limit then Ok(value, next) else Err(IntegerOverflow)
  }

  /** A ZigZag varint within a signed range. */
  function Zig(e: Env, pos: nat, half: int): Outcome<int> {
    match Varint(e, pos)
    case Err(error) => Err(error)
    case Ok(value, next) =>
      if value < U128_LIMIT && -half <= UnZigZag(value) < half then Ok(UnZigZag(value), next) else Err(IntegerOverflow)
  }

  function FromByte(b: Byte): int {
    if b < 128 then b else b - 256
  }

  /** Booking a container: the collection limit comes before the depth limit. */
  function Enter(limits: Limits, len: nat, depth: nat): Option<CompactError> {
    if limits.collections.Some? && len > limits.collections.value then Some(CollectionLimit(limits.collections.value))
    else if depth >= limits.depth then Some(DepthLimit)
    else None
  }

  function Numbered(read: Outcome<int>): Outcome<Value> {
    match read
    case Err(error) => Err(error)
    case Ok(number, next) => Ok(Number(number), next)
  }

  function Decode(e: Env, t: Type, pos: nat, depth: nat): Outcome<Value>
    decreases t, 1, 0
  {
    match t
    case Unit => Ok(Nothing, pos)
    case Bool =>
      (match ReadByte(e, pos)
       case Err(error) => Err(error)
       case Ok(b, next) => if b > 1 then Err(InvalidBool(b)) else Ok(Flag(b == 1), next))
    case U8 => Numbered(ReadByte(e, pos))
    case I8 =>
      (match ReadByte(e, pos)
       case Err(error) => Err(error)
       case Ok(b, next) => Ok(Number(FromByte(b)), next))
    case Unsigned(limit) => Numbered(Below(e, pos, limit))
    case U128 => Numbered(Varint(e, pos))
    case Signed(half) => Numbered(Zig(e, pos, half))
    case I128 => Numbered(Zig(e, pos, I128_LIMIT))
    case Char =>
      (match Below(e, pos, U32_LIMIT)
       case Err(error) => Err(error)
       case Ok(code, next) => if IsScalar(code) then Ok(Number(code), next) else Err(InvalidChar))
    case Str =>
      (match Below(e, pos, U64_LIMIT)
       case Err(error) => Err(error)
       case Ok(len, start) =>
         match Take(e, start, len)
         case Err(error) => Err(error)
         case Ok(text, next) => if Utf8(text) then Ok(Text(text), next) else Err(InvalidUtf8))
    case Vec(element) =>
      (match Below(e, pos, U64_LIMIT)
       case Err(error) => Err(error)
       case Ok(len, start) =>
         match Enter(e.limits, len, depth)
         case Some(error) => Err(error)
         case None => DecodeVector(e, t, len, start, depth + 1))
    case Array(element, length) => Listed(DecodeMany(e, element, length, pos, depth))
    case Optional(inner) =>
      (match ReadByte(e, pos)
       case Err(error) => Err(error)
       case Ok(b, next) =>
         if b > 1 then Err(InvalidBool(b))
         else if b == 0 then Ok(Absent, next)
         else
           match Decode(e, inner, next, depth)
           case Err(error) => Err(error)
           case Ok(value, end) => Ok(Present(value), end))
    case Tuple(members) => Listed(DecodeEach(e, members, pos, depth))
    case Map(_, _, _) =>
      (match Below(e, pos, U64_LIMIT)
       case Err(error) => Err(error)
       case Ok(len, start) =>
         match Enter(e.limits, len, depth)
         case Some(error) => Err(error)
         case None =>
           match DecodeEntries(e, t, len, start, depth + 1, [])
           case Err(error) => Err(error)
           case Ok(entries, next) => Ok(Entries(entries), next))
    case Enum(variants) =>
      (match Below(e, pos, U32_LIMIT)
       case Err(error) => Err(error)
       case Ok(index, start) =>
         if index >= |variants| then Err(UnknownVariant)
         else
           match Decode(e, variants[index], start, depth)
           case Err(error) => Err(error)
           case Ok(payload, next) => Ok(Variant(index, payload), next))
  }

  function Listed(read: Outcome<seq<Value>>): Outcome<Value> {
    match read
    case Err(error) => Err(error)
    case Ok(items, next) => Ok(Items(items), next)
  }

  function Numbers(values: seq<nat>): (items: seq<Value>)
    ensures |items| == |values|
  {
    if values == [] then [] else [Number(values[0])] + Numbers(values[1..])
  }

  function AsBytes(read: Outcome<seq<Byte>>): Outcome<seq<Value>> {
    match read
    case Err(error) => Err(error)
    case Ok(bytes, next) => Ok(Numbers(bytes), next)
  }

  /** The elements of a vector: bytes are taken at once, and `i8` then panics unless there are none. */
  function DecodeVector(e: Env, t: Type, len: nat, pos: nat, depth: nat): Outcome<Value>
    requires t.Vec?
    decreases t, 0, len
  {
    if t.element.U8? then Listed(AsBytes(Take(e, pos, len)))
    else if t.element.I8? then
      match Take(e, pos, len)
      case Err(error) => Err(error)
      case Ok(_, next) => if len > 0 then Err(Panic) else Ok(Items([]), next)
    else Listed(DecodeMany(e, t.element, len, pos, depth))
  }

  function DecodeMany(e: Env, element: Type, count: nat, pos: nat, depth: nat): Outcome<seq<Value>>
    decreases element, 2, count
  {
    if count == 0 then Ok([], pos)
    else
      match Decode(e, element, pos, depth)
      case Err(error) => Err(error)
      case Ok(first, next) =>
        match DecodeMany(e, element, count - 1, next, depth)
        case Err(error) => Err(error)
        case Ok(rest, end) => Ok([first] + rest, end)
  }

  function DecodeEach(e: Env, members: seq<Type>, pos: nat, depth: nat): Outcome<seq<Value>>
    decreases members, 0, 0
  {
    if members == [] then Ok([], pos)
    else
      match Decode(e, members[0], pos, depth)
      case Err(error) => Err(error)
      case Ok(first, next) =>
        match DecodeEach(e, members[1..], next, depth)
        case Err(error) => Err(error)
        case Ok(rest, end) => Ok([first] + rest, end)
  }

  predicate HasKey(entries: seq<Entry>, key: Value) {
    entries != [] && (entries[0].key == key || HasKey(entries[1..], key))
  }

  /** Insertion into a sorted map. */
  function InsertEntry(less: (Value, Value) -> bool, entries: seq<Entry>, entry: Entry): seq<Entry> {
    if entries == [] || less(entry.key, entries[0].key) then [entry] + entries
    else [entries[0]] + InsertEntry(less, entries[1..], entry)
  }

  predicate Follows(less: (Value, Value) -> bool, entries: seq<Entry>, key: Value) {
    entries == [] || less(entries[|entries| - 1].key, key)
  }

  /** Reads pairs into a sorted map, refusing a key that is already there. */
  function DecodeEntries(e: Env, t: Type, count: nat, pos: nat, depth: nat, sofar: seq<Entry>): Outcome<seq<Entry>>
    requires t.Map?
    decreases t, 0, count
  {
    if count == 0 then Ok(sofar, pos)
    else
      match Decode(e, t.key, pos, depth)
      case Err(error) => Err(error)
      case Ok(key, middle) =>
        match Decode(e, t.value, middle, depth)
        case Err(error) => Err(error)
        case Ok(value, next) =>
          if HasKey(sofar, key) then Err(DuplicateKey)
          else if e.ordered && !Follows(t.less, sofar, key) then Err(KeyOutOfOrder)
          else DecodeEntries(e, t, count - 1, next, depth, InsertEntry(t.less, sofar, Entry(key, value)))
  }

  // ---------- The whole profile ----------

  /** The resource limits of a configuration. */
  datatype Config = Config(limit: Option<nat>, collectionLimit: Option<nat>, depthLimit: nat, rejectTrailing: bool)

  function EncodeLimits(cfg: Config): Limits { Limits(None, cfg.depthLimit, false) }
  function DecodeLimits(cfg: Config): Limits { Limits(cfg.collectionLimit, cfg.depthLimit, true) }

  /** The byte limit is only kept when the input exceeds it. */
  function EnvOf(cfg: Config, input: seq<Byte>, ordered: bool): Env {
    Env(input, if cfg.limit.Some? && |input| > cfg.limit.value then cfg.limit else None, DecodeLimits(cfg), ordered)
  }

  /** `serialize` succeeds when both limits hold; a value that breaks both reports the one met first. */
  predicate Serializes(cfg: Config, t: Type, v: Value)
    requires HasType(t, v)
  {
    Within(EncodeLimits(cfg), t, v, 0) && (cfg.limit.Some? ==> |Wire(t, v)| <= cfg.limit.value)
  }

  function Deserialize(cfg: Config, t: Type, input: seq<Byte>, ordered: bool): Outcome<Value> {
    match Decode(EnvOf(cfg, input, ordered), t, 0, 0)
    case Err(error) => Err(error)
    case Ok(v, next) =>
      if cfg.rejectTrailing && next < |input| then Err(TrailingBytes(|input| - next)) else Ok(v, next)
  }
}
