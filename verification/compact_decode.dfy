/** Decoding by type over the cursor: every implementation yields what the specification yields. */
module CompactDecoder {
  import opened Bytes
  import opened Canonical
  import opened Utf
  import opened CompactWire
  import opened CompactReader

  function AsItems(read: Outcome<seq<nat>>): Outcome<seq<Value>> {
    match read
    case Err(error) => Err(error)
    case Ok(values, next) => Ok(Numbers(values), next)
  }

  /** The bulk reader's specification is the generic element loop for 64-bit integers. */
  lemma {:induction false} ManyVarints(e: Env, count: nat, pos: nat, depth: nat)
    ensures DecodeMany(e, Unsigned(U64_LIMIT), count, pos, depth) == AsItems(ReadMany(e, pos, count))
    decreases count
  {
    if count > 0 {
      var first := Below(e, pos, U64_LIMIT);
      assert Decode(e, Unsigned(U64_LIMIT), pos, depth) == Numbered(first);
      if first.Ok? {
        ManyVarints(e, count - 1, first.next, depth);
        var rest := ReadMany(e, first.next, count - 1);
        if rest.Ok? {
          assert ([first.value] + rest.value)[1..] == rest.value;
        }
      }
    }
  }

  /** Elements decoded so far in front of the rest. */
  function Behind(done: seq<Value>, rest: Outcome<seq<Value>>): Outcome<seq<Value>> {
    match rest
    case Err(error) => Err(error)
    case Ok(items, next) => Ok(done + items, next)
  }

  lemma BehindNothing(rest: Outcome<seq<Value>>)
    ensures Behind([], rest) == rest
  {
    if rest.Ok? {
      assert [] + rest.value == rest.value;
    }
  }

  lemma BehindOne(done: seq<Value>, first: Value, rest: Outcome<seq<Value>>)
    ensures Behind(done, Behind([first], rest)) == Behind(done + [first], rest)
  {
    if rest.Ok? {
      assert done + ([first] + rest.value) == (done + [first]) + rest.value;
    }
  }

  lemma ManyUnfolds(e: Env, element: Type, count: nat, pos: nat, depth: nat)
    requires count > 0 && Decode(e, element, pos, depth).Ok?
    ensures var first := Decode(e, element, pos, depth);
      DecodeMany(e, element, count, pos, depth)
      == Behind([first.value], DecodeMany(e, element, count - 1, first.next, depth))
  {
  }

  /** Decodes one value of a type, leaving the cursor behind it and the depth as it was. */
  method DecodeCompact(cursor: CompactCursor, t: Type) returns (r: Outcome<Value>)
    requires cursor.Valid() && WellFormed(t)
    modifies cursor
    ensures cursor.Valid() && cursor.depth == old(cursor.depth)
    ensures r == Decode(cursor.Env(), t, old(cursor.position), old(cursor.depth))
    ensures r.Ok? ==> cursor.position == r.next
    decreases t, 1, 0
  {
    match t {
      case Unit => r := Ok(Nothing, cursor.position);
      case Bool => r := DecodeBool(cursor);
      case U8 =>
        var b := cursor.Byte();
        r := Numbered(b);
      case I8 =>
        var b := cursor.Byte();
        r := if b.Err? then Err(b.error) else Ok(Number(FromByte(b.value)), b.next);
      case Unsigned(limit) =>
        var value := cursor.ReadVarint();
        r := if value.Err? then Err(value.error)
             else if value.value < limit then Ok(Number(value.value), value.next) else Err(IntegerOverflow);
      case U128 =>
        var value := cursor.ReadVarintU128();
        r := Numbered(value);
      case Signed(half) =>
        var value := cursor.ReadZigzag(half);
        r := Numbered(value);
      case I128 =>
        var value := cursor.ReadZigzagI128();
        r := Numbered(value);
      case Char => r := DecodeChar(cursor);
      case Str => r := DecodeStr(cursor);
      case Vec(_) => r := DecodeVec(cursor, t);
      case Array(element, length) =>
        var items := DecodeElements(cursor, element, length);
        r := Listed(items);
      case Optional(_) => r := DecodeOption(cursor, t);
      case Tuple(members) =>
        var items := DecodeMembers(cursor, members);
        r := Listed(items);
      case Map(_, _, _) => r := DecodeMap(cursor, t);
      case Enum(_) => r := DecodeEnum(cursor, t);
    }
  }

  method DecodeBool(cursor: CompactCursor) returns (r: Outcome<Value>)
    requires cursor.Valid()
    modifies cursor
    ensures cursor.Valid() && cursor.depth == old(cursor.depth)
    ensures r == Decode(cursor.Env(), Type.Bool, old(cursor.position), old(cursor.depth))
    ensures r.Ok? ==> cursor.position == r.next
  {
    var b := cursor.Byte();
    if b.Err? {
      return Err(b.error);
    }
    if b.value == 0 {
      return Ok(Flag(false), b.next);
    }
    if b.value == 1 {
      return Ok(Flag(true), b.next);
    }
    return Err(InvalidBool(b.value));
  }

  method DecodeChar(cursor: CompactCursor) returns (r: Outcome<Value>)
    requires cursor.Valid()
    modifies cursor
    ensures cursor.Valid() && cursor.depth == old(cursor.depth)
    ensures r == Decode(cursor.Env(), Char, old(cursor.position), old(cursor.depth))
    ensures r.Ok? ==> cursor.position == r.next
  {
    var code := cursor.ReadVarint();
    if code.Err? {
      return Err(code.error);
    }
    if code.value >= U32_LIMIT {
      return Err(IntegerOverflow);
    }
    r := if IsScalar(code.value) then Ok(Number(code.value), code.next) else Err(InvalidChar);
  }

  method DecodeStr(cursor: CompactCursor) returns (r: Outcome<Value>)
    requires cursor.Valid()
    modifies cursor
    ensures cursor.Valid() && cursor.depth == old(cursor.depth)
    ensures r == Decode(cursor.Env(), Str, old(cursor.position), old(cursor.depth))
    ensures r.Ok? ==> cursor.position == r.next
  {
    var len := cursor.ReadVarint();
    if len.Err? {
      return Err(len.error);
    }
    var text := cursor.TakeBytes(len.value);
    if text.Err? {
      return Err(text.error);
    }
    r := if Utf8(text.value) then Ok(Text(text.value), text.next) else Err(InvalidUtf8);
  }

  method DecodeOption(cursor: CompactCursor, t: Type) returns (r: Outcome<Value>)
    requires cursor.Valid() && t.Optional? && WellFormed(t)
    modifies cursor
    ensures cursor.Valid() && cursor.depth == old(cursor.depth)
    ensures r == Decode(cursor.Env(), t, old(cursor.position), old(cursor.depth))
    ensures r.Ok? ==> cursor.position == r.next
    decreases t, 0, 0
  {
    var b := cursor.Byte();
    if b.Err? {
      return Err(b.error);
    }
    if b.value > 1 {
      return Err(InvalidBool(b.value));
    }
    if b.value == 0 {
      return Ok(Absent, b.next);
    }
    var inner := DecodeCompact(cursor, t.inner);
    r := if inner.Err? then Err(inner.error) else Ok(Present(inner.value), inner.next);
  }

  method DecodeEnum(cursor: CompactCursor, t: Type) returns (r: Outcome<Value>)
    requires cursor.Valid() && t.Enum? && WellFormed(t)
    modifies cursor
    ensures cursor.Valid() && cursor.depth == old(cursor.depth)
    ensures r == Decode(cursor.Env(), t, old(cursor.position), old(cursor.depth))
    ensures r.Ok? ==> cursor.position == r.next
    decreases t, 0, 0
  {
    var index := cursor.ReadVarint();
    if index.Err? {
      return Err(index.error);
    }
    if index.value >= U32_LIMIT {
      return Err(IntegerOverflow);
    }
    if index.value >= |t.variants| {
      return Err(UnknownVariant);
    }
    WellFormedAt(t.variants, index.value);
    var payload := DecodeCompact(cursor, t.variants[index.value]);
    r := if payload.Err? then Err(payload.error) else Ok(Variant(index.value, payload.value), payload.next);
  }

  /** The container is left again whatever happens inside it. */
  method DecodeVec(cursor: CompactCursor, t: Type) returns (r: Outcome<Value>)
    requires cursor.Valid() && t.Vec? && WellFormed(t)
    modifies cursor
    ensures cursor.Valid() && cursor.depth == old(cursor.depth)
    ensures r == Decode(cursor.Env(), t, old(cursor.position), old(cursor.depth))
    ensures r.Ok? ==> cursor.position == r.next
    decreases t, 0, 1
  {
    var len := cursor.ReadVarint();
    if len.Err? {
      return Err(len.error);
    }
    var refused := cursor.EnterContainer(len.value);
    if refused.Some? {
      return Err(refused.value);
    }
    r := DecodeVecElements(cursor, t, len.value);
    cursor.ExitContainer();
  }

  /** The fast paths: bytes at once, `i8` into a vector of length zero, `u64` in bulk. */
  method DecodeVecElements(cursor: CompactCursor, t: Type, len: nat) returns (r: Outcome<Value>)
    requires cursor.Valid() && t.Vec? && WellFormed(t) && len < U64_LIMIT
    modifies cursor
    ensures cursor.Valid() && cursor.depth == old(cursor.depth)
    ensures r == DecodeVector(cursor.Env(), t, len, old(cursor.position), old(cursor.depth))
    ensures r.Ok? ==> cursor.position == r.next
    decreases t, 0, 0
  {
    if t.element.U8? {
      var bytes := cursor.TakeBytes(len);
      r := Listed(AsBytes(bytes));
    } else if t.element.I8? {
      var bytes := cursor.TakeBytes(len);
      r := if bytes.Err? then Err(bytes.error) else if len > 0 then Err(Panic) else Ok(Items([]), bytes.next);
    } else if t.element.Unsigned? && t.element.limit == U64_LIMIT {
      ManyVarints(cursor.Env(), len, cursor.position, cursor.depth);
      var values := cursor.ReadVarintsBulk(len);
      r := Listed(AsItems(values));
    } else {
      var items := DecodeElements(cursor, t.element, len);
      r := Listed(items);
    }
  }

  method DecodeElements(cursor: CompactCursor, element: Type, count: nat) returns (r: Outcome<seq<Value>>)
    requires cursor.Valid() && WellFormed(element)
    modifies cursor
    ensures cursor.Valid() && cursor.depth == old(cursor.depth)
    ensures r == DecodeMany(cursor.Env(), element, count, old(cursor.position), old(cursor.depth))
    ensures r.Ok? ==> cursor.position == r.next
    decreases element, 2, count
  {
    var out: seq<Value> := [];
    var left: nat := count;
    BehindNothing(DecodeMany(cursor.Env(), element, count, cursor.position, cursor.depth));
    while left > 0
      invariant cursor.Valid() && cursor.depth == old(cursor.depth) && left <= count
      invariant DecodeMany(cursor.Env(), element, count, old(cursor.position), old(cursor.depth))
             == Behind(out, DecodeMany(cursor.Env(), element, left, cursor.position, cursor.depth))
    {
      ghost var pos := cursor.position;
      var item := DecodeCompact(cursor, element);
      if item.Err? {
        return Err(item.error);
      }
      ManyUnfolds(cursor.Env(), element, left, pos, cursor.depth);
      BehindOne(out, item.value, DecodeMany(cursor.Env(), element, left - 1, cursor.position, cursor.depth));
      out := out + [item.value];
      left := left - 1;
    }
    assert out + [] == out;
    return Ok(out, cursor.position);
  }

  method DecodeMembers(cursor: CompactCursor, members: seq<Type>) returns (r: Outcome<seq<Value>>)
    requires cursor.Valid() && AllWellFormed(members)
    modifies cursor
    ensures cursor.Valid() && cursor.depth == old(cursor.depth)
    ensures r == DecodeEach(cursor.Env(), members, old(cursor.position), old(cursor.depth))
    ensures r.Ok? ==> cursor.position == r.next
    decreases members, 0, 0
  {
    if members == [] {
      return Ok([], cursor.position);
    }
    var first := DecodeCompact(cursor, members[0]);
    if first.Err? {
      return Err(first.error);
    }
    var rest := DecodeMembers(cursor, members[1..]);
    r := Behind([first.value], rest);
  }

  method DecodeMap(cursor: CompactCursor, t: Type) returns (r: Outcome<Value>)
    requires cursor.Valid() && t.Map? && WellFormed(t)
    modifies cursor
    ensures cursor.Valid() && cursor.depth == old(cursor.depth)
    ensures r == Decode(cursor.Env(), t, old(cursor.position), old(cursor.depth))
    ensures r.Ok? ==> cursor.position == r.next
    decreases t, 0, 2
  {
    var len := cursor.ReadVarint();
    if len.Err? {
      return Err(len.error);
    }
    var refused := cursor.EnterContainer(len.value);
    if refused.Some? {
      return Err(refused.value);
    }
    var entries := DecodePairs(cursor, t, len.value);
    cursor.ExitContainer();
    r := if entries.Err? then Err(entries.error) else Ok(Entries(entries.value), entries.next);
  }

  /** A key and the value behind it. */
  function PairAt(e: Env, t: Type, pos: nat, depth: nat): Outcome<Entry>
    requires t.Map?
  {
    match Decode(e, t.key, pos, depth)
    case Err(error) => Err(error)
    case Ok(key, middle) =>
      match Decode(e, t.value, middle, depth)
      case Err(error) => Err(error)
      case Ok(value, next) => Ok(Entry(key, value), next)
  }

  lemma PairUnfolds(e: Env, t: Type, count: nat, pos: nat, depth: nat, sofar: seq<Entry>)
    requires t.Map? && count > 0 && !e.ordered
    ensures DecodeEntries(e, t, count, pos, depth, sofar)
         == match PairAt(e, t, pos, depth)
            case Err(error) => Err(error)
            case Ok(entry, next) =>
              if HasKey(sofar, entry.key) then Err(DuplicateKey)
              else DecodeEntries(e, t, count - 1, next, depth, InsertEntry(t.less, sofar, entry))
  {
  }

  method DecodePair(cursor: CompactCursor, t: Type) returns (r: Outcome<Entry>)
    requires cursor.Valid() && t.Map? && WellFormed(t)
    modifies cursor
    ensures cursor.Valid() && cursor.depth == old(cursor.depth)
    ensures r == PairAt(cursor.Env(), t, old(cursor.position), old(cursor.depth))
    ensures r.Ok? ==> cursor.position == r.next
    decreases t, 0, 0
  {
    var key := DecodeCompact(cursor, t.key);
    if key.Err? {
      return Err(key.error);
    }
    var value := DecodeCompact(cursor, t.value);
    if value.Err? {
      return Err(value.error);
    }
    return Ok(Entry(key.value, value.value), value.next);
  }

  method DecodePairs(cursor: CompactCursor, t: Type, count: nat) returns (r: Outcome<seq<Entry>>)
    requires cursor.Valid() && t.Map? && WellFormed(t)
    modifies cursor
    ensures cursor.Valid() && cursor.depth == old(cursor.depth)
    ensures r == DecodeEntries(cursor.Env(), t, count, old(cursor.position), old(cursor.depth), [])
    ensures r.Ok? ==> cursor.position == r.next
    decreases t, 0, 1
  {
    var out: seq<Entry> := [];
    var left: nat := count;
    while left > 0
      invariant cursor.Valid() && cursor.depth == old(cursor.depth) && left <= count
      invariant DecodeEntries(cursor.Env(), t, count, old(cursor.position), old(cursor.depth), [])
             == DecodeEntries(cursor.Env(), t, left, cursor.position, cursor.depth, out)
    {
      PairUnfolds(cursor.Env(), t, left, cursor.position, cursor.depth, out);
      var entry := DecodePair(cursor, t);
      if entry.Err? {
        return Err(entry.error);
      }
      if HasKey(out, entry.value.key) {
        return Err(DuplicateKey);
      }
      out := InsertEntry(t.less, out, entry.value);
      left := left - 1;
    }
    return Ok(out, cursor.position);
  }

  /** Decodes a whole input, rejecting what is left over when the configuration says so. */
  method DeserializeCompact(cfg: Config, t: Type, input: seq<Byte>) returns (r: Outcome<Value>)
    requires WellFormed(t) && |input| < U63_LIMIT
    ensures r == Deserialize(cfg, t, input, false)
  {
    var cursor := new CompactCursor(input, cfg);
    r := DecodeCompact(cursor, t);
    if r.Ok? && cfg.rejectTrailing && cursor.position != |input| {
      r := Err(TrailingBytes(|input| - cursor.position));
    }
  }
}
