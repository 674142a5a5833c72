/** The probe's walker, the decoder's skip and the encoder, in place over their cursors and counters. */
module TaggedMachines {
  import opened Bytes
  import opened Canonical
  import opened Utf
  import opened Tagged

  // ---------- The walker ----------

  class Walker {
    const input: seq<Byte>
    const config: Config
    var cursor: nat
    var containers: nat
    var elements: nat
    var depth: nat
    var maxDepth: nat

    ghost predicate Valid()
      reads this
    {
      cursor <= |input| && depth <= maxDepth
    }

    constructor (config: Config, input: seq<Byte>)
      ensures Valid() && this.input == input && this.config == config
      ensures cursor == 0 && containers == 0 && elements == 0 && depth == 0 && maxDepth == 0
    {
      this.input := input;
      this.config := config;
      cursor, containers, elements, depth, maxDepth := 0, 0, 0, 0, 0;
    }

    /** Advances over bytes within `usize`, the byte limit and the input. */
    method TakeBytes(len: nat) returns (r: Result<()>)
      requires Valid()
      modifies this`cursor
      ensures Valid() && Moved(r, Take(config, input, old(cursor), len), cursor)
    {
      var end := cursor + len;
      if end >= U64_LIMIT {
        return Err(UnexpectedEnd);
      }
      if config.limit.Some? && end > config.limit.value {
        return Err(SizeLimit(config.limit.value));
      }
      if end > |input| {
        return Err(UnexpectedEnd);
      }
      cursor := end;
      return Ok(());
    }

    method ReadVarint() returns (r: Result<nat>)
      requires Valid()
      modifies this`cursor
      ensures Valid() && Fetched(r, Varint(config, input, old(cursor)), cursor)
    {
      var taken := TakeBytes(1);
      if taken.Err? {
        return Err(taken.error);
      }
      var marker := input[cursor - 1];
      if marker <= 250 {
        return Ok(marker);
      }
      var width := PayloadWidth(marker);
      if width == None {
        return Err(InvalidVarintMarker(marker));
      }
      ghost var start := cursor;
      taken := TakeBytes(width.value);
      if taken.Err? {
        return Err(taken.error);
      }
      var value := DecodeVarint(marker, input[cursor - width.value..cursor]);
      return if value == None then Err(NonCanonicalVarint) else Ok(value.value);
    }

    /** A string's length and bytes. */
    method TakeStr() returns (r: Result<()>)
      requires Valid()
      modifies this`cursor
      ensures Valid() && Moved(r, NextOf(Str(config, input, old(cursor))), cursor)
    {
      var len := ReadVarint();
      if len.Err? {
        return Err(len.error);
      }
      if len.value >= U64_LIMIT {
        return Err(IntegerOverflow);
      }
      r := TakeBytes(len.value);
    }

    method TakeNumber() returns (r: Result<()>)
      requires Valid()
      modifies this`cursor
      ensures Valid() && Moved(r, NextOf(Varint(config, input, old(cursor))), cursor)
    {
      var value := ReadVarint();
      return if value.Err? then Err(value.error) else Ok(());
    }

    /** One complete value: the counters grow by exactly its shape. */
    method WalkOne() returns (r: Result<()>)
      requires Valid()
      modifies this
      ensures Valid() && depth == old(depth)
      ensures Grew(r, Walk(config, false, input, old(cursor), depth), this, depth,
                   old(containers), old(elements), old(maxDepth))
      decreases |input| - cursor, 0
    {
      r := TakeBytes(1);
      if r.Err? {
        return;
      }
      var tag := input[cursor - 1];
      if tag <= TAG_TRUE {
        return Ok(());
      } else if tag <= TAG_I128 {
        r := TakeNumber();
      } else if tag == TAG_F64 {
        r := TakeBytes(8);
      } else if tag == TAG_F32 {
        r := TakeBytes(4);
      } else if tag == TAG_STRING {
        r := TakeStr();
      } else if tag == TAG_ARRAY || tag == TAG_OBJECT {
        r := WalkContainer(tag == TAG_OBJECT);
      } else if tag == TAG_END {
        return Err(UnexpectedTerminator);
      } else {
        return Err(InvalidTag);
      }
    }

    /** The entries of a container, up to and including its terminator. */
    method WalkContainer(keyed: bool) returns (r: Result<()>)
      requires Valid()
      modifies this
      ensures Valid() && depth == old(depth)
      ensures Grew(r, if depth >= config.depthLimit then Err(DepthLimit)
                      else Nest(WalkEntries(config, false, input, old(cursor), depth + 1, keyed, 0)),
                   this, depth, old(containers), old(elements), old(maxDepth))
      decreases |input| - cursor, 3
    {
      containers := containers + 1;
      if depth >= config.depthLimit {
        return Err(DepthLimit);
      }
      depth := depth + 1;
      if depth > maxDepth {
        maxDepth := depth;
      }
      r := WalkEach(keyed);
      if r.Err? {
        depth := depth - 1;
        return;
      }
      depth := depth - 1;
    }

    method WalkEach(keyed: bool) returns (r: Result<()>)
      requires Valid()
      modifies this
      ensures Valid() && depth == old(depth)
      ensures Grew(r, WalkEntries(config, false, input, old(cursor), depth, keyed, 0), this, depth,
                   old(containers), old(elements), old(maxDepth))
      decreases |input| - cursor, 2
    {
      var count: nat := 0;
      ghost var whole := WalkEntries(config, false, input, cursor, depth, keyed, 0);
      ghost var sofar := Shape(cursor, 0, 0, 0);
      BesideNothing(sofar, whole);
      while cursor < |input| && input[cursor] != TAG_END
        invariant Valid() && depth == old(depth) && cursor >= old(cursor)
        invariant whole == Beside(sofar, WalkEntries(config, false, input, cursor, depth, keyed, count))
        invariant containers == old(containers) + sofar.containers && elements == old(elements) + sofar.elements
        invariant maxDepth == Max(old(maxDepth), depth + sofar.height)
        decreases |input| - cursor
      {
        ghost var first := OneEntry(config, input, cursor, depth, keyed, count);
        EntryUnfolds(config, input, cursor, depth, keyed, count);
        r := WalkEntry(keyed, count);
        if r.Err? {
          return;
        }
        count := count + 1;
        BesideTwice(sofar, first.value, WalkEntries(config, false, input, cursor, depth, keyed, count));
        sofar := Joined(sofar, first.value);
      }
      r := Close(keyed, count);
    }

    /** The terminator of a container of `count` entries. */
    method Close(keyed: bool, count: nat) returns (r: Result<()>)
      requires Valid() && (cursor < |input| ==> input[cursor] == TAG_END)
      modifies this
      ensures Valid() && depth == old(depth)
      ensures Grew(r, WalkEntries(config, false, input, old(cursor), depth, keyed, count), this, depth,
                   old(containers), old(elements), old(maxDepth))
    {
      if cursor >= |input| {
        return Err(UnexpectedEnd);
      }
      r := TakeBytes(1);
      elements := elements + count;
    }

    /** One entry, the first behind `count` others: it is counted before anything of it is read. */
    method WalkEntry(keyed: bool, count: nat) returns (r: Result<()>)
      requires Valid() && cursor < |input| && input[cursor] != TAG_END
      modifies this
      ensures Valid() && depth == old(depth) && (r.Ok? ==> cursor > old(cursor))
      ensures Grew(r, OneEntry(config, input, old(cursor), depth, keyed, count), this, depth,
                   old(containers), old(elements), old(maxDepth))
      decreases |input| - cursor, 1
    {
      if config.collectionLimit.Some? && count + 1 > config.collectionLimit.value {
        return Err(CollectionLimit(config.collectionLimit.value));
      }
      r := WalkKey(keyed);
      if r.Err? {
        return;
      }
      r := WalkOne();
    }

    /** The key of an object's entry; an array's entry has none. */
    method WalkKey(keyed: bool) returns (r: Result<()>)
      requires Valid()
      modifies this`cursor
      ensures Valid() && (r.Ok? ==> cursor >= old(cursor))
      ensures Moved(r, EntryValue(config, false, input, old(cursor), keyed), cursor)
    {
      if !keyed {
        return Ok(());
      }
      r := TakeBytes(1);
      if r.Err? {
        return;
      }
      if input[cursor - 1] != TAG_STRING {
        return Err(InvalidKey);
      }
      r := TakeStr();
    }
  }

  /** Advanced to where the specification says, or failed as it says. */
  predicate Moved(r: Result<()>, read: Result<nat>, cursor: nat) {
    match read
    case Err(error) => r == Err(error)
    case Ok(next) => r == Ok(()) && cursor == next
  }

  predicate Fetched(r: Result<nat>, read: Result<Got>, cursor: nat) {
    match read
    case Err(error) => r == Err(error)
    case Ok(got) => r == Ok(got.value) && cursor == got.next
  }

  /** The token the specification reads, behind which the cursor stands, or its error. */
  predicate Lexes(r: Result<Lexeme>, lexed: Result<Lexed>, cursor: nat) {
    match lexed
    case Err(error) => r == Err(error)
    case Ok(l) => r == Ok(l.lexeme) && cursor == l.next
  }

  /** The counters grew by a shape, or the walk failed as specified. */
  ghost predicate Grew(r: Result<()>, walked: Result<Shape>, w: Walker, depth: nat, containers: nat, elements: nat,
                       maxDepth: nat)
    reads w
  {
    match walked
    case Err(error) => r == Err(error)
    case Ok(s) =>
      && r == Ok(()) && w.cursor == s.next
      && w.containers == containers + s.containers && w.elements == elements + s.elements
      && w.maxDepth == Max(maxDepth, depth + s.height)
  }

  lemma BesideNothing(nothing: Shape, rest: Result<Shape>)
    requires nothing.containers == 0 && nothing.elements == 0 && nothing.height == 0
    ensures Beside(nothing, rest) == rest
  {
  }

  /** Two shapes side by side. */
  ghost function Joined(a: Shape, b: Shape): Shape {
    Shape(b.next, a.containers + b.containers, a.elements + b.elements, Max(a.height, b.height))
  }

  lemma BesideTwice(a: Shape, b: Shape, rest: Result<Shape>)
    ensures Beside(a, Beside(b, rest)) == Beside(Joined(a, b), rest)
  {
  }

  /** The entry at a position, behind `count` others. */
  ghost function OneEntry(c: Config, input: seq<Byte>, pos: nat, depth: nat, keyed: bool, count: nat)
    : (r: Result<Shape>)
    ensures r.Ok? ==> pos < r.value.next <= |input|
  {
    if !Within(c.collectionLimit, count + 1) then Err(CollectionLimit(c.collectionLimit.value))
    else
      match EntryValue(c, false, input, pos, keyed)
      case Err(error) => Err(error)
      case Ok(start) => Walk(c, false, input, start, depth)
  }

  lemma EntryUnfolds(c: Config, input: seq<Byte>, pos: nat, depth: nat, keyed: bool, count: nat)
    requires pos < |input| && input[pos] != TAG_END
    ensures WalkEntries(c, false, input, pos, depth, keyed, count) == match OneEntry(c, input, pos, depth, keyed, count)
      case Err(error) => Err(error)
      case Ok(first) => Beside(first, WalkEntries(c, false, input, first.next, depth, keyed, count + 1))
  {
  }

  /** The probe of an input. */
  method ProbeInput(config: Config, input: seq<Byte>) returns (r: Result<Probe>)
    ensures r == ProbeOutcome(config, input)
  {
    var walker := new Walker(config, input);
    var walked := walker.WalkOne();
    if walked.Err? {
      return Err(walked.error);
    }
    if config.rejectTrailing && walker.cursor != |input| {
      return Err(TrailingBytes(|input| - walker.cursor));
    }
    return Ok(Probe(walker.cursor, walker.containers, walker.elements, walker.maxDepth));
  }

  // ---------- The decoder ----------

  class Decoder {
    const input: seq<Byte>
    const config: Config
    var cursor: nat
    /** A token already read. */
    var lookahead: Option<Lexeme>

    ghost predicate Valid()
      reads this
    {
      cursor <= |input|
    }

    constructor (config: Config, input: seq<Byte>, cursor: nat)
      requires cursor <= |input|
      ensures Valid() && this.input == input && this.config == config && this.cursor == cursor
      ensures lookahead == None
    {
      this.input := input;
      this.config := config;
      this.cursor := cursor;
      lookahead := None;
    }

    method TakeBytes(len: nat) returns (r: Result<seq<Byte>>)
      requires Valid()
      modifies this`cursor
      ensures Valid()
      ensures match Take(config, input, old(cursor), len)
        case Err(error) => r == Err(error)
        case Ok(next) => r == Ok(input[old(cursor)..next]) && cursor == next
    {
      var end := cursor + len;
      if end >= U64_LIMIT {
        return Err(UnexpectedEnd);
      }
      if config.limit.Some? && end > config.limit.value {
        return Err(SizeLimit(config.limit.value));
      }
      if end > |input| {
        return Err(UnexpectedEnd);
      }
      cursor := end;
      return Ok(input[cursor - len..cursor]);
    }

    method ReadVarint() returns (r: Result<nat>)
      requires Valid()
      modifies this`cursor
      ensures Valid() && Fetched(r, Varint(config, input, old(cursor)), cursor)
    {
      var marker := TakeBytes(1);
      if marker.Err? {
        return Err(marker.error);
      }
      var width := PayloadWidth(marker.value[0]);
      if width == None {
        return Err(InvalidVarintMarker(marker.value[0]));
      }
      var payload := TakeBytes(width.value);
      if payload.Err? {
        return Err(payload.error);
      }
      var value := DecodeVarint(marker.value[0], payload.value);
      return if value == None then Err(NonCanonicalVarint) else Ok(value.value);
    }

    /** An unsigned integer up to a bound. */
    method ReadUnsigned(limit: nat) returns (r: Result<nat>)
      requires Valid() && (limit == U64_LIMIT || limit == U128_LIMIT)
      modifies this`cursor
      ensures Valid()
      ensures limit == U64_LIMIT ==> Fetched(r, Length(config, input, old(cursor)), cursor)
      ensures limit == U128_LIMIT ==> Fetched(r, Varint(config, input, old(cursor)), cursor)
    {
      r := ReadVarint();
      if r.Ok? {
        VarintFits(config, input, old(cursor));
        if r.value >= limit {
          r := Err(IntegerOverflow);
        }
      }
    }

    /** A signed integer of 64 or 128 bits, by its tag. */
    method ReadSigned(tag: Byte) returns (r: Result<Lexeme>)
      requires Valid() && (tag == TAG_I64 || tag == TAG_I128)
      modifies this`cursor
      ensures Valid() && Lexes(r, LexSigned(tag, Varint(config, input, old(cursor))), cursor)
    {
      var encoded := ReadVarint();
      if encoded.Err? {
        return Err(encoded.error);
      }
      VarintFits(config, input, old(cursor));
      var value := UnZigZag(encoded.value);
      if tag == TAG_I128 {
        return Ok(Whole(I128(value)));
      }
      return if value < -U63_LIMIT || value >= U63_LIMIT then Err(IntegerOverflow) else Ok(Whole(I64(value)));
    }

    /** An unsigned integer of 64 or 128 bits, by its tag. */
    method ReadNumber(tag: Byte) returns (r: Result<Lexeme>)
      requires Valid() && (tag == TAG_U64 || tag == TAG_U128)
      modifies this`cursor
      ensures Valid() && Lexes(r, LexUnsigned(tag, if tag == TAG_U64 then Length(config, input, old(cursor))
                                                   else Varint(config, input, old(cursor))), cursor)
    {
      var value := ReadUnsigned(if tag == TAG_U64 then U64_LIMIT else U128_LIMIT);
      if value.Err? {
        return Err(value.error);
      }
      return Ok(Whole(if tag == TAG_U64 then U64(value.value) else U128(value.value)));
    }

    /** The bits of a float, least significant byte first. */
    method ReadFloat(tag: Byte) returns (r: Result<Lexeme>)
      requires Valid() && (tag == TAG_F64 || tag == TAG_F32)
      modifies this`cursor
      ensures Valid()
      ensures Lexes(r, LexFloat(tag, input, old(cursor), Take(config, input, old(cursor),
                                                              if tag == TAG_F64 then 8 else 4)), cursor)
    {
      var bits := TakeBytes(if tag == TAG_F64 then 8 else 4);
      if bits.Err? {
        return Err(bits.error);
      }
      return Ok(Whole(if tag == TAG_F64 then F64(LeValue(bits.value)) else F32(LeValue(bits.value))));
    }

    method ReadString() returns (r: Result<Lexeme>)
      requires Valid()
      modifies this`cursor
      ensures Valid() && Lexes(r, LexText(input, Str(config, input, old(cursor))), cursor)
    {
      var len := ReadUnsigned(U64_LIMIT);
      if len.Err? {
        return Err(len.error);
      }
      var text := TakeBytes(len.value);
      if text.Err? {
        return Err(text.error);
      }
      return if Utf8(text.value) then Ok(Whole(Text(text.value))) else Err(InvalidUtf8);
    }

    /** The next full token: a tag plus any payload. */
    method NextToken() returns (r: Result<Lexeme>)
      requires Valid()
      modifies this`cursor
      ensures Valid() && Lexes(r, Lex(config, input, old(cursor)), cursor)
    {
      var taken := TakeBytes(1);
      if taken.Err? {
        return Err(taken.error);
      }
      var tag := taken.value[0];
      if tag == TAG_NULL {
        return Ok(Whole(Null));
      } else if tag == TAG_FALSE {
        return Ok(Whole(Bool(false)));
      } else if tag == TAG_TRUE {
        return Ok(Whole(Bool(true)));
      } else if tag == TAG_U64 || tag == TAG_U128 {
        r := ReadNumber(tag);
      } else if tag == TAG_I64 || tag == TAG_I128 {
        r := ReadSigned(tag);
      } else if tag == TAG_F64 || tag == TAG_F32 {
        r := ReadFloat(tag);
      } else if tag == TAG_STRING {
        r := ReadString();
      } else if tag == TAG_ARRAY {
        return Ok(BeginArray);
      } else if tag == TAG_OBJECT {
        return Ok(BeginObject);
      } else if tag == TAG_END {
        return Err(UnexpectedTerminator);
      } else {
        return Err(InvalidTag);
      }
    }

    /** Reads a token ahead; what a skip will do stays the same. */
    method PeekToken() returns (r: Result<Lexeme>)
      requires Valid()
      modifies this
      ensures Valid()
      ensures match r
        case Ok(lexeme) =>
          && lookahead == Some(lexeme)
          && SkipFrom(config, input, cursor, lookahead) == old(SkipFrom(config, input, cursor, lookahead))
        case Err(error) => old(SkipFrom(config, input, cursor, lookahead)) == Err(error) && lookahead == None
      ensures old(lookahead).Some? ==> r == Ok(old(lookahead).value) && cursor == old(cursor)
      ensures old(lookahead).None? ==> Lexes(r, old(Lex(config, input, cursor)), cursor)
    {
      if lookahead.None? {
        var token := NextToken();
        if token.Err? {
          return Err(token.error);
        }
        lookahead := Some(token.value);
      }
      return Ok(lookahead.value);
    }

    /** The pending token, or else the next one. */
    method TakeToken() returns (r: Result<Lexeme>)
      requires Valid()
      modifies this
      ensures Valid() && lookahead == None
      ensures match old(lookahead)
        case Some(lexeme) => r == Ok(lexeme) && cursor == old(cursor)
        case None => Lexes(r, Lex(config, input, old(cursor)), cursor)
    {
      if lookahead.Some? {
        var lexeme := lookahead.value;
        lookahead := None;
        return Ok(lexeme);
      }
      r := NextToken();
    }

    /** Skips one value with a counter of open containers; terminators are stepped over unchecked. */
    method SkipValue() returns (r: Result<()>)
      requires Valid()
      modifies this
      ensures Valid() && lookahead == None
      ensures Moved(r, old(SkipFrom(config, input, cursor, lookahead)), cursor)
    {
      var token := TakeToken();
      if token.Err? {
        return Err(token.error);
      }
      if !Opening(token.value) {
        return Ok(());
      }
      var nested: nat := 1;
      ghost var whole := SkipFlat(config, input, cursor, nested);
      while nested > 0
        invariant Valid() && lookahead == None
        invariant if nested > 0 then whole == SkipFlat(config, input, cursor, nested) else whole == Ok(cursor)
        decreases |input| - cursor, nested
      {
        var left := SkipOne(nested);
        if left.Err? {
          return Err(left.error);
        }
        nested := left.value;
      }
      return Ok(());
    }

    /** One round of the skip: a terminator, or a token that may open another container. */
    method SkipOne(nested: nat) returns (left: Result<nat>)
      requires Valid() && nested > 0
      modifies this`cursor
      ensures Valid()
      ensures match left
        case Err(error) => SkipFlat(config, input, old(cursor), nested) == Err(error)
        case Ok(n) =>
          && cursor > old(cursor)
          && SkipFlat(config, input, old(cursor), nested)
             == if n > 0 then SkipFlat(config, input, cursor, n) else Ok(cursor)
    {
      if cursor >= |input| {
        return Err(UnexpectedEnd);
      }
      if input[cursor] == TAG_END {
        cursor := cursor + 1;
        return Ok(nested - 1);
      }
      TokenMoves(config, input, cursor);
      var token := NextToken();
      if token.Err? {
        return Err(token.error);
      }
      return Ok(if Opening(token.value) then nested + 1 else nested);
    }
  }

  lemma TokenMoves(c: Config, input: seq<Byte>, pos: nat)
    ensures ReadToken(c, input, pos).Ok? ==> pos < ReadToken(c, input, pos).value.next <= |input|
  {
    if ReadToken(c, input, pos).Ok? {
      TokenAdvances(c, input, pos);
    }
  }
}
