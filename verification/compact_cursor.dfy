/** The bounded cursor over compact input, and the bulk varint reader against one-by-one reading. */
module CompactReader {
  import opened Bytes
  import opened Canonical
  import opened CompactWire

  /** `count` successive varints of 64 bits. */
  function ReadMany(e: Env, pos: nat, count: nat): Outcome<seq<nat>>
    decreases count
  {
    if count == 0 then Ok([], pos)
    else
      match Below(e, pos, U64_LIMIT)
      case Err(error) => Err(error)
      case Ok(first, next) =>
        match ReadMany(e, next, count - 1)
        case Err(error) => Err(error)
        case Ok(rest, end) => Ok([first] + rest, end)
  }

  /** Values read so far in front of what is still to be read. */
  function Ahead(out: seq<nat>, rest: Outcome<seq<nat>>): Outcome<seq<nat>> {
    match rest
    case Err(error) => Err(error)
    case Ok(values, next) => Ok(out + values, next)
  }

  lemma AheadOfNothing(rest: Outcome<seq<nat>>)
    ensures Ahead([], rest) == rest
  {
    if rest.Ok? {
      assert [] + rest.value == rest.value;
    }
  }

  lemma AheadTwice(out: seq<nat>, more: seq<nat>, rest: Outcome<seq<nat>>)
    ensures Ahead(out, Ahead(more, rest)) == Ahead(out + more, rest)
  {
    if rest.Ok? {
      assert out + (more + rest.value) == (out + more) + rest.value;
    }
  }

  lemma OneMore(e: Env, pos: nat, count: nat)
    requires count > 0 && Below(e, pos, U64_LIMIT).Ok?
    ensures var first := Below(e, pos, U64_LIMIT);
      ReadMany(e, pos, count) == Ahead([first.value], ReadMany(e, first.next, count - 1))
  {
  }

  /** A run of bytes up to 250 reads as itself, or ends at the byte limit. */
  lemma {:induction false} PlainRun(e: Env, pos: nat, bytes: seq<Byte>, end: nat, count: nat)
    requires |bytes| <= count && end == pos + |bytes| <= |e.input| && bytes == e.input[pos..end]
    requires forall i :: 0 <= i < |bytes| ==> bytes[i] <= 250
    ensures ReadMany(e, pos, count)
         == if bytes != [] && Past(e, end) then Err(SizeLimit(e.limitEnd.value))
            else Ahead(bytes, ReadMany(e, end, count - |bytes|))
    decreases |bytes|
  {
    if bytes == [] {
      AheadOfNothing(ReadMany(e, pos, count));
    } else {
      PlainByte(e, pos, bytes[0]);
      PlainRun(e, pos + 1, bytes[1..], end, count - 1);
      PlainStep(e, pos, bytes[0], bytes[1..], end, count, ReadMany(e, end, count - |bytes|));
      assert [bytes[0]] + bytes[1..] == bytes;
    }
  }

  /** One more byte in front of a run. */
  lemma PlainStep(e: Env, pos: nat, b: Byte, others: seq<Byte>, end: nat, count: nat, rest: Outcome<seq<nat>>)
    requires count > 0 && pos + 1 <= end
    requires Below(e, pos, U64_LIMIT) == if Past(e, pos + 1) then Err(SizeLimit(e.limitEnd.value)) else Ok(b, pos + 1)
    requires others == [] ==> end == pos + 1
    requires ReadMany(e, pos + 1, count - 1)
          == if others != [] && Past(e, end) then Err(SizeLimit(e.limitEnd.value)) else Ahead(others, rest)
    ensures ReadMany(e, pos, count)
         == if Past(e, end) then Err(SizeLimit(e.limitEnd.value)) else Ahead([b] + others, rest)
  {
    if !Past(e, pos + 1) {
      OneMore(e, pos, count);
      AheadTwice([b], others, rest);
    }
  }

  lemma PlainByte(e: Env, pos: nat, b: Byte)
    requires pos < |e.input| && e.input[pos] == b && b <= 250
    ensures Below(e, pos, U64_LIMIT) == if Past(e, pos + 1) then Err(SizeLimit(e.limitEnd.value)) else Ok(b, pos + 1)
  {
  }

  class CompactCursor {
    const input: seq<Byte>
    const limitEnd: Option<nat>
    const limits: Limits
    var position: nat
    var depth: nat

    predicate Valid()
      reads this
    {
      position <= |input| < U63_LIMIT
    }

    /** The input and its bounds, as the specification reads them. */
    function Env(): Env {
      CompactWire.Env(input, limitEnd, limits, false)
    }

    constructor (input: seq<Byte>, cfg: Config)
      requires |input| < U63_LIMIT
      ensures Valid() && Env() == EnvOf(cfg, input, false) && position == 0 && depth == 0
    {
      this.input := input;
      limitEnd := if cfg.limit.Some? && |input| > cfg.limit.value then cfg.limit else None;
      limits := DecodeLimits(cfg);
      position := 0;
      depth := 0;
    }

    method EnforceLimit(end: nat) returns (error: Option<CompactError>)
      ensures error == if Past(Env(), end) then Some(SizeLimit(limitEnd.value)) else None
    {
      if limitEnd.Some? && end > limitEnd.value {
        return Some(SizeLimit(limitEnd.value));
      }
      return None;
    }

    method TakeBytes(len: nat) returns (r: Outcome<seq<Byte>>)
      requires Valid()
      modifies this`position
      ensures Valid() && r == Take(Env(), old(position), len) && (r.Ok? ==> position == r.next)
    {
      var end := position + len;
      if end >= U64_LIMIT {
        return Err(UnexpectedEnd);
      }
      var past := EnforceLimit(end);
      if past.Some? {
        return Err(past.value);
      }
      if end > |input| {
        return Err(UnexpectedEnd);
      }
      position := end;
      return Ok(input[position - len..position], position);
    }

    method Byte() returns (r: Outcome<Byte>)
      requires Valid()
      modifies this`position
      ensures Valid() && r == ReadByte(Env(), old(position)) && (r.Ok? ==> position == r.next)
    {
      if position >= |input| {
        return Err(UnexpectedEnd);
      }
      var past := EnforceLimit(position + 1);
      if past.Some? {
        return Err(past.value);
      }
      position := position + 1;
      return Ok(input[position - 1], position);
    }

    /** One varint of 64 bits; the widest marker is read in full before it is found too large. */
    method ReadVarint() returns (r: Outcome<nat>)
      requires Valid()
      modifies this`position
      ensures Valid() && r == Below(Env(), old(position), U64_LIMIT) && (r.Ok? ==> position == r.next)
    {
      if position >= |input| {
        return Err(UnexpectedEnd);
      }
      var marker := input[position];
      if marker <= 250 {
        var past := EnforceLimit(position + 1);
        if past.Some? {
          return Err(past.value);
        }
        position := position + 1;
        return Ok(marker, position);
      }
      var payload := Payload(marker);
      if payload.Err? {
        return Err(payload.error);
      }
      position := payload.next;
      r := NarrowValue(marker, payload.value, position);
      NarrowIsBelow(Env(), old(position), payload.value, position);
    }

    /** The payload behind a marker above 250; the position does not move. */
    method Payload(marker: Byte) returns (r: Outcome<seq<Byte>>)
      requires Valid() && position < |input| && input[position] == marker && marker > 250
      ensures r.Err? ==> Varint(Env(), position) == Err(r.error)
      ensures r.Ok? ==>
        && PayloadWidth(marker) == Some(|r.value|) && r.next == position + 1 + |r.value| <= |input|
        && r.value == input[position + 1..r.next] && !Past(Env(), r.next)
    {
      var width := PayloadWidth(marker);
      if width == None {
        return Err(InvalidVarintMarker(marker));
      }
      var end := position + 1 + width.value;
      var past := EnforceLimit(end);
      if past.Some? {
        return Err(past.value);
      }
      if end > |input| {
        return Err(UnexpectedEnd);
      }
      return Ok(input[position + 1..end], end);
    }

    method ReadVarintU128() returns (r: Outcome<nat>)
      requires Valid()
      modifies this`position
      ensures Valid() && r == Varint(Env(), old(position)) && (r.Ok? ==> position == r.next)
    {
      if position >= |input| {
        return Err(UnexpectedEnd);
      }
      var marker := input[position];
      if marker <= 250 {
        var past := EnforceLimit(position + 1);
        if past.Some? {
          return Err(past.value);
        }
        position := position + 1;
        return Ok(marker, position);
      }
      var payload := Payload(marker);
      if payload.Err? {
        return Err(payload.error);
      }
      position := payload.next;
      var value := DecodeVarint(marker, payload.value);
      r := if value.Some? then Ok(value.value, position) else Err(NonCanonicalVarint);
    }

    /** A signed integer of at most 64 bits. */
    method ReadZigzag(half: int) returns (r: Outcome<int>)
      requires Valid() && 0 < half <= U63_LIMIT
      modifies this`position
      ensures Valid() && r == Zig(Env(), old(position), half) && (r.Ok? ==> position == r.next)
    {
      var encoded := ReadVarintU128();
      if encoded.Err? {
        return Err(encoded.error);
      }
      VarintInRange(Env(), old(position));
      var value := UnZigZag(encoded.value);
      if !(-U63_LIMIT <= value < U63_LIMIT) {
        return Err(IntegerOverflow);
      }
      r := if -half <= value < half then Ok(value, position) else Err(IntegerOverflow);
    }

    method ReadZigzagI128() returns (r: Outcome<int>)
      requires Valid()
      modifies this`position
      ensures Valid() && r == Zig(Env(), old(position), I128_LIMIT) && (r.Ok? ==> position == r.next)
    {
      var encoded := ReadVarintU128();
      if encoded.Err? {
        return Err(encoded.error);
      }
      VarintInRange(Env(), old(position));
      return Ok(UnZigZag(encoded.value), position);
    }

    method EnterContainer(len: nat) returns (error: Option<CompactError>)
      modifies this`depth
      ensures error == Enter(limits, len, old(depth))
      ensures depth == if error == None then old(depth) + 1 else old(depth)
    {
      if limits.collections.Some? && len > limits.collections.value {
        return Some(CollectionLimit(limits.collections.value));
      }
      if depth >= limits.depth {
        return Some(DepthLimit);
      }
      depth := depth + 1;
      return None;
    }

    method ExitContainer()
      requires depth > 0
      modifies this`depth
      ensures depth == old(depth) - 1
    {
      depth := depth - 1;
    }

    /**
     Bulk reading, a whole run of single-byte varints at a time: the same values, the same final
     position and the same error as one varint after the other.
     */
    method ReadVarintsBulk(len: nat) returns (r: Outcome<seq<nat>>)
      requires Valid()
      modifies this`position
      ensures Valid() && r == ReadMany(Env(), old(position), len) && (r.Ok? ==> position == r.next)
    {
      var out: seq<nat> := [];
      var remaining: nat := len;
      AheadOfNothing(ReadMany(Env(), position, remaining));
      while remaining > 0
        invariant Valid() && remaining <= len
        invariant ReadMany(Env(), old(position), len) == Ahead(out, ReadMany(Env(), position, remaining))
      {
        if position >= |input| {
          return Err(UnexpectedEnd);
        }
        ghost var before, had := position, out;
        var run := NextRun(remaining);
        if run.Err? {
          return Err(run.error);
        }
        AheadTwice(had, run.value, ReadMany(Env(), position, remaining - |run.value|));
        out := out + run.value;
        remaining := remaining - |run.value|;
      }
      assert out + [] == out;
      return Ok(out, position);
    }

    /** A run of plain bytes, or one marked varint. */
    method NextRun(remaining: nat) returns (r: Outcome<seq<nat>>)
      requires Valid() && remaining > 0 && position < |input|
      modifies this`position
      ensures Valid() && Took(Env(), old(position), remaining, r) && (r.Ok? ==> r.next == position)
    {
      if input[position] <= 250 {
        r := PlainBytes(remaining);
      } else {
        r := MarkedVarint(remaining);
      }
    }

    /** Consumes the whole plain run, at least the byte at hand. */
    method PlainBytes(remaining: nat) returns (r: Outcome<seq<nat>>)
      requires Valid() && remaining > 0 && position < |input| && input[position] <= 250
      modifies this`position
      ensures Valid() && Took(Env(), old(position), remaining, r) && (r.Ok? ==> r.next == position)
    {
      var available := input[position + 1..];
      var window := if remaining - 1 < |available| then available[..remaining - 1] else available;
      var extra := PlainPrefix(window);
      var end := position + 1 + extra;
      var run := input[position..end];
      forall i | 0 <= i < |run| ensures run[i] <= 250 {
        assert i > 0 ==> run[i] == window[i - 1];
      }
      RunTaken(Env(), position, run, end, remaining);
      var past := EnforceLimit(end);
      if past.Some? {
        return Err(past.value);
      }
      position := end;
      return Ok(run, position);
    }

    method MarkedVarint(remaining: nat) returns (r: Outcome<seq<nat>>)
      requires Valid() && remaining > 0 && position < |input| && input[position] > 250
      modifies this`position
      ensures Valid() && Took(Env(), old(position), remaining, r) && (r.Ok? ==> r.next == position)
    {
      var marker := input[position];
      var payload := Payload(marker);
      if payload.Err? {
        return Err(payload.error);
      }
      NarrowIsBelow(Env(), position, payload.value, payload.next);
      var value := NarrowValue(marker, payload.value, payload.next);
      if value.Err? {
        return Err(value.error);
      }
      OneMore(Env(), position, remaining);
      position := payload.next;
      return Ok([value.value], position);
    }
  }

  /** Some values read off the front of what was to be read, or the error reading it ends with. */
  predicate Took(e: Env, pos: nat, count: nat, r: Outcome<seq<nat>>) {
    match r
    case Err(error) => ReadMany(e, pos, count) == Err(error)
    case Ok(values, next) =>
      0 < |values| <= count && ReadMany(e, pos, count) == Ahead(values, ReadMany(e, next, count - |values|))
  }

  /** A run of plain bytes is taken as a whole, or refused as a whole. */
  lemma RunTaken(e: Env, pos: nat, run: seq<Byte>, end: nat, count: nat)
    requires 0 < |run| <= count && end == pos + |run| <= |e.input| && run == e.input[pos..end]
    requires forall i :: 0 <= i < |run| ==> run[i] <= 250
    ensures Took(e, pos, count, if Past(e, end) then Err(SizeLimit(e.limitEnd.value)) else Ok(run, end))
  {
    PlainRun(e, pos, run, end, count);
  }

  lemma VarintInRange(e: Env, pos: nat)
    requires Varint(e, pos).Ok?
    ensures Varint(e, pos).value < U128_LIMIT
  {
    assert ReadVarint(e.input, pos).Read?;
    VarintIsCanonical(e.input, pos);
  }

  /** The value of a payload as a `u64`: through the narrow reader, or for the widest marker a checked cast. */
  function NarrowValue(marker: Byte, payload: seq<Byte>, next: nat): Outcome<nat> {
    if marker == MARKER_U128 then
      match DecodeVarint(marker, payload)
      case None => Err(NonCanonicalVarint)
      case Some(value) => if value < U64_LIMIT then Ok(value, next) else Err(IntegerOverflow)
    else
      match DecodeVarintU64(marker, payload)
      case None => Err(NonCanonicalVarint)
      case Some(value) => Ok(value, next)
  }

  lemma NarrowIsBelow(e: Env, pos: nat, payload: seq<Byte>, next: nat)
    requires pos < next <= |e.input| && PayloadWidth(e.input[pos]) == Some(|payload|) && e.input[pos] > 250
    requires payload == e.input[pos + 1..next] && next == pos + 1 + |payload| && !Past(e, next)
    ensures NarrowValue(e.input[pos], payload, next) == Below(e, pos, U64_LIMIT)
  {
    NarrowReaderAgrees(e.input[pos], payload);
    if DecodeVarint(e.input[pos], payload).Some? && e.input[pos] != MARKER_U128 {
      DecodedIsEncoded(e.input[pos], payload);
    }
  }
}
