/** The adaptive codec in place: sizing loops, writing into a caller's bytes, reading into a caller's integers. */
module Adaptive {
  import opened Bytes
  import opened Canonical
  import opened AdaptiveFrames

  // ---------- One element at a time ----------

  lemma RawFrom(values: seq<I64>, i: nat)
    requires i < |values|
    ensures RawPayload(values[i..]) == EncodeVarint(ZigZag64(values[i])) + RawPayload(values[i + 1..])
    ensures |EncodeVarint(ZigZag64(values[i]))| == VarintSize(ZigZag64(values[i]))
  {
    assert values[i..][0] == values[i] && values[i..][1..] == values[i + 1..];
    VarintSizeIsExact(ZigZag64(values[i]));
  }

  lemma DeltasFrom(values: seq<I64>, i: nat)
    requires 0 < i < |values|
    ensures Deltas(values[i - 1], values[i..])
         == EncodeVarint(Step(values[i - 1], values[i])) + Deltas(values[i], values[i + 1..])
    ensures |EncodeVarint(Step(values[i - 1], values[i]))| == VarintSize(Step(values[i - 1], values[i]))
  {
    assert values[i..][0] == values[i] && values[i..][1..] == values[i + 1..];
    VarintSizeIsExact(Step(values[i - 1], values[i]));
  }

  lemma RunFrom(values: seq<I64>, start: nat, end: nat)
    requires start < end <= |values| < U64_LIMIT && end - start == Run(values[start..])
    ensures RlePayload(values[start..])
         == EncodeVarint(ZigZag64(values[start])) + (EncodeVarint(end - start) + RlePayload(values[end..]))
    ensures |EncodeVarint(ZigZag64(values[start]))| == VarintSize(ZigZag64(values[start]))
    ensures |EncodeVarint(end - start)| == VarintSize(end - start)
  {
    VarintSizeIsExact(ZigZag64(values[start]));
    VarintSizeIsExact(end - start);
    var here, others := values[start..], values[end..];
    assert here[0] == values[start] && here[end - start..] == others;
    RunOf(here, others, end - start);
  }

  lemma RunOf(values: seq<I64>, others: seq<I64>, n: nat)
    requires values != [] && |values| < U64_LIMIT && n == Run(values) && others == values[n..]
    ensures RlePayload(values) == EncodeVarint(ZigZag64(values[0])) + (EncodeVarint(n) + RlePayload(others))
  {
    Reassociate(EncodeVarint(ZigZag64(values[0])), EncodeVarint(n), RlePayload(others));
  }

  // ---------- Sizing ----------

  /** Sum of the sizes of independent varints, unless it overflows. */
  method RawSize(values: seq<I64>) returns (r: Result<nat>)
    ensures r == Checked(|RawPayload(values)|)
  {
    var size: nat := 0;
    assert values[0..] == values;
    for i := 0 to |values|
      invariant size < U64_LIMIT && size + |RawPayload(values[i..])| == |RawPayload(values)|
    {
      RawFrom(values, i);
      size := size + VarintSize(ZigZag64(values[i]));
      if size >= U64_LIMIT {
        return Err(SizeOverflow);
      }
    }
    return Ok(size);
  }

  method DeltaSize(values: seq<I64>) returns (r: Result<nat>)
    ensures r == Checked(|DeltaPayload(values)|)
  {
    if values == [] {
      return Ok(0);
    }
    VarintSizeIsExact(ZigZag64(values[0]));
    var size: nat := VarintSize(ZigZag64(values[0]));
    for i := 1 to |values|
      invariant size < U64_LIMIT && size + |Deltas(values[i - 1], values[i..])| == |DeltaPayload(values)|
    {
      DeltasFrom(values, i);
      size := size + VarintSize(Step(values[i - 1], values[i]));
      if size >= U64_LIMIT {
        return Err(SizeOverflow);
      }
    }
    return Ok(size);
  }

  /** The end of the run that starts at a position. */
  method RunEnd(values: seq<I64>, start: nat) returns (end: nat)
    requires start < |values|
    ensures start < end <= |values| && end - start == Run(values[start..])
  {
    end := start + 1;
    assert values[start..][0] == values[start];
    while end < |values| && values[end] == values[start]
      invariant start < end <= |values| && values[end - 1] == values[start]
      invariant Run(values[start..]) == end - 1 - start + Run(values[end - 1..])
    {
      assert values[end - 1..][1] == values[end] && values[end - 1..][1..] == values[end..];
      end := end + 1;
    }
    assert end < |values| ==> values[end - 1..][1] == values[end];
    assert values[end - 1..][0] == values[end - 1];
  }

  method RleSize(values: seq<I64>) returns (r: Result<nat>)
    requires |values| < U64_LIMIT
    ensures r == Checked(|RlePayload(values)|)
  {
    var size: nat, start: nat := 0, 0;
    assert values[0..] == values;
    while start < |values|
      invariant start <= |values| && size < U64_LIMIT
      invariant size + |RlePayload(values[start..])| == |RlePayload(values)|
    {
      var end := RunEnd(values, start);
      RunFrom(values, start, end);
      size := size + VarintSize(ZigZag64(values[start])) + VarintSize(end - start);
      if size >= U64_LIMIT {
        return Err(SizeOverflow);
      }
      start := end;
    }
    return Ok(size);
  }

  method PayloadSize(strategy: Strategy, values: seq<I64>) returns (r: Result<nat>)
    requires |values| < U64_LIMIT
    ensures r == Checked(|Payload(strategy, values)|)
  {
    match strategy {
      case Raw => r := RawSize(values);
      case Delta => r := DeltaSize(values);
      case RunLength => r := RleSize(values);
    }
  }

  method Compare(values: seq<I64>) returns (r: Result<(Strategy, nat)>)
    requires |values| < U64_LIMIT
    ensures r == Compared(values)
  {
    var raw := RawSize(values);
    if raw.Err? {
      return Err(raw.error);
    }
    var delta := DeltaSize(values);
    if delta.Err? {
      return Err(delta.error);
    }
    var rle := RleSize(values);
    if rle.Err? {
      return Err(rle.error);
    }
    return Ok(BestStrategy(raw.value, delta.value, rle.value));
  }

  method ChooseLayout(values: seq<I64>, mode: Mode) returns (r: Result<Layout>)
    requires |values| < U64_LIMIT
    ensures r == CollectionLayout(values, mode)
  {
    var strategy := Raw;
    if mode == Exact || mode == Heuristic {
      var sampled := mode == Heuristic && |values| > HEURISTIC_SAMPLE;
      var compared := Compare(if sampled then values[..HEURISTIC_SAMPLE] else values);
      if compared.Err? {
        return Err(compared.error);
      }
      strategy := compared.value.0;
    }
    var payload := PayloadSize(strategy, values);
    if payload.Err? {
      return Err(payload.error);
    }
    var required := 1 + VarintSize(|values|) + payload.value;
    if required >= U64_LIMIT {
      return Err(SizeOverflow);
    }
    return Ok(Layout(strategy, payload.value, required));
  }

  // ---------- Writing ----------

  class OutputCursor {
    const output: array<Byte>
    var position: nat

    ghost predicate Valid()
      reads this
    {
      position <= output.Length
    }

    constructor (output: array<Byte>)
      ensures Valid() && this.output == output && position == 0
    {
      this.output := output;
      position := 0;
    }

    /** Writes bytes that fit, behind those already written. */
    method WriteBytes(bytes: seq<Byte>)
      requires Valid() && position + |bytes| <= output.Length
      modifies this, output
      ensures Valid() && position == old(position) + |bytes|
      ensures output[..position] == old(output[..position]) + bytes
      ensures output[position..] == old(output[..])[position..]
    {
      forall i | 0 <= i < |bytes| {
        output[position + i] := bytes[i];
      }
      position := position + |bytes|;
    }

    method Varint(value: nat)
      requires Valid() && value < U128_LIMIT && position + |EncodeVarint(value)| <= output.Length
      modifies this, output
      ensures Valid() && position == old(position) + |EncodeVarint(value)|
      ensures output[..position] == old(output[..position]) + EncodeVarint(value)
      ensures output[position..] == old(output[..])[position..]
    {
      WriteBytes(EncodeVarint(value));
    }
  }

  /** What is written and what is left make up the frame; behind it the buffer is as it was. */
  ghost predicate Writing(cursor: OutputCursor, left: seq<Byte>, frame: seq<Byte>, was: seq<Byte>)
    reads cursor, cursor.output
  {
    && cursor.Valid() && |frame| <= |was| == cursor.output.Length
    && cursor.output[..cursor.position] + left == frame
    && cursor.output[|frame|..] == was[|frame|..]
  }

  /** Writes the next piece of a frame. */
  method WritePiece(cursor: OutputCursor, piece: seq<Byte>, ghost left: seq<Byte>, ghost rest: seq<Byte>,
                    ghost frame: seq<Byte>, ghost was: seq<Byte>)
    requires left == piece + rest && Writing(cursor, left, frame, was)
    modifies cursor, cursor.output
    ensures Writing(cursor, rest, frame, was)
  {
    ghost var before, all := cursor.output[..cursor.position], cursor.output[..];
    assert |before + left| == |frame|;
    assert before + (piece + rest) == (before + piece) + rest;
    cursor.WriteBytes(piece);
    assert cursor.output[|frame|..] == cursor.output[cursor.position..][|frame| - cursor.position..];
    assert all[cursor.position..][|frame| - cursor.position..] == all[|frame|..];
  }

  method WriteRaw(cursor: OutputCursor, values: seq<I64>, ghost frame: seq<Byte>, ghost was: seq<Byte>)
    requires Writing(cursor, RawPayload(values), frame, was)
    modifies cursor, cursor.output
    ensures Writing(cursor, [], frame, was)
  {
    assert values[0..] == values;
    for i := 0 to |values|
      invariant Writing(cursor, RawPayload(values[i..]), frame, was)
    {
      RawFrom(values, i);
      WritePiece(cursor, EncodeVarint(ZigZag64(values[i])), RawPayload(values[i..]), RawPayload(values[i + 1..]),
                 frame, was);
    }
  }

  method WriteDelta(cursor: OutputCursor, values: seq<I64>, ghost frame: seq<Byte>, ghost was: seq<Byte>)
    requires Writing(cursor, DeltaPayload(values), frame, was)
    modifies cursor, cursor.output
    ensures Writing(cursor, [], frame, was)
  {
    if values == [] {
      return;
    }
    WritePiece(cursor, EncodeVarint(ZigZag64(values[0])), DeltaPayload(values), Deltas(values[0], values[1..]), frame,
               was);
    for i := 1 to |values|
      invariant Writing(cursor, Deltas(values[i - 1], values[i..]), frame, was)
    {
      DeltasFrom(values, i);
      WritePiece(cursor, EncodeVarint(Step(values[i - 1], values[i])), Deltas(values[i - 1], values[i..]),
                 Deltas(values[i], values[i + 1..]), frame, was);
    }
  }

  method WriteRuns(cursor: OutputCursor, values: seq<I64>, ghost frame: seq<Byte>, ghost was: seq<Byte>)
    requires |values| < U64_LIMIT && Writing(cursor, RlePayload(values), frame, was)
    modifies cursor, cursor.output
    ensures Writing(cursor, [], frame, was)
  {
    var start := 0;
    assert values[0..] == values;
    while start < |values|
      invariant start <= |values| && Writing(cursor, RlePayload(values[start..]), frame, was)
    {
      var end := RunEnd(values, start);
      ghost var left, rest, run := RlePayload(values[start..]), RlePayload(values[end..]), EncodeVarint(end - start);
      RunFrom(values, start, end);
      WritePiece(cursor, EncodeVarint(ZigZag64(values[start])), left, run + rest, frame, was);
      WritePiece(cursor, EncodeVarint(end - start), run + rest, rest, frame, was);
      start := end;
    }
  }

  /** The size of a frame, after the collection limit and before the byte limit. */
  function SizeOutcome(cfg: Config, values: seq<I64>, mode: Mode): Result<Layout>
    requires |values| < U64_LIMIT
  {
    if !WithinLimit(cfg.collectionLimit, |values|) then Err(CollectionLimit(cfg.collectionLimit.value))
    else
      match CollectionLayout(values, mode)
      case Err(error) => Err(error)
      case Ok(layout) =>
        if WithinLimit(cfg.limit, layout.required) then Ok(layout) else Err(SizeLimit(cfg.limit.value))
  }

  /** Encodes into a caller's buffer, which stays untouched when it is too small or a limit refuses. */
  method EncodeInto(cfg: Config, mode: Mode, output: array<Byte>, values: seq<I64>) returns (r: Result<nat>)
    requires |values| < U64_LIMIT
    modifies output
    ensures match SizeOutcome(cfg, values, mode)
      case Err(error) => r == Err(error)
      case Ok(layout) =>
        if output.Length < layout.required then r == Err(BufferTooSmall(layout.required, output.Length))
        else r == Ok(layout.required) && layout.required == |Frame(layout.strategy, values)|
             && output[..layout.required] == Frame(layout.strategy, values)
             && output[layout.required..] == old(output[layout.required..])
    ensures r.Err? ==> output[..] == old(output[..])
  {
    if cfg.collectionLimit.Some? && |values| > cfg.collectionLimit.value {
      return Err(CollectionLimit(cfg.collectionLimit.value));
    }
    var layout := ChooseLayout(values, mode);
    if layout.Err? {
      return Err(layout.error);
    }
    var required := layout.value.required;
    if cfg.limit.Some? && required > cfg.limit.value {
      return Err(SizeLimit(cfg.limit.value));
    }
    if output.Length < required {
      return Err(BufferTooSmall(required, output.Length));
    }
    LayoutIsExact(values, mode);
    WriteFrame(output, layout.value.strategy, values);
    return Ok(required);
  }

  method WriteFrame(output: array<Byte>, strategy: Strategy, values: seq<I64>)
    requires |values| < U64_LIMIT && |Frame(strategy, values)| <= output.Length
    modifies output
    ensures var n := |Frame(strategy, values)|;
      output[..n] == Frame(strategy, values) && output[n..] == old(output[n..])
  {
    var cursor := new OutputCursor(output);
    ghost var frame, was := Frame(strategy, values), output[..];
    ghost var length, payload := EncodeVarint(|values|), Payload(strategy, values);
    assert output[..0] + frame == frame;
    WritePiece(cursor, [Tag(strategy)], frame, length + payload, frame, was);
    WritePiece(cursor, EncodeVarint(|values|), length + payload, payload, frame, was);
    match strategy {
      case Raw => WriteRaw(cursor, values, frame, was);
      case Delta => WriteDelta(cursor, values, frame, was);
      case RunLength => WriteRuns(cursor, values, frame, was);
    }
    assert cursor.output[..cursor.position] + [] == cursor.output[..cursor.position];
  }

  /** The default mode: one growing pass of raw varints, with the byte limit checked at the end. */
  method EncodeRaw(cfg: Config, values: seq<I64>) returns (r: Result<seq<Byte>>)
    requires |values| < U64_LIMIT
    ensures r == if !WithinLimit(cfg.collectionLimit, |values|) then Err(CollectionLimit(cfg.collectionLimit.value))
                 else if !WithinLimit(cfg.limit, |Frame(Raw, values)|) then Err(SizeLimit(cfg.limit.value))
                 else Ok(Frame(Raw, values))
  {
    if cfg.collectionLimit.Some? && |values| > cfg.collectionLimit.value {
      return Err(CollectionLimit(cfg.collectionLimit.value));
    }
    var output: seq<Byte> := [RAW_INTEGERS] + EncodeVarint(|values|);
    ghost var frame := Frame(Raw, values);
    assert values[0..] == values;
    Reassociate([RAW_INTEGERS], EncodeVarint(|values|), RawPayload(values));
    for i := 0 to |values|
      invariant output + RawPayload(values[i..]) == frame
    {
      RawFrom(values, i);
      Reassociate(output, EncodeVarint(ZigZag64(values[i])), RawPayload(values[i + 1..]));
      output := output + EncodeVarint(ZigZag64(values[i]));
    }
    assert output + [] == output;
    if cfg.limit.Some? && |output| > cfg.limit.value {
      return Err(SizeLimit(cfg.limit.value));
    }
    return Ok(output);
  }

  // ---------- Reading ----------

  class Cursor {
    const input: seq<Byte>
    var position: nat

    ghost predicate Valid()
      reads this
    {
      position <= |input|
    }

    constructor (input: seq<Byte>)
      ensures Valid() && this.input == input && position == 0
    {
      this.input := input;
      position := 0;
    }

    method Take(length: nat) returns (r: Result<seq<Byte>>)
      requires Valid()
      modifies this
      ensures Valid() && (r.Ok? <==> old(position) + length <= |input|)
      ensures r.Ok? ==> position == old(position) + length && r.value == input[old(position)..position]
      ensures r.Err? ==> r.error == UnexpectedEnd
    {
      if position + length > |input| {
        return Err(UnexpectedEnd);
      }
      position := position + length;
      return Ok(input[position - length..position]);
    }

    method Varint() returns (r: Result<nat>)
      requires Valid()
      modifies this
      ensures Valid() && Fetched(r, ReadAny(input, old(position)), position)
    {
      var marker := Take(1);
      if marker.Err? {
        return Err(marker.error);
      }
      var width := PayloadWidth(marker.value[0]);
      if width == None {
        return Err(InvalidVarintMarker(marker.value[0]));
      }
      var payload := Take(width.value);
      if payload.Err? {
        return Err(payload.error);
      }
      var value := DecodeVarint(marker.value[0], payload.value);
      return if value == None then Err(NonCanonicalVarint) else Ok(value.value);
    }

    method UsizeVarint() returns (r: Result<nat>)
      requires Valid()
      modifies this
      ensures Valid() && Fetched(r, ReadUsize(input, old(position)), position)
    {
      r := Varint();
      if r.Ok? && r.value >= U64_LIMIT {
        r := Err(IntegerOverflow);
      }
    }

    method SignedVarint() returns (r: Result<int>)
      requires Valid()
      modifies this
      ensures Valid() && Fetched(r, ReadSigned(input, old(position)), position)
    {
      var encoded := Varint();
      if encoded.Err? {
        return Err(encoded.error);
      }
      VarintIsCanonical(input, old(position));
      return Ok(UnZigZag(encoded.value));
    }

    method I64Varint() returns (r: Result<I64>)
      requires Valid()
      modifies this
      ensures Valid() && Fetched(r, ReadI64(input, old(position)), position)
    {
      var value := SignedVarint();
      if value.Err? {
        return Err(value.error);
      }
      return if IsI64(value.value) then Ok(value.value) else Err(IntegerOverflow);
    }
  }

  /** What a cursor returned and where it stopped, against what stands in the input. */
  predicate Fetched<T(==)>(r: Result<T>, read: Result<Got<T>>, position: nat) {
    match read
    case Err(error) => r == Err(error)
    case Ok(got) => r == Ok(got.value) && position == got.next
  }

  /** The single bytes of a run, as integers. */
  function Singles(bytes: seq<Byte>): (values: seq<I64>)
    ensures |values| == |bytes|
  {
    if bytes == [] then [] else [UnZigZag(bytes[0])] + Singles(bytes[1..])
  }

  lemma OntoTwice(a: seq<I64>, b: seq<I64>, rest: Result<Got<seq<I64>>>)
    ensures Onto(a, Onto(b, rest)) == Onto(a + b, rest)
  {
    if rest.Ok? {
      assert a + (b + rest.value.value) == (a + b) + rest.value.value;
    }
  }

  lemma OntoNothing(rest: Result<Got<seq<I64>>>)
    ensures Onto([], rest) == rest
  {
    if rest.Ok? {
      assert [] + rest.value.value == rest.value.value;
    }
  }

  /** A run of single bytes reads as one varint after the other. */
  lemma {:induction false} SinglesRead(input: seq<Byte>, pos: nat, bytes: seq<Byte>, next: nat, count: nat, left: nat)
    requires count == |bytes| + left && next == pos + |bytes| <= |input| && bytes == input[pos..next]
    requires forall i :: 0 <= i < |bytes| ==> bytes[i] <= 250
    ensures ReadRaw(input, pos, count) == Onto(Singles(bytes), ReadRaw(input, next, left))
    decreases |bytes|
  {
    if bytes == [] {
      OntoNothing(ReadRaw(input, pos, count));
    } else {
      SinglesRead(input, pos + 1, bytes[1..], next, count - 1, left);
      SingleRead(input, pos, bytes[0]);
      OntoTwice([UnZigZag(bytes[0])], Singles(bytes[1..]), ReadRaw(input, next, left));
    }
  }

  lemma SingleRead(input: seq<Byte>, pos: nat, b: Byte)
    requires pos < |input| && input[pos] == b && b <= 250
    ensures ReadI64(input, pos) == Ok(Got(UnZigZag(b), pos + 1))
  {
  }

  /** Decoded so far into the front of a buffer, in front of what is still to be read. */
  ghost predicate Filled(output: array<I64>, written: nat, rest: Result<Got<seq<I64>>>, all: Result<Got<seq<I64>>>,
                         total: nat, was: seq<I64>)
    reads output
  {
    && written <= total <= output.Length == |was|
    && Onto(output[..written], rest) == all
    && output[total..] == was[total..]
  }

  /** Stores the next values behind those already written. */
  method Store(output: array<I64>, written: nat, values: seq<I64>, ghost here: Result<Got<seq<I64>>>,
               ghost rest: Result<Got<seq<I64>>>, ghost all: Result<Got<seq<I64>>>, ghost total: nat,
               ghost was: seq<I64>)
    requires Filled(output, written, here, all, total, was) && written + |values| <= total
    requires here == Onto(values, rest)
    modifies output
    ensures Filled(output, written + |values|, rest, all, total, was)
    ensures output[written..written + |values|] == values
  {
    ghost var before := output[..written];
    OntoTwice(before, values, rest);
    forall i | 0 <= i < |values| {
      output[written + i] := values[i];
    }
    assert output[..written + |values|] == before + values;
  }

  /** Plain runs at once, then one varint, until the count is reached. */
  method FillRaw(cursor: Cursor, output: array<I64>, length: nat) returns (r: Result<nat>)
    requires cursor.Valid() && length <= output.Length
    modifies cursor, output
    ensures cursor.Valid()
    ensures Decoded(r, cursor.position, output, length, ReadRaw(cursor.input, old(cursor.position), length))
    ensures r.Err? ==> !r.error.BufferTooSmall?
    ensures output[length..] == old(output[length..])
  {
    var written: nat := 0;
    ghost var all, was := ReadRaw(cursor.input, cursor.position, length), output[..];
    assert output[..0] == [];
    OntoNothing(all);
    while written < length
      invariant written <= length && cursor.Valid()
      invariant Filled(output, written, ReadRaw(cursor.input, cursor.position, length - written), all, length, was)
      decreases length - written
    {
      written := FillPlain(cursor, output, written, length, all, was);
      if written < length {
        var one := FillOne(cursor, output, written, length, all, was);
        if one.Err? {
          return Err(one.error);
        }
        written := written + 1;
      }
    }
    Completed(output, length, cursor.position, all);
    return Ok(written);
  }

  /** One varint of any width. */
  method FillOne(cursor: Cursor, output: array<I64>, written: nat, length: nat,
                 ghost all: Result<Got<seq<I64>>>, ghost was: seq<I64>)
    returns (r: Result<()>)
    requires written < length && cursor.Valid()
    requires Filled(output, written, ReadRaw(cursor.input, cursor.position, length - written), all, length, was)
    modifies cursor, output
    ensures cursor.Valid()
    ensures r.Err? ==> all == Err(r.error) && !r.error.BufferTooSmall? && output[..] == old(output[..])
    ensures r.Ok? ==>
      Filled(output, written + 1, ReadRaw(cursor.input, cursor.position, length - (written + 1)), all, length, was)
  {
    ghost var here := ReadRaw(cursor.input, cursor.position, length - written);
    var value := cursor.I64Varint();
    if value.Err? {
      return Err(value.error);
    }
    ghost var rest := ReadRaw(cursor.input, cursor.position, length - (written + 1));
    Store(output, written, [value.value], here, rest, all, length, was);
    return Ok(());
  }

  /** The leading single-byte varints, as many as are still wanted. */
  method FillPlain(cursor: Cursor, output: array<I64>, written: nat, length: nat,
                   ghost all: Result<Got<seq<I64>>>, ghost was: seq<I64>)
    returns (more: nat)
    requires written <= length && cursor.Valid()
    requires Filled(output, written, ReadRaw(cursor.input, cursor.position, length - written), all, length, was)
    modifies cursor, output
    ensures cursor.Valid() && written <= more <= length
    ensures Filled(output, more, ReadRaw(cursor.input, cursor.position, length - more), all, length, was)
  {
    ghost var pos, here := cursor.position, ReadRaw(cursor.input, cursor.position, length - written);
    var taken := TakePlain(cursor, length - written);
    more := written + |taken|;
    ghost var rest := ReadRaw(cursor.input, cursor.position, length - more);
    SinglesRead(cursor.input, pos, taken, cursor.position, length - written, length - more);
    Store(output, written, Singles(taken), here, rest, all, length, was);
  }

  /** Takes the leading bytes up to 250, at most `wanted` of them. */
  method TakePlain(cursor: Cursor, wanted: nat) returns (bytes: seq<Byte>)
    requires cursor.Valid()
    modifies cursor
    ensures cursor.Valid() && |bytes| <= wanted && cursor.position == old(cursor.position) + |bytes|
    ensures bytes == cursor.input[old(cursor.position)..cursor.position]
    ensures forall i :: 0 <= i < |bytes| ==> bytes[i] <= 250
  {
    ghost var pos := cursor.position;
    var prefix := PlainPrefix(cursor.input[cursor.position..]);
    var plain := if prefix < wanted then prefix else wanted;
    var taken := cursor.Take(plain);
    PlainTaken(cursor.input, pos, prefix, plain, taken.value);
    return taken.value;
  }

  lemma PlainTaken(input: seq<Byte>, pos: nat, prefix: nat, plain: nat, bytes: seq<Byte>)
    requires pos <= |input| && prefix == PlainPrefix(input[pos..]) && plain <= prefix
    requires bytes == input[pos..pos + plain]
    ensures forall i :: 0 <= i < |bytes| ==> bytes[i] <= 250
  {
    var window := input[pos..];
    assert bytes == window[..plain];
  }

  lemma Completed(output: array<I64>, length: nat, pos: nat, all: Result<Got<seq<I64>>>)
    requires length <= output.Length && Onto(output[..length], Ok(Got([], pos))) == all
    ensures all == Ok(Got(output[..length], pos))
  {
    assert output[..length] + [] == output[..length];
  }

  /** All of the values in the buffer, or the error that reading them ends with. */
  ghost predicate Decoded(r: Result<nat>, position: nat, output: array<I64>, length: nat, all: Result<Got<seq<I64>>>)
    requires length <= output.Length
    reads output
  {
    match all
    case Err(error) => r == Err(error)
    case Ok(got) => r == Ok(length) && got == Got(output[..length], position)
  }

  method FillDelta(cursor: Cursor, output: array<I64>, length: nat) returns (r: Result<nat>)
    requires cursor.Valid() && length <= output.Length
    modifies cursor, output
    ensures cursor.Valid()
    ensures Decoded(r, cursor.position, output, length, ReadDelta(cursor.input, old(cursor.position), length))
    ensures r.Err? ==> !r.error.BufferTooSmall?
    ensures output[length..] == old(output[length..])
  {
    if length == 0 {
      assert output[..0] == [];
      return Ok(0);
    }
    ghost var all, was := ReadDelta(cursor.input, cursor.position, length), output[..];
    assert output[..0] == [];
    OntoNothing(all);
    var first := cursor.I64Varint();
    if first.Err? {
      return Err(first.error);
    }
    Store(output, 0, [first.value], all, ReadDeltas(cursor.input, cursor.position, first.value, length - 1),
          all, length, was);
    r := FillDeltas(cursor, output, length, all, was);
  }

  method FillDeltas(cursor: Cursor, output: array<I64>, length: nat, ghost all: Result<Got<seq<I64>>>,
                    ghost was: seq<I64>)
    returns (r: Result<nat>)
    requires cursor.Valid() && 1 <= length <= output.Length
    requires Filled(output, 1, ReadDeltas(cursor.input, cursor.position, output[0], length - 1), all, length, was)
    modifies cursor, output
    ensures cursor.Valid() && Decoded(r, cursor.position, output, length, all)
    ensures r.Err? ==> !r.error.BufferTooSmall?
    ensures output[length..] == was[length..]
  {
    var written: nat := 1;
    while written < length
      invariant 1 <= written <= length && cursor.Valid()
      invariant Filled(output, written,
                       ReadDeltas(cursor.input, cursor.position, output[written - 1], length - written),
                       all, length, was)
    {
      var previous := output[written - 1];
      ghost var here := ReadDeltas(cursor.input, cursor.position, previous, length - written);
      var delta := cursor.SignedVarint();
      if delta.Err? {
        return Err(delta.error);
      }
      var next := previous + delta.value;
      if !IsI64(next) {
        return Err(DeltaOverflow);
      }
      Store(output, written, [next], here, ReadDeltas(cursor.input, cursor.position, next, length - written - 1),
            all, length, was);
      written := written + 1;
    }
    Completed(output, length, cursor.position, all);
    return Ok(written);
  }

  method FillRuns(cursor: Cursor, output: array<I64>, length: nat) returns (r: Result<nat>)
    requires cursor.Valid() && length <= output.Length
    modifies cursor, output
    ensures cursor.Valid()
    ensures Decoded(r, cursor.position, output, length, ReadRle(cursor.input, old(cursor.position), length))
    ensures r.Err? ==> !r.error.BufferTooSmall?
    ensures output[length..] == old(output[length..])
  {
    var written: nat := 0;
    ghost var all, was := ReadRle(cursor.input, cursor.position, length), output[..];
    assert output[..0] == [];
    OntoNothing(all);
    while written < length
      invariant written <= length && cursor.Valid()
      invariant Filled(output, written, ReadRle(cursor.input, cursor.position, length - written), all, length, was)
    {
      var more := FillRun(cursor, output, written, length, all, was);
      if more.Err? {
        return more;
      }
      written := more.value;
    }
    Completed(output, length, cursor.position, all);
    return Ok(written);
  }

  /** One value and its run length; the run must not be empty nor longer than what is left. */
  method FillRun(cursor: Cursor, output: array<I64>, written: nat, length: nat,
                 ghost all: Result<Got<seq<I64>>>, ghost was: seq<I64>)
    returns (r: Result<nat>)
    requires written < length && cursor.Valid()
    requires Filled(output, written, ReadRle(cursor.input, cursor.position, length - written), all, length, was)
    modifies cursor, output
    ensures cursor.Valid() && output.Length == |was| && output[length..] == was[length..]
    ensures r.Err? ==> all == Err(r.error) && !r.error.BufferTooSmall?
    ensures r.Ok? ==> written < r.value <= length
    ensures r.Ok? ==>
      Filled(output, r.value, ReadRle(cursor.input, cursor.position, length - r.value), all, length, was)
  {
    ghost var here := ReadRle(cursor.input, cursor.position, length - written);
    var value := cursor.I64Varint();
    if value.Err? {
      return Err(value.error);
    }
    var run := cursor.UsizeVarint();
    if run.Err? {
      return Err(run.error);
    }
    if run.value == 0 || run.value > length - written {
      return Err(InvalidRunLength);
    }
    var more := written + run.value;
    Store(output, written, Repeat(value.value, run.value), here, ReadRle(cursor.input, cursor.position, length - more),
          all, length, was);
    return Ok(more);
  }

  /** Decodes into a caller's buffer; what lies behind the decoded values is left as it was. */
  method DecodeInto(cfg: Config, output: array<I64>, input: seq<Byte>) returns (r: Result<nat>)
    modifies output
    ensures match DecodeOutcome(cfg, output.Length, input)
      case Err(error) => r == Err(error)
      case Ok(values) => r == Ok(|values|) && |values| <= output.Length && output[..|values|] == values
                         && output[|values|..] == old(output[|values|..])
    ensures r.Err? && r.error.BufferTooSmall? ==> output[..] == old(output[..])
  {
    if cfg.limit.Some? && |input| > cfg.limit.value {
      return Err(SizeLimit(cfg.limit.value));
    }
    var cursor := new Cursor(input);
    var header := ReadHeader(cfg, cursor, output.Length);
    if header.Err? {
      return Err(header.error);
    }
    var (tag, length) := header.value;
    r := FillFrame(cfg, tag, cursor, output, length);
  }

  /** The values of a frame, and nothing behind them if that is asked for. */
  method FillFrame(cfg: Config, tag: Byte, cursor: Cursor, output: array<I64>, length: nat) returns (r: Result<nat>)
    requires tag <= RLE_INTEGERS && cursor.Valid() && length <= output.Length
    modifies cursor, output
    ensures match Finish(cfg, cursor.input, ReadPayload(tag, cursor.input, old(cursor.position), length))
      case Err(error) => r == Err(error)
      case Ok(values) => r == Ok(length) && output[..length] == values
    ensures output[length..] == old(output[length..])
    ensures r.Err? ==> !r.error.BufferTooSmall?
  {
    r := Fill(tag, cursor, output, length);
    if r.Ok? && cfg.rejectTrailing && cursor.position != |cursor.input| {
      r := Err(TrailingBytes(|cursor.input| - cursor.position));
    }
  }

  /** The strategy and the length of a frame, within the collection limit and the slots available. */
  method ReadHeader(cfg: Config, cursor: Cursor, available: nat) returns (r: Result<(Byte, nat)>)
    requires cursor.Valid() && cursor.position == 0 && WithinLimit(cfg.limit, |cursor.input|)
    modifies cursor
    ensures cursor.Valid()
    ensures match r
      case Err(error) => DecodeOutcome(cfg, available, cursor.input) == Err(error)
      case Ok((tag, length)) =>
        && tag <= RLE_INTEGERS && length <= available
        && DecodeOutcome(cfg, available, cursor.input)
           == Finish(cfg, cursor.input, ReadPayload(tag, cursor.input, cursor.position, length))
  {
    var tag := cursor.Take(1);
    if tag.Err? {
      return Err(tag.error);
    }
    if tag.value[0] > RLE_INTEGERS {
      return Err(UnknownStrategy);
    }
    var length := cursor.UsizeVarint();
    if length.Err? {
      return Err(length.error);
    }
    if cfg.collectionLimit.Some? && length.value > cfg.collectionLimit.value {
      return Err(CollectionLimit(cfg.collectionLimit.value));
    }
    if available < length.value {
      return Err(BufferTooSmall(length.value, available));
    }
    return Ok((tag.value[0], length.value));
  }

  method Fill(tag: Byte, cursor: Cursor, output: array<I64>, length: nat) returns (r: Result<nat>)
    requires tag <= RLE_INTEGERS && cursor.Valid() && length <= output.Length
    modifies cursor, output
    ensures cursor.Valid()
    ensures Decoded(r, cursor.position, output, length, ReadPayload(tag, cursor.input, old(cursor.position), length))
    ensures output[length..] == old(output[length..])
    ensures r.Err? ==> !r.error.BufferTooSmall?
  {
    if tag == RAW_INTEGERS {
      r := FillRaw(cursor, output, length);
    } else if tag == DELTA_INTEGERS {
      r := FillDelta(cursor, output, length);
    } else {
      r := FillRuns(cursor, output, length);
    }
  }
}
