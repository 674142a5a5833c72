/**
 Adaptive frames of 64-bit integers: independent ZigZag varints, deltas, or run lengths, chosen by
 size. The choice never changes what decodes.
 */
module AdaptiveFrames {
  import opened Bytes
  import opened Canonical

  type I64 = x: int | -0x8000_0000_0000_0000 <= x < 0x8000_0000_0000_0000

  const RAW_INTEGERS := 0
  const DELTA_INTEGERS := 1
  const RLE_INTEGERS := 2
  const HEURISTIC_SAMPLE := 64

  datatype Mode = Off | Heuristic | Exact
  datatype Strategy = Raw | Delta | RunLength

  datatype AdaptiveError =
    | UnexpectedEnd
    | InvalidVarintMarker(marker: Byte)
    | NonCanonicalVarint
    | IntegerOverflow
    | SizeLimit(limit: nat)
    | CollectionLimit(limit: nat)
    | BufferTooSmall(required: nat, available: nat)
    | SizeOverflow
    | UnknownStrategy
    | DeltaOverflow
    | InvalidRunLength
    | TrailingBytes(remaining: nat)

  datatype Result<+T> = Ok(value: T) | Err(error: AdaptiveError)
  datatype Got<+T> = Got(value: T, next: nat)

  // ---------- Integers ----------

  /** `((value << 1) ^ (value >> 63)) as u64`: xor with the sign, in 64 bits. */
  function ShiftXor64(value: I64): int {
    var pattern := (2 * value) % U64_LIMIT;
    if value < 0 then U64_LIMIT - 1 - pattern else pattern
  }

  function ZigZag64(value: I64): (encoded: nat)
    ensures encoded < U64_LIMIT
  {
    ZigZag(value)
  }

  /** The 64-bit shift agrees with the 128-bit one. */
  lemma ShiftWidthsAgree(value: I64)
    ensures ShiftXor64(value) == ZigZag64(value) == ShiftXor(value)
  {
    ShiftXorIsZigZag(value);
    if value < 0 {
      assert (2 * value) % U64_LIMIT == 2 * value + U64_LIMIT;
    }
  }

  /** The difference of two 64-bit integers, in 128 bits. */
  function Step(a: I64, b: I64): (encoded: nat)
    ensures encoded < U128_LIMIT
  {
    ZigZag(b - a)
  }

  function VarintSize(value: nat): nat {
    if value <= 250 then 1
    else if value <= 0xffff then 3
    else if value <= 0xffff_ffff then 5
    else if value <= 0xffff_ffff_ffff_ffff then 9
    else 17
  }

  lemma VarintSizeIsExact(value: nat)
    requires value < U128_LIMIT
    ensures |EncodeVarint(value)| == VarintSize(value)
  {
  }

  // ---------- Payloads ----------

  function RawPayload(values: seq<I64>): seq<Byte> {
    if values == [] then [] else EncodeVarint(ZigZag64(values[0])) + RawPayload(values[1..])
  }

  /** Each value as its difference to the one before it. */
  function Deltas(previous: I64, values: seq<I64>): seq<Byte>
    decreases |values|
  {
    if values == [] then [] else EncodeVarint(Step(previous, values[0])) + Deltas(values[0], values[1..])
  }

  function DeltaPayload(values: seq<I64>): seq<Byte> {
    if values == [] then [] else EncodeVarint(ZigZag64(values[0])) + Deltas(values[0], values[1..])
  }

  /** Length of the leading run of equal values. */
  function Run(values: seq<I64>): (n: nat)
    requires values != []
    ensures 1 <= n <= |values|
  {
    if |values| == 1 || values[1] != values[0] then 1 else 1 + Run(values[1..])
  }

  lemma {:induction false} RunIsMaximal(values: seq<I64>)
    requires values != []
    ensures values[..Run(values)] == seq(Run(values), _ => values[0])
    ensures Run(values) < |values| ==> values[Run(values)] != values[0]
    decreases |values|
  {
    if |values| > 1 && values[1] == values[0] {
      RunIsMaximal(values[1..]);
      var n := Run(values[1..]);
      assert values[..1 + n] == [values[0]] + values[1..][..n];
    }
  }

  function RlePayload(values: seq<I64>): seq<Byte>
    decreases |values|
  {
    if values == [] || |values| >= U64_LIMIT then []
    else
      (EncodeVarint(ZigZag64(values[0])) + EncodeVarint(Run(values))) + RlePayload(values[Run(values)..])
  }

  function Payload(strategy: Strategy, values: seq<I64>): seq<Byte> {
    match strategy
    case Raw => RawPayload(values)
    case Delta => DeltaPayload(values)
    case RunLength => RlePayload(values)
  }

  function Tag(strategy: Strategy): Byte {
    match strategy
    case Raw => RAW_INTEGERS
    case Delta => DELTA_INTEGERS
    case RunLength => RLE_INTEGERS
  }

  function Frame(strategy: Strategy, values: seq<I64>): seq<Byte>
    requires |values| < U64_LIMIT
  {
    [Tag(strategy)] + (EncodeVarint(|values|) + Payload(strategy, values))
  }

  // ---------- Choosing ----------

  /** A byte count, unless it overflows `usize`. */
  function Checked(size: nat): Result<nat> {
    if size < U64_LIMIT then Ok(size) else Err(SizeOverflow)
  }

  /** The smallest encoding; ties prefer raw, then delta. */
  function BestStrategy(raw: nat, delta: nat, rle: nat): (Strategy, nat) {
    if delta < raw && delta <= rle then (Delta, delta)
    else if rle < raw then (RunLength, rle)
    else (Raw, raw)
  }

  lemma BestIsSmallest(raw: nat, delta: nat, rle: nat)
    ensures var (strategy, size) := BestStrategy(raw, delta, rle);
      && size == (match strategy case Raw => raw case Delta => delta case RunLength => rle)
      && size <= raw && size <= delta && size <= rle
      && (size == raw ==> strategy == Raw) && (size == delta ==> strategy != RunLength)
  {
  }

  /** Sizes all three encodings and compares; an overflow of any of them is an error. */
  function Compared(values: seq<I64>): Result<(Strategy, nat)> {
    var raw, delta, rle := |RawPayload(values)|, |DeltaPayload(values)|, |RlePayload(values)|;
    if raw >= U64_LIMIT || delta >= U64_LIMIT || rle >= U64_LIMIT then Err(SizeOverflow)
    else Ok(BestStrategy(raw, delta, rle))
  }

  /** The strategy of a mode; a long list is judged by its first 64 values in heuristic mode. */
  function Chosen(values: seq<I64>, mode: Mode): Result<Strategy> {
    match mode
    case Off => Ok(Raw)
    case Exact => Choice(Compared(values))
    case Heuristic => Choice(Compared(if |values| <= HEURISTIC_SAMPLE then values else values[..HEURISTIC_SAMPLE]))
  }

  function Choice(compared: Result<(Strategy, nat)>): Result<Strategy> {
    match compared
    case Err(error) => Err(error)
    case Ok(pair) => Ok(pair.0)
  }

  datatype Layout = Layout(strategy: Strategy, payload: nat, required: nat)

  function CollectionLayout(values: seq<I64>, mode: Mode): Result<Layout>
    requires |values| < U64_LIMIT
  {
    match Chosen(values, mode)
    case Err(error) => Err(error)
    case Ok(strategy) =>
      var payload := |Payload(strategy, values)|;
      var required := 1 + VarintSize(|values|) + payload;
      if payload >= U64_LIMIT || required >= U64_LIMIT then Err(SizeOverflow)
      else Ok(Layout(strategy, payload, required))
  }

  /** The predicted size is the size of the frame, and exact mode's payload is no larger than any other. */
  lemma LayoutIsExact(values: seq<I64>, mode: Mode)
    requires |values| < U64_LIMIT && CollectionLayout(values, mode).Ok?
    ensures var l := CollectionLayout(values, mode).value;
      && l.payload == |Payload(l.strategy, values)|
      && l.required == |Frame(l.strategy, values)|
      && (mode == Exact || (mode == Heuristic && |values| <= HEURISTIC_SAMPLE) ==>
            && l.payload <= |RawPayload(values)|
            && l.payload <= |DeltaPayload(values)|
            && l.payload <= |RlePayload(values)|)
  {
    VarintSizeIsExact(|values|);
    BestIsSmallest(|RawPayload(values)|, |DeltaPayload(values)|, |RlePayload(values)|);
  }

  /** What the choice looks at: everything, or the first 64 values of a longer list in heuristic mode. */
  function Sample(values: seq<I64>, mode: Mode): seq<I64> {
    if mode == Heuristic && |values| > 64 then values[..64] else values
  }

  /**
   The strategy by mode: raw when off; otherwise no strategy has a smaller payload on the sample, and
   none of the same size comes earlier in the order raw, delta, run lengths.
   */
  lemma ChosenByMode(values: seq<I64>, mode: Mode, chosen: Strategy, other: Strategy)
    requires Chosen(values, mode) == Ok(chosen)
    ensures mode == Off ==> chosen == Raw
    ensures mode != Off ==>
      var mine, its := |Payload(chosen, Sample(values, mode))|, |Payload(other, Sample(values, mode))|;
      mine < its || (mine == its && Tag(chosen) <= Tag(other))
  {
  }

  // ---------- Reading ----------

  function ReadAny(input: seq<Byte>, pos: nat): Result<Got<nat>> {
    match ReadVarint(input, pos)
    case Cut => Err(UnexpectedEnd)
    case BadMarker(marker) => Err(InvalidVarintMarker(marker))
    case NonCanonical => Err(NonCanonicalVarint)
    case Read(value, next) => Ok(Got(value, next))
  }

  function ReadUsize(input: seq<Byte>, pos: nat): Result<Got<nat>> {
    match ReadAny(input, pos)
    case Err(error) => Err(error)
    case Ok(got) => if got.value < U64_LIMIT then Ok(got) else Err(IntegerOverflow)
  }

  /** A signed integer of any width. */
  function ReadSigned(input: seq<Byte>, pos: nat): Result<Got<int>> {
    match ReadAny(input, pos)
    case Err(error) => Err(error)
    case Ok(got) => if got.value < U128_LIMIT then Ok(Got(UnZigZag(got.value), got.next)) else Err(IntegerOverflow)
  }

  predicate IsI64(value: int) {
    -U63_LIMIT <= value < U63_LIMIT
  }

  function ReadI64(input: seq<Byte>, pos: nat): Result<Got<I64>> {
    match ReadSigned(input, pos)
    case Err(error) => Err(error)
    case Ok(got) => if IsI64(got.value) then Ok(Got(got.value, got.next)) else Err(IntegerOverflow)
  }

  function ReadRaw(input: seq<Byte>, pos: nat, count: nat): Result<Got<seq<I64>>>
    decreases count
  {
    if count == 0 then Ok(Got([], pos))
    else
      match ReadI64(input, pos)
      case Err(error) => Err(error)
      case Ok(first) => Onto([first.value], ReadRaw(input, first.next, count - 1))
  }

  /** Deltas onto a previous value; a sum outside 64 bits is an error. */
  function ReadDeltas(input: seq<Byte>, pos: nat, previous: I64, count: nat): Result<Got<seq<I64>>>
    decreases count
  {
    if count == 0 then Ok(Got([], pos))
    else
      match ReadSigned(input, pos)
      case Err(error) => Err(error)
      case Ok(delta) =>
        if IsI64(previous + delta.value) then
          Onto([previous + delta.value], ReadDeltas(input, delta.next, previous + delta.value, count - 1))
        else Err(DeltaOverflow)
  }

  function ReadDelta(input: seq<Byte>, pos: nat, count: nat): Result<Got<seq<I64>>> {
    if count == 0 then Ok(Got([], pos))
    else
      match ReadI64(input, pos)
      case Err(error) => Err(error)
      case Ok(first) => Onto([first.value], ReadDeltas(input, first.next, first.value, count - 1))
  }

  function ReadRle(input: seq<Byte>, pos: nat, count: nat): Result<Got<seq<I64>>>
    decreases count
  {
    if count == 0 then Ok(Got([], pos))
    else
      match ReadI64(input, pos)
      case Err(error) => Err(error)
      case Ok(first) =>
        match ReadUsize(input, first.next)
        case Err(error) => Err(error)
        case Ok(run) =>
          if run.value == 0 || run.value > count then Err(InvalidRunLength)
          else Onto(Repeat(first.value, run.value), ReadRle(input, run.next, count - run.value))
  }

  function Repeat(value: I64, n: nat): (values: seq<I64>)
    ensures |values| == n
  {
    seq(n, _ => value)
  }

  /** Values in front of what else is read. */
  function Onto(values: seq<I64>, rest: Result<Got<seq<I64>>>): Result<Got<seq<I64>>> {
    match rest
    case Err(error) => Err(error)
    case Ok(got) => Ok(Got(values + got.value, got.next))
  }

  function ReadPayload(tag: nat, input: seq<Byte>, pos: nat, count: nat): Result<Got<seq<I64>>> {
    if tag == RAW_INTEGERS then ReadRaw(input, pos, count)
    else if tag == DELTA_INTEGERS then ReadDelta(input, pos, count)
    else ReadRle(input, pos, count)
  }

  datatype Config = Config(limit: Option<nat>, collectionLimit: Option<nat>, rejectTrailing: bool)

  predicate WithinLimit(limit: Option<nat>, length: nat) {
    limit.Some? ==> length <= limit.value
  }

  /** Decoding into `available` slots. */
  function DecodeOutcome(cfg: Config, available: nat, input: seq<Byte>): Result<seq<I64>> {
    if !WithinLimit(cfg.limit, |input|) then Err(SizeLimit(cfg.limit.value))
    else if input == [] then Err(UnexpectedEnd)
    else if input[0] > RLE_INTEGERS then Err(UnknownStrategy)
    else
      match ReadUsize(input, 1)
      case Err(error) => Err(error)
      case Ok(length) =>
        if !WithinLimit(cfg.collectionLimit, length.value) then Err(CollectionLimit(cfg.collectionLimit.value))
        else if available < length.value then Err(BufferTooSmall(length.value, available))
        else Finish(cfg, input, ReadPayload(input[0], input, length.next, length.value))
  }

  function Finish(cfg: Config, input: seq<Byte>, read: Result<Got<seq<I64>>>): Result<seq<I64>> {
    match read
    case Err(error) => Err(error)
    case Ok(got) =>
      if cfg.rejectTrailing && got.next < |input| then Err(TrailingBytes(|input| - got.next)) else Ok(got.value)
  }

  // ---------- Round trip ----------

  lemma AnyReadsBack(input: seq<Byte>, pos: nat, value: nat, bytes: seq<Byte>)
    requires value < U128_LIMIT && bytes == EncodeVarint(value) && At(input, pos, bytes)
    ensures ReadAny(input, pos) == Ok(Got(value, pos + |bytes|))
  {
    VarintReadsBack(input, pos, value);
  }

  lemma AnyInFront(input: seq<Byte>, pos: nat, value: nat, rest: seq<Byte>, bytes: seq<Byte>, next: nat)
    requires value < U128_LIMIT && bytes == EncodeVarint(value) + rest && next == pos + |EncodeVarint(value)|
    requires At(input, pos, bytes)
    ensures ReadAny(input, pos) == Ok(Got(value, next)) && At(input, next, rest) && next + |rest| == pos + |bytes|
  {
    AtParts(input, pos, bytes, EncodeVarint(value), rest, next);
    AnyReadsBack(input, pos, value, EncodeVarint(value));
  }

  lemma I64InFront(input: seq<Byte>, pos: nat, value: I64, encoded: nat, rest: seq<Byte>, bytes: seq<Byte>, next: nat)
    requires encoded == ZigZag64(value) && bytes == EncodeVarint(encoded) + rest
    requires next == pos + |EncodeVarint(encoded)|
    requires At(input, pos, bytes)
    ensures ReadI64(input, pos) == Ok(Got(value, next)) && At(input, next, rest) && next + |rest| == pos + |bytes|
  {
    AnyInFront(input, pos, encoded, rest, bytes, next);
    ZigZagReadsBack(value);
  }

  lemma StepInFront(input: seq<Byte>, pos: nat, a: I64, b: I64, encoded: nat, rest: seq<Byte>, bytes: seq<Byte>,
                    next: nat)
    requires encoded == Step(a, b) && bytes == EncodeVarint(encoded) + rest && next == pos + |EncodeVarint(encoded)|
    requires At(input, pos, bytes)
    ensures ReadSigned(input, pos) == Ok(Got(b - a, next)) && At(input, next, rest) && next + |rest| == pos + |bytes|
  {
    AnyInFront(input, pos, encoded, rest, bytes, next);
    ZigZagReadsBack(b - a);
  }

  lemma NothingReadsBack(input: seq<Byte>, pos: nat, previous: I64, values: seq<I64>)
    requires values == []
    ensures RawPayload(values) == [] && ReadRaw(input, pos, |values|) == Ok(Got(values, pos))
    ensures Deltas(previous, values) == [] && ReadDeltas(input, pos, previous, |values|) == Ok(Got(values, pos))
    ensures RlePayload(values) == [] && ReadRle(input, pos, |values|) == Ok(Got(values, pos))
  {
  }

  lemma {:induction false} RawReadsBack(input: seq<Byte>, pos: nat, values: seq<I64>, bytes: seq<Byte>, end: nat)
    requires bytes == RawPayload(values) && At(input, pos, bytes) && end == pos + |bytes|
    ensures ReadRaw(input, pos, |values|) == Ok(Got(values, end))
    decreases |values|
  {
    if values == [] {
      NothingReadsBack(input, pos, 0, values);
    } else {
      var others, encoded := values[1..], ZigZag64(values[0]);
      var rest, next := RawPayload(others), pos + |EncodeVarint(encoded)|;
      I64InFront(input, pos, values[0], encoded, rest, bytes, next);
      RawReadsBack(input, next, others, rest, end);
      RawStep(input, pos, values, others, next, end);
    }
  }

  lemma RawStep(input: seq<Byte>, pos: nat, values: seq<I64>, others: seq<I64>, next: nat, end: nat)
    requires values != [] && others == values[1..] && ReadI64(input, pos) == Ok(Got(values[0], next))
    requires ReadRaw(input, next, |others|) == Ok(Got(others, end))
    ensures ReadRaw(input, pos, |values|) == Ok(Got(values, end))
  {
    assert [values[0]] + others == values;
  }

  lemma {:induction false} DeltasReadBack(input: seq<Byte>, pos: nat, previous: I64, values: seq<I64>, bytes: seq<Byte>,
                                          end: nat)
    requires bytes == Deltas(previous, values) && At(input, pos, bytes) && end == pos + |bytes|
    ensures ReadDeltas(input, pos, previous, |values|) == Ok(Got(values, end))
    decreases |values|
  {
    if values == [] {
      NothingReadsBack(input, pos, previous, values);
    } else {
      var others, encoded := values[1..], Step(previous, values[0]);
      var rest, next := Deltas(values[0], others), pos + |EncodeVarint(encoded)|;
      StepInFront(input, pos, previous, values[0], encoded, rest, bytes, next);
      DeltasReadBack(input, next, values[0], others, rest, end);
      DeltasStep(input, pos, previous, values, others, next, end);
    }
  }

  lemma DeltasStep(input: seq<Byte>, pos: nat, previous: I64, values: seq<I64>, others: seq<I64>, next: nat, end: nat)
    requires values != [] && others == values[1..]
    requires ReadSigned(input, pos) == Ok(Got(values[0] - previous, next))
    requires ReadDeltas(input, next, values[0], |others|) == Ok(Got(others, end))
    ensures ReadDeltas(input, pos, previous, |values|) == Ok(Got(values, end))
  {
    assert [values[0]] + others == values;
  }

  lemma DeltaReadsBack(input: seq<Byte>, pos: nat, values: seq<I64>, bytes: seq<Byte>, end: nat)
    requires bytes == DeltaPayload(values) && At(input, pos, bytes) && end == pos + |bytes|
    ensures ReadDelta(input, pos, |values|) == Ok(Got(values, end))
  {
    if values != [] {
      var others, encoded := values[1..], ZigZag64(values[0]);
      var rest, next := Deltas(values[0], others), pos + |EncodeVarint(encoded)|;
      I64InFront(input, pos, values[0], encoded, rest, bytes, next);
      DeltasReadBack(input, next, values[0], others, rest, end);
      DeltaStep(input, pos, values, others, next, end);
    }
  }

  lemma DeltaStep(input: seq<Byte>, pos: nat, values: seq<I64>, others: seq<I64>, next: nat, end: nat)
    requires values != [] && others == values[1..] && ReadI64(input, pos) == Ok(Got(values[0], next))
    requires ReadDeltas(input, next, values[0], |others|) == Ok(Got(others, end))
    ensures ReadDelta(input, pos, |values|) == Ok(Got(values, end))
  {
    assert [values[0]] + others == values;
  }

  lemma {:induction false} RleReadsBack(input: seq<Byte>, pos: nat, values: seq<I64>, bytes: seq<Byte>, end: nat)
    requires |values| < U64_LIMIT && bytes == RlePayload(values) && At(input, pos, bytes) && end == pos + |bytes|
    ensures ReadRle(input, pos, |values|) == Ok(Got(values, end))
    decreases |values|, 1
  {
    if values == [] {
      NothingReadsBack(input, pos, 0, values);
    } else {
      RunSplits(values, values[Run(values)..], Run(values));
      RunReadsBack(input, pos, values, Run(values), values[0], values[Run(values)..], bytes, end);
    }
  }

  lemma {:induction false} RunReadsBack(input: seq<Byte>, pos: nat, values: seq<I64>, n: nat, value: I64,
                                        others: seq<I64>, bytes: seq<Byte>, end: nat)
    requires 1 <= n && |others| + n == |values| < U64_LIMIT && Repeat(value, n) + others == values
    requires bytes == (EncodeVarint(ZigZag64(value)) + EncodeVarint(n)) + RlePayload(others)
    requires At(input, pos, bytes) && end == pos + |bytes|
    ensures ReadRle(input, pos, |values|) == Ok(Got(values, end))
    decreases |values|, 0
  {
    var a, b, rest := EncodeVarint(ZigZag64(value)), EncodeVarint(n), RlePayload(others);
    var middle, next := pos + |a|, pos + |a| + |b|;
    RunInFront(input, pos, value, n, a, b, rest, bytes, middle, next);
    RleReadsBack(input, next, others, rest, end);
    RleStep(input, pos, values, value, others, n, middle, next, end);
  }

  /** A value, its run length, and what follows. */
  lemma RunInFront(input: seq<Byte>, pos: nat, value: I64, n: nat, a: seq<Byte>, b: seq<Byte>, rest: seq<Byte>,
                   bytes: seq<Byte>, middle: nat, next: nat)
    requires n < U64_LIMIT && a == EncodeVarint(ZigZag64(value)) && b == EncodeVarint(n)
    requires bytes == (a + b) + rest && At(input, pos, bytes) && middle == pos + |a| && next == middle + |b|
    ensures ReadI64(input, pos) == Ok(Got(value, middle)) && ReadAny(input, middle) == Ok(Got(n, next))
    ensures At(input, next, rest) && next + |rest| == pos + |bytes|
  {
    var tail := b + rest;
    assert bytes == a + tail;
    I64InFront(input, pos, value, ZigZag64(value), tail, bytes, middle);
    AnyInFront(input, middle, n, rest, tail, next);
  }

  lemma RunSplits(values: seq<I64>, others: seq<I64>, n: nat)
    requires values != [] && n == Run(values) && others == values[n..]
    ensures 1 <= n && |others| + n == |values| && Repeat(values[0], n) + others == values
  {
    RunIsMaximal(values);
    assert values[..n] + values[n..] == values;
  }

  lemma RleStep(input: seq<Byte>, pos: nat, values: seq<I64>, value: I64, others: seq<I64>, n: nat,
                middle: nat, next: nat, end: nat)
    requires 1 <= n && |others| + n == |values| < U64_LIMIT && Repeat(value, n) + others == values
    requires ReadI64(input, pos) == Ok(Got(value, middle)) && ReadAny(input, middle) == Ok(Got(n, next))
    requires ReadRle(input, next, |others|) == Ok(Got(others, end))
    ensures ReadRle(input, pos, |values|) == Ok(Got(values, end))
  {
  }

  /** Whatever the strategy, the payload reads back as the list. */
  lemma PayloadReadsBack(input: seq<Byte>, pos: nat, strategy: Strategy, values: seq<I64>, bytes: seq<Byte>, end: nat)
    requires |values| < U64_LIMIT && bytes == Payload(strategy, values) && At(input, pos, bytes) && end == pos + |bytes|
    ensures ReadPayload(Tag(strategy), input, pos, |values|) == Ok(Got(values, end))
  {
    match strategy
    case Raw => RawReadsBack(input, pos, values, bytes, end);
    case Delta => DeltaReadsBack(input, pos, values, bytes, end);
    case RunLength => RleReadsBack(input, pos, values, bytes, end);
  }

  /** Every frame decodes to the list it encodes, into any buffer large enough. */
  lemma FrameReadsBack(cfg: Config, strategy: Strategy, values: seq<I64>, available: nat)
    requires |values| < U64_LIMIT && |values| <= available
    requires WithinLimit(cfg.limit, |Frame(strategy, values)|) && WithinLimit(cfg.collectionLimit, |values|)
    ensures DecodeOutcome(cfg, available, Frame(strategy, values)) == Ok(values)
  {
    var frame, payload := Frame(strategy, values), Payload(strategy, values);
    var tail := EncodeVarint(|values|) + payload;
    var start := 1 + |EncodeVarint(|values|)|;
    assert At(frame, 0, frame);
    AtFirst(frame, 0, frame, Tag(strategy), tail);
    AnyInFront(frame, 1, |values|, payload, tail, start);
    PayloadReadsBack(frame, start, strategy, values, payload, |frame|);
  }
}
