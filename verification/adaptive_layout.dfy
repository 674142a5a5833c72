/**
 The bytes of an adaptive frame by their places: a strategy number, the count, and then the values
 themselves, each value less the one before it, or each maximal run as its value and its length.
 */
module AdaptiveLayout {
  import opened Bytes
  import opened Canonical
  import opened VarintLayout
  import opened AdaptiveFrames

  /** Signed numbers one behind the other. */
  ghost predicate ListAt(bytes: seq<Byte>, pos: nat, numbers: seq<int>, end: nat)
    decreases |numbers|
  {
    if numbers == [] then pos == end
    else exists next: nat :: SignedAt(bytes, pos, numbers[0], next) && ListAt(bytes, next, numbers[1..], end)
  }

  lemma InFront(bytes: seq<Byte>, pos: nat, numbers: seq<int>, next: nat, end: nat)
    requires numbers != [] && SignedAt(bytes, pos, numbers[0], next) && ListAt(bytes, next, numbers[1..], end)
    ensures ListAt(bytes, pos, numbers, end)
  {
  }

  /** Each value less the one before it, `previous` before the first. */
  function Differences(previous: int, values: seq<I64>): seq<int> {
    seq(|values|, i requires 0 <= i < |values| => values[i] - (if i == 0 then previous else values[i - 1]))
  }

  lemma OtherDifferences(previous: int, values: seq<I64>, others: seq<I64>)
    requires values != [] && others == values[1..]
    ensures Differences(previous, values)[0] == values[0] - previous
    ensures Differences(previous, values)[1..] == Differences(values[0], others)
  {
  }

  /** The first `n` values are one value and the next is another. */
  predicate MaximalRun(values: seq<I64>, n: nat) {
    && 1 <= n <= |values|
    && (forall i :: 0 <= i < n ==> values[i] == values[0])
    && (n < |values| ==> values[n] != values[0])
  }

  /** Maximal runs one behind the other. */
  ghost predicate RunsAt(bytes: seq<Byte>, pos: nat, values: seq<I64>, end: nat)
    decreases |values|
  {
    if values == [] then pos == end
    else
      exists n: nat, middle: nat, next: nat ::
        && MaximalRun(values, n) && SignedAt(bytes, pos, values[0], middle) && NumberAt(bytes, middle, n, next)
        && RunsAt(bytes, next, values[n..], end)
  }

  lemma {:induction false} RawLies(bytes: seq<Byte>, pos: nat, values: seq<I64>, payload: seq<Byte>, end: nat)
    requires payload == RawPayload(values) && At(bytes, pos, payload) && end == pos + |payload|
    ensures ListAt(bytes, pos, values, end)
    decreases |values|
  {
    if values != [] {
      var first, rest := EncodeVarint(ZigZag64(values[0])), RawPayload(values[1..]);
      var next := pos + |first|;
      AtParts(bytes, pos, payload, first, rest, next);
      SignedLies(bytes, pos, values[0], next);
      RawLies(bytes, next, values[1..], rest, end);
    }
  }

  lemma {:induction false} DeltasLie(bytes: seq<Byte>, pos: nat, previous: I64, values: seq<I64>, payload: seq<Byte>,
                                     end: nat)
    requires payload == Deltas(previous, values) && At(bytes, pos, payload) && end == pos + |payload|
    ensures ListAt(bytes, pos, Differences(previous, values), end)
    decreases |values|
  {
    if values != [] {
      var others := values[1..];
      var first, rest := EncodeVarint(Step(previous, values[0])), Deltas(values[0], others);
      var next := pos + |first|;
      AtParts(bytes, pos, payload, first, rest, next);
      SignedLies(bytes, pos, values[0] - previous, next);
      DeltasLie(bytes, next, values[0], others, rest, end);
      OtherDifferences(previous, values, others);
      InFront(bytes, pos, Differences(previous, values), next, end);
    }
  }

  lemma DeltaLies(bytes: seq<Byte>, pos: nat, values: seq<I64>, payload: seq<Byte>, end: nat)
    requires payload == DeltaPayload(values) && At(bytes, pos, payload) && end == pos + |payload|
    ensures ListAt(bytes, pos, Differences(0, values), end)
  {
    if values != [] {
      var others := values[1..];
      var first, rest := EncodeVarint(ZigZag64(values[0])), Deltas(values[0], others);
      var next := pos + |first|;
      AtParts(bytes, pos, payload, first, rest, next);
      SignedLies(bytes, pos, values[0], next);
      DeltasLie(bytes, next, values[0], others, rest, end);
      OtherDifferences(0, values, others);
      InFront(bytes, pos, Differences(0, values), next, end);
    }
  }

  lemma RunIsMaximalRun(values: seq<I64>)
    requires values != []
    ensures MaximalRun(values, Run(values))
  {
    RunIsMaximal(values);
    var n := Run(values);
    forall i | 0 <= i < n ensures values[i] == values[0] {
      assert values[i] == values[..n][i] == seq(n, _ => values[0])[i];
    }
  }

  lemma {:induction false} RunsLie(bytes: seq<Byte>, pos: nat, values: seq<I64>, payload: seq<Byte>, end: nat)
    requires |values| < U64_LIMIT && payload == RlePayload(values) && At(bytes, pos, payload) && end == pos + |payload|
    ensures RunsAt(bytes, pos, values, end)
    decreases |values|
  {
    if values != [] {
      var n := Run(values);
      var first, count, rest := EncodeVarint(ZigZag64(values[0])), EncodeVarint(n), RlePayload(values[n..]);
      var middle, next := pos + |first|, pos + |first| + |count|;
      AtParts(bytes, pos, payload, first + count, rest, next);
      AtParts(bytes, pos, first + count, first, count, middle);
      SignedLies(bytes, pos, values[0], middle);
      EncodedLies(bytes, middle, n, next);
      RunIsMaximalRun(values);
      RunsLie(bytes, next, values[n..], rest, end);
    }
  }

  /** What stands behind the count. */
  ghost predicate PayloadAt(strategy: Strategy, bytes: seq<Byte>, pos: nat, values: seq<I64>, end: nat) {
    match strategy
    case Raw => ListAt(bytes, pos, values, end)
    case Delta => ListAt(bytes, pos, Differences(0, values), end)
    case RunLength => RunsAt(bytes, pos, values, end)
  }

  /** A frame is the number of its strategy, the count of the values, and its payload, and nothing more. */
  lemma FrameLies(strategy: Strategy, values: seq<I64>, frame: seq<Byte>) returns (start: nat)
    requires |values| < U64_LIMIT && frame == Frame(strategy, values)
    ensures frame[0] == (match strategy case Raw => 0 case Delta => 1 case RunLength => 2)
    ensures NumberAt(frame, 1, |values|, start) && PayloadAt(strategy, frame, start, values, |frame|)
  {
    var count, payload := EncodeVarint(|values|), Payload(strategy, values);
    start := 1 + |count|;
    assert At(frame, 0, frame);
    AtFirst(frame, 0, frame, Tag(strategy), count + payload);
    AtParts(frame, 1, count + payload, count, payload, start);
    EncodedLies(frame, 1, |values|, start);
    match strategy
    case Raw => RawLies(frame, start, values, payload, |frame|);
    case Delta => DeltaLies(frame, start, values, payload, |frame|);
    case RunLength => RunsLie(frame, start, values, payload, |frame|);
  }
}
