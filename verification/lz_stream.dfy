/**
 The packed stream of tokens: one flag bit, then eight literal bits or an eight-bit length and a
 fifteen-bit distance; and the frame around it. Decoding inverts encoding.
 */
module LzStream {
  import opened Bytes
  import opened Bits
  import opened LzTokens

  function TokenBits(t: Token): seq<bool>
    requires Fields(t)
  {
    match t
    case Literal(b) => [false] + BitsOf(b, 8)
    case Match(length, distance) => [true] + BitsOf(length - MIN_MATCH, 8) + BitsOf(distance - 1, 15)
  }

  function StreamBits(tokens: seq<Token>): seq<bool>
    requires AllFields(tokens)
  {
    if tokens == [] then [] else TokenBits(tokens[0]) + StreamBits(tokens[1..])
  }

  // ---------- Decoding ----------

  /** A field of `n` bits, and what follows it. */
  function ReadField(bits: seq<bool>, n: nat): Result<(nat, seq<bool>)> {
    if |bits| < n then Err(UnexpectedEnd) else Ok((ValueOf(bits[..n]), bits[n..]))
  }

  datatype Step = Step(out: seq<Byte>, rest: seq<bool>)

  /** One token of `decompress`. */
  function DecodeToken(bits: seq<bool>, out: seq<Byte>): (r: Result<Step>)
    ensures r.Ok? ==> |r.value.out| > |out|
  {
    match ReadField(bits, 1)
    case Err(e) => Err(e)
    case Ok((flag, rest)) =>
      if flag == 1 then
        match ReadField(rest, 8)
        case Err(e) => Err(e)
        case Ok((length, rest')) =>
          match ReadField(rest', 15)
          case Err(e) => Err(e)
          case Ok((distance, rest'')) =>
            if distance + 1 > |out| then Err(InvalidDistance)
            else Ok(Step(CopyBack(out, distance + 1, length + MIN_MATCH), rest''))
      else
        match ReadField(rest, 8)
        case Err(e) => Err(e)
        case Ok((byte, rest')) => Ok(Step(out + [byte % 256], rest'))
  }

  /** The loop of `decompress`: until at least `declared` bytes are out. */
  function DecodeAll(bits: seq<bool>, declared: nat, out: seq<Byte>): Result<seq<Byte>>
    decreases declared - |out|
  {
    if |out| >= declared then (if |out| != declared then Err(LengthMismatch) else Ok(out))
    else match DecodeToken(bits, out)
      case Err(e) => Err(e)
      case Ok(step) => DecodeAll(step.rest, declared, step.out)
  }

  function DecompressOutcome(frame: seq<Byte>, expected: nat): Result<seq<Byte>> {
    match ReadField(ByteBits(frame), 32)
    case Err(e) => Err(e)
    case Ok((declared, rest)) =>
      if declared > expected then Err(LengthMismatch) else DecodeAll(rest, declared, [])
  }

  // ---------- The frame ----------

  /** `frame` is the length header, the packed tokens and less than a byte of zeros. */
  predicate IsFrame(frame: seq<Byte>, length: nat, tokens: seq<Token>)
    requires AllFields(tokens)
  {
    var bits := BitsOf(length, 32) + StreamBits(tokens);
    |bits| <= 8 * |frame| < |bits| + 8 && ByteBits(frame) == bits + BitsOf(0, 8 * |frame| - |bits|)
  }

  // ---------- Round trip ----------

  lemma ReadFieldBits(value: nat, n: nat, rest: seq<bool>)
    requires value < Pow2(n)
    ensures ReadField(BitsOf(value, n) + rest, n) == Ok((value, rest))
  {
    ValueOfBits(value, n);
    assert (BitsOf(value, n) + rest)[..n] == BitsOf(value, n);
  }

  /** A token reads back, and the stream continues after it. */
  lemma TokenReadsBack(t: Token, rest: seq<bool>, out: seq<Byte>)
    requires Fields(t) && InReach(out, t)
    ensures DecodeToken(TokenBits(t) + rest, out)
         == Ok(Step(Apply(out, t), rest))
  {
    match t
    case Literal(b) => LiteralReadsBack(b, rest, out);
    case Match(length, distance) => MatchReadsBack(length, distance, rest, out);
  }

  lemma LiteralReadsBack(b: Byte, rest: seq<bool>, out: seq<Byte>)
    ensures DecodeToken(TokenBits(Literal(b)) + rest, out) == Ok(Step(out + [b], rest))
  {
    assert Pow2(8) == 256;
    Reassociate([false], BitsOf(b, 8), rest);
    FlagReadsBack(false, BitsOf(b, 8) + rest);
    ReadFieldBits(b, 8, rest);
    LiteralField(TokenBits(Literal(b)) + rest, BitsOf(b, 8) + rest, rest, b, out);
  }

  lemma LiteralField(bits: seq<bool>, behindFlag: seq<bool>, rest: seq<bool>, b: Byte, out: seq<Byte>)
    requires ReadField(bits, 1) == Ok((0, behindFlag)) && ReadField(behindFlag, 8) == Ok((b, rest))
    ensures DecodeToken(bits, out) == Ok(Step(out + [b], rest))
  {
  }

  lemma MatchReadsBack(length: nat, distance: nat, rest: seq<bool>, out: seq<Byte>)
    requires Fields(Match(length, distance)) && distance <= |out|
    ensures DecodeToken(TokenBits(Match(length, distance)) + rest, out)
         == Ok(Step(CopyBack(out, distance, length), rest))
  {
    FieldWidths();
    var fields := BitsOf(length - MIN_MATCH, 8);
    var tail := BitsOf(distance - 1, 15) + rest;
    var bits := TokenBits(Match(length, distance)) + rest;
    Reassociate([true] + fields, BitsOf(distance - 1, 15), rest);
    Reassociate([true], fields, tail);
    FlagReadsBack(true, fields + tail);
    ReadFieldBits(length - MIN_MATCH, 8, tail);
    ReadFieldBits(distance - 1, 15, rest);
    MatchFields(bits, fields + tail, tail, rest, length, distance, out);
  }

  lemma FlagReadsBack(flag: bool, rest: seq<bool>)
    ensures ReadField([flag] + rest, 1) == Ok((if flag then 1 else 0, rest))
  {
    assert BitsOf(if flag then 1 else 0, 1) == [flag] && Pow2(1) == 2;
    ReadFieldBits(if flag then 1 else 0, 1, rest);
  }

  /** The flag and both fields of a match, read one after the other. */
  lemma MatchFields(bits: seq<bool>, behindFlag: seq<bool>, behindLength: seq<bool>, rest: seq<bool>,
                    length: nat, distance: nat, out: seq<Byte>)
    requires MIN_MATCH <= length && 1 <= distance <= |out|
    requires ReadField(bits, 1) == Ok((1, behindFlag))
    requires ReadField(behindFlag, 8) == Ok((length - MIN_MATCH, behindLength))
    requires ReadField(behindLength, 15) == Ok((distance - 1, rest))
    ensures DecodeToken(bits, out) == Ok(Step(CopyBack(out, distance, length), rest))
  {
  }

  lemma FieldWidths()
    ensures Pow2(1) == 2 && Pow2(8) == 256 && Pow2(15) == 0x8000
  {
    assert Pow2(8) == 256 && Pow2(7) == 128;
    Pow2Adds(8, 7);
  }

  lemma {:induction false} ExpandGrows(out: seq<Byte>, tokens: seq<Token>)
    requires Expand(out, tokens).Some? && AllFields(tokens)
    ensures |Expand(out, tokens).value| >= |out| + |tokens|
    decreases |tokens|
  {
    if tokens != [] {
      ExpandGrows(Apply(out, tokens[0]), tokens[1..]);
    }
  }

  /** Decoding a packed token list gives what the list expands to, whatever padding follows. */
  lemma {:induction false} StreamReadsBack(tokens: seq<Token>, out: seq<Byte>, whole: seq<Byte>, rest: seq<bool>)
    requires AllFields(tokens) && Expand(out, tokens) == Some(whole)
    ensures DecodeAll(StreamBits(tokens) + rest, |whole|, out) == Ok(whole)
    decreases |tokens|
  {
    if tokens != [] {
      ExpandGrows(out, tokens);
      var t := tokens[0];
      var tail := StreamBits(tokens[1..]) + rest;
      Reassociate(TokenBits(t), StreamBits(tokens[1..]), rest);
      TokenReadsBack(t, tail, out);
      StreamReadsBack(tokens[1..], Apply(out, t), whole, rest);
    }
  }

  /** Any frame of any valid token list decompresses to what the tokens expand to. */
  lemma FrameReadsBack(frame: seq<Byte>, tokens: seq<Token>, whole: seq<Byte>, cap: nat)
    requires AllFields(tokens) && Expand([], tokens) == Some(whole)
    requires |whole| < U32_LIMIT && |whole| <= cap && IsFrame(frame, |whole|, tokens)
    ensures DecompressOutcome(frame, cap) == Ok(whole)
  {
    var header, stream := BitsOf(|whole|, 32), StreamBits(tokens);
    var pad := BitsOf(0, 8 * |frame| - |header + stream|);
    Reassociate(header, stream, pad);
    HeaderReadsBack(|whole|, header, stream + pad);
    StreamReadsBack(tokens, [], whole, pad);
  }

  lemma HeaderReadsBack(length: nat, header: seq<bool>, rest: seq<bool>)
    requires length < U32_LIMIT && header == BitsOf(length, 32)
    ensures ReadField(header + rest, 32) == Ok((length, rest))
  {
    Pow2Table();
    ReadFieldBits(length, 32, rest);
  }

  // ---------- Size ----------

  /** Bits of a token list: nine a literal, twenty-four a match. */
  function Cost(tokens: seq<Token>): nat {
    if tokens == [] then 0 else (if tokens[0].Literal? then 9 else 24) + Cost(tokens[1..])
  }

  lemma {:induction false} StreamLength(tokens: seq<Token>)
    requires AllFields(tokens)
    ensures |StreamBits(tokens)| == Cost(tokens)
    decreases |tokens|
  {
    if tokens != [] {
      StreamLength(tokens[1..]);
    }
  }

  /** A frame is four header bytes and the token bits rounded up; it is never empty. */
  lemma FrameLength(frame: seq<Byte>, length: nat, tokens: seq<Token>)
    requires AllFields(tokens) && IsFrame(frame, length, tokens)
    ensures |frame| == 4 + (Cost(tokens) + 7) / 8
  {
    StreamLength(tokens);
  }

  /** The first byte has nothing to repeat. */
  lemma FirstIsLiteral(hash: Hash3, input: seq<Byte>, maxChain: nat)
    requires input != []
    ensures Tokens(hash, input, maxChain, 0) == [Literal(input[0])] + Tokens(hash, input, maxChain, 1)
  {
    if MaxLength(input, 0) >= MIN_MATCH {
      assert LastIn(hash, input, HashAt(hash, input, 0), 0) == None;
    }
  }

  lemma CostFirst(first: Token, others: seq<Token>)
    ensures Cost([first] + others) == (if first.Literal? then 9 else 24) + Cost(others)
  {
    assert ([first] + others)[1..] == others;
  }

  /** At least one match, or three literals, or every byte left a literal. */
  predicate CostBound(cost: nat, left: nat) {
    if left >= MIN_MATCH then cost >= 24 else cost == 9 * left
  }

  lemma {:induction false} CostAtLeast(hash: Hash3, input: seq<Byte>, maxChain: nat, pos: nat, tokens: seq<Token>)
    requires pos <= |input| && tokens == Tokens(hash, input, maxChain, pos)
    ensures CostBound(Cost(tokens), |input| - pos)
    decreases |input| - pos
  {
    if pos < |input| {
      var t := TokenAt(hash, input, maxChain, pos);
      var others := Tokens(hash, input, maxChain, pos + Width(t));
      CostFirst(t, others);
      if t.Literal? {
        CostAtLeast(hash, input, maxChain, pos + 1, others);
      }
    }
  }

  /** A result that is empty unless it is smaller than the input. */
  predicate EmptyUnlessSmaller(frame: seq<Byte>, input: seq<Byte>) {
    frame == [] || |frame| < |input|
  }

  /**
   The frame is not always smaller than the input, and the caller must compare: it is exactly when
   the header and the rounded cost of the tokens are, which no input of nine bytes or fewer achieves,
   whatever the hash and the level.
   */
  lemma SmallerIffCheap(hash: Hash3, input: seq<Byte>, maxChain: nat, frame: seq<Byte>)
    requires |input| >= MIN_MATCH && AllFields(Tokens(hash, input, maxChain, 0))
    requires IsFrame(frame, |input|, Tokens(hash, input, maxChain, 0))
    ensures EmptyUnlessSmaller(frame, input) <==> 4 + (Cost(Tokens(hash, input, maxChain, 0)) + 7) / 8 < |input|
    ensures |input| <= 9 ==> !EmptyUnlessSmaller(frame, input)
  {
    FrameLength(frame, |input|, Tokens(hash, input, maxChain, 0));
    FirstIsLiteral(hash, input, maxChain);
    CostAtLeast(hash, input, maxChain, 1, Tokens(hash, input, maxChain, 1));
    CostFirst(Literal(input[0]), Tokens(hash, input, maxChain, 1));
  }

  /** Every three-byte input packs to eight bytes. */
  lemma ThreeBytesGrow(hash: Hash3, input: seq<Byte>, maxChain: nat, frame: seq<Byte>)
    requires |input| == 3 && AllFields(Tokens(hash, input, maxChain, 0))
    requires IsFrame(frame, 3, Tokens(hash, input, maxChain, 0))
    ensures |frame| == 8
  {
    FrameLength(frame, 3, Tokens(hash, input, maxChain, 0));
    FirstIsLiteral(hash, input, maxChain);
    CostAtLeast(hash, input, maxChain, 1, Tokens(hash, input, maxChain, 1));
    CostFirst(Literal(input[0]), Tokens(hash, input, maxChain, 1));
  }
}
