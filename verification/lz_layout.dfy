/**
 Where the bits of a frame lie, in arithmetic on its bytes: bit `k` is bit `k % 8` of byte `k / 8`,
 fields begin with their lowest bit, and no two frames fit one token list.
 */
module LzLayout {
  import opened Bytes
  import opened Bits
  import opened LzTokens
  import opened LzStream

  function Bit(frame: seq<Byte>, at: nat): nat
    requires at < 8 * |frame|
  {
    frame[at / 8] / Pow2(at % 8) % 2
  }

  /** The number whose lowest bit is at `at`. */
  function Field(frame: seq<Byte>, at: nat, n: nat): nat
    requires at + n <= 8 * |frame|
    decreases 8 * |frame| - at
  {
    if n == 0 then 0 else Bit(frame, at) + 2 * Field(frame, at + 1, n - 1)
  }

  /** A flag of 0 and a byte, or a flag of 1, the length less 3 and the distance less 1; zeros to the end. */
  predicate Packed(frame: seq<Byte>, at: nat, tokens: seq<Token>)
    decreases |tokens|
  {
    if tokens == [] then at <= 8 * |frame| < at + 8 && Field(frame, at, 8 * |frame| - at) == 0
    else
      match tokens[0]
      case Literal(b) =>
        && at + 9 <= 8 * |frame| && Bit(frame, at) == 0 && Field(frame, at + 1, 8) == b
        && Packed(frame, at + 9, tokens[1..])
      case Match(length, distance) =>
        && at + 24 <= 8 * |frame| && Bit(frame, at) == 1
        && Field(frame, at + 1, 8) == length - 3 && Field(frame, at + 9, 15) == distance - 1
        && Packed(frame, at + 24, tokens[1..])
  }

  lemma ByteShifted(b: Byte, j: nat)
    requires j < 8
    ensures Shr(b, j) == b / Pow2(j)
  {
    SmallPowers();
    match j
    case 0 =>
    case 1 => assert Shr(b, 1) == Shr(b / 2, 0);
    case 2 => assert Shr(b, 2) == Shr(b / 2 / 2, 0);
    case 3 => assert Shr(b, 3) == Shr(b / 2 / 2 / 2, 0);
    case 4 => assert Shr(b, 4) == Shr(b / 2 / 2 / 2 / 2, 0);
    case 5 => assert Shr(b, 5) == Shr(b / 2 / 2 / 2 / 2 / 2, 0);
    case 6 => assert Shr(b, 6) == Shr(b / 2 / 2 / 2 / 2 / 2 / 2, 0);
    case 7 => assert Shr(b, 7) == Shr(b / 2 / 2 / 2 / 2 / 2 / 2 / 2, 0);
  }

  lemma BitOfStream(frame: seq<Byte>, at: nat)
    requires at < 8 * |frame|
    ensures Bit(frame, at) == if ByteBits(frame)[at] then 1 else 0
  {
    ByteBitAt(frame, at / 8, at % 8);
    ByteShifted(frame[at / 8], at % 8);
  }

  /** The bits from `at` on are these, and others behind them. */
  predicate BitsAt(frame: seq<Byte>, at: nat, bits: seq<bool>) {
    at + |bits| <= 8 * |frame| && ByteBits(frame)[at..at + |bits|] == bits
  }

  lemma BitsAtParts(frame: seq<Byte>, at: nat, a: seq<bool>, b: seq<bool>, whole: seq<bool>, next: nat)
    requires BitsAt(frame, at, whole) && whole == a + b && next == at + |a|
    ensures BitsAt(frame, at, a) && BitsAt(frame, next, b)
  {
    SliceOfSlice(ByteBits(frame), at, at + |whole|, 0, |a|);
    SliceOfSlice(ByteBits(frame), at, at + |whole|, |a|, |whole|);
  }

  lemma {:induction false} FieldOfStream(frame: seq<Byte>, at: nat, bits: seq<bool>, n: nat)
    requires BitsAt(frame, at, bits) && n == |bits|
    ensures Field(frame, at, n) == ValueOf(bits)
    decreases n
  {
    if n > 0 {
      BitsAtParts(frame, at, [bits[0]], bits[1..], bits, at + 1);
      BitOfStream(frame, at);
      assert ByteBits(frame)[at..at + 1][0] == ByteBits(frame)[at];
      FieldOfStream(frame, at + 1, bits[1..], n - 1);
    }
  }

  lemma FieldHolds(frame: seq<Byte>, at: nat, value: nat, n: nat)
    requires BitsAt(frame, at, BitsOf(value, n)) && value < Pow2(n)
    ensures at + n <= 8 * |frame| && Field(frame, at, n) == value
  {
    ValueOfBits(value, n);
    FieldOfStream(frame, at, BitsOf(value, n), n);
  }

  lemma FlagHolds(frame: seq<Byte>, at: nat, flag: bool)
    requires BitsAt(frame, at, [flag])
    ensures at < 8 * |frame| && Bit(frame, at) == if flag then 1 else 0
  {
    BitOfStream(frame, at);
    assert ByteBits(frame)[at..at + 1][0] == ByteBits(frame)[at];
  }

  lemma LiteralHolds(frame: seq<Byte>, at: nat, b: Byte)
    requires BitsAt(frame, at, TokenBits(Literal(b)))
    ensures at + 9 <= 8 * |frame| && Bit(frame, at) == 0 && Field(frame, at + 1, 8) == b
  {
    FieldWidths();
    BitsAtParts(frame, at, [false], BitsOf(b, 8), TokenBits(Literal(b)), at + 1);
    FlagHolds(frame, at, false);
    FieldHolds(frame, at + 1, b, 8);
  }

  lemma ThreeParts(frame: seq<Byte>, at: nat, a: seq<bool>, b: seq<bool>, whole: seq<bool>, first: nat, second: nat)
    requires whole == [true] + a + b && BitsAt(frame, at, whole) && first == at + 1 && second == first + |a|
    ensures BitsAt(frame, at, [true]) && BitsAt(frame, first, a) && BitsAt(frame, second, b)
  {
    BitsAtParts(frame, at, [true] + a, b, whole, second);
    BitsAtParts(frame, at, [true], a, [true] + a, first);
  }

  lemma BitsHold(frame: seq<Byte>, at: nat, value: nat, n: nat, bits: seq<bool>, end: nat)
    requires bits == BitsOf(value, n) && BitsAt(frame, at, bits) && value < Pow2(n) && end == at + n
    ensures end <= 8 * |frame| && Field(frame, at, end - at) == value
  {
    FieldHolds(frame, at, value, n);
  }

  /** A flag and two fields behind it. */
  lemma FieldsHold(frame: seq<Byte>, at: nat, a: nat, b: nat, short: seq<bool>, long: seq<bool>, first: nat,
                   second: nat, end: nat)
    requires a < Pow2(|short|) && b < Pow2(|long|) && short == BitsOf(a, |short|) && long == BitsOf(b, |long|)
    requires BitsAt(frame, at, [true] + short + long)
    requires first == at + 1 && second == first + |short| && end == second + |long|
    ensures end <= 8 * |frame| && Bit(frame, at) == 1
    ensures Field(frame, first, second - first) == a && Field(frame, second, end - second) == b
  {
    ThreeParts(frame, at, short, long, [true] + short + long, first, second);
    FlagHolds(frame, at, true);
    BitsHold(frame, first, a, |short|, short, second);
    BitsHold(frame, second, b, |long|, long, end);
  }

  predicate TokenStandsAt(frame: seq<Byte>, at: nat, t: Token, next: nat) {
    Fields(t) && BitsAt(frame, at, TokenBits(t)) && next == at + |TokenBits(t)|
  }

  lemma MatchHolds(frame: seq<Byte>, at: nat, t: Token, next: nat)
    requires t.Match? && TokenStandsAt(frame, at, t, next)
    ensures next == at + 24 <= 8 * |frame| && Bit(frame, at) == 1
    ensures Field(frame, at + 1, 8) == t.length - 3 && Field(frame, at + 9, 15) == t.distance - 1
  {
    var short, long := BitsOf(t.length - 3, 8), BitsOf(t.distance - 1, 15);
    MatchBits(t, short, long, TokenBits(t));
    FieldWidths();
    FieldsHold(frame, at, t.length - 3, t.distance - 1, short, long, at + 1, at + 9, at + 24);
  }

  lemma MatchBits(t: Token, short: seq<bool>, long: seq<bool>, bits: seq<bool>)
    requires t.Match? && Fields(t) && bits == TokenBits(t)
    requires short == BitsOf(t.length - 3, 8) && long == BitsOf(t.distance - 1, 15)
    ensures bits == [true] + short + long && |bits| == 24
  {
  }

  lemma TokenHolds(frame: seq<Byte>, at: nat, t: Token, others: seq<Token>, next: nat)
    requires TokenStandsAt(frame, at, t, next) && Packed(frame, next, others)
    ensures Packed(frame, at, [t] + others)
  {
    if t.Match? {
      MatchHolds(frame, at, t, next);
      MatchFirst(frame, at, t, others);
    } else {
      LiteralHolds(frame, at, t.byte);
      LiteralFirst(frame, at, t, others);
    }
  }

  lemma LiteralFirst(frame: seq<Byte>, at: nat, t: Token, others: seq<Token>)
    requires t.Literal? && at + 9 <= 8 * |frame| && Bit(frame, at) == 0
    requires Field(frame, at + 1, 8) == t.byte && Packed(frame, at + 9, others)
    ensures Packed(frame, at, [t] + others)
  {
    assert ([t] + others)[1..] == others;
  }

  lemma MatchFirst(frame: seq<Byte>, at: nat, t: Token, others: seq<Token>)
    requires t.Match? && at + 24 <= 8 * |frame| && Bit(frame, at) == 1
    requires Field(frame, at + 1, 8) == t.length - 3 && Field(frame, at + 9, 15) == t.distance - 1
    requires Packed(frame, at + 24, others)
    ensures Packed(frame, at, [t] + others)
  {
    assert ([t] + others)[1..] == others;
  }

  /** Less than a byte of zeros from `at` to the end. */
  predicate Padded(frame: seq<Byte>, at: nat) {
    at <= 8 * |frame| < at + 8 && BitsAt(frame, at, BitsOf(0, 8 * |frame| - at))
  }

  /** Tokens from `at` on, zeros from `end` on. */
  predicate StreamAt(frame: seq<Byte>, at: nat, tokens: seq<Token>, end: nat) {
    AllFields(tokens) && BitsAt(frame, at, StreamBits(tokens)) && end == at + |StreamBits(tokens)| && Padded(frame, end)
  }

  lemma NothingHolds(frame: seq<Byte>, at: nat, end: nat)
    requires StreamAt(frame, at, [], end)
    ensures Packed(frame, at, [])
  {
    FieldHolds(frame, at, 0, 8 * |frame| - at);
  }

  lemma StreamParts(frame: seq<Byte>, at: nat, tokens: seq<Token>, t: Token, others: seq<Token>, end: nat)
      returns (next: nat)
    requires tokens == [t] + others && StreamAt(frame, at, tokens, end)
    ensures TokenStandsAt(frame, at, t, next) && StreamAt(frame, next, others, end)
  {
    assert tokens[1..] == others;
    next := at + |TokenBits(t)|;
    BitsAtParts(frame, at, TokenBits(t), StreamBits(others), StreamBits(tokens), next);
  }

  lemma {:induction false} StreamHolds(frame: seq<Byte>, at: nat, tokens: seq<Token>, end: nat)
    requires StreamAt(frame, at, tokens, end)
    ensures Packed(frame, at, tokens)
    decreases |tokens|
  {
    if tokens == [] {
      NothingHolds(frame, at, end);
    } else {
      var t, others := tokens[0], tokens[1..];
      assert tokens == [t] + others;
      var next := StreamParts(frame, at, tokens, t, others, end);
      StreamHolds(frame, next, others, end);
      TokenHolds(frame, at, t, others, next);
    }
  }

  /** A frame is its length in 32 bits, its tokens from bit 32 on, and zeros. */
  lemma FrameHolds(frame: seq<Byte>, length: nat, tokens: seq<Token>)
    requires AllFields(tokens) && length < U32_LIMIT && IsFrame(frame, length, tokens)
    ensures |frame| >= 4 && Field(frame, 0, 32) == length && Packed(frame, 32, tokens)
  {
    var header, stream := BitsOf(length, 32), StreamBits(tokens);
    var pad := 8 * |frame| - |header + stream|;
    var whole := (header + stream) + BitsOf(0, pad);
    assert ByteBits(frame)[0..|whole|] == whole;
    BitsAtParts(frame, 0, header + stream, BitsOf(0, pad), whole, |header + stream|);
    BitsAtParts(frame, 0, header, stream, header + stream, 32);
    Pow2Table();
    FieldHolds(frame, 0, length, 32);
    StreamHolds(frame, 32, tokens, 8 * |frame| - pad);
  }
}
