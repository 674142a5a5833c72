/**
 The codec as it runs: a bit writer with a 64-bit staging buffer, a bit reader, the matcher over
 mutable `head` and `prev` arrays, and the two entry points.
 */
module Lz {
  import opened Bytes
  import opened Bits
  import opened LzTokens
  import opened LzStream
  import LzGreedy
  import LzLayout

  // ---------- Bit writer ----------

  class BitWriter {
    var buffer: seq<Byte>
    var bitBuffer: nat
    var bitCount: nat

    predicate Valid()
      reads this
    {
      bitCount < 64 && bitBuffer < Pow2(bitCount)
    }

    /** Everything written so far. */
    function Written(): seq<bool>
      reads this
    {
      ByteBits(buffer) + BitsOf(bitBuffer, bitCount)
    }

    constructor ()
      ensures Valid() && Written() == [] && bitCount == 0
    {
      buffer, bitBuffer, bitCount := [], 0, 0;
    }

    method WriteBit(value: bool)
      requires Valid()
      modifies this
      ensures Valid() && Written() == old(Written()) + [value]
    {
      EnsureCapacity(1);
      Stage(if value then 1 else 0, 1);
      if bitCount == 64 {
        Flush();
      }
    }

    method WriteBits(value: nat, count: nat)
      requires Valid() && count <= 32 && value < Pow2(count)
      modifies this
      ensures Valid() && Written() == old(Written()) + BitsOf(value, count)
    {
      EnsureCapacity(count);
      Stage(value, count);
      if bitCount >= 64 {
        Flush();
      }
    }

    /** `bit_buffer |= value << bit_count; bit_count += count`. */
    method Stage(value: nat, count: nat)
      requires Valid() && bitCount + count <= 64 && value < Pow2(count)
      modifies this
      ensures bitCount == old(bitCount) + count && bitBuffer < Pow2(bitCount)
      ensures Written() == old(Written()) + BitsOf(value, count)
    {
      Shl64Exact(bitBuffer, value, count, bitCount);
      OrShifted(bitBuffer, value, bitCount);
      BitsSplit(bitBuffer, value, bitCount, count);
      Reassociate(ByteBits(buffer), BitsOf(bitBuffer, bitCount), BitsOf(value, count));
      bitBuffer := Or(bitBuffer, Shl64(value, bitCount));
      bitCount := bitCount + count;
    }

    method EnsureCapacity(needed: nat)
      requires Valid() && needed <= 32
      modifies this
      ensures Valid() && bitCount + needed <= 64 && Written() == old(Written())
    {
      if bitCount + needed > 64 {
        Flush();
      }
    }

    method WriteU32(value: nat)
      requires Valid() && value < U32_LIMIT
      modifies this
      ensures Valid() && Written() == old(Written()) + BitsOf(value, 32)
    {
      if bitCount == 0 {
        LeBits(value, 4);
        ByteBitsConcat(buffer, LeBytes(value, 4));
        buffer := buffer + LeBytes(value, 4);
      } else {
        WriteU32Bits(value);
      }
    }

    /** `write_u32` when the staging buffer is in use: four bytes, lowest first. */
    method WriteU32Bits(value: nat)
      requires Valid()
      modifies this
      ensures Valid() && Written() == old(Written()) + BitsOf(value, 32)
    {
      var rest, left := value, 4;
      ghost var n := 32;
      ghost var goal := Written() + BitsOf(value, 32);
      while left > 0
        invariant 0 <= left <= 4 && n == 8 * left && Valid()
        invariant StillToWrite(Written(), rest, n, goal)
      {
        ByteWritten(Written(), rest, n, goal);
        WriteBits(rest % 256, 8);
        rest, left, n := rest / 256, left - 1, n - 8;
      }
      AllWritten(Written(), rest, goal);
    }

    method Flush()
      requires bitCount <= 64 && bitBuffer < Pow2(bitCount)
      modifies this
      ensures Valid() && bitCount < 8 && Written() == old(Written())
    {
      while bitCount >= 8
        invariant bitCount <= 64 && bitBuffer < Pow2(bitCount)
        invariant Written() == old(Written())
        decreases bitCount
      {
        FlushOne();
      }
    }

    /** Moves the lowest byte out of the staging buffer. */
    method FlushOne()
      requires bitCount >= 8 && bitBuffer < Pow2(bitCount)
      modifies this
      ensures bitCount == old(bitCount) - 8 && bitBuffer < Pow2(bitCount) && Written() == old(Written())
    {
      FlushByte(buffer, bitBuffer, bitCount);
      buffer := buffer + [bitBuffer % 256];
      bitBuffer := bitBuffer / 256;
      bitCount := bitCount - 8;
    }

    method Finish() returns (bytes: seq<Byte>)
      requires Valid()
      modifies this
      ensures |old(Written())| <= 8 * |bytes| < |old(Written())| + 8
      ensures ByteBits(bytes) == old(Written()) + BitsOf(0, 8 * |bytes| - |old(Written())|)
    {
      Flush();
      var byte := bitBuffer % 256;
      assert byte == bitBuffer by {
        FitsByte(bitBuffer, bitCount);
      }
      FinalBytes(buffer, byte, bitCount);
      bytes := if bitCount > 0 then buffer + [byte] else buffer;
    }
  }

  /** Rounding the stream up to whole bytes puts less than a byte of zeros behind it. */
  lemma FinalBytes(buffer: seq<Byte>, byte: Byte, n: nat)
    requires n < 8 && byte < Pow2(n)
    ensures var bits, bytes := ByteBits(buffer) + BitsOf(byte, n), if n > 0 then buffer + [byte] else buffer;
      |bits| <= 8 * |bytes| < |bits| + 8 && ByteBits(bytes) == bits + BitsOf(0, 8 * |bytes| - |bits|)
  {
    if n > 0 {
      LastByte(buffer, byte, n);
    }
  }

  /** Moving a full byte out of the staging buffer writes nothing new. */
  lemma FlushByte(buffer: seq<Byte>, bitBuffer: nat, bitCount: nat)
    requires bitCount >= 8 && bitBuffer < Pow2(bitCount)
    ensures ByteBits(buffer + [bitBuffer % 256]) + BitsOf(bitBuffer / 256, bitCount - 8)
         == ByteBits(buffer) + BitsOf(bitBuffer, bitCount)
    ensures bitBuffer / 256 < Pow2(bitCount - 8)
  {
    LowByte(bitBuffer, bitCount);
    ByteBitsConcat(buffer, [bitBuffer % 256]);
    ByteBitsOne(bitBuffer % 256);
    Reassociate(ByteBits(buffer), BitsOf(bitBuffer % 256, 8), BitsOf(bitBuffer / 256, bitCount - 8));
  }

  /** What is written and the `n` bits left make up the whole. */
  ghost predicate StillToWrite(written: seq<bool>, rest: nat, n: nat, goal: seq<bool>) {
    written + BitsOf(rest, n) == goal
  }

  lemma ByteWritten(written: seq<bool>, rest: nat, n: nat, goal: seq<bool>)
    requires n >= 8 && StillToWrite(written, rest, n, goal)
    ensures rest % 256 < Pow2(8)
    ensures StillToWrite(written + BitsOf(rest % 256, 8), rest / 256, n - 8, goal)
  {
    LowByte(rest, n);
    assert Pow2(8) == 256;
    Reassociate(written, BitsOf(rest % 256, 8), BitsOf(rest / 256, n - 8));
  }

  lemma AllWritten(written: seq<bool>, rest: nat, goal: seq<bool>)
    requires StillToWrite(written, rest, 0, goal)
    ensures written == goal
  {
    assert written + [] == written;
  }

  /** The last, partly used byte. */
  lemma LastByte(buffer: seq<Byte>, byte: Byte, n: nat)
    requires n <= 8 && byte < Pow2(n)
    ensures ByteBits(buffer + [byte]) == (ByteBits(buffer) + BitsOf(byte, n)) + BitsOf(0, 8 - n)
  {
    ByteBitsBehind(buffer, byte);
    ZerosAbove(byte, n, 8 - n, 8);
    Reassociate(ByteBits(buffer), BitsOf(byte, n), BitsOf(0, 8 - n));
  }

  lemma ZerosAbove(value: nat, n: nat, zeros: nat, width: nat)
    requires value < Pow2(n) && n + zeros == width
    ensures BitsOf(value, width) == BitsOf(value, n) + BitsOf(0, zeros)
  {
    BitsSplit(value, 0, n, zeros);
  }

  // ---------- Bit reader ----------

  class BitReader {
    const bytes: seq<Byte>
    var bytePos: nat
    var bitPos: nat

    predicate Valid()
      reads this
    {
      bitPos < 8 && bytePos <= |bytes| && (bytePos == |bytes| ==> bitPos == 0)
    }

    /** The bits not yet read. */
    function Rest(): seq<bool>
      requires Valid()
      reads this
    {
      ByteBits(bytes)[8 * bytePos + bitPos..]
    }

    constructor (bytes: seq<Byte>)
      ensures Valid() && this.bytes == bytes && Rest() == ByteBits(bytes)
    {
      this.bytes := bytes;
      bytePos, bitPos := 0, 0;
    }

    method ReadBit() returns (bit: Option<bool>)
      requires Valid()
      modifies this
      ensures Valid()
      ensures old(Rest()) == [] ==> bit == None && Rest() == []
      ensures old(Rest()) != [] ==> bit == Some(old(Rest())[0]) && Rest() == old(Rest())[1..]
    {
      if bytePos >= |bytes| {
        return None;
      }
      ByteBitAt(bytes, bytePos, bitPos);
      bit := Some(Shr(bytes[bytePos], bitPos) % 2 == 1);
      bitPos := bitPos + 1;
      if bitPos == 8 {
        bitPos := 0;
        bytePos := bytePos + 1;
      }
    }

    method ReadBits(count: nat) returns (value: Option<nat>)
      requires Valid()
      modifies this
      ensures Valid()
      ensures match ReadField(old(Rest()), count)
              case Err(_) => value == None
              case Ok((v, rest)) => value == Some(v) && Rest() == rest
    {
      var v := 0;
      ghost var bits := Rest();
      var i := 0;
      while i < count
        invariant i <= count && i <= |bits| && Valid()
        invariant Rest() == bits[i..]
        invariant v == ValueOf(bits[..i])
      {
        var bit := ReadBit();
        if bit.None? {
          return None;
        }
        assert bits[..i + 1] == bits[..i] + [bits[i]];
        ValueOfAppend(bits[..i], bits[i]);
        BitsOfValue(bits[..i]);
        OrShifted(v, if bit.value then 1 else 0, i);
        v := Or(v, (if bit.value then 1 else 0) * Pow2(i));
        i := i + 1;
      }
      return Some(v);
    }

    method ReadU32() returns (value: Option<nat>)
      requires Valid()
      modifies this
      ensures Valid()
      ensures match ReadField(old(Rest()), 32)
              case Err(_) => value == None
              case Ok((v, rest)) => value == Some(v) && Rest() == rest
    {
      ghost var bits := Rest();
      var a := ReadBits(8);
      if a.None? { return None; }
      var b := ReadMore(8, a.value, bits);
      if b.None? { return None; }
      var c := ReadMore(16, b.value, bits);
      if c.None? { return None; }
      value := ReadMore(24, c.value, bits);
    }

    /** The next byte, ored in above the `shift` bits already read. */
    method ReadMore(shift: nat, low: nat, ghost bits: seq<bool>) returns (value: Option<nat>)
      requires Valid() && shift <= |bits| && Rest() == bits[shift..] && low == ValueOf(bits[..shift])
      modifies this
      ensures Valid()
      ensures match ReadField(bits, shift + 8)
              case Err(_) => value == None
              case Ok((v, rest)) => value == Some(v) && Rest() == rest
    {
      var byte := ReadBits(8);
      if byte.None? { return None; }
      JoinFields(bits, shift, 8, byte.value);
      assert bits[shift..][8..] == bits[shift + 8..];
      return Some(Or(low, byte.value * Pow2(shift)));
    }
  }

  /** A field read after `n` bits is ored in above them. */
  lemma JoinFields(bits: seq<bool>, n: nat, m: nat, field: nat)
    requires n + m <= |bits| && field == ValueOf(bits[n..][..m])
    ensures Or(ValueOf(bits[..n]), field * Pow2(n)) == ValueOf(bits[..n + m])
  {
    BitsOfValue(bits[..n]);
    OrShifted(ValueOf(bits[..n]), field, n);
    ValueOfConcat(bits[..n], bits[n..][..m]);
    assert bits[..n] + bits[n..][..m] == bits[..n + m];
  }

  // ---------- Decompression ----------

  method Decompress(frame: seq<Byte>, expected: nat) returns (r: Result<seq<Byte>>)
    ensures r == DecompressOutcome(frame, expected)
  {
    var reader := new BitReader(frame);
    var declared := reader.ReadU32();
    if declared.None? {
      return Err(UnexpectedEnd);
    }
    if declared.value > expected {
      return Err(LengthMismatch);
    }
    var output: seq<Byte> := [];
    ghost var goal := DecodeAll(reader.Rest(), declared.value, []);
    while |output| < declared.value
      invariant reader.Valid() && fresh(reader)
      invariant DecodeAll(reader.Rest(), declared.value, output) == goal
      decreases declared.value - |output|
    {
      var step := ReadToken(reader, output);
      if step.Err? {
        return Err(step.error);
      }
      output := step.value;
    }
    if |output| != declared.value {
      return Err(LengthMismatch);
    }
    return Ok(output);
  }

  /** One token of the decoding loop. */
  method ReadToken(reader: BitReader, output: seq<Byte>) returns (r: Result<seq<Byte>>)
    requires reader.Valid()
    modifies reader
    ensures reader.Valid()
    ensures match DecodeToken(old(reader.Rest()), output)
            case Err(e) => r == Err(e)
            case Ok(step) => r == Ok(step.out) && reader.Rest() == step.rest
  {
    ghost var bits := reader.Rest();
    var isMatch := reader.ReadBit();
    if isMatch.None? {
      return Err(UnexpectedEnd);
    }
    FlagValue(bits);
    if isMatch.value {
      var length := reader.ReadBits(8);
      if length.None? {
        return Err(UnexpectedEnd);
      }
      var distance := reader.ReadBits(15);
      if distance.None? {
        return Err(UnexpectedEnd);
      }
      if distance.value + 1 > |output| {
        return Err(InvalidDistance);
      }
      var copied := CopyMatch(output, distance.value + 1, length.value + MIN_MATCH);
      return Ok(copied);
    } else {
      var byte := reader.ReadBits(8);
      if byte.None? {
        return Err(UnexpectedEnd);
      }
      return Ok(output + [byte.value % 256]);
    }
  }

  lemma FlagValue(bits: seq<bool>)
    requires bits != []
    ensures ReadField(bits, 1) == Ok((if bits[0] then 1 else 0, bits[1..]))
  {
    assert bits[..1] == [bits[0]];
    assert ValueOf([bits[0]][1..]) == 0;
  }

  /** The copy loop: reads `distance` back from where it writes, so runs may overlap themselves. */
  method CopyMatch(output: seq<Byte>, distance: nat, length: nat) returns (r: seq<Byte>)
    requires 1 <= distance <= |output|
    ensures r == CopyBack(output, distance, length)
  {
    r := output;
    var start := |output|;
    var i := 0;
    while i < length
      invariant i <= length && |r| == start + i
      invariant CopyBack(r, distance, length - i) == CopyBack(output, distance, length)
    {
      r := r + [r[start + i - distance]];
      i := i + 1;
    }
  }

  // ---------- Compression ----------

  const NONE: nat := 0xffff_ffff  // `u32::MAX`: no earlier position

  function Link(position: Option<nat>): nat {
    match position
    case None => NONE
    case Some(c) => c
  }

  /** `head[b]` is the newest of the first `n` positions in bucket `b`. */
  predicate HeadAt(hash: Hash3, input: seq<Byte>, head: seq<nat>, n: nat, b: Bucket)
    requires |head| == HASH_BUCKETS
  {
    head[b] == Link(LastIn(hash, input, b, n))
  }

  /** `prev[i]` is the newest position before `i` in the bucket of `i`. */
  predicate PrevAt(hash: Hash3, input: seq<Byte>, prev: seq<nat>, i: nat)
    requires i < |prev|
  {
    Hashable(input, i) ==> prev[i] == Link(LastIn(hash, input, HashAt(hash, input, i), i))
  }

  /**
   The hash chains after inserting the first `n` positions: following `head` and then `prev`
   visits exactly the earlier positions of a bucket, newest first, so every chain strictly
   decreases and stays below the insertion point.
   */
  ghost predicate Chains(hash: Hash3, input: seq<Byte>, head: seq<nat>, prev: seq<nat>, n: nat) {
    && |head| == HASH_BUCKETS && |prev| == |input| && n <= |input|
    && (forall b: Bucket :: HeadAt(hash, input, head, n, b))
    && (forall i :: 0 <= i < n ==> PrevAt(hash, input, prev, i))
  }

  /** Links never point at or past the position they belong to. */
  lemma ChainsDescend(hash: Hash3, input: seq<Byte>, head: seq<nat>, prev: seq<nat>, n: nat, b: Bucket, i: nat)
    requires Chains(hash, input, head, prev, n) && i < n && Hashable(input, i)
    ensures head[b] == NONE || head[b] < n
    ensures prev[i] == NONE || (prev[i] < i && Hashable(input, prev[i]) &&
                                HashAt(hash, input, prev[i]) == HashAt(hash, input, i))
  {
    assert HeadAt(hash, input, head, n, b) && PrevAt(hash, input, prev, i);
  }

  lemma EmptyChains(hash: Hash3, input: seq<Byte>, head: seq<nat>, prev: seq<nat>)
    requires |head| == HASH_BUCKETS && |prev| == |input| && forall b :: 0 <= b < |head| ==> head[b] == NONE
    ensures Chains(hash, input, head, prev, 0)
  {
  }

  /** Inserting position `n`: `prev[n] = head[h]; head[h] = n`. */
  lemma ChainsInsert(hash: Hash3, input: seq<Byte>, head: seq<nat>, prev: seq<nat>, head': seq<nat>, prev': seq<nat>,
                     n: nat)
    requires Chains(hash, input, head, prev, n) && n < |input|
    requires Hashable(input, n) ==>
      prev' == prev[n := head[HashAt(hash, input, n)]] && head' == head[HashAt(hash, input, n) := n]
    requires !Hashable(input, n) ==> prev' == prev && head' == head
    ensures Chains(hash, input, head', prev', n + 1)
  {
    var more := n + 1;
    forall b: Bucket ensures HeadAt(hash, input, head', more, b) {
      assert HeadAt(hash, input, head, n, b);
    }
    forall i | 0 <= i < more ensures PrevAt(hash, input, prev', i) {
      if i < n {
        assert PrevAt(hash, input, prev, i);
      } else if Hashable(input, n) {
        assert HeadAt(hash, input, head, n, HashAt(hash, input, n));
      }
    }
  }

  method Insert(hash: Hash3, input: seq<Byte>, head: array<nat>, prev: array<nat>, i: nat)
    requires head != prev && i < |input| && Chains(hash, input, head[..], prev[..], i)
    modifies head, prev
    ensures Chains(hash, input, head[..], prev[..], i + 1)
  {
    ghost var oldHead: seq<nat>, oldPrev: seq<nat> := head[..], prev[..];
    if i + MIN_MATCH <= |input| {
      var h := HashAt(hash, input, i);
      prev[i] := head[h];
      head[h] := i;
      assert prev[..] == oldPrev[i := oldHead[h]] && head[..] == oldHead[h := i];
    }
    ChainsInsert(hash, input, oldHead, oldPrev, head[..], prev[..], i);
  }

  /** The inner comparison loop. */
  method CommonRun(input: seq<Byte>, c: nat, pos: nat, max: nat) returns (len: nat)
    requires c < pos && pos + max <= |input|
    ensures len == MatchLength(input, c, pos, max, 0)
  {
    len := 0;
    while len < max && input[c + len] == input[pos + len]
      invariant len <= max
      invariant MatchLength(input, c, pos, max, len) == MatchLength(input, c, pos, max, 0)
    {
      len := len + 1;
    }
  }

  /** One turn of the candidate loop. */
  lemma SearchStep(hash: Hash3, input: seq<Byte>, pos: nat, c: nat, budget: nat, best: Best)
    requires Hashable(input, pos) && WindowStart(pos) <= c < pos && budget > 0
    ensures var n := MatchLength(input, c, pos, MaxLength(input, pos), 0);
      var better := if n > best.length then Best(n, pos - c) else best;
      Search(hash, input, pos, Some(c), budget, best)
      == if n > best.length && n == MaxLength(input, pos) then better
         else Search(hash, input, pos, LastIn(hash, input, HashAt(hash, input, pos), c), budget - 1, better)
  {
  }

  /** The candidate loop: follows the chain of the bucket of `pos`. */
  method LongestMatch(hash: Hash3, input: seq<Byte>, head: array<nat>, prev: array<nat>, pos: nat, maxChain: nat)
    returns (best: Best)
    requires pos < |input| < U32_LIMIT && Chains(hash, input, head[..], prev[..], pos)
    ensures best == FindMatch(hash, input, pos, maxChain)
  {
    best := Best(0, 0);
    var maxLen := MaxLength(input, pos);
    if maxLen < MIN_MATCH {
      return;
    }
    var h := HashAt(hash, input, pos);
    assert HeadAt(hash, input, head[..], pos, h);
    var candidate := head[h];
    var chain := 0;
    var windowStart := WindowStart(pos);
    ghost var goal := FindMatch(hash, input, pos, maxChain);
    ghost var from: Option<nat> := LastIn(hash, input, h, pos);
    while candidate != NONE && chain < maxChain
      invariant chain <= maxChain
      invariant candidate == Link(from) && (from.Some? ==> from.value < pos && HashAt(hash, input, from.value) == h)
      invariant from.Some? ==> Hashable(input, from.value)
      invariant Search(hash, input, pos, from, maxChain - chain, best) == goal
      decreases maxChain - chain
    {
      var c := candidate;
      if c < windowStart {
        return;
      }
      SearchStep(hash, input, pos, c, maxChain - chain, best);
      var len := CommonRun(input, c, pos, maxLen);
      if len > best.length {
        best := Best(len, pos - c);
        if len == maxLen {
          return;
        }
      }
      assert PrevAt(hash, input, prev[..], c);
      from := LastIn(hash, input, h, c);
      candidate := prev[c];
      chain := chain + 1;
    }
  }

  function Min(a: nat, b: nat): nat {
    if a < b then a else b
  }

  /** The chain budget of a level: clamped to 1..=22, four candidates a level more. */
  function ChainBudget(level: int): (budget: nat)
    ensures 8 <= budget <= 92
    ensures level <= 1 ==> budget == 8
    ensures level >= 22 ==> budget == 92
  {
    var clamped := if level < 1 then 1 else if level > 22 then 22 else level;
    Min(4 + clamped * 4, 96)
  }

  /** Emits one token. */
  method WriteToken(output: BitWriter, t: Token)
    requires output.Valid() && Fields(t)
    modifies output
    ensures output.Valid() && output.Written() == old(output.Written()) + TokenBits(t)
  {
    Pow2Table();
    ghost var before := output.Written();
    match t
    case Match(length, distance) =>
      output.WriteBit(true);
      output.WriteBits(length - MIN_MATCH, 8);
      output.WriteBits(distance - 1, 15);
      Reassociate(before, [true], BitsOf(length - MIN_MATCH, 8));
      Reassociate(before, [true] + BitsOf(length - MIN_MATCH, 8), BitsOf(distance - 1, 15));
    case Literal(b) =>
      output.WriteBit(false);
      output.WriteBits(b, 8);
      Reassociate(before, [false], BitsOf(b, 8));
  }

  method Compress(hash: Hash3, input: seq<Byte>, level: int) returns (frame: seq<Byte>)
    requires |input| < U32_LIMIT
    ensures frame == [] <==> |input| < MIN_MATCH
    ensures |input| >= MIN_MATCH ==>
      var tokens := Tokens(hash, input, ChainBudget(level), 0);
      && AllFields(tokens) && IsFrame(frame, |input|, tokens)
      && LzGreedy.Greedy(hash, input, ChainBudget(level), 0, tokens)
      && |frame| >= 4 && LzLayout.Field(frame, 0, 32) == |input| && LzLayout.Packed(frame, 32, tokens)
      && forall cap: nat :: |input| <= cap ==> DecompressOutcome(frame, cap) == Ok(input)
    ensures EmptyUnlessSmaller(frame, input) <==>
      |input| < MIN_MATCH || 4 + (Cost(Tokens(hash, input, ChainBudget(level), 0)) + 7) / 8 < |input|
  {
    if |input| < MIN_MATCH {
      return [];
    }
    var output := PackTokens(hash, input, ChainBudget(level));
    frame := output.Finish();
    ghost var tokens := Tokens(hash, input, ChainBudget(level), 0);
    forall cap: nat | |input| <= cap ensures DecompressOutcome(frame, cap) == Ok(input) {
      TokensExpand(hash, input, ChainBudget(level), 0);
      FrameReadsBack(frame, tokens, input, cap);
    }
    SmallerIffCheap(hash, input, ChainBudget(level), frame);
    LzGreedy.OnlyGreedy(hash, input, ChainBudget(level), 0, tokens);
    LzLayout.FrameHolds(frame, |input|, tokens);
  }

  /** The header and the tokens. */
  method PackTokens(hash: Hash3, input: seq<Byte>, maxChain: nat) returns (output: BitWriter)
    requires |input| < U32_LIMIT
    ensures output.Valid() && fresh(output)
    ensures AllFields(Tokens(hash, input, maxChain, 0))
    ensures output.Written() == BitsOf(|input|, 32) + StreamBits(Tokens(hash, input, maxChain, 0))
  {
    TokensExpand(hash, input, maxChain, 0);
    output := new BitWriter();
    output.WriteU32(|input|);
    assert output.Written() == BitsOf(|input|, 32);
    PackAll(hash, input, output, maxChain);
  }

  /** The token loop, from empty chains on. */
  method PackAll(hash: Hash3, input: seq<Byte>, output: BitWriter, maxChain: nat)
    requires |input| < U32_LIMIT && output.Valid() && AllFields(Tokens(hash, input, maxChain, 0))
    modifies output
    ensures output.Valid()
    ensures output.Written() == old(output.Written()) + StreamBits(Tokens(hash, input, maxChain, 0))
  {
    var head := new nat[HASH_BUCKETS](_ => NONE);
    var prev := new nat[|input|](_ => NONE);
    EmptyChains(hash, input, head[..], prev[..]);
    ghost var left := Tokens(hash, input, maxChain, 0);
    ghost var goal := output.Written() + StreamBits(left);
    var pos := 0;
    while pos < |input|
      invariant pos <= |input| && output.Valid() && Chains(hash, input, head[..], prev[..], pos)
      invariant TokensFrom(hash, input, maxChain, pos, left) && StillToPack(output.Written(), left, goal)
    {
      pos := PackNext(hash, input, head, prev, output, pos, maxChain, left, goal);
      left := left[1..];
    }
    PackedAll(output.Written(), left, goal);
  }

  /** Packs the token at `pos` and inserts every position it covers into the hash chains. */
  method PackNext(hash: Hash3, input: seq<Byte>, head: array<nat>, prev: array<nat>, output: BitWriter, pos: nat,
                  maxChain: nat, ghost left: seq<Token>, ghost goal: seq<bool>)
    returns (end: nat)
    requires pos < |input| < U32_LIMIT && head != prev && Chains(hash, input, head[..], prev[..], pos) && output.Valid()
    requires TokensFrom(hash, input, maxChain, pos, left) && StillToPack(output.Written(), left, goal)
    modifies head, prev, output
    ensures pos < end <= |input| && Chains(hash, input, head[..], prev[..], end) && output.Valid()
    ensures left != [] && TokensFrom(hash, input, maxChain, end, left[1..])
    ensures StillToPack(output.Written(), left[1..], goal)
  {
    ghost var token := TokenAt(hash, input, maxChain, pos);
    FirstOfTokens(hash, input, maxChain, pos, left, pos + Width(token));
    PackOne(output.Written(), token, left, goal);
    end := NextToken(hash, input, head, prev, output, pos, maxChain);
    InsertAll(hash, input, head, prev, pos, end);
  }

  /** What is written and the tokens left make up the whole stream. */
  ghost predicate StillToPack(written: seq<bool>, left: seq<Token>, goal: seq<bool>) {
    AllFields(left) && written + StreamBits(left) == goal
  }

  ghost predicate TokensFrom(hash: Hash3, input: seq<Byte>, maxChain: nat, pos: nat, left: seq<Token>)
    requires pos <= |input|
  {
    left == Tokens(hash, input, maxChain, pos)
  }

  lemma FirstOfTokens(hash: Hash3, input: seq<Byte>, maxChain: nat, pos: nat, left: seq<Token>, end: nat)
    requires pos < |input| && TokensFrom(hash, input, maxChain, pos, left)
    requires end == pos + Width(TokenAt(hash, input, maxChain, pos))
    ensures end <= |input| && left != [] && left[0] == TokenAt(hash, input, maxChain, pos)
    ensures TokensFrom(hash, input, maxChain, end, left[1..])
  {
  }

  lemma PackOne(written: seq<bool>, token: Token, left: seq<Token>, goal: seq<bool>)
    requires StillToPack(written, left, goal) && left != [] && left[0] == token
    ensures Fields(token) && StillToPack(written + TokenBits(token), left[1..], goal)
  {
    Reassociate(written, TokenBits(token), StreamBits(left[1..]));
  }

  lemma PackedAll(written: seq<bool>, left: seq<Token>, goal: seq<bool>)
    requires StillToPack(written, left, goal) && left == []
    ensures written == goal
  {
    assert written + [] == written;
  }

  /** Finds the longest match at `pos` and emits a match or a literal; returns where it ends. */
  method NextToken(hash: Hash3, input: seq<Byte>, head: array<nat>, prev: array<nat>, output: BitWriter, pos: nat,
                   maxChain: nat)
    returns (end: nat)
    requires pos < |input| < U32_LIMIT && Chains(hash, input, head[..], prev[..], pos) && output.Valid()
    requires Fields(TokenAt(hash, input, maxChain, pos))
    modifies output
    ensures output.Valid() && end == pos + Width(TokenAt(hash, input, maxChain, pos))
    ensures output.Written() == old(output.Written()) + TokenBits(TokenAt(hash, input, maxChain, pos))
  {
    var best := LongestMatch(hash, input, head, prev, pos, maxChain);
    FindMatchCopies(hash, input, pos, maxChain);
    if best.length >= MIN_MATCH {
      WriteToken(output, Match(best.length, best.distance));
      end := pos + best.length;
    } else {
      WriteToken(output, Literal(input[pos]));
      end := pos + 1;
    }
  }

  /** Inserts every position of a token into the hash chains. */
  method InsertAll(hash: Hash3, input: seq<Byte>, head: array<nat>, prev: array<nat>, pos: nat, end: nat)
    requires head != prev && pos <= end <= |input| && Chains(hash, input, head[..], prev[..], pos)
    modifies head, prev
    ensures Chains(hash, input, head[..], prev[..], end)
  {
    var i := pos;
    while i < end
      invariant pos <= i <= end && Chains(hash, input, head[..], prev[..], i)
    {
      Insert(hash, input, head, prev, i);
      i := i + 1;
    }
  }
}
