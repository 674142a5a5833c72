/**
 The BLAKE3 tree of section 2.1 (Tree Structure) of the BLAKE3 specification: chunks are the
 leaves, the left subtree of every parent is the largest complete one that leaves at least one
 chunk on the right, and only the topmost node is compressed with the ROOT flag.
 The compression function is a parameter.
 */
module Blake3Tree {
  import opened Bytes

  const CHUNK_START: bv32 := 1
  const CHUNK_END: bv32 := 2
  const PARENT: bv32 := 4
  const ROOT: bv32 := 8

  type Word = w: nat | w < 0x1_0000_0000
  type EightWords = s: seq<Word> | |s| == 8 witness seq(8, _ => 0)

  /** A chaining value: eight words. */
  datatype Cv = Cv(words: EightWords)

  /** Sixteen words, in halves: a message block, or the output of the compression function. */
  datatype Words = Words(low: Cv, high: Cv)

  /** `compress(chaining_value, block_words, counter, block_len, flags)`. */
  type Compress = (Cv, Words, nat, nat, bv32) -> Words

  const IV := Cv([0x6A09E667, 0xBB67AE85, 0x3C6EF372, 0xA54FF53A, 0x510E527F, 0x9B05688C, 0x1F83D9AB, 0x5BE0CD19])

  datatype Output = Output(inputCv: Cv, words: Words, counter: nat, blockLen: nat, flags: bv32)

  function ChainingValue(c: Compress, o: Output): Cv {
    c(o.inputCv, o.words, o.counter, o.blockLen, o.flags).low
  }

  function DigestBytes(words: seq<Word>): (bytes: seq<Byte>)
    ensures |bytes| == 4 * |words|
  {
    if words == [] then [] else LeBytes(words[0], 4) + DigestBytes(words[1..])
  }

  function RootHash(c: Compress, o: Output): (digest: seq<Byte>)
    ensures |digest| == 32
  {
    DigestBytes(c(o.inputCv, o.words, 0, o.blockLen, o.flags | ROOT).low.words)
  }

  function ParentOutput(left: Cv, right: Cv): Output {
    Output(IV, Words(left, right), 0, 64, PARENT)
  }

  // ---------- Chunks ----------

  function Pad(block: seq<Byte>): (padded: seq<Byte>)
    requires |block| <= 64
    ensures |padded| == 64
  {
    block + seq(64 - |block|, _ => 0)
  }

  function WordAt(bytes: seq<Byte>, i: nat): Word
    requires 4 * i + 4 <= |bytes|
  {
    var quad := bytes[4 * i..4 * i + 4];
    LeBytesOfValue(quad);
    Pow2Table();
    LeValue(quad)
  }

  /** Sixteen little-endian words of a full block buffer. */
  function WordsFromBytes(block: seq<Byte>): Words
    requires |block| == 64
  {
    Words(Cv(seq(8, i requires 0 <= i < 8 => WordAt(block, i))),
          Cv(seq(8, i requires 0 <= i < 8 => WordAt(block, 8 + i))))
  }

  function StartFlag(blocksBefore: nat): bv32 {
    if blocksBefore == 0 then CHUNK_START else 0
  }

  /** Chaining value after the first `k` full blocks of a chunk. */
  function ChunkCv(c: Compress, data: seq<Byte>, counter: nat, k: nat): Cv
    requires 64 * k <= |data|
  {
    if k == 0 then IV
    else c(ChunkCv(c, data, counter, k - 1), WordsFromBytes(data[64 * (k - 1)..64 * k]), counter, 64,
           StartFlag(k - 1)).low
  }

  /** Blocks compressed before the last: the last block stays open even when full. */
  function Before(len: nat, unit: nat): (n: nat)
    requires unit > 0
    ensures len == 0 ==> n == 0
    ensures len > 0 ==> n * unit < len <= n * unit + unit
  {
    if len == 0 then 0 else (len - 1) / unit
  }

  function ChunkOutput(c: Compress, data: seq<Byte>, counter: nat): Output {
    var k := Before(|data|, 64);
    Output(ChunkCv(c, data, counter, k), WordsFromBytes(Pad(data[64 * k..])), counter, |data| - 64 * k,
           StartFlag(k) | CHUNK_END)
  }

  /** Number of chunks of an input; the empty input is one empty chunk. */
  function ChunkCount(len: nat): nat {
    Before(len, 1024) + 1
  }

  function Clip(at: nat, len: nat): nat {
    if at < len then at else len
  }

  /** The `i`-th 1024-byte piece of an input; the last may be short. */
  function Chunk(input: seq<Byte>, i: nat): seq<Byte> {
    input[Clip(1024 * i, |input|)..Clip(1024 * i + 1024, |input|)]
  }

  // ---------- The shape of the tree ----------

  datatype Shape = Leaf(chunk: nat) | Parent(left: Shape, right: Shape)

  /** Largest power of two below `n`. */
  function LeftSize(n: nat): (left: nat)
    requires n >= 2
    ensures left < n <= 2 * left
  {
    if n == 2 then 1 else 2 * LeftSize((n + 1) / 2)
  }

  /** The left-balanced tree over chunks `start .. start + n`. */
  function LeftBalanced(start: nat, n: nat): Shape
    requires n >= 1
    decreases n
  {
    if n == 1 then Leaf(start)
    else Parent(LeftBalanced(start, LeftSize(n)), LeftBalanced(start + LeftSize(n), n - LeftSize(n)))
  }

  predicate Power(size: nat) {
    size == 1 || (size > 0 && size % 2 == 0 && Power(size / 2))
  }

  /** The left subtree has the one power of two that is below `n` and at least half of it. */
  lemma {:induction false} LeftSizeIsPower(n: nat, half: nat)
    requires n >= 2
    ensures Power(LeftSize(n))
    ensures LeftSize(n) == half <==> Power(half) && half < n <= 2 * half
    decreases n
  {
    if n > 2 {
      LeftSizeIsPower((n + 1) / 2, half / 2);
    }
  }

  lemma DoublePower(size: nat, n: nat)
    requires Power(size) && n == size + size
    ensures Power(n)
  {
    assert n / 2 == size && n % 2 == 0;
  }

  /** A complete subtree followed by a no larger one is split exactly between them. */
  lemma JoinShapes(start: nat, size: nat, r: nat)
    requires Power(size) && 1 <= r <= size
    ensures LeftBalanced(start, size + r) == Parent(LeftBalanced(start, size), LeftBalanced(start + size, r))
  {
    LeftSizeIsPower(size + r, size);
  }

  /** Chunks covered by `m` groups of `size`, counted by the binary digits of `m`. */
  function Span(size: nat, m: nat): nat
    decreases m
  {
    if m == 0 then 0 else Span(2 * size, m / 2) + (if m % 2 == 1 then size else 0)
  }

  lemma {:induction false} SpanIsProduct(size: nat, m: nat)
    ensures Span(size, m) == m * size
    decreases m
  {
    if m > 0 {
      SpanIsProduct(2 * size, m / 2);
      assert (m / 2) * (2 * size) == (m - m % 2) * size;
    }
  }

  /** The complete subtrees covering the first `m` groups of `size` chunks, oldest first. */
  function Finished(size: nat, m: nat): seq<Shape>
    requires size >= 1
    decreases m
  {
    if m == 0 then []
    else if m % 2 == 0 then Finished(2 * size, m / 2)
    else Finished(2 * size, m / 2) + [LeftBalanced(Span(2 * size, m / 2), size)]
  }

  function PopCount(n: nat): nat {
    if n == 0 then 0 else n % 2 + PopCount(n / 2)
  }

  /** One finished subtree per set bit of the finished chunk count. */
  lemma {:induction false} OnePerSetBit(size: nat, m: nat)
    requires size >= 1
    ensures |Finished(size, m)| == PopCount(m)
    decreases m
  {
    if m > 0 {
      OnePerSetBit(2 * size, m / 2);
    }
  }

  /** Joins a tree with the finished ones, newest first. */
  function FoldShapes(stack: seq<Shape>, edge: Shape): Shape {
    if stack == [] then edge
    else FoldShapes(stack[..|stack| - 1], Parent(stack[|stack| - 1], edge))
  }

  lemma FoldNewest(older: seq<Shape>, newest: Shape, edge: Shape)
    ensures FoldShapes(older + [newest], edge) == FoldShapes(older, Parent(newest, edge))
  {
    assert (older + [newest])[..|older|] == older;
  }

  /**
   Folding the right edge into the finished subtrees gives the whole left-balanced tree: with `m`
   groups of `size` chunks finished and `1 <= r <= size` chunks after them, the fold is the tree
   over all the chunks.
   */
  lemma {:induction false} FoldIsLeftBalanced(size: nat, m: nat, r: nat, edge: Shape, start: nat, total: nat)
    requires Power(size) && 1 <= r <= size && start == Span(size, m) && total == start + r
    requires edge == LeftBalanced(start, r)
    ensures FoldShapes(Finished(size, m), edge) == LeftBalanced(0, total)
    decreases m
  {
    if m == 0 {
      NothingFinished(size, m, edge);
    } else if m % 2 == 0 {
      SpanEven(size, m);
      FoldIsLeftBalanced(2 * size, m / 2, r, edge, start, total);
    } else {
      var before := Span(2 * size, m / 2);
      var wider := Parent(LeftBalanced(before, size), edge);
      JoinEdge(size, r, edge, before, start, wider);
      FoldOdd(size, m, edge, before, wider);
      FoldIsLeftBalanced(2 * size, m / 2, size + r, wider, before, total);
    }
  }

  lemma NothingFinished(size: nat, m: nat, edge: Shape)
    requires size > 0 && m == 0
    ensures Span(size, m) == 0 && FoldShapes(Finished(size, m), edge) == edge
  {
  }

  lemma SpanEven(size: nat, m: nat)
    requires Power(size) && m > 0 && m % 2 == 0
    ensures Span(size, m) == Span(2 * size, m / 2) && Finished(size, m) == Finished(2 * size, m / 2)
    ensures Power(2 * size)
  {
    DoublePower(size, 2 * size);
  }

  /** The newest subtree joined to the right edge. */
  lemma JoinEdge(size: nat, r: nat, edge: Shape, before: nat, start: nat, wider: Shape)
    requires Power(size) && 1 <= r <= size && start == before + size && edge == LeftBalanced(start, r)
    requires wider == Parent(LeftBalanced(before, size), edge)
    ensures Power(2 * size) && wider == LeftBalanced(before, size + r)
  {
    DoublePower(size, 2 * size);
    JoinShapes(before, size, r);
  }

  lemma FoldOdd(size: nat, m: nat, edge: Shape, before: nat, wider: Shape)
    requires size > 0 && m % 2 == 1 && before == Span(2 * size, m / 2)
    requires wider == Parent(LeftBalanced(before, size), edge)
    ensures FoldShapes(Finished(size, m), edge) == FoldShapes(Finished(2 * size, m / 2), wider)
  {
    FoldNewest(Finished(2 * size, m / 2), LeftBalanced(before, size), edge);
  }

  // ---------- Hashing a shape ----------

  /** The output of the node of a shape, over the chunks of an input. */
  function Hash(c: Compress, input: seq<Byte>, shape: Shape): Output {
    match shape
    case Leaf(i) => ChunkOutput(c, Chunk(input, i), i)
    case Parent(left, right) =>
      ParentOutput(ChainingValue(c, Hash(c, input, left)), ChainingValue(c, Hash(c, input, right)))
  }

  function Cvs(c: Compress, input: seq<Byte>, shapes: seq<Shape>): (cvs: seq<Cv>)
    ensures |cvs| == |shapes|
  {
    seq(|shapes|, i requires 0 <= i < |shapes| => ChainingValue(c, Hash(c, input, shapes[i])))
  }

  /** The BLAKE3 digest of an input: ROOT is set on the topmost node and nowhere else. */
  function Blake3(c: Compress, input: seq<Byte>): (digest: seq<Byte>)
    ensures |digest| == 32
  {
    RootHash(c, Hash(c, input, LeftBalanced(0, ChunkCount(|input|))))
  }

  /** Merges a node with a stack of chaining values, newest subtree first. */
  function Fold(c: Compress, stack: seq<Cv>, output: Output): Output {
    if stack == [] then output
    else Fold(c, stack[..|stack| - 1], ParentOutput(stack[|stack| - 1], ChainingValue(c, output)))
  }

  lemma {:induction false} FoldHashes(c: Compress, input: seq<Byte>, stack: seq<Shape>, edge: Shape)
    ensures Fold(c, Cvs(c, input, stack), Hash(c, input, edge)) == Hash(c, input, FoldShapes(stack, edge))
    decreases |stack|
  {
    if stack != [] {
      var older, newest := stack[..|stack| - 1], stack[|stack| - 1];
      assert Cvs(c, input, stack)[..|older|] == Cvs(c, input, older);
      FoldHashes(c, input, older, Parent(newest, edge));
    }
  }

  /** Every chunk of a shape lies below `end`. */
  predicate Below(shape: Shape, end: nat) {
    match shape
    case Leaf(i) => i < end
    case Parent(left, right) => Below(left, end) && Below(right, end)
  }

  lemma {:induction false} LeftBalancedBelow(start: nat, n: nat, end: nat)
    requires n >= 1 && start + n <= end
    ensures Below(LeftBalanced(start, n), end)
    decreases n
  {
    if n > 1 {
      LeftBalancedBelow(start, LeftSize(n), end);
      LeftBalancedBelow(start + LeftSize(n), n - LeftSize(n), end);
    }
  }

  lemma {:induction false} FinishedBelow(size: nat, m: nat, end: nat)
    requires size >= 1 && Span(size, m) <= end
    ensures forall i :: 0 <= i < |Finished(size, m)| ==> Below(Finished(size, m)[i], end)
    decreases m
  {
    if m > 0 {
      FinishedBelow(2 * size, m / 2, end);
      if m % 2 == 1 {
        LeftBalancedBelow(Span(2 * size, m / 2), size, end);
      }
    }
  }

  /** Hashes of finished subtrees do not change as the input grows. */
  lemma {:induction false} HashOfPrefix(c: Compress, input: seq<Byte>, more: seq<Byte>, shape: Shape, end: nat)
    requires Below(shape, end) && 1024 * end <= |input|
    ensures Hash(c, input + more, shape) == Hash(c, input, shape)
  {
    match shape
    case Leaf(i) =>
      assert Chunk(input + more, i) == Chunk(input, i);
    case Parent(left, right) =>
      HashOfPrefix(c, input, more, left, end);
      HashOfPrefix(c, input, more, right, end);
  }

  lemma FinishedCvsOfPrefix(c: Compress, input: seq<Byte>, more: seq<Byte>, m: nat)
    requires 1024 * m <= |input|
    ensures Cvs(c, input + more, Finished(1, m)) == Cvs(c, input, Finished(1, m))
  {
    var shapes := Finished(1, m);
    SpanIsProduct(1, m);
    FinishedBelow(1, m, m);
    forall i | 0 <= i < |shapes| ensures Hash(c, input + more, shapes[i]) == Hash(c, input, shapes[i]) {
      HashOfPrefix(c, input, more, shapes[i], m);
    }
  }
}
