/**
 The digest once more, as sections 2.1 to 2.5 of the BLAKE3 specification describe it: by recursion
 over the bytes, with the flags of every call written out. The tree of chunks computes the same, sets
 ROOT on its last call, and on no other.
 */
module Blake3Reference {
  import opened Bytes
  import opened Blake3Tree

  // ---------- The reference ----------

  /** Byte `i` of a block padded with zeros. */
  function Padded(block: seq<Byte>, i: nat): Byte {
    if i < |block| then block[i] else 0
  }

  function WordOf(block: seq<Byte>, i: nat): Word {
    Padded(block, 4 * i) + 0x100 * Padded(block, 4 * i + 1)
    + 0x1_0000 * Padded(block, 4 * i + 2) + 0x100_0000 * Padded(block, 4 * i + 3)
  }

  function WordsOf(block: seq<Byte>): Words {
    Words(Cv(seq(8, i requires 0 <= i < 8 => WordOf(block, i))),
          Cv(seq(8, i requires 0 <= i < 8 => WordOf(block, i + 8))))
  }

  /** Flag 8 is ROOT. */
  function Flag(root: bool): bv32 {
    if root then 8 else 0
  }

  /** A chunk from its front: the first block carries flag 1, the last flag 2. */
  function ChunkCall(c: Compress, cv: Cv, data: seq<Byte>, counter: nat, first: bv32, root: bool): Words
    decreases |data|
  {
    if |data| <= 64 then c(cv, WordsOf(data), counter, |data|, first | 2 | Flag(root))
    else ChunkCall(c, c(cv, WordsOf(data[..64]), counter, 64, first).low, data[64..], counter, 0, root)
  }

  /** The largest `unit * 2^k` below `len`. */
  function LeftLength(unit: nat, len: nat): (left: nat)
    requires 0 < unit < len
    ensures unit <= left < len <= 2 * left
    decreases len - unit
  {
    if len <= 2 * unit then unit else LeftLength(2 * unit, len)
  }

  /** The last call for the bytes from `lo` to `hi`; parents carry flag 4, length 64 and counter 0. */
  function NodeCall(c: Compress, input: seq<Byte>, lo: nat, hi: nat, root: bool): Words
    requires lo <= hi <= |input|
    decreases hi - lo
  {
    if hi - lo <= 1024 then ChunkCall(c, IV, input[lo..hi], lo / 1024, 1, root)
    else
      var middle := lo + LeftLength(1024, hi - lo);
      c(IV, Words(NodeCall(c, input, lo, middle, false).low, NodeCall(c, input, middle, hi, false).low), 0, 64,
        4 | Flag(root))
  }

  // ---------- Chunks ----------

  lemma PaddedAt(block: seq<Byte>, i: nat)
    requires |block| <= 64 && i < 64
    ensures Pad(block)[i] == Padded(block, i)
  {
  }

  lemma QuadValue(a: Byte, b: Byte, c: Byte, d: Byte)
    ensures LeValue([a, b, c, d]) == a + 0x100 * b + 0x1_0000 * c + 0x100_0000 * d
  {
    assert [a, b, c, d][1..] == [b, c, d] && [b, c, d][1..] == [c, d] && [c, d][1..] == [d] && [d][1..] == [];
    assert LeValue([d]) == d;
    assert LeValue([c, d]) == c + 0x100 * d;
    assert LeValue([b, c, d]) == b + 0x100 * c + 0x1_0000 * d;
  }

  lemma WordIsWordOf(block: seq<Byte>, i: nat)
    requires |block| <= 64 && i < 16
    ensures WordAt(Pad(block), i) == WordOf(block, i)
  {
    var p := Pad(block);
    assert p[4 * i..4 * i + 4] == [p[4 * i], p[4 * i + 1], p[4 * i + 2], p[4 * i + 3]];
    QuadValue(p[4 * i], p[4 * i + 1], p[4 * i + 2], p[4 * i + 3]);
    PaddedAt(block, 4 * i);
    PaddedAt(block, 4 * i + 1);
    PaddedAt(block, 4 * i + 2);
    PaddedAt(block, 4 * i + 3);
  }

  lemma WordsAreWordsOf(block: seq<Byte>)
    requires |block| <= 64
    ensures WordsFromBytes(Pad(block)) == WordsOf(block)
  {
    var a, b := WordsFromBytes(Pad(block)), WordsOf(block);
    forall i | 0 <= i < 8 ensures a.low.words[i] == b.low.words[i] && a.high.words[i] == b.high.words[i] {
      WordIsWordOf(block, i);
      WordIsWordOf(block, i + 8);
    }
    assert a.low.words == b.low.words && a.high.words == b.high.words;
  }

  /** The call a node ends in, with further flags. */
  function LastCall(c: Compress, o: Output, root: bool): Words {
    c(o.inputCv, o.words, o.counter, o.blockLen, o.flags | Flag(root))
  }

  lemma WithoutFlags(c: Compress, o: Output)
    ensures LastCall(c, o, false).low == ChainingValue(c, o)
  {
    assert o.flags | 0 == o.flags;
  }

  /** From block `k` of a chunk on, the calls are those of the front-to-back recursion. */
  lemma {:induction false} ChunkFrom(c: Compress, data: seq<Byte>, counter: nat, root: bool, k: nat, rest: seq<Byte>)
    requires k <= Before(|data|, 64) && 64 * k <= |data| && rest == data[64 * k..]
    ensures SameChunk(c, data, counter, root, k, rest)
    decreases Before(|data|, 64) - k
  {
    if k == Before(|data|, 64) {
      WordsAreWordsOf(rest);
      LastBlock(c, ChunkCv(c, data, counter, k), rest, counter, StartFlag(k), root);
    } else {
      var block, tail := data[64 * k..64 * (k + 1)], data[64 * (k + 1)..];
      assert rest[..64] == block && rest[64..] == tail;
      ChunkFrom(c, data, counter, root, k + 1, tail);
      OneBlock(c, data, counter, root, k, rest, block, tail);
    }
  }

  predicate SameChunk(c: Compress, data: seq<Byte>, counter: nat, root: bool, k: nat, rest: seq<Byte>)
    requires 64 * k <= |data|
  {
    ChunkCall(c, ChunkCv(c, data, counter, k), rest, counter, StartFlag(k), root)
    == LastCall(c, ChunkOutput(c, data, counter), root)
  }

  lemma OneBlock(c: Compress, data: seq<Byte>, counter: nat, root: bool, k: nat, rest: seq<Byte>, block: seq<Byte>,
                 tail: seq<Byte>)
    requires 64 * (k + 1) <= |data| && |rest| > 64 && block == data[64 * k..64 * (k + 1)]
    requires block == rest[..64] && tail == rest[64..] && SameChunk(c, data, counter, root, k + 1, tail)
    ensures SameChunk(c, data, counter, root, k, rest)
  {
    NextCv(c, data, counter, k, block);
    BlockStep(c, ChunkCv(c, data, counter, k), rest, block, tail, counter, StartFlag(k), root);
  }

  lemma LastBlock(c: Compress, cv: Cv, rest: seq<Byte>, counter: nat, first: bv32, root: bool)
    requires |rest| <= 64
    ensures ChunkCall(c, cv, rest, counter, first, root)
         == c(cv, WordsOf(rest), counter, |rest|, (first | 2) | Flag(root))
  {
  }

  lemma BlockStep(c: Compress, cv: Cv, rest: seq<Byte>, block: seq<Byte>, tail: seq<Byte>, counter: nat, first: bv32,
                  root: bool)
    requires |rest| > 64 && block == rest[..64] && tail == rest[64..]
    ensures ChunkCall(c, cv, rest, counter, first, root)
         == ChunkCall(c, c(cv, WordsOf(block), counter, 64, first).low, tail, counter, 0, root)
  {
  }

  lemma NextCv(c: Compress, data: seq<Byte>, counter: nat, k: nat, block: seq<Byte>)
    requires 64 * (k + 1) <= |data| && block == data[64 * k..64 * (k + 1)]
    ensures ChunkCv(c, data, counter, k + 1)
         == c(ChunkCv(c, data, counter, k), WordsOf(block), counter, 64, StartFlag(k)).low
  {
    FullBlock(block);
  }

  lemma FullBlock(block: seq<Byte>)
    requires |block| == 64
    ensures WordsFromBytes(block) == WordsOf(block)
  {
    assert Pad(block) == block;
    WordsAreWordsOf(block);
  }

  lemma ChunkCalls(c: Compress, data: seq<Byte>, counter: nat, root: bool)
    ensures ChunkCall(c, IV, data, counter, 1, root) == LastCall(c, ChunkOutput(c, data, counter), root)
  {
    assert data[0..] == data;
    ChunkFrom(c, data, counter, root, 0, data);
  }

  // ---------- The tree ----------

  /** Doubling from a power of two up gives the left size, in chunks. */
  lemma {:induction false} LeftLengthIs(size: nat, len: nat, n: nat)
    requires Power(size) && 1024 * size < len && 1024 * (n - 1) < len <= 1024 * n && n >= 2
    ensures LeftLength(1024 * size, len) == 1024 * LeftSize(n)
    decreases len - 1024 * size
  {
    if len <= 2 * (1024 * size) {
      LeftSizeIsPower(n, size);
    } else {
      DoublePower(size, 2 * size);
      LeftLengthIs(2 * size, len, n);
    }
  }

  /** Chunks `start .. start + n` of an input of `len` bytes, the last of which may be short. */
  predicate Covers(len: nat, start: nat, n: nat, lo: nat, hi: nat) {
    && n >= 1 && lo == 1024 * start <= hi <= len && (n >= 2 ==> 1024 * (n - 1) < hi - lo)
    && hi == Clip(lo + 1024 * n, len)
  }

  /** The tree over any outputs of chunks, and the reference over any calls for chunks. */
  function TreeWith(c: Compress, leaf: nat -> Output, shape: Shape): Output {
    match shape
    case Leaf(i) => leaf(i)
    case Parent(left, right) =>
      ParentOutput(ChainingValue(c, TreeWith(c, leaf, left)), ChainingValue(c, TreeWith(c, leaf, right)))
  }

  function NodeWith(c: Compress, chunk: (nat, nat, bool) -> Words, lo: nat, hi: nat, root: bool): Words
    requires lo <= hi
    decreases hi - lo
  {
    if hi - lo <= 1024 then chunk(lo, hi, root)
    else
      var middle := lo + LeftLength(1024, hi - lo);
      c(IV, Words(NodeWith(c, chunk, lo, middle, false).low, NodeWith(c, chunk, middle, hi, false).low), 0, 64,
        4 | Flag(root))
  }

  ghost predicate SameChunks(c: Compress, leaf: nat -> Output, chunk: (nat, nat, bool) -> Words, len: nat) {
    forall start: nat, lo: nat, hi: nat, root: bool ::
      Covers(len, start, 1, lo, hi) ==> chunk(lo, hi, root) == LastCall(c, leaf(start), root)
  }

  /** Where the reference splits a range of an input of `len` bytes, the shape has a parent. */
  predicate Fits(shape: Shape, len: nat, lo: nat, hi: nat) {
    match shape
    case Leaf(i) => Covers(len, i, 1, lo, hi)
    case Parent(left, right) =>
      && lo + 1024 < hi
      && var middle := lo + LeftLength(1024, hi - lo);
         Fits(left, len, lo, middle) && Fits(right, len, middle, hi)
  }

  /** The left-balanced tree fits the chunks it is over. */
  lemma {:induction false} BalancedFits(len: nat, start: nat, n: nat, lo: nat, hi: nat)
    requires Covers(len, start, n, lo, hi)
    ensures Fits(LeftBalanced(start, n), len, lo, hi)
    decreases n
  {
    if n >= 2 {
      var half := LeftSize(n);
      LeftLengthIs(1, hi - lo, n);
      BalancedFits(len, start, half, lo, lo + 1024 * half);
      BalancedFits(len, start + half, n - half, lo + 1024 * half, hi);
    }
  }

  /** Where the chunks agree, so do all nodes. */
  lemma {:induction false} SameNodes(c: Compress, leaf: nat -> Output, chunk: (nat, nat, bool) -> Words, len: nat,
                                     shape: Shape, lo: nat, hi: nat, root: bool)
    requires SameChunks(c, leaf, chunk, len) && lo <= hi && Fits(shape, len, lo, hi)
    ensures NodeWith(c, chunk, lo, hi, root) == LastCall(c, TreeWith(c, leaf, shape), root)
  {
    match shape
    case Leaf(i) =>
    case Parent(left, right) =>
      var middle := lo + LeftLength(1024, hi - lo);
      SameNodes(c, leaf, chunk, len, left, lo, middle, false);
      SameNodes(c, leaf, chunk, len, right, middle, hi, false);
      WithoutFlags(c, TreeWith(c, leaf, left));
      WithoutFlags(c, TreeWith(c, leaf, right));
      NodeStep(c, chunk, lo, hi, middle, ChainingValue(c, TreeWith(c, leaf, left)),
               ChainingValue(c, TreeWith(c, leaf, right)), root);
      TreeStep(c, leaf, shape, left, right, root);
  }

  lemma NodeStep(c: Compress, chunk: (nat, nat, bool) -> Words, lo: nat, hi: nat, middle: nat, l: Cv, r: Cv, root: bool)
    requires lo + 1024 < hi && middle == lo + LeftLength(1024, hi - lo)
    requires NodeWith(c, chunk, lo, middle, false).low == l && NodeWith(c, chunk, middle, hi, false).low == r
    ensures NodeWith(c, chunk, lo, hi, root) == c(IV, Words(l, r), 0, 64, 4 | Flag(root))
  {
  }

  lemma TreeStep(c: Compress, leaf: nat -> Output, shape: Shape, left: Shape, right: Shape, root: bool)
    requires shape == Parent(left, right)
    ensures LastCall(c, TreeWith(c, leaf, shape), root)
         == c(IV, Words(ChainingValue(c, TreeWith(c, leaf, left)), ChainingValue(c, TreeWith(c, leaf, right))), 0, 64,
              4 | Flag(root))
  {
  }

  lemma {:induction false} HashIsTree(c: Compress, input: seq<Byte>, leaf: nat -> Output, shape: Shape)
    requires forall i: nat :: leaf(i) == ChunkOutput(c, Chunk(input, i), i)
    ensures Hash(c, input, shape) == TreeWith(c, leaf, shape)
  {
    match shape
    case Leaf(_) =>
    case Parent(left, right) =>
      HashIsTree(c, input, leaf, left);
      HashIsTree(c, input, leaf, right);
  }

  /** The reference's call for a chunk of an input. */
  function InputChunk(c: Compress, input: seq<Byte>): (nat, nat, bool) -> Words {
    (lo: nat, hi: nat, root: bool) =>
      if lo <= hi <= |input| then ChunkCall(c, IV, input[lo..hi], lo / 1024, 1, root) else Words(IV, IV)
  }

  lemma {:induction false} NodeIsWith(c: Compress, input: seq<Byte>, lo: nat, hi: nat, root: bool)
    requires lo <= hi <= |input|
    ensures NodeCall(c, input, lo, hi, root) == NodeWith(c, InputChunk(c, input), lo, hi, root)
    decreases hi - lo
  {
    if hi - lo > 1024 {
      var middle := lo + LeftLength(1024, hi - lo);
      NodeIsWith(c, input, lo, middle, false);
      NodeIsWith(c, input, middle, hi, false);
    }
  }

  lemma InputChunks(c: Compress, input: seq<Byte>, leaf: nat -> Output)
    requires forall i: nat :: leaf(i) == ChunkOutput(c, Chunk(input, i), i)
    ensures SameChunks(c, leaf, InputChunk(c, input), |input|)
  {
    forall start: nat, lo: nat, hi: nat, root: bool | Covers(|input|, start, 1, lo, hi)
      ensures InputChunk(c, input)(lo, hi, root) == LastCall(c, leaf(start), root)
    {
      OneChunk(c, input, start, lo, hi, root);
    }
  }

  lemma OneChunk(c: Compress, input: seq<Byte>, start: nat, lo: nat, hi: nat, root: bool)
    requires Covers(|input|, start, 1, lo, hi)
    ensures InputChunk(c, input)(lo, hi, root) == LastCall(c, ChunkOutput(c, Chunk(input, start), start), root)
  {
    assert Chunk(input, start) == input[lo..hi] && lo / 1024 == start;
    ChunkCalls(c, input[lo..hi], start, root);
  }

  /** The reference's call for the whole input is the last call of the tree. */
  lemma WholeCall(c: Compress, input: seq<Byte>, n: nat, top: Output)
    requires n == ChunkCount(|input|) && top == Hash(c, input, LeftBalanced(0, n))
    ensures NodeCall(c, input, 0, |input|, true) == LastCall(c, top, true)
  {
    WholeTree(c, input, n, (i: nat) => ChunkOutput(c, Chunk(input, i), i));
  }

  lemma WholeTree(c: Compress, input: seq<Byte>, n: nat, leaf: nat -> Output)
    requires n == ChunkCount(|input|) && forall i: nat :: leaf(i) == ChunkOutput(c, Chunk(input, i), i)
    ensures NodeCall(c, input, 0, |input|, true) == LastCall(c, Hash(c, input, LeftBalanced(0, n)), true)
  {
    InputChunks(c, input, leaf);
    BalancedFits(|input|, 0, n, 0, |input|);
    SameNodes(c, leaf, InputChunk(c, input), |input|, LeftBalanced(0, n), 0, |input|, true);
    NodeIsWith(c, input, 0, |input|, true);
    HashIsTree(c, input, leaf, LeftBalanced(0, n));
  }

  /** The digest is the low half of the reference's last call, each word least significant byte first. */
  lemma DigestIsReference(c: Compress, input: seq<Byte>, i: nat)
    requires i < 8
    ensures LeValue(Blake3(c, input)[4 * i..4 * i + 4]) == NodeCall(c, input, 0, |input|, true).low.words[i]
  {
    var n := ChunkCount(|input|);
    WholeCall(c, input, n, Hash(c, input, LeftBalanced(0, n)));
    TopCounter(c, input, n);
    RootWord(c, Hash(c, input, LeftBalanced(0, n)), i);
  }

  lemma RootWord(c: Compress, o: Output, i: nat)
    requires o.counter == 0 && i < 8
    ensures LeValue(RootHash(c, o)[4 * i..4 * i + 4]) == LastCall(c, o, true).low.words[i]
  {
    DigestWord(LastCall(c, o, true).low.words, i);
  }

  lemma TopCounter(c: Compress, input: seq<Byte>, n: nat)
    requires n >= 1
    ensures Hash(c, input, LeftBalanced(0, n)).counter == 0
  {
  }

  lemma {:induction false} DigestWord(words: seq<Word>, i: nat)
    requires i < |words|
    ensures LeValue(DigestBytes(words)[4 * i..4 * i + 4]) == words[i]
    decreases i
  {
    var head, tail := LeBytes(words[0], 4), DigestBytes(words[1..]);
    if i == 0 {
      assert (head + tail)[0..4] == head;
      Pow2Table();
      LeValueOfBytes(words[0], 4);
    } else {
      SliceRight(head, tail, 4 * (i - 1), 4 * (i - 1) + 4);
      DigestWord(words[1..], i - 1);
    }
  }

  // ---------- ROOT at the top and nowhere else ----------

  /** Two compression functions that differ at most on calls with the ROOT flag. */
  ghost predicate AgreeBelowRoot(c: Compress, d: Compress) {
    forall cv: Cv, block: Words, counter: nat, len: nat, flags: bv32 ::
      flags & 8 == 0 ==> c(cv, block, counter, len, flags) == d(cv, block, counter, len, flags)
  }

  lemma {:induction false} ChunkCvsAgree(c: Compress, d: Compress, data: seq<Byte>, counter: nat, k: nat)
    requires AgreeBelowRoot(c, d) && 64 * k <= |data|
    ensures ChunkCv(c, data, counter, k) == ChunkCv(d, data, counter, k)
  {
    if k > 0 {
      ChunkCvsAgree(c, d, data, counter, k - 1);
      assert StartFlag(k - 1) & 8 == 0;
    }
  }

  /** No output below the top, chaining value or stack depends on a call with ROOT. */
  lemma {:induction false} RootNowhereBelow(c: Compress, d: Compress, input: seq<Byte>, shape: Shape)
    requires AgreeBelowRoot(c, d)
    ensures Hash(c, input, shape) == Hash(d, input, shape) && Hash(c, input, shape).flags & 8 == 0
    ensures ChainingValue(c, Hash(c, input, shape)) == ChainingValue(d, Hash(d, input, shape))
  {
    match shape
    case Leaf(i) =>
      ChunkCvsAgree(c, d, Chunk(input, i), i, Before(|Chunk(input, i)|, 64));
    case Parent(left, right) =>
      RootNowhereBelow(c, d, input, left);
      RootNowhereBelow(c, d, input, right);
  }

  lemma StacksAgree(c: Compress, d: Compress, input: seq<Byte>, shapes: seq<Shape>)
    requires AgreeBelowRoot(c, d)
    ensures Cvs(c, input, shapes) == Cvs(d, input, shapes)
  {
    forall i | 0 <= i < |shapes| ensures Cvs(c, input, shapes)[i] == Cvs(d, input, shapes)[i] {
      RootNowhereBelow(c, d, input, shapes[i]);
    }
  }

  /** The digest comes out of a call with ROOT: if all of those give `k`, every digest is the bytes of `k`. */
  lemma RootAtTop(c: Compress, k: Words, input: seq<Byte>, i: nat)
    requires forall cv: Cv, block: Words, counter: nat, len: nat, flags: bv32 ::
               flags & 8 == 8 ==> c(cv, block, counter, len, flags) == k
    requires i < 8
    ensures LeValue(Blake3(c, input)[4 * i..4 * i + 4]) == k.low.words[i]
  {
    DigestIsReference(c, input, i);
    NodeCallFlagged(c, k, input);
  }

  lemma NodeCallFlagged(c: Compress, k: Words, input: seq<Byte>)
    requires forall cv: Cv, block: Words, n: nat, len: nat, flags: bv32 ::
               flags & 8 == 8 ==> c(cv, block, n, len, flags) == k
    ensures NodeCall(c, input, 0, |input|, true) == k
  {
    if |input| <= 1024 {
      ChunkCallFlagged(c, k, IV, input[0..|input|], 0, 1);
    } else {
      assert (4 as bv32 | 8) & 8 == 8;
    }
  }

  lemma {:induction false} ChunkCallFlagged(c: Compress, k: Words, cv: Cv, data: seq<Byte>, counter: nat, first: bv32)
    requires forall cv: Cv, block: Words, n: nat, len: nat, flags: bv32 ::
               flags & 8 == 8 ==> c(cv, block, n, len, flags) == k
    ensures ChunkCall(c, cv, data, counter, first, true) == k
    decreases |data|
  {
    if |data| <= 64 {
      assert (first | 2 | 8) & 8 == 8;
    } else {
      ChunkCallFlagged(c, k, c(cv, WordsOf(data[..64]), counter, 64, first).low, data[64..], counter, 0);
    }
  }
}
