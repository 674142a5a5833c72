/**
 The streaming hasher: a chunk buffer that compresses lazily, and a stack of finished subtrees
 merged by the trailing zero bits of the chunk count. Whatever way the input is cut into
 updates, the digest is the one of the recursive tree.
 */
module Blake3Hasher {
  import opened Bytes
  import opened Blake3Tree

  /** The chunk being absorbed. */
  class ChunkState {
    const c: Compress
    const chunkCounter: nat
    var chainingValue: Cv
    var block: array<Byte>
    var blockLen: nat
    var blocksCompressed: nat
    ghost var data: seq<Byte>  // the bytes absorbed by this chunk

    /** The buffer holds what follows the compressed blocks, zero padded. */
    ghost predicate Consistent()
      reads this, block
    {
      && block.Length == 64 && blockLen <= 64
      && |data| == 64 * blocksCompressed + blockLen
      && block[..] == Pad(data[64 * blocksCompressed..])
      && chainingValue == ChunkCv(c, data, chunkCounter, blocksCompressed)
    }

    /** Between updates a full last block stays in the buffer, so it can still be the chunk's last. */
    ghost predicate Valid()
      reads this, block
    {
      Consistent() && |data| <= 1024 && blocksCompressed == Before(|data|, 64)
    }

    constructor (c: Compress, chunkCounter: nat)
      ensures Valid() && fresh(block)
      ensures this.c == c && this.chunkCounter == chunkCounter && data == []
    {
      this.c := c;
      this.chunkCounter := chunkCounter;
      chainingValue := IV;
      block := new Byte[64](_ => 0);
      blockLen := 0;
      blocksCompressed := 0;
      data := [];
    }

    function Len(): (len: nat)
      requires Valid()
      reads this, block
      ensures len == |data|
    {
      64 * blocksCompressed + blockLen
    }

    method Update(input: seq<Byte>)
      requires Valid() && |data| + |input| <= 1024
      modifies this, block
      ensures Valid() && data == old(data) + input
      ensures block == old(block) || fresh(block)
    {
      var rest := input;
      while rest != []
        invariant Valid() && data + rest == old(data) + input
        invariant block == old(block) || fresh(block)
        decreases |rest|
      {
        if blockLen == 64 {
          CompressBlock();
        }
        var want := 64 - blockLen;
        var take := if want < |rest| then want else |rest|;
        assert data + rest == (data + rest[..take]) + rest[take..];
        Buffer(rest[..take]);
        rest := rest[take..];
      }
      assert data + [] == data;
    }

    /** The block buffer is full: compress it into the chaining value. */
    method CompressBlock()
      requires Consistent() && blockLen == 64
      modifies this
      ensures Consistent() && blockLen == 0 && data == old(data)
      ensures fresh(block)
    {
      assert block[..] == data[64 * blocksCompressed..64 * blocksCompressed + 64];
      chainingValue := c(chainingValue, WordsFromBytes(block[..]), chunkCounter, 64, StartFlag(blocksCompressed)).low;
      blocksCompressed := blocksCompressed + 1;
      block := new Byte[64](_ => 0);
      blockLen := 0;
    }

    /** Copies bytes that fit into the block buffer. */
    method Buffer(piece: seq<Byte>)
      requires Consistent() && piece != [] && blockLen + |piece| <= 64 && |data| + |piece| <= 1024
      modifies this`blockLen, this`data, block
      ensures Valid() && data == old(data) + piece
    {
      ghost var done := 64 * blocksCompressed;
      ChunkCvOfPrefix(c, data, piece, chunkCounter, blocksCompressed);
      forall i | 0 <= i < |piece| {
        block[blockLen + i] := piece[i];
      }
      assert block[..] == Pad(data[done..] + piece) by {
        assert forall i :: 0 <= i < blockLen ==> block[i] == old(block[..])[i];
        assert forall i :: blockLen <= i < blockLen + |piece| ==> block[i] == piece[i - blockLen];
        assert forall i :: blockLen + |piece| <= i < 64 ==> block[i] == old(block[..])[i];
      }
      assert (data + piece)[done..] == data[done..] + piece;
      blockLen := blockLen + |piece|;
      data := data + piece;
    }

    method ToOutput() returns (o: Output)
      requires Valid()
      ensures o == ChunkOutput(c, data, chunkCounter)
    {
      o := Output(chainingValue, WordsFromBytes(block[..]), chunkCounter, blockLen,
                  StartFlag(blocksCompressed) | CHUNK_END);
    }
  }

  lemma {:induction false} ChunkCvOfPrefix(c: Compress, data: seq<Byte>, more: seq<Byte>, counter: nat, k: nat)
    requires 64 * k <= |data|
    ensures ChunkCv(c, data + more, counter, k) == ChunkCv(c, data, counter, k)
  {
    if k > 0 {
      ChunkCvOfPrefix(c, data, more, counter, k - 1);
      assert (data + more)[64 * (k - 1)..64 * k] == data[64 * (k - 1)..64 * k];
    }
  }

  class Hasher {
    const c: Compress
    var chunkState: ChunkState
    var cvStack: seq<Cv>
    ghost var absorbed: seq<Byte>  // everything passed to update

    ghost predicate Valid()
      reads this, chunkState, chunkState.block
    {
      var done := chunkState.chunkCounter;
      && chunkState.Valid() && chunkState.c == c
      && done == Before(|absorbed|, 1024)
      && chunkState.data == absorbed[1024 * done..]
      && cvStack == Cvs(c, absorbed, Finished(1, done))
    }

    constructor (c: Compress)
      ensures Valid() && fresh(chunkState) && fresh(chunkState.block)
      ensures this.c == c && absorbed == []
    {
      this.c := c;
      chunkState := new ChunkState(c, 0);
      cvStack := [];
      absorbed := [];
    }

    /** Absorbs input; the chunk counter is a `u64`. */
    method Update(input: seq<Byte>)
      requires Valid() && |absorbed| + |input| <= 1024 * U64_LIMIT
      modifies this, chunkState, chunkState.block
      ensures Valid() && absorbed == old(absorbed) + input
      ensures chunkState == old(chunkState) || fresh(chunkState)
      ensures chunkState.block == old(chunkState.block) || fresh(chunkState.block)
    {
      var rest := input;
      while rest != []
        invariant Valid() && absorbed + rest == old(absorbed) + input
        invariant chunkState == old(chunkState) || fresh(chunkState)
        invariant chunkState.block == old(chunkState.block) || fresh(chunkState.block)
        decreases |rest|
      {
        var full := chunkState.Len() == 1024;
        var want := if full then 1024 else 1024 - chunkState.Len();
        var take := if want < |rest| then want else |rest|;
        assert absorbed + rest == (absorbed + rest[..take]) + rest[take..];
        if full {
          NextChunk(rest[..take]);
        } else {
          ExtendChunk(rest[..take]);
        }
        rest := rest[take..];
      }
      assert absorbed + [] == absorbed;
    }

    /** More bytes of the current chunk. */
    method ExtendChunk(piece: seq<Byte>)
      requires Valid() && piece != [] && |chunkState.data| + |piece| <= 1024
      modifies this`absorbed, chunkState, chunkState.block
      ensures Valid() && absorbed == old(absorbed) + piece
      ensures chunkState.block == old(chunkState.block) || fresh(chunkState.block)
    {
      ghost var done := chunkState.chunkCounter;
      FinishedCvsOfPrefix(c, absorbed, piece, done);
      assert (absorbed + piece)[1024 * done..] == absorbed[1024 * done..] + piece;
      chunkState.Update(piece);
      absorbed := absorbed + piece;
    }

    /** The current chunk is full and more bytes follow: merge it into the tree, start the next. */
    method NextChunk(piece: seq<Byte>)
      requires Valid() && 0 < |piece| <= 1024 && |chunkState.data| == 1024
      modifies this
      ensures Valid() && absorbed == old(absorbed) + piece
      ensures fresh(chunkState) && fresh(chunkState.block)
    {
      var output := chunkState.ToOutput();
      var chunkCv := ChainingValue(c, output);
      var totalChunks := chunkState.chunkCounter + 1;
      assert Chunk(absorbed, totalChunks - 1) == absorbed[1024 * (totalChunks - 1)..];
      AddChunkChainingValue(chunkCv, totalChunks);
      FinishedCvsOfPrefix(c, absorbed, piece, totalChunks);
      chunkState := new ChunkState(c, totalChunks);
      chunkState.Update(piece);
      assert (absorbed + piece)[1024 * totalChunks..] == piece;
      assert [] + piece == piece;
      absorbed := absorbed + piece;
    }

    /** Merges a finished chunk into the stack, once per trailing zero of the chunk count. */
    method AddChunkChainingValue(cv: Cv, totalChunks: nat)
      requires totalChunks > 0
      requires cvStack == Cvs(c, absorbed, Finished(1, totalChunks - 1))
      requires cv == ChainingValue(c, Hash(c, absorbed, Leaf(totalChunks - 1)))
      modifies this`cvStack
      ensures cvStack == Cvs(c, absorbed, Finished(1, totalChunks))
    {
      var newCv, total := cv, totalChunks;
      ghost var size: nat, pending, joined := 1, Finished(1, totalChunks - 1), Leaf(totalChunks - 1);
      SpanIsProduct(1, totalChunks - 1);
      while total % 2 == 0
        invariant total > 0 && Pending(size, total, pending, joined)
        invariant cvStack == Cvs(c, absorbed, pending)
        invariant newCv == ChainingValue(c, Hash(c, absorbed, joined))
        invariant Finished(size, total) == Finished(1, totalChunks)
        decreases total
      {
        MergeShapes(size, total, pending, joined);
        CvsSplit(c, absorbed, pending);
        var left := cvStack[|cvStack| - 1];
        cvStack := cvStack[..|cvStack| - 1];
        newCv := ChainingValue(c, ParentOutput(left, newCv));
        size, pending, joined := 2 * size, pending[..|pending| - 1], Parent(pending[|pending| - 1], joined);
        total := total / 2;
      }
      PushShape(size, total, pending, joined);
      CvsAppend(c, absorbed, pending, joined);
      cvStack := cvStack + [newCv];
    }

    method Finalize() returns (digest: seq<Byte>)
      requires Valid()
      ensures digest == Blake3(c, absorbed)
    {
      var output := chunkState.ToOutput();
      ghost var done := chunkState.chunkCounter;
      ghost var edge := output;
      var remaining := |cvStack|;
      assert cvStack[..remaining] == cvStack;
      while remaining > 0
        invariant remaining <= |cvStack|
        invariant Fold(c, cvStack[..remaining], output) == Fold(c, cvStack, edge)
      {
        remaining := remaining - 1;
        assert cvStack[..remaining + 1][..remaining] == cvStack[..remaining];
        output := ParentOutput(cvStack[remaining], ChainingValue(c, output));
      }
      assert Chunk(absorbed, done) == absorbed[1024 * done..];
      FoldHashes(c, absorbed, Finished(1, done), Leaf(done));
      SpanIsProduct(1, done);
      FoldIsLeftBalanced(1, done, 1, Leaf(done), done, done + 1);
      digest := RootHash(c, output);
    }
  }

  /** Between updates the stack holds one chaining value per set bit of the finished chunk count. */
  lemma OneCvPerSetBit(hasher: Hasher)
    requires hasher.Valid()
    ensures |hasher.cvStack| == PopCount(hasher.chunkState.chunkCounter)
  {
    OnePerSetBit(1, hasher.chunkState.chunkCounter);
  }

  /** The subtrees on the stack, and the one about to join them, with `total` groups in all. */
  ghost predicate Pending(size: nat, total: nat, pending: seq<Shape>, joined: Shape) {
    && Power(size) && total > 0
    && pending == Finished(size, total - 1)
    && joined == LeftBalanced(Span(size, total - 1), size)
  }

  /** Popping: an even count means the newest subtree is as large as the one being added. */
  lemma MergeShapes(size: nat, total: nat, pending: seq<Shape>, joined: Shape)
    requires Pending(size, total, pending, joined) && total % 2 == 0
    ensures pending != []
    ensures Pending(2 * size, total / 2, pending[..|pending| - 1], Parent(pending[|pending| - 1], joined))
    ensures Finished(size, total) == Finished(2 * size, total / 2)
  {
    MergePair(size, 2 * size, total / 2 - 1, total, pending, joined);
  }

  lemma MergePair(size: nat, double: nat, k: nat, total: nat, pending: seq<Shape>, joined: Shape)
    requires Pending(size, total, pending, joined) && total == 2 * k + 2 && double == 2 * size
    ensures pending != []
    ensures Pending(double, k + 1, pending[..|pending| - 1], Parent(pending[|pending| - 1], joined))
    ensures Finished(size, total) == Finished(double, k + 1)
  {
    var start: nat := Span(double, k);
    var older, newest := Finished(double, k), LeftBalanced(start, size);
    OddGroups(size, double, k, total - 1);
    SplitLast(pending, older, newest);
    JoinPair(size, double, start);
    assert pending[..|pending| - 1] == older && Parent(pending[|pending| - 1], joined) == LeftBalanced(start, double);
    EvenGroups(size, double, k + 1, total);
  }

  lemma JoinPair(size: nat, double: nat, start: nat)
    requires Power(size) && double == 2 * size
    ensures Power(double)
    ensures LeftBalanced(start, double) == Parent(LeftBalanced(start, size), LeftBalanced(start + size, size))
  {
    DoublePower(size, double);
    JoinShapes(start, size, size);
  }

  lemma EvenGroups(size: nat, double: nat, k: nat, m: nat)
    requires size >= 1 && double == 2 * size && m == 2 * k
    ensures Finished(size, m) == Finished(double, k)
  {
  }

  lemma SplitLast<T>(all: seq<T>, older: seq<T>, newest: T)
    requires all == older + [newest]
    ensures all != [] && all[..|all| - 1] == older && all[|all| - 1] == newest
  {
  }

  lemma OddGroups(size: nat, double: nat, k: nat, m: nat)
    requires size >= 1 && double == 2 * size && m == 2 * k + 1
    ensures Finished(size, m) == Finished(double, k) + [LeftBalanced(Span(double, k), size)]
    ensures Span(size, m) == Span(double, k) + size
  {
    assert m / 2 == k && m % 2 == 1;
  }

  /** Pushing: an odd count means no subtree of this size is pending. */
  lemma PushShape(size: nat, total: nat, pending: seq<Shape>, joined: Shape)
    requires Pending(size, total, pending, joined) && total % 2 == 1
    ensures Finished(size, total) == pending + [joined]
  {
    assert (total - 1) / 2 == total / 2;
  }

  lemma CvsAppend(c: Compress, input: seq<Byte>, older: seq<Shape>, newest: Shape)
    ensures Cvs(c, input, older + [newest]) == Cvs(c, input, older) + [ChainingValue(c, Hash(c, input, newest))]
  {
  }

  lemma CvsSplit(c: Compress, input: seq<Byte>, shapes: seq<Shape>)
    requires shapes != []
    ensures var cvs, last := Cvs(c, input, shapes), |shapes| - 1;
      && cvs[..last] == Cvs(c, input, shapes[..last])
      && cvs[last] == ChainingValue(c, Hash(c, input, shapes[last]))
  {
  }

  /** One-shot digest. */
  method Blake3Digest(c: Compress, input: seq<Byte>) returns (digest: seq<Byte>)
    requires |input| < U63_LIMIT
    ensures digest == Blake3(c, input)
  {
    var hasher := new Hasher(c);
    hasher.Update(input);
    assert [] + input == input;
    digest := hasher.Finalize();
  }
}
