/**
 Building a proof from an archive, and the two directions of the proof system: every proof the
 builder makes verifies and extracts the requested bytes, and every proof that verifies against
 an archive's root carries that archive's own blocks.
 */
module MerkleTheorems {
  import opened Bytes
  import opened MerkleTree
  import opened MerklePlan
  import opened MerkleProofs

  /** The header fields the proof code reads. */
  datatype ArchiveHeader = ArchiveHeader(blockSize: nat, blockCount: nat, payloadLen: nat, root: Digest)

  /** A header and hash section as written for a payload by the archive builder. */
  ghost predicate Archived(h: HashFn, payload: seq<Byte>, header: ArchiveHeader, section: seq<Byte>,
                           levels: seq<seq<Digest>>)
  {
    && 0 < header.blockSize < U32_LIMIT && |payload| < U63_LIMIT
    && ArchiveTree(h, payload, header.blockSize, levels)
    && section == Section(levels)
    && header.blockCount == BlockCount(|payload|, header.blockSize)
    && header.payloadLen == |payload|
    && header.root == Root(h, levels)
  }

  const HEADER_LEN := 128

  predicate PowerOfTwo(n: nat) {
    n == 1 || (n > 0 && n % 2 == 0 && PowerOfTwo(n / 2))
  }

  lemma {:induction false} Pow2IsPowerOfTwo(k: nat)
    ensures PowerOfTwo(Pow2(k))
  {
    if k > 0 {
      Pow2IsPowerOfTwo(k - 1);
    }
  }

  lemma {:induction false} Exponent(n: nat) returns (k: nat)
    requires PowerOfTwo(n)
    ensures n == Pow2(k)
  {
    if n == 1 {
      k := 0;
    } else {
      k := Exponent(n / 2);
      k := k + 1;
    }
  }

  /** The numbers that halving brings down to one are the powers of two. */
  lemma PowerOfTwoIsPower(n: nat)
    ensures PowerOfTwo(n) <==> exists k: nat :: n == Pow2(k)
  {
    if PowerOfTwo(n) {
      var k := Exponent(n);
    } else if k: nat :| n == Pow2(k) {
      Pow2IsPowerOfTwo(k);
    }
  }

  /**
   The tree, header and section an archive is written with: the block size must be a power of two of
   at least 32, and header, payload and section together must fit the file size limit.
   */
  method WriteArchive(h: HashFn, payload: seq<Byte>, blockSize: nat, maxFileSize: nat)
    returns (r: Result<ArchiveHeader>, section: seq<Byte>, levels: seq<seq<Digest>>)
    requires blockSize < U32_LIMIT && |payload| < U63_LIMIT
    ensures blockSize < 32 || !PowerOfTwo(blockSize) <==> r == Err(InvalidBlockSize)
    ensures r != Err(InvalidBlockSize) ==>
      && ArchiveTree(h, payload, blockSize, levels) && section == Section(levels)
      && if HEADER_LEN + |payload| + |section| > maxFileSize then r == Err(SizeLimit(maxFileSize)) else r.Ok?
    ensures r.Ok? ==> r.value.blockSize == blockSize && Archived(h, payload, r.value, section, levels)
  {
    section, levels := [], [];
    if blockSize == 0 || !PowerOfTwo(blockSize) || blockSize < 32 {
      r := Err(InvalidBlockSize);
      return;
    }
    var blockCount;
    levels, blockCount := MerkleLevels(h, payload, blockSize);
    section := SerializeHashSection(levels);
    if HEADER_LEN + |payload| + |section| > maxFileSize {
      r := Err(SizeLimit(maxFileSize));
      return;
    }
    r := Ok(ArchiveHeader(blockSize, blockCount, |payload|, Root(h, levels)));
  }

  // ---------- Building ----------

  function BlocksFrom(payload: seq<Byte>, blockSize: nat, first: nat, last: nat): (blocks: seq<seq<Byte>>)
    requires blockSize > 0 && first <= last < BlockCount(|payload|, blockSize)
    ensures |blocks| == last - first + 1
  {
    seq(last - first + 1, i requires 0 <= i < last - first + 1 => Block(payload, blockSize, first + i))
  }

  /** The covered blocks of an in-range request exist, and so do their leaves. */
  lemma RangeInTree(payload: seq<Byte>, blockSize: nat, offset: nat, len: nat)
    requires blockSize > 0 && offset < |payload| && offset + len <= |payload|
    ensures LastBlock(offset, len, blockSize) < BlockCount(|payload|, blockSize)
    ensures BlockCount(|payload|, blockSize) <= Pow2(Height(BlockCount(|payload|, blockSize)))
  {
    HeightIsLeast(BlockCount(|payload|, blockSize));
    DivMonotone(if len == 0 then offset else offset + len - 1, |payload| - 1, blockSize);
  }

  /** The proof of an in-range request, in terms of the tree. */
  ghost function HonestProof(h: HashFn, payload: seq<Byte>, header: ArchiveHeader, section: seq<Byte>,
                       levels: seq<seq<Digest>>, offset: nat, len: nat): MerkleProof
    requires Archived(h, payload, header, section, levels)
    requires offset < |payload| && offset + len <= |payload|
  {
    RangeInTree(payload, header.blockSize, offset, len);
    TreeIsComplete(h, levels);
    var first, last := FirstBlock(offset, header.blockSize), LastBlock(offset, len, header.blockSize);
    MerkleProof(offset, len, header.blockSize, header.blockCount, header.payloadLen,
                BlocksFrom(payload, header.blockSize, first, last),
                HonestSiblings(levels, |levels| - 1, 0, first, last), header.root)
  }

  /** `collect_siblings`: leaf siblings from the payload, the others from the stored section. */
  method CollectSiblings(h: HashFn, payload: seq<Byte>, section: seq<Byte>, header: ArchiveHeader, height: nat,
                         first: nat, last: nat, ghost levels: seq<seq<Digest>>)
    returns (siblings: seq<Digest>)
    requires Archived(h, payload, header, section, levels)
    requires height == |levels| - 1 && first <= last < Pow2(height)
    ensures Complete(levels, height)
    ensures siblings == HonestSiblings(levels, height, 0, first, last)
  {
    TreeIsComplete(h, levels);
    var leafCount := Pow2(height);
    var plan := ComputePlan(first, last, height);
    siblings := [];
    ghost var lo: nat, hi: nat := first, last;
    var level := 0;
    while level < |plan|
      invariant level <= |plan| == height && lo <= hi < Pow2(height - level)
      invariant plan[level..] == Plan(lo, hi, height - level)
      invariant siblings + HonestSiblings(levels, height, level, lo, hi)
             == HonestSiblings(levels, height, 0, first, last)
    {
      assert plan[level] == plan[level..][0];
      assert plan[level..][1..] == plan[level + 1..];
      var found := LevelSiblingHashes(h, payload, section, header, height, leafCount, level,
                                      plan[level].siblings, lo, hi, levels);
      assert Wide(levels, height, level);
      assert siblings + (found + HonestSiblings(levels, height, level + 1, lo / 2, hi / 2))
          == (siblings + found) + HonestSiblings(levels, height, level + 1, lo / 2, hi / 2);
      siblings := siblings + found;
      lo, hi := lo / 2, hi / 2;
      level := level + 1;
    }
  }

  /** The inner loop of `collect_siblings`. */
  method LevelSiblingHashes(h: HashFn, payload: seq<Byte>, section: seq<Byte>, header: ArchiveHeader, height: nat,
                            leafCount: nat, level: nat, indices: seq<nat>,
                            ghost lo: nat, ghost hi: nat, ghost levels: seq<seq<Digest>>)
    returns (hashes: seq<Digest>)
    requires Archived(h, payload, header, section, levels) && Complete(levels, height)
    requires leafCount == Pow2(height) && level < height && lo <= hi < Pow2(height - level)
    requires indices == Siblings(lo, hi)
    ensures Wide(levels, height, level)
    ensures hashes == SiblingDigests(levels[level], lo, hi)
  {
    assert Wide(levels, height, level);
    hashes := [];
    ghost var goal := SiblingDigests(levels[level], lo, hi);
    SiblingsEven(lo, hi, height - level);
    var i := 0;
    while i < |indices|
      invariant i <= |indices| == |goal| && hashes == goal[..i]
    {
      SiblingDigestAt(levels[level], lo, hi, i);
      var hash := SiblingHash(h, payload, section, header, height, leafCount, level, indices[i], levels);
      assert goal[..i + 1] == goal[..i] + [goal[i]];
      hashes := hashes + [hash];
      i := i + 1;
    }
  }

  /** The widths of levels below the root are even, so that partners exist. */
  lemma SiblingsEven(lo: nat, hi: nat, rise: nat)
    requires rise > 0 && lo <= hi < Pow2(rise)
    ensures forall i :: 0 <= i < |Siblings(lo, hi)| ==> Siblings(lo, hi)[i] < Pow2(rise)
  {
    assert Pow2(rise) % 2 == 0;
  }

  lemma SiblingDigestAt(level: seq<Digest>, lo: nat, hi: nat, i: nat)
    requires lo <= hi < |level| && |level| % 2 == 0 && i < |Siblings(lo, hi)|
    ensures |SiblingDigests(level, lo, hi)| == |Siblings(lo, hi)| && Siblings(lo, hi)[i] < |level|
    ensures SiblingDigests(level, lo, hi)[i] == level[Siblings(lo, hi)[i]]
  {
  }

  /** One digest: hashed from the payload at the leaves, read from the section above them. */
  method SiblingHash(h: HashFn, payload: seq<Byte>, section: seq<Byte>, header: ArchiveHeader, height: nat,
                     leafCount: nat, level: nat, index: nat, ghost levels: seq<seq<Digest>>)
    returns (hash: Digest)
    requires Archived(h, payload, header, section, levels) && Complete(levels, height)
    requires leafCount == Pow2(height) && level < height && index < Pow2(height - level)
    ensures Wide(levels, height, level) && hash == levels[level][index]
  {
    assert Wide(levels, height, level);
    if level == 0 {
      hash := h(LeafPreimage(payload, header.blockSize, index));
    } else {
      SectionIsIndex(levels, height, level, index);
      hash := ReadSectionHash(section, leafCount, height, level, index);
    }
  }

  method BuildProof(h: HashFn, payload: seq<Byte>, section: seq<Byte>, offset: nat, len: nat, header: ArchiveHeader,
                    ghost levels: seq<seq<Digest>>)
    returns (r: Result<MerkleProof>)
    requires Archived(h, payload, header, section, levels)
    ensures match CheckRange(offset, len, header.payloadLen)
            case Err(e) => r == Err(e)
            case Ok(_) => r == Ok(HonestProof(h, payload, header, section, levels, offset, len))
  {
    var end := offset + len;
    if end >= U64_LIMIT {
      return Err(RangeOverflow);
    }
    if offset >= header.payloadLen || end > header.payloadLen {
      return Err(RangeExceedsPayload);
    }
    RangeInTree(payload, header.blockSize, offset, len);
    BlockCountFits(|payload|, header.blockSize);
    var firstBlock := offset / header.blockSize;
    var lastBlock := LastBlock(offset, len, header.blockSize);
    var blocks := CopyBlocks(payload, header.blockSize, firstBlock, lastBlock);
    var height := TreeHeight(header.blockCount);
    var siblings := CollectSiblings(h, payload, section, header, height, firstBlock, lastBlock, levels);
    r := Ok(MerkleProof(offset, len, header.blockSize, header.blockCount, header.payloadLen,
                        blocks, siblings, header.root));
  }

  /** The covered blocks, copied out of the payload. */
  method CopyBlocks(payload: seq<Byte>, blockSize: nat, first: nat, last: nat) returns (blocks: seq<seq<Byte>>)
    requires blockSize > 0 && first <= last < BlockCount(|payload|, blockSize)
    ensures blocks == BlocksFrom(payload, blockSize, first, last)
  {
    blocks := [];
    var index := first;
    while index <= last
      invariant first <= index <= last + 1
      invariant blocks == BlocksFrom(payload, blockSize, first, last)[..index - first]
    {
      blocks := blocks + [Block(payload, blockSize, index)];
      index := index + 1;
    }
  }

  // ---------- Extraction from the archive's own blocks ----------

  lemma {:induction false} GatherNothing(blocks: seq<seq<Byte>>)
    ensures Gather(blocks, 0, 0) == Ok(Gathered([], 0))
  {
    if blocks != [] {
      GatherNothing(blocks[1..]);
      assert blocks[0][0..0] + [] == [];
    }
  }

  /** Entry `i` of `blocks` is payload block `first + i`. */
  predicate CarriesBlock(payload: seq<Byte>, blockSize: nat, first: nat, blocks: seq<seq<Byte>>, i: nat)
    requires blockSize > 0 && i < |blocks|
  {
    first + i < BlockCount(|payload|, blockSize) && blocks[i] == Block(payload, blockSize, first + i)
  }

  predicate Carries(payload: seq<Byte>, blockSize: nat, first: nat, blocks: seq<seq<Byte>>)
    requires blockSize > 0
  {
    forall i :: 0 <= i < |blocks| ==> CarriesBlock(payload, blockSize, first, blocks, i)
  }

  lemma CarriesRest(payload: seq<Byte>, blockSize: nat, first: nat, blocks: seq<seq<Byte>>)
    requires blockSize > 0 && blocks != [] && Carries(payload, blockSize, first, blocks)
    ensures CarriesBlock(payload, blockSize, first, blocks, 0)
    ensures Carries(payload, blockSize, first + 1, blocks[1..])
  {
    var next, rest := first + 1, blocks[1..];
    forall i | 0 <= i < |rest| ensures CarriesBlock(payload, blockSize, next, rest, i) {
      assert CarriesBlock(payload, blockSize, first, blocks, i + 1);
    }
  }

  /** Consecutive payload blocks, from `start` bytes into the first, give the payload back. */
  lemma {:induction false} GatherPayload(payload: seq<Byte>, blockSize: nat, first: nat, base: nat,
                                         blocks: seq<seq<Byte>>, start: nat, remaining: nat, from: nat, to: nat)
    requires blockSize > 0 && base == first * blockSize
    requires blocks != [] && Carries(payload, blockSize, first, blocks)
    requires start < blockSize && from == base + start && to == from + remaining && to <= |payload|
    requires start + remaining <= |blocks| * blockSize
    ensures Gather(blocks, start, remaining) == Ok(Gathered(payload[from..to], 0))
    decreases |blocks|
  {
    CarriesRest(payload, blockSize, first, blocks);
    var size := Min(blockSize, |payload| - base);
    var take := Min(size - start, remaining);
    var middle: nat := from + take;
    if take == remaining {
      GatherNothing(blocks[1..]);
      assert payload[middle..to] == [];
    } else {
      RowsLeft(first, |blocks|, blockSize);
      GatherPayload(payload, blockSize, first + 1, base + blockSize, blocks[1..], 0, remaining - take, middle, to);
    }
    GatherStep(payload, base, size, blocks, start, remaining, take, from, middle, to);
  }

  /** The first block is a piece of the payload; what the others give follows it. */
  lemma GatherStep(payload: seq<Byte>, base: nat, size: nat, blocks: seq<seq<Byte>>, start: nat, remaining: nat,
                   take: nat, from: nat, middle: nat, to: nat)
    requires blocks != [] && start <= size && base + size <= |payload| && blocks[0] == payload[base..base + size]
    requires take == Min(size - start, remaining) && from == base + start && middle == from + take
    requires to == from + remaining && to <= |payload|
    requires Gather(blocks[1..], 0, remaining - take) == Ok(Gathered(payload[middle..to], 0))
    ensures Gather(blocks, start, remaining) == Ok(Gathered(payload[from..to], 0))
  {
    SliceOfSlice(payload, base, base + size, start, start + take);
    GatherFirst(blocks, start, remaining, take, payload[from..middle], payload[middle..to]);
    assert payload[from..middle] + payload[middle..to] == payload[from..to];
  }

  /** What the first block gives, in front of what the others give. */
  lemma GatherFirst(blocks: seq<seq<Byte>>, start: nat, remaining: nat, take: nat, head: seq<Byte>, tail: seq<Byte>)
    requires blocks != [] && start <= |blocks[0]| && take == Min(|blocks[0]| - start, remaining)
    requires head == blocks[0][start..start + take]
    requires Gather(blocks[1..], 0, remaining - take) == Ok(Gathered(tail, 0))
    ensures Gather(blocks, start, remaining) == Ok(Gathered(head + tail, 0))
  {
  }

  lemma RowsLeft(first: nat, count: nat, size: nat)
    requires count > 0
    ensures (first + 1) * size == first * size + size
    ensures count * size == (count - 1) * size + size
    ensures count == 1 ==> count * size == size
  {
  }

  // ---------- Completeness ----------

  /**
   Every proof the builder makes for an in-range request verifies, and extracts exactly the
   requested bytes: for any hash, any payload, empty ranges and a short last block included.
   */
  lemma Completeness(h: HashFn, payload: seq<Byte>, header: ArchiveHeader, section: seq<Byte>,
                     levels: seq<seq<Digest>>, offset: nat, len: nat)
    requires Archived(h, payload, header, section, levels)
    requires offset < |payload| && offset + len <= |payload|
    ensures WellTyped(HonestProof(h, payload, header, section, levels, offset, len))
    ensures VerifyOutcome(h, HonestProof(h, payload, header, section, levels, offset, len)) == Ok(())
    ensures ExtractOutcome(h, HonestProof(h, payload, header, section, levels, offset, len))
         == Ok(payload[offset..offset + len])
  {
    var p := HonestProof(h, payload, header, section, levels, offset, len);
    HonestProofVerifies(h, payload, header, section, levels, offset, len, p);
    ExtractBlocks(payload, p.blockSize, offset, len, p.blocks);
  }

  lemma HonestProofVerifies(h: HashFn, payload: seq<Byte>, header: ArchiveHeader, section: seq<Byte>,
                            levels: seq<seq<Digest>>, offset: nat, len: nat, p: MerkleProof)
    requires Archived(h, payload, header, section, levels)
    requires offset < |payload| && offset + len <= |payload|
    requires p == HonestProof(h, payload, header, section, levels, offset, len)
    ensures WellTyped(p) && VerifyOutcome(h, p) == Ok(())
    ensures Carries(payload, header.blockSize, FirstBlock(offset, header.blockSize), p.blocks)
  {
    var first, last := FirstBlock(offset, p.blockSize), LastBlock(offset, len, p.blockSize);
    RangeInTree(payload, p.blockSize, offset, len);
    BlockCountFits(|payload|, p.blockSize);
    TreeIsComplete(h, levels);
    HonestReplay(h, payload, p.blockSize, levels, |levels| - 1, first, last, LeafHashes(h, first, p.blocks));
    Verifies(h, p);
    HonestBlocks(payload, p.blockSize, first, last, p.blocks);
  }

  lemma HonestBlocks(payload: seq<Byte>, blockSize: nat, first: nat, last: nat, blocks: seq<seq<Byte>>)
    requires blockSize > 0 && first <= last < BlockCount(|payload|, blockSize)
    requires blocks == BlocksFrom(payload, blockSize, first, last)
    ensures Carries(payload, blockSize, first, blocks)
  {
  }

  lemma Verifies(h: HashFn, p: MerkleProof)
    requires p.blockSize > 0 && CheckRange(p.offset, p.len, p.payloadLen).Ok? && CoveredCount(p) == |p.blocks|
    requires ReplayedRoot(h, p) == Ok(p.root)
    ensures VerifyOutcome(h, p) == Ok(())
  {
  }

  /** Replaying the leaf hashes of covered blocks with honest siblings gives the root. */
  lemma HonestReplay(h: HashFn, payload: seq<Byte>, blockSize: nat, levels: seq<seq<Digest>>, height: nat, first: nat,
                     last: nat, hashes: seq<Digest>)
    requires blockSize > 0 && ArchiveTree(h, payload, blockSize, levels) && |levels| == height + 1
    requires Complete(levels, height) && first <= last < BlockCount(|payload|, blockSize) <= Pow2(height)
    requires hashes == LeafHashes(h, first, BlocksFrom(payload, blockSize, first, last))
    ensures Replay(h, first, height, hashes, HonestSiblings(levels, height, 0, first, last)) == Ok(Root(h, levels))
  {
    assert Wide(levels, height, 0);
    HonestLeaves(h, payload, blockSize, levels[0], height, first, last);
    ReplayHonest(h, levels, height, 0, first, last);
  }

  /** The carried blocks hash to the tree's own leaves. */
  lemma HonestLeaves(h: HashFn, payload: seq<Byte>, blockSize: nat, leaves: seq<Digest>, height: nat,
                     first: nat, last: nat)
    requires blockSize > 0 && leaves == Leaves(h, payload, blockSize, height)
    requires first <= last < BlockCount(|payload|, blockSize) <= |leaves|
    ensures LeafHashes(h, first, BlocksFrom(payload, blockSize, first, last)) == leaves[first..last + 1]
  {
    var hashes := LeafHashes(h, first, BlocksFrom(payload, blockSize, first, last));
    forall i | 0 <= i < |hashes| ensures hashes[i] == leaves[first..last + 1][i] {
      assert leaves[first + i] == h(LeafPreimage(payload, blockSize, first + i));
    }
  }

  /** Blocks of the payload covering a range yield the range. */
  lemma ExtractBlocks(payload: seq<Byte>, blockSize: nat, offset: nat, len: nat, blocks: seq<seq<Byte>>)
    requires blockSize > 0 && offset + len <= |payload|
    requires |blocks| == LastBlock(offset, len, blockSize) - FirstBlock(offset, blockSize) + 1
    requires Carries(payload, blockSize, FirstBlock(offset, blockSize), blocks)
    ensures Gather(blocks, offset % blockSize, len) == Ok(Gathered(payload[offset..offset + len], 0))
  {
    RangeRows(offset, len, blockSize);
    var first := FirstBlock(offset, blockSize);
    GatherPayload(payload, blockSize, first, first * blockSize, blocks, offset % blockSize, len, offset, offset + len);
  }

  /** The covered blocks reach from the block holding `offset` past the end of the range. */
  lemma RangeRows(offset: nat, len: nat, blockSize: nat)
    requires blockSize > 0
    ensures var first, last := FirstBlock(offset, blockSize), LastBlock(offset, len, blockSize);
            && offset == first * blockSize + offset % blockSize
            && offset % blockSize + len <= (last - first + 1) * blockSize
  {
    var first, last := FirstBlock(offset, blockSize), LastBlock(offset, len, blockSize);
    var end := if len == 0 then offset else offset + len - 1;
    assert offset == first * blockSize + offset % blockSize;
    assert end == last * blockSize + end % blockSize;
    assert (last - first + 1) * blockSize == last * blockSize - first * blockSize + blockSize;
  }

  // ---------- Soundness ----------

  /** No two of these inputs hash alike. */
  predicate CollisionFree(h: HashFn, inputs: set<seq<Byte>>) {
    forall x, y :: x in inputs && y in inputs && h(x) == h(y) ==> x == y
  }

  /** Everything hashed when the archive's tree was built. */
  function TreeInputs(h: HashFn, payload: seq<Byte>, blockSize: nat, levels: seq<seq<Digest>>): set<seq<Byte>>
    requires blockSize > 0 && Tree(h, levels)
  {
    set l: nat, i: nat | l < |levels| && i < |levels[l]| :: Preimage(h, payload, blockSize, levels, l, i)
  }

  function PairInputs(pairs: seq<(Digest, Digest)>): set<seq<Byte>> {
    set i | 0 <= i < |pairs| :: NodeInput(pairs[i].0, pairs[i].1)
  }

  /** Everything hashed above the leaves when a proof is replayed. */
  function ReplayInputs(h: HashFn, lo: nat, height: nat, hashes: seq<Digest>, siblings: seq<Digest>): set<seq<Byte>> {
    if height == 0 then {}
    else match Pair(lo, hashes, siblings)
      case Err(_) => {}
      case Ok(p) => PairInputs(p.pairs) + ReplayInputs(h, lo / 2, height - 1, Combine(h, p.pairs), p.rest)
  }

  /** Everything hashed when a proof is verified. */
  function ProofInputs(h: HashFn, p: MerkleProof): set<seq<Byte>>
    requires p.blockSize > 0
  {
    var first := FirstBlock(p.offset, p.blockSize);
    (set i | 0 <= i < |p.blocks| :: LeafInput(first + i, p.blocks[i]))
    + ReplayInputs(h, first, Height(p.blockCount), LeafHashes(h, first, p.blocks), p.siblings)
  }

  /** The digest is that of some node of the tree. */
  predicate InTree(levels: seq<seq<Digest>>, d: Digest) {
    exists l: nat, i: nat :: l < |levels| && i < |levels[l]| && levels[l][i] == d
  }

  /** Every hash of a level ends up in some pair. */
  lemma {:induction false} PairCovers(lo: nat, hashes: seq<Digest>, siblings: seq<Digest>, k: nat)
    requires k < |hashes| && Pair(lo, hashes, siblings).Ok?
    ensures var pairs := Pair(lo, hashes, siblings).value.pairs;
            exists j :: 0 <= j < |pairs| && (pairs[j].0 == hashes[k] || pairs[j].1 == hashes[k])
    decreases |hashes|
  {
    var pairs := Pair(lo, hashes, siblings).value.pairs;
    PairStep(lo, hashes, siblings);
    var step, used := (if lo % 2 == 0 && |hashes| > 1 then 2 else 1), (if lo % 2 == 1 || |hashes| == 1 then 1 else 0);
    if k < step {
      assert pairs[0].0 == hashes[k] || pairs[0].1 == hashes[k];
    } else {
      PairCovers(lo + step, hashes[step..], siblings[used..], k - step);
      var tail := Pair(lo + step, hashes[step..], siblings[used..]).value.pairs;
      var j :| 0 <= j < |tail| && (tail[j].0 == hashes[k] || tail[j].1 == hashes[k]);
      assert pairs[j + 1] == tail[j];
    }
  }

  /** If a hashed pair lands in the tree, so do both of its members. */
  lemma ChildrenInTree(h: HashFn, payload: seq<Byte>, blockSize: nat, levels: seq<seq<Digest>>,
                       inputs: set<seq<Byte>>, left: Digest, right: Digest)
    requires blockSize > 0 && ArchiveTree(h, payload, blockSize, levels)
    requires TreeInputs(h, payload, blockSize, levels) <= inputs && NodeInput(left, right) in inputs
    requires CollisionFree(h, inputs)
    requires InTree(levels, h(NodeInput(left, right)))
    ensures InTree(levels, left) && InTree(levels, right)
  {
    var l: nat, i: nat :| l < |levels| && i < |levels[l]| && levels[l][i] == h(NodeInput(left, right));
    PreimageHashes(h, payload, blockSize, levels, l, i);
    var image := Preimage(h, payload, blockSize, levels, l, i);
    assert image in TreeInputs(h, payload, blockSize, levels);
    assert image == NodeInput(left, right);
    assert NodeInput(left, right)[0] == NODE_DOMAIN;
    assert LevelBuilt(h, levels, |levels| - 1, l);
    if l == 0 {
      assert false;
    } else {
      NodeInputInjective(left, right, levels[l - 1][2 * i], levels[l - 1][2 * i + 1]);
    }
  }

  /** Descending induction: if the replayed root is the tree's root, every starting hash is a node. */
  lemma {:induction false} ReplaySound(h: HashFn, payload: seq<Byte>, blockSize: nat, levels: seq<seq<Digest>>,
                                       inputs: set<seq<Byte>>,
                                       lo: nat, height: nat, hashes: seq<Digest>, siblings: seq<Digest>, k: nat)
    requires blockSize > 0 && ArchiveTree(h, payload, blockSize, levels)
    requires TreeInputs(h, payload, blockSize, levels) <= inputs
    requires CollisionFree(h, inputs)
    requires ReplaysTo(h, inputs, Root(h, levels), lo, height, hashes, siblings) && k < |hashes|
    ensures InTree(levels, hashes[k])
    decreases height
  {
    if height == 0 {
      assert LevelBuilt(h, levels, |levels| - 1, |levels| - 1);
      assert levels[|levels| - 1][0] == hashes[k];
    } else {
      var p := Pair(lo, hashes, siblings).value;
      LevelReplayed(h, inputs, Root(h, levels), lo, height, hashes, siblings, p);
      PairCovers(lo, hashes, siblings, k);
      var j :| 0 <= j < |p.pairs| && (p.pairs[j].0 == hashes[k] || p.pairs[j].1 == hashes[k]);
      ReplaySound(h, payload, blockSize, levels, inputs, lo / 2, height - 1, Combine(h, p.pairs), p.rest, j);
      PairInTree(h, payload, blockSize, levels, inputs, p.pairs, j);
    }
  }

  /** A pair whose hash is a node of the tree consists of nodes. */
  lemma PairInTree(h: HashFn, payload: seq<Byte>, blockSize: nat, levels: seq<seq<Digest>>, inputs: set<seq<Byte>>,
                   pairs: seq<(Digest, Digest)>, j: nat)
    requires blockSize > 0 && ArchiveTree(h, payload, blockSize, levels) && CollisionFree(h, inputs)
    requires TreeInputs(h, payload, blockSize, levels) <= inputs && PairInputs(pairs) <= inputs
    requires j < |pairs| && InTree(levels, Combine(h, pairs)[j])
    ensures InTree(levels, pairs[j].0) && InTree(levels, pairs[j].1)
  {
    assert NodeInput(pairs[j].0, pairs[j].1) in PairInputs(pairs);
    ChildrenInTree(h, payload, blockSize, levels, inputs, pairs[j].0, pairs[j].1);
  }

  /** A replay that ends in `root` and hashes only `inputs`. */
  predicate ReplaysTo(h: HashFn, inputs: set<seq<Byte>>, root: Digest, lo: nat, height: nat, hashes: seq<Digest>,
                      siblings: seq<Digest>) {
    Replay(h, lo, height, hashes, siblings) == Ok(root) && ReplayInputs(h, lo, height, hashes, siblings) <= inputs
  }

  /** What a replay of one level leaves to the levels above. */
  lemma LevelReplayed(h: HashFn, inputs: set<seq<Byte>>, root: Digest, lo: nat, height: nat, hashes: seq<Digest>,
                      siblings: seq<Digest>, p: Paired)
    requires height > 0 && ReplaysTo(h, inputs, root, lo, height, hashes, siblings)
    requires Pair(lo, hashes, siblings) == Ok(p)
    ensures ReplaysTo(h, inputs, root, lo / 2, height - 1, Combine(h, p.pairs), p.rest) && PairInputs(p.pairs) <= inputs
  {
  }

  /** A leaf hash found in the tree is the hash of that block of the archive. */
  lemma LeafInTree(h: HashFn, payload: seq<Byte>, blockSize: nat, levels: seq<seq<Digest>>,
                   inputs: set<seq<Byte>>, index: nat, block: seq<Byte>)
    requires blockSize > 0 && |payload| < U63_LIMIT && ArchiveTree(h, payload, blockSize, levels)
    requires TreeInputs(h, payload, blockSize, levels) <= inputs && LeafInput(index, block) in inputs
    requires CollisionFree(h, inputs) && index < U64_LIMIT
    requires InTree(levels, h(LeafInput(index, block)))
    ensures index < BlockCount(|payload|, blockSize) && block == Block(payload, blockSize, index)
  {
    var l: nat, i: nat :| l < |levels| && i < |levels[l]| && levels[l][i] == h(LeafInput(index, block));
    PreimageHashes(h, payload, blockSize, levels, l, i);
    var image := Preimage(h, payload, blockSize, levels, l, i);
    assert image in TreeInputs(h, payload, blockSize, levels);
    assert image == LeafInput(index, block);
    assert LeafInput(index, block)[0] == LEAF_DOMAIN;
    assert l == 0;
    assert i < BlockCount(|payload|, blockSize);
    BlockCountFits(|payload|, blockSize);
    LeafInputInjective(i, Block(payload, blockSize, i), index, block);
  }

  /**
   Soundness: any proof whatsoever that verifies and names the archive's root carries, at every
   position, exactly the archive's block of that number; and if it also names the archive's block
   size and payload length, extraction returns exactly the requested payload bytes. The only
   assumption is that the inputs hashed by the builder and by this verification do not collide.
   */
  lemma Soundness(h: HashFn, payload: seq<Byte>, header: ArchiveHeader, section: seq<Byte>,
                  levels: seq<seq<Digest>>, p: MerkleProof)
    requires Archived(h, payload, header, section, levels) && WellTyped(p)
    requires VerifyOutcome(h, p) == Ok(()) && p.root == header.root
    requires CollisionFree(h, TreeInputs(h, payload, header.blockSize, levels) + ProofInputs(h, p))
    ensures Carries(payload, header.blockSize, FirstBlock(p.offset, p.blockSize), p.blocks)
    ensures p.blockSize == header.blockSize && p.payloadLen == header.payloadLen ==>
      ExtractOutcome(h, p) == Ok(payload[p.offset..p.offset + p.len])
  {
    VerifiedMeans(h, p);
    BlocksSound(h, payload, header.blockSize, levels, p,
                TreeInputs(h, payload, header.blockSize, levels) + ProofInputs(h, p));
    if p.blockSize == header.blockSize && p.payloadLen == header.payloadLen {
      VerifiedExtracts(h, payload, p);
    }
  }

  lemma VerifiedMeans(h: HashFn, p: MerkleProof)
    requires WellTyped(p) && VerifyOutcome(h, p) == Ok(())
    ensures ReplayedRoot(h, p) == Ok(p.root)
    ensures FirstBlock(p.offset, p.blockSize) + |p.blocks| <= U64_LIMIT
    ensures |p.blocks| == CoveredCount(p) && p.offset + p.len <= p.payloadLen
  {
    var end := if p.len == 0 then p.offset else p.offset + p.len - 1;
    QuotientAtMost(end, p.blockSize);
  }

  lemma VerifiedExtracts(h: HashFn, payload: seq<Byte>, p: MerkleProof)
    requires WellTyped(p) && VerifyOutcome(h, p) == Ok(()) && p.payloadLen == |payload|
    requires Carries(payload, p.blockSize, FirstBlock(p.offset, p.blockSize), p.blocks)
    ensures p.offset + p.len <= |payload|
    ensures ExtractOutcome(h, p) == Ok(payload[p.offset..p.offset + p.len])
  {
    VerifiedMeans(h, p);
    ExtractBlocks(payload, p.blockSize, p.offset, p.len, p.blocks);
  }

  lemma BlocksSound(h: HashFn, payload: seq<Byte>, blockSize: nat, levels: seq<seq<Digest>>, p: MerkleProof,
                    inputs: set<seq<Byte>>)
    requires blockSize > 0 && |payload| < U63_LIMIT && ArchiveTree(h, payload, blockSize, levels)
    requires p.blockSize > 0 && FirstBlock(p.offset, p.blockSize) + |p.blocks| <= U64_LIMIT
    requires ReplayedRoot(h, p) == Ok(Root(h, levels))
    requires TreeInputs(h, payload, blockSize, levels) <= inputs && ProofInputs(h, p) <= inputs
    requires CollisionFree(h, inputs)
    ensures Carries(payload, blockSize, FirstBlock(p.offset, p.blockSize), p.blocks)
  {
    var first := FirstBlock(p.offset, p.blockSize);
    forall i | 0 <= i < |p.blocks| ensures CarriesBlock(payload, blockSize, first, p.blocks, i) {
      BlockSound(h, payload, blockSize, levels, p, inputs, first, i, LeafInput(first + i, p.blocks[i]));
    }
  }

  lemma BlockSound(h: HashFn, payload: seq<Byte>, blockSize: nat, levels: seq<seq<Digest>>, p: MerkleProof,
                   inputs: set<seq<Byte>>, first: nat, i: nat, input: seq<Byte>)
    requires blockSize > 0 && |payload| < U63_LIMIT && ArchiveTree(h, payload, blockSize, levels)
    requires p.blockSize > 0 && first == FirstBlock(p.offset, p.blockSize) && first + |p.blocks| <= U64_LIMIT
    requires ReplayedRoot(h, p) == Ok(Root(h, levels)) && i < |p.blocks| && input == LeafInput(first + i, p.blocks[i])
    requires TreeInputs(h, payload, blockSize, levels) <= inputs && ProofInputs(h, p) <= inputs
    requires CollisionFree(h, inputs)
    ensures CarriesBlock(payload, blockSize, first, p.blocks, i)
  {
    LeafHashInTree(h, payload, blockSize, levels, inputs, p, first, i, input);
    LeafInTree(h, payload, blockSize, levels, inputs, first + i, p.blocks[i]);
  }

  lemma LeafHashInTree(h: HashFn, payload: seq<Byte>, blockSize: nat, levels: seq<seq<Digest>>,
                       inputs: set<seq<Byte>>, p: MerkleProof, first: nat, i: nat, input: seq<Byte>)
    requires blockSize > 0 && ArchiveTree(h, payload, blockSize, levels)
    requires p.blockSize > 0 && first == FirstBlock(p.offset, p.blockSize) && i < |p.blocks|
    requires ReplayedRoot(h, p) == Ok(Root(h, levels)) && input == LeafInput(first + i, p.blocks[i])
    requires TreeInputs(h, payload, blockSize, levels) <= inputs && ProofInputs(h, p) <= inputs
    requires CollisionFree(h, inputs)
    ensures input in inputs && InTree(levels, h(input))
  {
    LeafInputOfProof(h, p, first, i);
    LeafHashAt(h, first, p.blocks, i, input);
    ReplaySound(h, payload, blockSize, levels, inputs, first, Height(p.blockCount), LeafHashes(h, first, p.blocks),
                p.siblings, i);
  }

  lemma LeafHashAt(h: HashFn, first: nat, blocks: seq<seq<Byte>>, i: nat, input: seq<Byte>)
    requires i < |blocks| && input == LeafInput(first + i, blocks[i])
    ensures LeafHashes(h, first, blocks)[i] == h(input)
  {
  }

  lemma LeafInputOfProof(h: HashFn, p: MerkleProof, first: nat, i: nat)
    requires p.blockSize > 0 && first == FirstBlock(p.offset, p.blockSize) && i < |p.blocks|
    ensures LeafInput(first + i, p.blocks[i]) in ProofInputs(h, p)
    ensures ReplayInputs(h, first, Height(p.blockCount), LeafHashes(h, first, p.blocks), p.siblings)
         <= ProofInputs(h, p)
  {
  }
}
