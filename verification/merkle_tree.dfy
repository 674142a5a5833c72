/**
 The Merkle tree over an archive payload: a complete binary tree padded to a power of two,
 built level by level, and the flat section in which its internal levels are stored.
 The digest function is a parameter throughout, so every result holds for any hash.
 */
module MerkleTree {
  import opened Bytes

  const LEAF_DOMAIN: Byte := 0x00
  const NODE_DOMAIN: Byte := 0x01
  const PAD_DOMAIN: Byte := 0x02

  type Digest = d: seq<Byte> | |d| == 32 witness seq(32, _ => 0)
  type HashFn = seq<Byte> -> Digest

  // ---------- Hash inputs ----------

  function LeafInput(index: nat, block: seq<Byte>): seq<Byte> {
    [LEAF_DOMAIN] + BeBytes(index, 8) + block
  }

  function PadInput(index: nat): seq<Byte> {
    [PAD_DOMAIN] + BeBytes(index, 8)
  }

  function NodeInput(left: Digest, right: Digest): seq<Byte> {
    [NODE_DOMAIN] + left + right
  }

  lemma LeafInputInjective(i: nat, x: seq<Byte>, j: nat, y: seq<Byte>)
    requires i < U64_LIMIT && j < U64_LIMIT
    requires LeafInput(i, x) == LeafInput(j, y)
    ensures i == j && x == y
  {
    var a, b := LeafInput(i, x), LeafInput(j, y);
    assert a[1..9] == BeBytes(i, 8) && b[1..9] == BeBytes(j, 8);
    assert a[9..] == x && b[9..] == y;
    Pow2Table();
    BeBytesInjective(i, j, 8);
  }

  lemma NodeInputInjective(l: Digest, r: Digest, l': Digest, r': Digest)
    requires NodeInput(l, r) == NodeInput(l', r')
    ensures l == l' && r == r'
  {
    var a, b := NodeInput(l, r), NodeInput(l', r');
    assert a[1..33] == l && b[1..33] == l';
    assert a[33..] == r && b[33..] == r';
  }

  // ---------- Blocks and leaves ----------

  /** `len.div_ceil(block_size).max(1)`. */
  function BlockCount(len: nat, blockSize: nat): (count: nat)
    requires blockSize > 0
    ensures count >= 1
  {
    if len == 0 then 1 else (len - 1) / blockSize + 1
  }

  /** Block `i` covers at least one byte exactly when it is a block of a non-empty payload. */
  lemma BlockStarts(len: nat, blockSize: nat, index: nat)
    requires blockSize > 0 && len > 0
    ensures index < BlockCount(len, blockSize) <==> index * blockSize < len
  {
    var q, r := (len - 1) / blockSize, (len - 1) % blockSize;
    assert len - 1 == q * blockSize + r;
    if index <= q {
      assert index * blockSize <= q * blockSize;
    } else {
      assert index * blockSize >= (q + 1) * blockSize == q * blockSize + blockSize;
    }
  }

  lemma BlockStartInBounds(len: nat, blockSize: nat, index: nat)
    requires blockSize > 0 && index < BlockCount(len, blockSize)
    ensures 0 <= index * blockSize <= len
  {
    if len > 0 {
      BlockStarts(len, blockSize, index);
    } else {
      assert index * blockSize == 0;
    }
  }

  function Min(a: nat, b: nat): nat {
    if a < b then a else b
  }

  /** The payload bytes of leaf `index`; the last block may be short. */
  function Block(payload: seq<Byte>, blockSize: nat, index: nat): seq<Byte>
    requires blockSize > 0 && index < BlockCount(|payload|, blockSize)
  {
    BlockStartInBounds(|payload|, blockSize, index);
    var start := index * blockSize;
    payload[start..Min(start + blockSize, |payload|)]
  }

  /** The bytes hashed for leaf `index` of the padded tree. */
  function LeafPreimage(payload: seq<Byte>, blockSize: nat, index: nat): seq<Byte>
    requires blockSize > 0
  {
    if index < BlockCount(|payload|, blockSize)
    then LeafInput(index, Block(payload, blockSize, index))
    else PadInput(index)
  }

  function Leaves(h: HashFn, payload: seq<Byte>, blockSize: nat, height: nat): (leaves: seq<Digest>)
    requires blockSize > 0
    ensures |leaves| == Pow2(height)
  {
    seq<Digest>(Pow2(height), i requires 0 <= i => h(LeafPreimage(payload, blockSize, i)))
  }

  // ---------- Height ----------

  /** Smallest height whose complete tree holds `blockCount` leaves. */
  function Height(blockCount: nat): nat {
    if blockCount <= 1 then 0 else 1 + Height((blockCount + 1) / 2)
  }

  lemma {:induction false} HeightIsLeast(blockCount: nat)
    ensures blockCount <= Pow2(Height(blockCount))
    ensures Height(blockCount) > 0 ==> Pow2(Height(blockCount) - 1) < blockCount
  {
    if blockCount > 1 {
      HeightIsLeast((blockCount + 1) / 2);
    }
  }

  lemma HeightBound(blockCount: nat)
    requires blockCount <= U63_LIMIT
    ensures Height(blockCount) <= 63
  {
    HeightIsLeast(blockCount);
    Pow2Table();
    if Height(blockCount) > 63 {
      Pow2Monotone(63, Height(blockCount) - 1);
    }
  }

  /** Heights are determined by being large enough and least. */
  lemma HeightUnique(blockCount: nat, height: nat)
    requires blockCount <= Pow2(height)
    requires height > 0 ==> Pow2(height - 1) < blockCount
    requires blockCount >= 1
    ensures height == Height(blockCount)
  {
    HeightIsLeast(blockCount);
    var least := Height(blockCount);
    if height < least {
      Pow2Monotone(height, least - 1);
    } else if least < height {
      Pow2Monotone(least, height - 1);
    }
  }

  /** `size` is a `u64`: doubling past `2^63` would overflow it. */
  method TreeHeight(blockCount: nat) returns (height: nat)
    requires blockCount <= U63_LIMIT
    ensures height == Height(blockCount) && height <= 63
  {
    HeightBound(blockCount);
    if blockCount <= 1 {
      return 0;
    }
    height := 0;
    var size := 1;
    while size < blockCount
      invariant size == Pow2(height)
      invariant height > 0 ==> Pow2(height - 1) < blockCount
      decreases blockCount - size
    {
      size := size * 2;
      height := height + 1;
    }
    HeightUnique(blockCount, height);
  }

  // ---------- Levels ----------

  function Parents(h: HashFn, level: seq<Digest>): (parents: seq<Digest>)
    ensures |parents| == |level| / 2
  {
    seq<Digest>(|level| / 2, i requires 0 <= i < |level| / 2 => h(NodeInput(level[2 * i], level[2 * i + 1])))
  }

  function Level(h: HashFn, leaves: seq<Digest>, l: nat): seq<Digest> {
    if l == 0 then leaves else Parents(h, Level(h, leaves, l - 1))
  }

  /** Level `l` has the right width and, above the leaves, is the parents of the level below. */
  predicate LevelBuilt(h: HashFn, levels: seq<seq<Digest>>, height: nat, l: nat)
    requires l < |levels| && l <= height
  {
    && |levels[l]| == Pow2(height - l)
    && (l > 0 ==> levels[l] == Parents(h, levels[l - 1]))
  }

  predicate LevelsBuilt(h: HashFn, levels: seq<seq<Digest>>, height: nat) {
    && |levels| <= height + 1
    && (forall l :: 0 <= l < |levels| ==> LevelBuilt(h, levels, height, l))
  }

  /** A stack of levels, each the parents of the one below, ending in a single root. */
  predicate Tree(h: HashFn, levels: seq<seq<Digest>>) {
    |levels| > 0 && LevelsBuilt(h, levels, |levels| - 1)
  }

  function Root(h: HashFn, levels: seq<seq<Digest>>): Digest
    requires Tree(h, levels)
  {
    assert LevelBuilt(h, levels, |levels| - 1, |levels| - 1);
    levels[|levels| - 1][0]
  }

  /** The whole archive tree of a payload. */
  predicate ArchiveTree(h: HashFn, payload: seq<Byte>, blockSize: nat, levels: seq<seq<Digest>>)
    requires blockSize > 0
  {
    && Tree(h, levels)
    && |levels| == Height(BlockCount(|payload|, blockSize)) + 1
    && levels[0] == Leaves(h, payload, blockSize, |levels| - 1)
  }

  /** The bytes hashed to produce node `i` of level `l`. */
  function Preimage(h: HashFn, payload: seq<Byte>, blockSize: nat, levels: seq<seq<Digest>>, l: nat, i: nat): seq<Byte>
    requires blockSize > 0 && Tree(h, levels)
    requires l < |levels| && i < |levels[l]|
  {
    assert LevelBuilt(h, levels, |levels| - 1, l);
    if l == 0 then LeafPreimage(payload, blockSize, i)
    else NodeInput(levels[l - 1][2 * i], levels[l - 1][2 * i + 1])
  }

  lemma PreimageHashes(h: HashFn, payload: seq<Byte>, blockSize: nat, levels: seq<seq<Digest>>, l: nat, i: nat)
    requires blockSize > 0 && ArchiveTree(h, payload, blockSize, levels)
    requires l < |levels| && i < |levels[l]|
    ensures h(Preimage(h, payload, blockSize, levels, l, i)) == levels[l][i]
  {
    assert LevelBuilt(h, levels, |levels| - 1, l);
  }

  /** The number of blocks a slice can hold: Rust slices never exceed `isize::MAX` bytes. */
  lemma BlockCountFits(len: nat, blockSize: nat)
    requires blockSize > 0
    ensures BlockCount(len, blockSize) <= len + 1
  {
    if len > 0 {
      QuotientAtMost(len - 1, blockSize);
    }
  }

  method MerkleLevels(h: HashFn, payload: seq<Byte>, blockSize: nat)
    returns (levels: seq<seq<Digest>>, blockCount: nat)
    requires blockSize > 0 && |payload| < U63_LIMIT
    ensures blockCount == BlockCount(|payload|, blockSize)
    ensures ArchiveTree(h, payload, blockSize, levels)
  {
    blockCount := if |payload| == 0 then 1 else (|payload| - 1) / blockSize + 1;
    BlockCountFits(|payload|, blockSize);
    var height := TreeHeight(blockCount);
    var leafCount := Pow2(height);
    var level := LeafLevel(h, payload, blockSize, height, blockCount);
    levels := [level];
    var count := leafCount;
    assert LevelBuilt(h, levels, height, 0);
    while count > 1
      invariant 1 <= |levels| <= height + 1
      invariant levels[0] == Leaves(h, payload, blockSize, height)
      invariant level == levels[|levels| - 1] && count == |level|
      invariant LevelsBuilt(h, levels, height)
    {
      TopWidth(h, levels, height);
      level := ParentLevel(h, level);
      LevelsExtend(h, levels, height, level);
      levels := levels + [level];
      count := count / 2;
    }
    TopWidth(h, levels, height);
  }

  /** The builder's loop stops exactly when the top level is the root. */
  lemma TopWidth(h: HashFn, levels: seq<seq<Digest>>, height: nat)
    requires |levels| > 0 && LevelsBuilt(h, levels, height)
    ensures |levels[|levels| - 1]| == Pow2(height + 1 - |levels|)
    ensures |levels[|levels| - 1]| > 1 <==> |levels| <= height
    ensures |levels| <= height ==> |levels[|levels| - 1]| % 2 == 0
  {
    assert LevelBuilt(h, levels, height, |levels| - 1);
  }

  lemma LevelsExtend(h: HashFn, levels: seq<seq<Digest>>, height: nat, next: seq<Digest>)
    requires 0 < |levels| <= height && LevelsBuilt(h, levels, height)
    requires next == Parents(h, levels[|levels| - 1])
    ensures LevelsBuilt(h, levels + [next], height)
  {
    var all := levels + [next];
    TopWidth(h, levels, height);
    forall l | 0 <= l < |all| ensures LevelBuilt(h, all, height, l) {
      if l < |levels| {
        assert LevelBuilt(h, levels, height, l);
      }
    }
  }

  method LeafLevel(h: HashFn, payload: seq<Byte>, blockSize: nat, height: nat, blockCount: nat)
    returns (level: seq<Digest>)
    requires blockSize > 0 && blockCount == BlockCount(|payload|, blockSize)
    ensures level == Leaves(h, payload, blockSize, height)
  {
    level := [];
    var index := 0;
    while index < Pow2(height)
      invariant index == |level| <= Pow2(height)
      invariant forall i :: 0 <= i < index ==> level[i] == h(LeafPreimage(payload, blockSize, i))
    {
      var digest;
      if index < blockCount {
        BlockStartInBounds(|payload|, blockSize, index);
        var start := index * blockSize;
        var end := Min(start + blockSize, |payload|);
        digest := h(LeafInput(index, payload[start..end]));
      } else {
        digest := h(PadInput(index));
      }
      level := level + [digest];
      index := index + 1;
    }
  }

  /** One pass of the level builder: hashes adjacent pairs. */
  method ParentLevel(h: HashFn, level: seq<Digest>) returns (next: seq<Digest>)
    requires |level| % 2 == 0
    ensures next == Parents(h, level)
  {
    next := [];
    var index := 0;
    while index < |level|
      invariant index <= |level| && index % 2 == 0
      invariant next == Parents(h, level)[..index / 2]
    {
      next := next + [h(NodeInput(level[index], level[index + 1]))];
      index := index + 2;
    }
  }

  // ---------- The flat hash section ----------

  /** The first `n` digests, concatenated. */
  function FlattenTo(digests: seq<Digest>, n: nat): (bytes: seq<Byte>)
    requires n <= |digests|
    ensures |bytes| == 32 * n
  {
    if n == 0 then [] else FlattenTo(digests, n - 1) + digests[n - 1]
  }

  lemma {:induction false} FlattenAt(digests: seq<Digest>, n: nat, i: nat)
    requires i < n <= |digests|
    ensures FlattenTo(digests, n)[32 * i..32 * i + 32] == digests[i]
  {
    if i < n - 1 {
      FlattenAt(digests, n - 1, i);
      SliceLeft(FlattenTo(digests, n - 1), digests[n - 1], 32 * i, 32 * i + 32);
    } else {
      SliceRight(FlattenTo(digests, n - 1), digests[n - 1], 0, 32);
    }
  }

  /** Levels 1 to `k`, concatenated. */
  function SectionTo(levels: seq<seq<Digest>>, k: nat): seq<Byte>
    requires k < |levels|
  {
    if k == 0 then [] else SectionTo(levels, k - 1) + FlattenTo(levels[k], |levels[k]|)
  }

  /** Everything above the leaves: level 1 first, the root last. */
  function Section(levels: seq<seq<Digest>>): seq<Byte> {
    if levels == [] then [] else SectionTo(levels, |levels| - 1)
  }

  method SerializeHashSection(levels: seq<seq<Digest>>) returns (section: seq<Byte>)
    ensures section == Section(levels)
  {
    section := [];
    if levels == [] {
      return;
    }
    var l := 1;
    while l < |levels|
      invariant 1 <= l <= |levels|
      invariant section == SectionTo(levels, l - 1)
    {
      var level := levels[l];
      var i := 0;
      while i < |level|
        invariant i <= |level|
        invariant section == SectionTo(levels, l - 1) + FlattenTo(level, i)
      {
        section := section + level[i];
        i := i + 1;
      }
      l := l + 1;
    }
  }

  /** Level `l` of a complete tree of the given height has one node per subtree. */
  predicate Wide(levels: seq<seq<Digest>>, height: nat, l: nat)
    requires l < |levels| && l <= height
  {
    |levels[l]| == Pow2(height - l)
  }

  predicate Complete(levels: seq<seq<Digest>>, height: nat) {
    |levels| == height + 1 && forall l :: 0 <= l <= height ==> Wide(levels, height, l)
  }

  lemma TreeIsComplete(h: HashFn, levels: seq<seq<Digest>>)
    requires Tree(h, levels)
    ensures Complete(levels, |levels| - 1)
  {
    var height := |levels| - 1;
    forall l | 0 <= l <= height ensures Wide(levels, height, l) {
      assert LevelBuilt(h, levels, height, l);
    }
  }

  lemma {:induction false} SectionLength(levels: seq<seq<Digest>>, height: nat, k: nat)
    requires Complete(levels, height) && k <= height
    ensures |SectionTo(levels, k)| == 32 * (Pow2(height) - Pow2(height - k))
  {
    if k > 0 {
      SectionLength(levels, height, k - 1);
      assert Wide(levels, height, k);
    }
  }

  /** Where node `index` of `level` sits in the first `k` levels of the section. */
  lemma {:induction false} SectionAt(levels: seq<seq<Digest>>, k: nat, level: nat, index: nat, start: nat, end: nat)
    requires 1 <= level <= k < |levels| && index < |levels[level]|
    requires start == |SectionTo(levels, level - 1)| + 32 * index && end == start + 32
    ensures end <= |SectionTo(levels, k)| && SectionTo(levels, k)[start..end] == levels[level][index]
    decreases k
  {
    var top := FlattenTo(levels[k], |levels[k]|);
    if level < k {
      SectionAt(levels, k - 1, level, index, start, end);
      SliceLeft(SectionTo(levels, k - 1), top, start, end);
    } else {
      FlattenAt(levels[k], |levels[k]|, index);
      SliceRight(SectionTo(levels, k - 1), top, 32 * index, 32 * index + 32);
    }
  }

  /** Byte position of node `index` of `level`, as `read_section_hash` computes it. */
  function Position(leafCount: nat, height: nat, level: nat, index: nat): int
    requires 1 <= level <= height
  {
    (leafCount - Pow2(height - level + 1) + index) * 32
  }

  lemma PositionIsOffset(levels: seq<seq<Digest>>, height: nat, level: nat, index: nat)
    requires Complete(levels, height) && 1 <= level <= height && index < Pow2(height - level)
    ensures Position(Pow2(height), height, level, index) == |SectionTo(levels, level - 1)| + 32 * index
    ensures |Section(levels)| == 32 * (Pow2(height) - 1)
    ensures Pow2(height - level + 1) <= Pow2(height)
    ensures index < |levels[level]|
  {
    SectionLength(levels, height, height);
    SectionLength(levels, height, level - 1);
    Pow2Monotone(height - level + 1, height);
    assert Wide(levels, height, level);
  }

  /** `read_section_hash`. */
  function ReadSectionHash(section: seq<Byte>, leafCount: nat, height: nat, level: nat, index: nat): Digest
    requires 1 <= level <= height && Pow2(height - level + 1) <= leafCount
    requires Position(leafCount, height, level, index) + 32 <= |section|
  {
    var position := Position(leafCount, height, level, index);
    section[position..position + 32]
  }

  /**
   The stored section is a faithful index of the tree: it holds exactly the internal nodes, and
   the slot arithmetic is in bounds and lands on the requested node.
   */
  lemma SectionIsIndex(levels: seq<seq<Digest>>, height: nat, level: nat, index: nat)
    requires Complete(levels, height) && 1 <= level <= height && index < Pow2(height - level)
    ensures |Section(levels)| == 32 * (Pow2(height) - 1)
    ensures Pow2(height - level + 1) <= Pow2(height) && index < |levels[level]|
    ensures Position(Pow2(height), height, level, index) + 32 <= |Section(levels)|
    ensures ReadSectionHash(Section(levels), Pow2(height), height, level, index) == levels[level][index]
  {
    PositionIsOffset(levels, height, level, index);
    var position := Position(Pow2(height), height, level, index);
    SlotHolds(levels, height, level, index, Section(levels), position, position + 32);
    ReadsSlot(Section(levels), Pow2(height), height, level, index, position, position + 32, levels[level][index]);
  }

  lemma SlotHolds(levels: seq<seq<Digest>>, height: nat, level: nat, index: nat, section: seq<Byte>, start: nat,
                  end: nat)
    requires |levels| == height + 1 && 1 <= level <= height && index < |levels[level]| && section == Section(levels)
    requires start == |SectionTo(levels, level - 1)| + 32 * index && end == start + 32
    ensures end <= |section| && section[start..end] == levels[level][index]
  {
    SectionAt(levels, height, level, index, start, end);
  }

  lemma ReadsSlot(section: seq<Byte>, leafCount: nat, height: nat, level: nat, index: nat, start: nat, end: nat,
                  d: Digest)
    requires 1 <= level <= height && Pow2(height - level + 1) <= leafCount
    requires start == Position(leafCount, height, level, index) && end == start + 32 <= |section|
    requires section[start..end] == d
    ensures ReadSectionHash(section, leafCount, height, level, index) == d
  {
  }
}
