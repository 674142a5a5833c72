/**
 Range proofs: collecting the siblings of a range, replaying them to a root, verifying and
 extracting. The digest function is a parameter, so completeness holds for every hash, and
 soundness asks only that the finitely many inputs hashed on the two sides do not collide.
 */
module MerkleProofs {
  import opened Bytes
  import opened MerkleTree
  import opened MerklePlan

  datatype ArchiveError =
    | MissingLeftSibling | MissingRightSibling | UnusedSiblings | NotOneRoot
    | RangeOverflow | RangeExceedsPayload | BlockCountMismatch | RootMismatch | BytesDoNotCover
    | InvalidBlockSize | SizeLimit(limit: nat)
    | Panic  // a slice index or subtraction out of range: the program aborts

  datatype Result<+T> = Ok(value: T) | Err(error: ArchiveError)

  // ---------- Replay ----------

  /** The children hashed together at one level. */
  datatype Paired = Paired(pairs: seq<(Digest, Digest)>, rest: seq<Digest>)

  /** Pairs the hashes of nodes `lo, lo + 1, ...` with each other or with the next sibling. */
  function Pair(lo: nat, hashes: seq<Digest>, siblings: seq<Digest>): Result<Paired>
    decreases |hashes|
  {
    if hashes == [] then Ok(Paired([], siblings))
    else if lo % 2 == 1 then
      if siblings == [] then Err(MissingLeftSibling)
      else Join((siblings[0], hashes[0]), Pair(lo + 1, hashes[1..], siblings[1..]))
    else if |hashes| > 1 then
      Join((hashes[0], hashes[1]), Pair(lo + 2, hashes[2..], siblings))
    else if siblings == [] then Err(MissingRightSibling)
    else Ok(Paired([(hashes[0], siblings[0])], siblings[1..]))
  }

  function Join(pair: (Digest, Digest), rest: Result<Paired>): Result<Paired> {
    match rest
    case Ok(p) => Ok(Paired([pair] + p.pairs, p.rest))
    case Err(e) => Err(e)
  }

  function Combine(h: HashFn, pairs: seq<(Digest, Digest)>): (hashes: seq<Digest>)
    ensures |hashes| == |pairs|
  {
    seq<Digest>(|pairs|, i requires 0 <= i < |pairs| => h(NodeInput(pairs[i].0, pairs[i].1)))
  }

  /** Replays `height` levels above the hashes of nodes `lo, lo + 1, ...`. */
  function Replay(h: HashFn, lo: nat, height: nat, hashes: seq<Digest>, siblings: seq<Digest>): Result<Digest> {
    if height == 0 then
      if siblings != [] then Err(UnusedSiblings)
      else if |hashes| != 1 then Err(NotOneRoot)
      else Ok(hashes[0])
    else
      match Pair(lo, hashes, siblings)
      case Err(e) => Err(e)
      case Ok(p) => Replay(h, lo / 2, height - 1, Combine(h, p.pairs), p.rest)
  }

  lemma {:induction false} PairLength(lo: nat, hashes: seq<Digest>, siblings: seq<Digest>)
    requires hashes != [] && Pair(lo, hashes, siblings).Ok?
    ensures |Pair(lo, hashes, siblings).value.pairs| == (lo + |hashes| - 1) / 2 - lo / 2 + 1
    decreases |hashes|
  {
    if lo % 2 == 1 && |hashes| > 1 {
      PairLength(lo + 1, hashes[1..], siblings[1..]);
    } else if lo % 2 == 0 && |hashes| > 2 {
      PairLength(lo + 2, hashes[2..], siblings);
    }
  }

  method ReplayRoot(h: HashFn, coveredHashes: seq<Digest>, first: nat, last: nat, height: nat, siblings: seq<Digest>)
    returns (r: Result<Digest>)
    requires first <= last && |coveredHashes| == last - first + 1
    ensures r == Replay(h, first, height, coveredHashes, siblings)
  {
    var plan := ComputePlan(first, last, height);
    var levelHashes := coveredHashes;
    var cursor: nat := 0;
    ghost var lo, hi := first, last;
    var level := 0;
    while level < |plan|
      invariant level <= |plan| == height && cursor <= |siblings|
      invariant lo <= hi && |levelHashes| == hi - lo + 1
      invariant plan[level..] == Plan(lo, hi, height - level)
      invariant Replay(h, lo, height - level, levelHashes, siblings[cursor..])
             == Replay(h, first, height, coveredHashes, siblings)
    {
      assert plan[level] == plan[level..][0];
      var step := ReplayLevel(h, plan[level].covered, levelHashes, siblings, cursor, lo);
      if step.Err? {
        return Err(step.error);
      }
      PairLength(lo, levelHashes, siblings[cursor..]);
      assert plan[level..][1..] == plan[level + 1..];
      levelHashes, cursor := step.value.0, step.value.1;
      lo, hi := lo / 2, hi / 2;
      level := level + 1;
    }
    if cursor != |siblings| {
      return Err(UnusedSiblings);
    }
    if |levelHashes| != 1 {
      return Err(NotOneRoot);
    }
    return Ok(levelHashes[0]);
  }

  /** One level of `replay_root`: walks the covered indices, moving `position` and `cursor`. */
  method ReplayLevel(h: HashFn, covered: seq<nat>, levelHashes: seq<Digest>, siblings: seq<Digest>, start: nat,
                     ghost lo: nat)
    returns (r: Result<(seq<Digest>, nat)>)
    requires |covered| == |levelHashes| && start <= |siblings|
    requires forall i :: 0 <= i < |covered| ==> covered[i] == lo + i
    ensures match Pair(lo, levelHashes, siblings[start..])
            case Err(e) => r == Err(e)
            case Ok(p) => r.Ok? && r.value.0 == Combine(h, p.pairs) && r.value.1 <= |siblings| &&
                          p.rest == siblings[r.value.1..]
  {
    var nextHashes: seq<Digest>, position: nat, cursor: nat := [], 0, start;
    ghost var done: seq<(Digest, Digest)> := [];
    ghost var goal := Pair(lo, levelHashes, siblings[start..]);
    assert levelHashes[0..] == levelHashes;
    PrependNone(goal);
    while position < |covered|
      invariant position <= |covered| && cursor <= |siblings|
      invariant nextHashes == Combine(h, done)
      invariant goal == Prepend(done, Pair(lo + position, levelHashes[position..], siblings[cursor..]))
    {
      var step := ReplayPair(covered, levelHashes, siblings, position, cursor, lo);
      if step.Err? {
        return Err(step.error);
      }
      var (pair, next, behind) := step.value;
      nextHashes := nextHashes + [h(NodeInput(pair.0, pair.1))];
      PrependJoin(done, pair, Pair(lo + next, levelHashes[next..], siblings[behind..]));
      done := done + [pair];
      position, cursor := next, behind;
    }
    return Ok((nextHashes, cursor));
  }

  /** Pairs the covered node at `position` with its partner, covered or carried: the pair and what is left. */
  method ReplayPair(covered: seq<nat>, levelHashes: seq<Digest>, siblings: seq<Digest>, position: nat, cursor: nat,
                    ghost lo: nat)
    returns (r: Result<((Digest, Digest), nat, nat)>)
    requires position < |covered| == |levelHashes| && cursor <= |siblings|
    requires forall i :: 0 <= i < |covered| ==> covered[i] == lo + i
    ensures match r
      case Err(e) => Pair(lo + position, levelHashes[position..], siblings[cursor..]) == Err(e)
      case Ok((pair, next, behind)) =>
        && position < next <= |covered| && cursor <= behind <= |siblings|
        && Pair(lo + position, levelHashes[position..], siblings[cursor..])
           == Join(pair, Pair(lo + next, levelHashes[next..], siblings[behind..]))
  {
    var index := covered[position];
    PairStep(lo + position, levelHashes[position..], siblings[cursor..]);
    if index % 2 == 1 {
      if cursor >= |siblings| {
        return Err(MissingLeftSibling);
      }
      r := Ok(((siblings[cursor], levelHashes[position]), position + 1, cursor + 1));
      RestOfRest(siblings, cursor, 1);
    } else if position + 1 < |covered| && covered[position + 1] == index + 1 {
      r := Ok(((levelHashes[position], levelHashes[position + 1]), position + 2, cursor));
      RestOfRest(siblings, cursor, 0);
    } else {
      if cursor >= |siblings| {
        return Err(MissingRightSibling);
      }
      r := Ok(((levelHashes[position], siblings[cursor]), position + 1, cursor + 1));
      RestOfRest(siblings, cursor, 1);
    }
    RestOfRest(levelHashes, position, r.value.1 - position);
  }

  ghost function Prepend(done: seq<(Digest, Digest)>, rest: Result<Paired>): Result<Paired> {
    match rest
    case Ok(p) => Ok(Paired(done + p.pairs, p.rest))
    case Err(e) => Err(e)
  }

  /** One iteration of the walk: what it takes, and what is left. */
  lemma PairStep(lo: nat, hashes: seq<Digest>, siblings: seq<Digest>)
    requires hashes != []
    ensures lo % 2 == 1 && siblings != [] ==>
      Pair(lo, hashes, siblings) == Join((siblings[0], hashes[0]), Pair(lo + 1, hashes[1..], siblings[1..]))
    ensures lo % 2 == 0 && |hashes| > 1 ==>
      Pair(lo, hashes, siblings) == Join((hashes[0], hashes[1]), Pair(lo + 2, hashes[2..], siblings[0..]))
    ensures lo % 2 == 0 && |hashes| == 1 && siblings != [] ==>
      Pair(lo, hashes, siblings) == Join((hashes[0], siblings[0]), Pair(lo + 1, hashes[1..], siblings[1..]))
  {
    assert siblings[0..] == siblings;
    if |hashes| == 1 && siblings != [] {
      assert [(hashes[0], siblings[0])] + [] == [(hashes[0], siblings[0])];
    }
  }

  lemma RestOfRest<T>(s: seq<T>, i: nat, k: nat)
    requires i + k <= |s|
    ensures s[i..][k..] == s[i + k..]
  {
  }

  lemma PrependNone(rest: Result<Paired>)
    ensures Prepend([], rest) == rest
  {
    if rest.Ok? {
      assert [] + rest.value.pairs == rest.value.pairs;
    }
  }

  lemma PrependJoin(done: seq<(Digest, Digest)>, pair: (Digest, Digest), rest: Result<Paired>)
    ensures Prepend(done, Join(pair, rest)) == Prepend(done + [pair], rest)
  {
    if rest.Ok? {
      assert done + ([pair] + rest.value.pairs) == (done + [pair]) + rest.value.pairs;
    }
  }

  // ---------- Honest siblings ----------

  /** The digests of the siblings of nodes `lo..=hi` of one level. */
  function SiblingDigests(level: seq<Digest>, lo: nat, hi: nat): seq<Digest>
    requires lo <= hi < |level| && |level| % 2 == 0
  {
    (if lo % 2 == 1 then [level[lo - 1]] else []) + (if hi % 2 == 0 then [level[hi + 1]] else [])
  }

  /** The digests a proof carries for nodes `lo..=hi` of level `l` and everything above. */
  function HonestSiblings(levels: seq<seq<Digest>>, height: nat, l: nat, lo: nat, hi: nat): seq<Digest>
    requires Complete(levels, height) && l <= height && lo <= hi < Pow2(height - l)
    decreases height - l
  {
    if l == height then []
    else
      assert Wide(levels, height, l);
      SiblingDigests(levels[l], lo, hi) + HonestSiblings(levels, height, l + 1, lo / 2, hi / 2)
  }

  /** The children of the nodes `p..q` of the level above. */
  function Children(level: seq<Digest>, p: nat, q: nat): (pairs: seq<(Digest, Digest)>)
    requires p <= q && 2 * q <= |level|
    ensures |pairs| == q - p
    decreases q - p
  {
    if p == q then []
    else [(level[2 * p], level[2 * p + 1])] + Children(level, p + 1, q)
  }

  /** On honest siblings the walk consumes exactly this level's and yields every pair of children. */
  lemma PairHonest(level: seq<Digest>, lo: nat, hi: nat, rest: seq<Digest>)
    requires lo <= hi < |level| && |level| % 2 == 0
    ensures Pair(lo, level[lo..hi + 1], SiblingDigests(level, lo, hi) + rest)
         == Ok(Paired(Children(level, lo / 2, hi / 2 + 1), rest))
  {
    if lo % 2 == 0 {
      PairHonestEven(level, lo, hi, rest);
    } else if lo == hi {
      PairHonestOne(level, lo, rest);
    } else {
      var hashes, siblings := level[lo..hi + 1], SiblingDigests(level, lo, hi) + rest;
      PairStep(lo, hashes, siblings);
      assert hashes[1..] == level[lo + 1..hi + 1];
      assert siblings[1..] == SiblingDigests(level, lo + 1, hi) + rest;
      PairHonestEven(level, lo + 1, hi, rest);
    }
  }

  /** A single covered node is paired with its partner. */
  lemma PairHonestOne(level: seq<Digest>, lo: nat, rest: seq<Digest>)
    requires lo < |level| && |level| % 2 == 0
    ensures Pair(lo, level[lo..lo + 1], SiblingDigests(level, lo, lo) + rest)
         == Ok(Paired(Children(level, lo / 2, lo / 2 + 1), rest))
  {
    var siblings := SiblingDigests(level, lo, lo) + rest;
    PairStep(lo, [level[lo]], siblings);
    assert level[lo..lo + 1] == [level[lo]];
    PairLast(level, lo, [level[lo]][1..], siblings[1..], rest);
  }

  lemma {:induction false} PairHonestEven(level: seq<Digest>, lo: nat, hi: nat, rest: seq<Digest>)
    requires lo <= hi < |level| && |level| % 2 == 0 && lo % 2 == 0
    ensures Pair(lo, level[lo..hi + 1], SiblingDigests(level, lo, hi) + rest)
         == Ok(Paired(Children(level, lo / 2, hi / 2 + 1), rest))
    decreases hi - lo
  {
    if lo == hi {
      PairHonestOne(level, lo, rest);
    } else {
      var p, q := lo / 2, hi / 2 + 1;
      var siblings := SiblingDigests(level, lo, hi) + rest;
      PairTwo(level, lo, hi, siblings);
      if lo + 1 == hi {
        PairLast(level, lo, level[lo + 2..hi + 1], siblings, rest);
      } else {
        PairHonestEven(level, lo + 2, hi, rest);
      }
      FirstChildren(level, p, q, rest);
    }
  }

  /** Two covered nodes with the same parent are paired with each other. */
  lemma PairTwo(level: seq<Digest>, lo: nat, hi: nat, siblings: seq<Digest>)
    requires lo + 1 <= hi < |level| && lo % 2 == 0
    ensures Pair(lo, level[lo..hi + 1], siblings)
         == Join((level[lo], level[lo + 1]), Pair(lo + 2, level[lo + 2..hi + 1], siblings))
  {
    var hashes := level[lo..hi + 1];
    PairStep(lo, hashes, siblings);
    assert hashes[2..] == level[lo + 2..hi + 1] && siblings[0..] == siblings;
  }

  lemma FirstChildren(level: seq<Digest>, p: nat, q: nat, rest: seq<Digest>)
    requires p < q && 2 * q <= |level|
    ensures Join((level[2 * p], level[2 * p + 1]), Ok(Paired(Children(level, p + 1, q), rest)))
         == Ok(Paired(Children(level, p, q), rest))
  {
  }

  /** The walk ends after the last parent. */
  lemma PairLast(level: seq<Digest>, lo: nat, hashes: seq<Digest>, left: seq<Digest>, rest: seq<Digest>)
    requires lo < |level| && |level| % 2 == 0 && hashes == [] && left == rest
    ensures forall next: nat :: Pair(next, hashes, left) == Ok(Paired([], rest))
    ensures Children(level, lo / 2 + 1, lo / 2 + 1) == []
  {
  }

  lemma {:induction false} ChildrenAt(level: seq<Digest>, p: nat, q: nat, i: nat)
    requires p + i < q && 2 * q <= |level|
    ensures Children(level, p, q)[i] == (level[2 * (p + i)], level[2 * (p + i) + 1])
    decreases i
  {
    if i > 0 {
      ChildrenAt(level, p + 1, q, i - 1);
    }
  }

  lemma CombineChildren(h: HashFn, level: seq<Digest>, p: nat, q: nat)
    requires p <= q && 2 * q <= |level|
    ensures Combine(h, Children(level, p, q)) == Parents(h, level)[p..q]
  {
    var combined, parents := Combine(h, Children(level, p, q)), Parents(h, level);
    forall i | 0 <= i < q - p ensures combined[i] == parents[p..q][i] {
      ChildrenAt(level, p, q, i);
      assert parents[p + i] == h(NodeInput(level[2 * (p + i)], level[2 * (p + i) + 1]));
    }
  }

  /** Replaying honest hashes consumes the siblings in plan order and collapses to the root. */
  lemma {:induction false} ReplayHonest(h: HashFn, levels: seq<seq<Digest>>, height: nat, l: nat, lo: nat, hi: nat)
    requires Tree(h, levels) && |levels| == height + 1 && l <= height && lo <= hi < Pow2(height - l)
    ensures Complete(levels, height) && hi < |levels[l]|
    ensures Replay(h, lo, height - l, levels[l][lo..hi + 1], HonestSiblings(levels, height, l, lo, hi))
         == Ok(Root(h, levels))
    decreases height - l
  {
    TreeIsComplete(h, levels);
    assert Wide(levels, height, l);
    if l < height {
      ReplayHonestLevel(h, levels, height, l, lo, hi);
      ReplayHonest(h, levels, height, l + 1, lo / 2, hi / 2);
    }
  }

  lemma ReplayHonestLevel(h: HashFn, levels: seq<seq<Digest>>, height: nat, l: nat, lo: nat, hi: nat)
    requires Tree(h, levels) && |levels| == height + 1 && Complete(levels, height)
    requires l < height && lo <= hi < Pow2(height - l)
    ensures Wide(levels, height, l) && Wide(levels, height, l + 1)
    ensures Replay(h, lo, height - l, levels[l][lo..hi + 1], HonestSiblings(levels, height, l, lo, hi))
         == Replay(h, lo / 2, height - (l + 1), levels[l + 1][lo / 2..hi / 2 + 1],
                   HonestSiblings(levels, height, l + 1, lo / 2, hi / 2))
  {
    assert Wide(levels, height, l) && Wide(levels, height, l + 1);
    assert levels[l + 1] == Parents(h, levels[l]) by {
      assert LevelBuilt(h, levels, height, l + 1);
    }
    ReplayPairs(h, levels[l], levels[l + 1], lo, hi, height - l, HonestSiblings(levels, height, l + 1, lo / 2, hi / 2));
  }

  lemma ReplayPairs(h: HashFn, level: seq<Digest>, above: seq<Digest>, lo: nat, hi: nat, height: nat, rest: seq<Digest>)
    requires lo <= hi < |level| && |level| % 2 == 0 && above == Parents(h, level) && height > 0
    ensures Replay(h, lo, height, level[lo..hi + 1], SiblingDigests(level, lo, hi) + rest)
         == Replay(h, lo / 2, height - 1, above[lo / 2..hi / 2 + 1], rest)
  {
    PairHonest(level, lo, hi, rest);
    CombineChildren(h, level, lo / 2, hi / 2 + 1);
  }

  // ---------- Proofs ----------

  datatype MerkleProof = MerkleProof(
    offset: nat, len: nat, blockSize: nat, blockCount: nat, payloadLen: nat,
    blocks: seq<seq<Byte>>, siblings: seq<Digest>, root: Digest)

  /**
   What the field types and constructors guarantee of any proof value: 64-bit fields and a block
   size that is never zero; block counts past `2^63` would overflow `tree_height`.
   */
  predicate WellTyped(p: MerkleProof) {
    && p.offset < U64_LIMIT && p.len < U64_LIMIT && p.payloadLen < U64_LIMIT
    && 0 < p.blockSize < U32_LIMIT
    && p.blockCount <= U63_LIMIT
  }

  function FirstBlock(offset: nat, blockSize: nat): nat
    requires blockSize > 0
  {
    offset / blockSize
  }

  function LastBlock(offset: nat, len: nat, blockSize: nat): (last: nat)
    requires blockSize > 0
    ensures FirstBlock(offset, blockSize) <= last
  {
    if len == 0 then FirstBlock(offset, blockSize)
    else
      DivMonotone(offset, offset + len - 1, blockSize);
      (offset + len - 1) / blockSize
  }

  function LeafHashes(h: HashFn, first: nat, blocks: seq<seq<Byte>>): (hashes: seq<Digest>)
    ensures |hashes| == |blocks|
  {
    seq<Digest>(|blocks|, i requires 0 <= i < |blocks| => h(LeafInput(first + i, blocks[i])))
  }

  /** The root a proof's own blocks and siblings replay to. */
  function ReplayedRoot(h: HashFn, p: MerkleProof): Result<Digest>
    requires p.blockSize > 0
  {
    var first := FirstBlock(p.offset, p.blockSize);
    Replay(h, first, Height(p.blockCount), LeafHashes(h, first, p.blocks), p.siblings)
  }

  /** The range checks of `verify` and `build_proof`. */
  function CheckRange(offset: nat, len: nat, payloadLen: nat): Result<()> {
    if offset + len >= U64_LIMIT then Err(RangeOverflow)
    else if offset >= payloadLen || offset + len > payloadLen then Err(RangeExceedsPayload)
    else Ok(())
  }

  function CoveredCount(p: MerkleProof): nat
    requires p.blockSize > 0
  {
    LastBlock(p.offset, p.len, p.blockSize) - FirstBlock(p.offset, p.blockSize) + 1
  }

  function VerifyOutcome(h: HashFn, p: MerkleProof): Result<()>
    requires p.blockSize > 0
  {
    var range := CheckRange(p.offset, p.len, p.payloadLen);
    if range.Err? then range
    else if CoveredCount(p) != |p.blocks| then Err(BlockCountMismatch)
    else match ReplayedRoot(h, p)
      case Err(e) => Err(e)
      case Ok(root) => if root != p.root then Err(RootMismatch) else Ok(())
  }

  method Verify(h: HashFn, p: MerkleProof) returns (r: Result<()>)
    requires WellTyped(p)
    ensures r == VerifyOutcome(h, p)
  {
    var height := TreeHeight(p.blockCount);
    var end := p.offset + p.len;
    if end >= U64_LIMIT {
      return Err(RangeOverflow);
    }
    if p.offset >= p.payloadLen || end > p.payloadLen {
      return Err(RangeExceedsPayload);
    }
    var firstBlock := p.offset / p.blockSize;
    var lastBlock := LastBlock(p.offset, p.len, p.blockSize);
    var covered := lastBlock - firstBlock + 1;
    if covered != |p.blocks| {
      return Err(BlockCountMismatch);
    }
    var hashes := HashBlocks(h, firstBlock, p.blocks);
    var root := ReplayRoot(h, hashes, firstBlock, lastBlock, height, p.siblings);
    assert root == ReplayedRoot(h, p);
    if root.Err? {
      return Err(root.error);
    }
    if root.value != p.root {
      return Err(RootMismatch);
    }
    return Ok(());
  }

  method HashBlocks(h: HashFn, first: nat, blocks: seq<seq<Byte>>) returns (hashes: seq<Digest>)
    ensures hashes == LeafHashes(h, first, blocks)
  {
    hashes := [];
    var index := 0;
    while index < |blocks|
      invariant index <= |blocks|
      invariant hashes == LeafHashes(h, first, blocks)[..index]
    {
      hashes := hashes + [h(LeafInput(first + index, blocks[index]))];
      index := index + 1;
    }
  }

  // ---------- Extraction ----------

  /** The bytes gathered from carried blocks, and how many are still wanted. */
  datatype Gathered = Gathered(bytes: seq<Byte>, remaining: nat)

  function Gather(blocks: seq<seq<Byte>>, start: nat, remaining: nat): Result<Gathered> {
    if blocks == [] then Ok(Gathered([], remaining))
    else if |blocks[0]| < start then Err(Panic)
    else
      var take := Min(|blocks[0]| - start, remaining);
      After(blocks[0][start..start + take], Gather(blocks[1..], 0, remaining - take))
  }

  function After(out: seq<Byte>, rest: Result<Gathered>): Result<Gathered> {
    match rest
    case Err(e) => Err(e)
    case Ok(g) => Ok(Gathered(out + g.bytes, g.remaining))
  }

  function ExtractOutcome(h: HashFn, p: MerkleProof): Result<seq<Byte>>
    requires p.blockSize > 0
  {
    match VerifyOutcome(h, p)
    case Err(e) => Err(e)
    case Ok(_) =>
      match Gather(p.blocks, p.offset % p.blockSize, p.len)
      case Err(e) => Err(e)
      case Ok(g) => if g.remaining != 0 then Err(BytesDoNotCover) else Ok(g.bytes)
  }

  method Extract(h: HashFn, p: MerkleProof) returns (r: Result<seq<Byte>>)
    requires WellTyped(p)
    ensures r == ExtractOutcome(h, p)
  {
    var verdict := Verify(h, p);
    if verdict.Err? {
      return Err(verdict.error);
    }
    var gathered := GatherBlocks(p.blocks, p.offset % p.blockSize, p.len);
    if gathered.Err? {
      return Err(gathered.error);
    }
    if gathered.value.remaining != 0 {
      return Err(BytesDoNotCover);
    }
    return Ok(gathered.value.bytes);
  }

  /** The loop of `extract`. */
  method GatherBlocks(blocks: seq<seq<Byte>>, start: nat, len: nat) returns (r: Result<Gathered>)
    ensures r == Gather(blocks, start, len)
  {
    var remaining := len;
    var out: seq<Byte> := [];
    var index := 0;
    ghost var offset, goal := start, Gather(blocks, start, len);
    assert blocks[0..] == blocks;
    AfterNone(goal);
    while index < |blocks|
      invariant index <= |blocks|
      invariant offset == if index == 0 then start else 0
      invariant goal == After(out, Gather(blocks[index..], offset, remaining))
    {
      var block := blocks[index];
      var blockOffset := if index == 0 then start else 0;
      GatherStep(blocks, index, offset, remaining);
      if |block| < blockOffset {
        return Err(Panic);
      }
      var take := Min(|block| - blockOffset, remaining);
      var piece := block[blockOffset..blockOffset + take];
      AfterAppend(out, piece, Gather(blocks[index + 1..], 0, remaining - take));
      out := out + piece;
      remaining := remaining - take;
      index, offset := index + 1, 0;
    }
    assert out + [] == out;
    return Ok(Gathered(out, remaining));
  }

  lemma GatherStep(blocks: seq<seq<Byte>>, index: nat, start: nat, remaining: nat)
    requires index < |blocks|
    ensures |blocks[index]| < start ==> Gather(blocks[index..], start, remaining) == Err(Panic)
    ensures |blocks[index]| >= start ==>
      var take := Min(|blocks[index]| - start, remaining);
      Gather(blocks[index..], start, remaining)
      == After(blocks[index][start..start + take], Gather(blocks[index + 1..], 0, remaining - take))
  {
    assert blocks[index..][1..] == blocks[index + 1..];
  }

  lemma AfterNone(rest: Result<Gathered>)
    ensures After([], rest) == rest
  {
    if rest.Ok? {
      assert [] + rest.value.bytes == rest.value.bytes;
    }
  }

  lemma AfterAppend(out: seq<Byte>, more: seq<Byte>, rest: Result<Gathered>)
    ensures After(out, After(more, rest)) == After(out + more, rest)
  {
    if rest.Ok? {
      assert out + (more + rest.value.bytes) == (out + more) + rest.value.bytes;
    }
  }
}
