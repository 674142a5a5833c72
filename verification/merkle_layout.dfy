/**
 What the digests of an archive tree are digests of, byte by byte: the domain byte, the order of two
 children, the block number with its most significant byte first, and the block itself.
 */
module MerkleLayout {
  import opened Bytes
  import opened MerkleTree

  /** A node above the leaves hashes byte 1, then its left child, then its right child. */
  lemma NodeBytes(h: HashFn, payload: seq<Byte>, blockSize: nat, levels: seq<seq<Digest>>, l: nat, i: nat)
      returns (x: seq<Byte>)
    requires blockSize > 0 && ArchiveTree(h, payload, blockSize, levels)
    requires 0 < l < |levels| && i < |levels[l]|
    ensures 2 * i + 1 < |levels[l - 1]| && levels[l][i] == h(x)
    ensures |x| == 65 && x[0] == 1 && x[1..33] == levels[l - 1][2 * i] && x[33..65] == levels[l - 1][2 * i + 1]
  {
    assert LevelBuilt(h, levels, |levels| - 1, l) && LevelBuilt(h, levels, |levels| - 1, l - 1);
    x := NodeInput(levels[l - 1][2 * i], levels[l - 1][2 * i + 1]);
  }

  /** Eight bytes, the most significant first. */
  predicate IsBigEndian(n: nat, x: seq<Byte>)
    requires |x| == 8
  {
    n == (x[7] as nat) + (x[6] as nat) * 0x100 + (x[5] as nat) * 0x1_0000 + (x[4] as nat) * 0x100_0000
         + (x[3] as nat) * 0x1_0000_0000 + (x[2] as nat) * 0x100_0000_0000
         + (x[1] as nat) * 0x1_0000_0000_0000 + (x[0] as nat) * 0x100_0000_0000_0000
  }

  /** The top four bytes and the low four bytes. */
  lemma EightBytes(n: nat)
    requires n < U64_LIMIT
    ensures IsBigEndian(n, BeBytes(n, 8))
  {
    var n1 := n / 256;
    var n2 := n1 / 256;
    var n3 := n2 / 256;
    var n4 := n3 / 256;
    BeSplit(n, n1, n2, n3, n4, 4);
    LowDigits(n, n1, n2, n3, n4);
    FourBytes(n4);
    EightFromFour(BeBytes(n, 8), BeBytes(n4, 4), n, n1, n2, n3, n4);
  }

  lemma EightFromFour(x: seq<Byte>, y: seq<Byte>, n: nat, n1: nat, n2: nat, n3: nat, n4: nat)
    requires |y| == 4 && x == y + [n3 % 256, n2 % 256, n1 % 256, n % 256]
    requires n == n % 256 + n1 % 256 * 0x100 + n2 % 256 * 0x1_0000 + n3 % 256 * 0x100_0000 + n4 * 0x1_0000_0000
    requires n4 == (y[3] as nat) + (y[2] as nat) * 0x100 + (y[1] as nat) * 0x1_0000 + (y[0] as nat) * 0x100_0000
    ensures |x| == 8 && IsBigEndian(n, x)
  {
  }

  /** Four bytes taken off the low end. */
  lemma BeSplit(n: nat, n1: nat, n2: nat, n3: nat, n4: nat, width: nat)
    requires n1 == n / 256 && n2 == n1 / 256 && n3 == n2 / 256 && n4 == n3 / 256
    ensures BeBytes(n, width + 4) == BeBytes(n4, width) + [n3 % 256, n2 % 256, n1 % 256, n % 256]
  {
    assert BeBytes(n, width + 4) == BeBytes(n1, width + 3) + [n % 256];
    assert BeBytes(n1, width + 3) == BeBytes(n2, width + 2) + [n1 % 256];
    assert BeBytes(n2, width + 2) == BeBytes(n3, width + 1) + [n2 % 256];
    assert BeBytes(n3, width + 1) == BeBytes(n4, width) + [n3 % 256];
  }

  lemma LowDigits(n: nat, n1: nat, n2: nat, n3: nat, n4: nat)
    requires n1 == n / 256 && n2 == n1 / 256 && n3 == n2 / 256 && n4 == n3 / 256
    ensures n == n % 256 + n1 % 256 * 0x100 + n2 % 256 * 0x1_0000 + n3 % 256 * 0x100_0000 + n4 * 0x1_0000_0000
  {
  }

  lemma FourBytes(n: nat)
    requires n < 0x1_0000_0000
    ensures var x := BeBytes(n, 4);
      n == (x[3] as nat) + (x[2] as nat) * 0x100 + (x[1] as nat) * 0x1_0000 + (x[0] as nat) * 0x100_0000
  {
    var n1 := n / 256;
    var n2 := n1 / 256;
    var n3 := n2 / 256;
    BeSplit(n, n1, n2, n3, n3 / 256, 0);
    LowDigits(n, n1, n2, n3, n3 / 256);
    assert BeBytes(n3 / 256, 0) == [];
  }

  /**
   A leaf of the payload hashes byte 0, its number and its block, which is short only at the end;
   a leaf beyond the payload hashes byte 2 and its number.
   */
  lemma LeafBytes(h: HashFn, payload: seq<Byte>, blockSize: nat, levels: seq<seq<Digest>>, i: nat)
      returns (x: seq<Byte>)
    requires blockSize > 0 && ArchiveTree(h, payload, blockSize, levels) && i < |levels[0]| && i < U64_LIMIT
    ensures levels[0][i] == h(x) && |x| >= 9 && IsBigEndian(i, x[1..9])
    ensures i * blockSize < |payload| ==>
      x[0] == 0 && x[9..] == payload[i * blockSize..Min(i * blockSize + blockSize, |payload|)]
    ensures payload == [] && i == 0 ==> x[0] == 0 && |x| == 9
    ensures i * blockSize >= |payload| && i > 0 ==> x[0] == 2 && |x| == 9
  {
    x := LeafPreimage(payload, blockSize, i);
    EightBytes(i);
    if payload != [] {
      BlockStarts(|payload|, blockSize, i);
    }
    assert x[1..9] == BeBytes(i, 8);
  }

  /** As many leaves as the least power of two that holds the blocks, and one digest at the top. */
  lemma TreeWidth(h: HashFn, payload: seq<Byte>, blockSize: nat, levels: seq<seq<Digest>>)
    requires blockSize > 0 && ArchiveTree(h, payload, blockSize, levels)
    ensures |levels[0]| == Pow2(|levels| - 1) && levels[|levels| - 1] == [Root(h, levels)]
    ensures |payload| <= |levels[0]| * blockSize
    ensures |levels| > 1 ==> |levels[0]| / 2 * blockSize < |payload|
  {
    var count := BlockCount(|payload|, blockSize);
    assert LevelBuilt(h, levels, |levels| - 1, 0) && LevelBuilt(h, levels, |levels| - 1, |levels| - 1);
    HeightIsLeast(count);
    if payload != [] {
      BlockStarts(|payload|, blockSize, |levels[0]|);
      if |levels| > 1 {
        assert |levels[0]| / 2 == Pow2(|levels| - 2);
        BlockStarts(|payload|, blockSize, |levels[0]| / 2);
      }
    }
  }

  /** The section holds level 1 first and the root last: level `l` lies behind all nodes between it and the leaves. */
  lemma SlotBytes(levels: seq<seq<Digest>>, height: nat, l: nat, index: nat, below: nat, slot: nat)
    requires Complete(levels, height) && 1 <= l <= height && index < Pow2(height - l)
    requires below == Pow2(height) - Pow2(height - l + 1) && slot == 32 * (below + index)
    ensures index < |levels[l]| && slot + 32 <= |Section(levels)| == 32 * (Pow2(height) - 1)
    ensures Section(levels)[slot..slot + 32] == levels[l][index]
  {
    SectionIsIndex(levels, height, l, index);
  }
}
