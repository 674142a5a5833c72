# RustBinary: models and proofs

A Dafny model of the algorithmic cores of the RustBinary codec, with proofs of what they promise.
`dafny verify dfyconfig.toml` checks the whole project.

| component | files | what is proved of it |
|---|---|---|
| Merkle archive proofs | `merkle_tree`, `merkle_layout`, `merkle_plan`, `merkle_proof`, `merkle_theorems` | the bytes under every digest; the stored hash section is a faithful index; every proof that is built verifies and extracts the requested bytes; every proof that verifies carries the archive's own blocks |
| BLAKE3 streaming hasher | `blake3_tree`, `blake3_reference`, `blake3` | however the input is split, the digest is the recursive left-balanced tree hash, and that of a reference with every flag written out |
| LZ77 codec | `lz_tokens`, `lz_greedy`, `lz_stream`, `lz_layout`, `lz`, `bits` | the hash-chain matcher emits the one token list that is greedy at every position; compression round-trips for every hash, level and cap |
| Poly1305 | `poly1305_limbs`, `poly1305`, `poly1305_polynomial` | the limbs stay in bounds and hold the message's polynomial, an indexed sum, modulo 2^130 - 5; when the tag is the one of RFC 8439, and when not |
| Canonical integers | `canonical`, `varint_layout`, `bytes` | the marker varint is a bijection onto the accepted byte strings; ZigZag is a bijection |
| Compact profile | `compact_wire`, `compact_layout`, `compact_order`, `compact_theorems`, `compact_cursor`, `compact_decode`, `compact_encode`, `utf` | round trip over a recursive universe of types; strict decoding accepts exactly the encodings, but for unsorted maps; the bulk paths refine the single-value ones |
| Adaptive integer frames | `adaptive_frames`, `adaptive_layout`, `adaptive` | every strategy decodes to the list; predicted sizes are exact; the exact mode is minimal |
| Self-describing profile | `tagged`, `tagged_theorems`, `tagged_values`, `tagged_limits`, `tagged_outline`, `tagged_machines`, `tagged_encoder` | reading and emitting are inverse, values included; when the decoder's flat skip and the probe's recursive walk both succeed, and that they then stop at the same byte; the probe is exact on emitted bytes |
| Differential frames | `delta_frames`, `delta_layout`, `delta` | two peers' tables stay equal over any run of accepted frames |
| IBLT | `ibl_group`, `ibl_cells`, `ibl` | tables are an abelian group; common elements cancel; peeling conserves the table; where decoding stops, by counts |

The files named after a component hold its state: classes and methods that update cursors, arrays,
tables and buffers in place, each with an `ensures` that equates the new state or the result with a
specification function. The specification functions and the theorems about them are in the files
beside them. The files named `layout`, `greedy`, `polynomial` and `reference` measure those functions
against a second definition that does not call them: bytes by their positions, the best of all
offers, an indexed sum, a recursion over the input. Error results are modelled kind by kind, in the order in which the code checks them.

## Parameters and assumptions

- The hash of the archive tree, the BLAKE3 compression function, the three-byte hash of the LZ77
  matcher and the key hash of the IBLT are parameters: the theorems hold for every such function.
- Merkle soundness assumes only that the finitely many inputs hashed by the builder and by the
  verification at hand do not collide. The domain separation of leaf, padding and node inputs is
  not assumed; it follows from their first byte.
- A map type of the compact profile carries the order of its keys, which is assumed to be a strict
  total order; nothing else is assumed of it. The order derived from the parts of a key is one
  (`BeforeIsStrictOrder`).
- Machine sizes are explicit: byte strings are shorter than 2^64 (2^63 where a slice is indexed
  with offsets), block counts are at most 2^63, and LZ77 inputs are shorter than 2^32 bytes.
- The self-describing profile is modelled under variable-width little-endian integers.

## Where the code and its documentation differ

The model follows the code; each of these is a lemma.

- `src/lz.rs:82-90` promises an empty result when the frame is not smaller than the input. The code
  returns one only for fewer than three bytes; from three bytes on the promise holds exactly when the
  tokens are cheap enough, which they never are up to nine bytes (`SmallerIffCheap`,
  `ThreeBytesGrow`). The chain budget is 8 at level 1 and 92 at level 22, not 4 and 96
  (`ChainBudget`).
- The Poly1305 tag is not the one of RFC 8439 when the accumulator ends at or above 2^130 - 5, nor
  when limb 2 ends at 2^26 and limb 3 is odd, because the limbs are ored without a last carry
  (`TagMatches`, `TagDiffers`).
- `src/probe.rs:18-28` promises that the probe and the decoder accept the same inputs. The probe
  accepts strings that are not UTF-8 and integers beyond 64 bits; it agrees with the skip exactly
  when the decoder can read every token (`SkipVersusWalk`, `ProbeIgnoresUtf8`). Conversely the
  decoder's skip accepts containers beyond the depth limit, entries beyond the collection limit,
  terminators beyond the byte limit, and objects whose keys are no strings or have no value; it
  agrees with the probe exactly when none of these occurs (`WalkVersusSkip`,
  `SkipIgnoresKeysAndLimit`, `SkipIgnoresDepthAndEntries`).
- Map decoding in the compact profile accepts keys in any order and so is not canonical
  (`CanonicalIffOrdered`, `UnsortedMapIsAccepted`). A non-empty `Vec<i8>` cannot be decoded at all:
  it is copied into a vector of length zero, which panics (`SignedBytesPanic`).
- Differential frames call their varint canonical (`src/delta.rs:238`); reading accepts trailing
  zero groups (`GroupsAreCanonical`). A frame refused by the byte limit has already changed the
  sender's table, unless it entered nothing or the same values again (`RefusedLeavesTable`), and
  that ends the lockstep (`RefusedFrameEndsLockstep`, `RefusedFrameDesynchronizes`).
- IBLT decoding reports success when every count is zero, whatever is left of the sums: two sets
  that differ only in the value of a key reconcile to no difference (`DifferentValuesGoUnseen`). The
  entries account for the table exactly when nothing at all is left of it (`DecodedAccounts`).

## Model

| member | source | states |
|---|---|---|
| `MerkleTree.LeafInputInjective` | src/archive.rs:446-452 | Leaf inputs determine their block number and their bytes |
| `MerkleTree.NodeInputInjective` | src/archive.rs:463-471 | Node inputs determine both children |
| `MerkleTree.TreeHeight` | src/archive.rs:473-491 | The doubling loop returns the least height whose complete tree holds the blocks |
| `MerkleTree.HeightUnique` | src/archive.rs:473-491 | A height that is large enough and least is the height of the tree |
| `MerkleTree.PreimageHashes` | src/archive.rs:492-528 | Every digest of every level is the hash of its leaf, padding or node input |
| `MerkleLayout.NodeBytes` | src/archive.rs:463-471 | Every digest above the leaves is the hash of 65 bytes: a 1, its left child, its right child, named as the nodes 2i and 2i + 1 of the level below |
| `MerkleLayout.LeafBytes` | src/archive.rs:446-461 | Every leaf digest is the hash of a 0, the block number with its most significant byte first and the block, or beyond the payload of a 2 and the number alone |
| `MerkleLayout.TreeWidth` | src/archive.rs:473-528 | The leaves are a power of two that holds the payload and whose half does not, and the root is the one digest at the top |
| `MerkleTree.MerkleLevels` | src/archive.rs:492-528 | The levels built are the leaves of the padded payload and, level by level, the hashes of neighbouring pairs |
| `MerkleTree.SerializeHashSection` | src/archive.rs:529-540 | The section holds the internal levels back to back |
| `MerkleTree.SectionIsIndex` | src/archive.rs:541-554 | In a section of (2^height - 1) * 32 bytes, the slot arithmetic for any level and index is in bounds and lands on that node |
| `MerkleLayout.SlotBytes` | src/archive.rs:529-554 | Node `index` of level `l` is at byte 32 * (2^height - 2^(height - l + 1) + index) of a section of 32 * (2^height - 1) bytes: level 1 first, the root last |
| `MerklePlan.ComputePlan` | src/archive.rs:581-616 | The loop with its sort and dedup computes the plan of contiguous ranges and their missing partners |
| `MerklePlan.ParentsOfRange` | src/archive.rs:581-616 | Halving, sorting and deduplicating a contiguous range gives the contiguous range of parents |
| `MerklePlan.PlanShape` | src/archive.rs:562-616 | At every level the covered nodes are a contiguous range; at most two siblings, the left one first, outside it, inside the tree and partners of covered nodes, complete exactly the children of the next level's range |
| `MerklePlan.TotalBound` | src/archive.rs:562-616 | A plan needs at most 2 * height hashes in all |
| `MerkleProofs.ReplayRoot` | src/archive.rs:644-700 | The cursor replay of the plan returns what pairing the hashes level by level returns, error for error |
| `MerkleProofs.ReplayLevel` | src/archive.rs:644-700 | One level consumes siblings in plan order and hashes the pairs it forms |
| `MerkleProofs.PairHonest` | src/archive.rs:644-700 | On honest siblings a level's range pairs into exactly the children of its parents, and consumes just those siblings |
| `MerkleProofs.ReplayHonest` | src/archive.rs:644-700 | From any level of a complete tree, a range and its honest siblings replay to the root with nothing left over |
| `MerkleProofs.Verify` | src/archive.rs:753-786 | Verification returns the outcome of its checks in order: range, block count, replay, root |
| `MerkleProofs.Extract` | src/archive.rs:787-803 | Extraction returns the requested bytes of the carried blocks; a block shorter than the offset into it panics |
| `MerkleTheorems.CollectSiblings` | src/archive.rs:617-643 | Siblings read from the stored section, or hashed from the payload at leaf level, are the tree's own nodes in plan order |
| `MerkleTheorems.BuildProof` | src/archive.rs:1395-1444 | An in-range request yields the proof of its covered blocks with the tree's own siblings; any other request is refused with the range error |
| `MerkleTheorems.WriteArchive` | src/archive.rs:1077-1150 | Header and section describe the tree of the payload; a block size that is no power of two of at least 32 is refused, and so is a file beyond the size limit |
| `MerkleTheorems.PowerOfTwoIsPower` | src/archive.rs:1085-1087 | The block sizes accepted as powers of two are exactly the powers of two |
| `MerkleTheorems.Completeness` | src/archive.rs:1395-1444 | For every payload, block size and in-range request, empty ranges and a short last block included, the built proof verifies and extracts exactly the requested bytes |
| `MerkleTheorems.ReplaySound` | src/archive.rs:644-700 | If a replay ends in the root and its inputs do not collide with the builder's, every hash it started from is a node of the tree |
| `MerkleTheorems.LeafInTree` | src/archive.rs:446-471 | A leaf hash found in the tree is the hash of that block number of the archive, not of padding nor of a node |
| `MerkleTheorems.Soundness` | src/archive.rs:753-803 | Any proof whatsoever that verifies against the archive's root carries exactly the archive's blocks; with the archive's block size and length it extracts exactly the requested bytes |
| `Blake3Tree.OnePerSetBit` | src/hash.rs:334-344 | There is one finished subtree per set bit of the finished chunk count |
| `Blake3Tree.LeftSizeIsPower` | src/hash.rs:334-344 | The left subtree of a node has a given size exactly when that is the power of two below the number of chunks and at least half of it |
| `Blake3Tree.FoldIsLeftBalanced` | src/hash.rs:346-357 | Folding the right edge into the finished subtrees is the left-balanced tree over all chunks (section 2.1 of the BLAKE3 specification) |
| `Blake3Tree.FoldHashes` | src/hash.rs:346-357 | Folding chaining values from the top of the stack hashes the folded tree |
| `Blake3Tree.HashOfPrefix` | src/hash.rs:315-332 | Hashes of finished subtrees do not change as the input grows |
| `Blake3Hasher.ChunkState.Update` | src/hash.rs:259-284 | Bytes are absorbed across block boundaries, a full last block staying uncompressed |
| `Blake3Hasher.ChunkState.CompressBlock` | src/hash.rs:259-284 | Compressing a full buffer advances the chaining value by that block and empties the buffer |
| `Blake3Hasher.ChunkState.ToOutput` | src/hash.rs:286-296 | The output of a chunk state is the output of the chunk it absorbed |
| `Blake3Hasher.Hasher.AddChunkChainingValue` | src/hash.rs:334-344 | Merging by trailing zero bits turns the stack for n - 1 chunks into the stack for n chunks |
| `Blake3Hasher.Hasher.Update` | src/hash.rs:315-332 | Whatever the splitting, the hasher holds the chunk and the stack of everything absorbed so far |
| `Blake3Hasher.MergeShapes` | src/hash.rs:334-344 | At an even count the newest finished subtree is as large as the one being added, and the two form the next larger one |
| `Blake3Hasher.OneCvPerSetBit` | src/hash.rs:299-344 | Between updates the stack holds one chaining value per set bit of the finished chunk count |
| `Blake3Hasher.Hasher.Finalize` | src/hash.rs:346-357 | The digest is the recursive tree hash of everything absorbed, with ROOT only at the top |
| `Blake3Hasher.Blake3Digest` | src/hash.rs:370-374 | The one-shot function is the tree hash of its input |
| `Blake3Reference.DigestIsReference` | src/hash.rs:186-205 | Every digest word is a word of the last call of a reference that recurses over the bytes with every flag written out: 1 and 2 at the ends of a chunk, 4 on parents, 8 on the last call alone |
| `Blake3Reference.RootNowhereBelow` | src/hash.rs:175-185 | For two compression functions that differ at most on calls with ROOT, all outputs and chaining values of all subtrees agree |
| `Blake3Reference.StacksAgree` | src/hash.rs:334-344 | For two compression functions that differ at most on calls with ROOT, the stacks of chaining values agree |
| `Blake3Reference.ChunkCvsAgree` | src/hash.rs:259-284 | For two compression functions that differ at most on calls with ROOT, the chaining values inside every chunk agree |
| `Blake3Reference.RootAtTop` | src/hash.rs:186-205 | If every call with ROOT returns one value, the digest of every input is the bytes of that value's low half |
| `Lz.BitWriter.WriteBit` | src/lz.rs:230-239 | One bit is appended to what was written |
| `Lz.BitWriter.WriteBits` | src/lz.rs:241-252 | The low bits of a value are appended, lowest first, through the 64-bit staging buffer |
| `Lz.BitWriter.WriteU32` | src/lz.rs:260-269 | Thirty-two bits are appended whatever the alignment |
| `Lz.BitWriter.Flush` | src/lz.rs:271-277 | Flushing whole bytes keeps what was written |
| `Lz.BitWriter.Finish` | src/lz.rs:279-286 | The bytes are every bit written and then zeros up to a whole byte |
| `Lz.BitReader.ReadBit` | src/lz.rs:304-313 | The next bit is read and removed, or the input is at its end |
| `Lz.BitReader.ReadBits` | src/lz.rs:315-322 | A field is read back as its value, or the input ends inside it |
| `Lz.BitReader.ReadU32` | src/lz.rs:324-332 | A header field of 32 bits is read back |
| `Lz.Decompress` | src/lz.rs:180-213 | Decompression returns what decoding the bit stream token by token returns, error for error |
| `Lz.CopyMatch` | src/lz.rs:180-213 | A match is copied byte by byte, so that it may overlap its own output |
| `Lz.Insert` | src/lz.rs:133-174 | Inserting a position keeps the head and prev chains exact |
| `Lz.ChainsDescend` | src/lz.rs:95-132 | Every chain strictly decreases, stays below the insertion point and within its bucket |
| `Lz.LongestMatch` | src/lz.rs:107-148 | Following the chains finds the match the search over all earlier positions of the bucket finds |
| `Lz.WriteToken` | src/lz.rs:150-172 | A token is written as its flag and its 8-bit and 15-bit fields, or its literal byte |
| `Lz.Compress` | src/lz.rs:87-175 | The frame is empty exactly for fewer than three bytes; otherwise it holds the length and, bit by bit, the one token list that is greedy at every position, decompresses to the input under every cap at least the input's length, and keeps the documented promise exactly when the tokens are cheap enough |
| `LzTokens.SearchCopies` | src/lz.rs:107-148 | A candidate match lies within the window, has length at most 258 and repeats equal bytes |
| `LzTokens.FindMatchIsLongest` | src/lz.rs:107-148 | No candidate of the chain, within the budget and the window, gives a longer match than the one found |
| `LzTokens.CopyBackCopies` | src/lz.rs:180-213 | Copying a repeated run reproduces it, overlaps included |
| `LzTokens.TokensExpand` | src/lz.rs:102-174 | For any hash and budget every token fits its fields (length 3 to 258, distance 1 to 32768) and the tokens expand back to the input |
| `LzGreedy.SearchIsBest` | src/lz.rs:107-148 | The chain search returns a candidate with the longest run of equal bytes among the newest ones of its bucket in the window, and the nearest of the longest |
| `LzGreedy.HeadIsChoice` | src/lz.rs:102-174 | At every position exactly one token is right and it is the one emitted: a match with the longest copy of three bytes or more that an admitted earlier position offers, from the nearest such, or the literal when there is none |
| `LzGreedy.OnlyGreedy` | src/lz.rs:102-174 | A token list makes the right choice at every position up to the end of the input exactly when it is the list emitted |
| `LzStream.StreamReadsBack` | src/lz.rs:180-213 | Decoding packed tokens gives what they expand to, whatever padding follows |
| `LzStream.FrameReadsBack` | src/lz.rs:180-213 | Any frame of any valid token list decompresses to what the tokens expand to |
| `LzLayout.FrameHolds` | src/lz.rs:98-175 | By arithmetic on the bytes of a frame: 32 bits of length, then per token a 0 and a byte, or a 1, eight bits of length less 3 and fifteen of distance less 1, all lowest bit first, and zeros to the end |
| `LzStream.FrameLength` | src/lz.rs:150-174 | A frame is four bytes and nine bits a literal, twenty-four a match, rounded up |
| `LzStream.ThreeBytesGrow` | src/lz.rs:82-90 | Every three-byte input packs to eight bytes, although the documentation promises an empty result |
| `LzStream.SmallerIffCheap` | src/lz.rs:82-90 | The promised result, empty unless smaller than the input, is given exactly when four bytes and the rounded cost of the tokens are fewer than the input's; no input of 3 to 9 bytes gets it, whatever the hash and level |
| `Lz.ChainBudget` | src/lz.rs:91-93 | The budget runs from 8, at level 1 and below, to 92, at level 22 and above |
| `Poly1305Limbs.LoadValue` | src/aead.rs:338-343 | Five windows of 26 bits of a sixteen-byte block hold its little-endian value |
| `Poly1305Limbs.MultiplyValue` | src/aead.rs:352-381 | The schoolbook products with the top folded as five times are congruent to the product |
| `Poly1305Limbs.MultiplyFits` | src/aead.rs:352-381 | Every sum of products is at most 2^58, so no `u64` overflows |
| `Poly1305Limbs.CarryValue` | src/aead.rs:383-404 | The carry pass keeps the value modulo 2^130 - 5 and brings the limbs back within bounds |
| `Poly1305Limbs.StepCongruent` | src/aead.rs:326-411 | A step keeps limbs 0, 1, 3 and 4 below 2^26 and limb 2 at most 2^26, and is congruent to (h + block) * r modulo 2^130 - 5 (section 2.5 of RFC 8439) |
| `Poly1305.Propagate` | src/aead.rs:383-404 | The carry statements compute the carry pass |
| `Poly1305.Accumulate` | src/aead.rs:319-411 | The limb array is updated in place by one step and stays within bounds |
| `Poly1305.AbsorbMessage` | src/aead.rs:288-302 | The loop over full chunks and the remainder absorbs every chunk of the message in order |
| `Poly1305.LimbsHoldHorner` | src/aead.rs:284-302 | Over a whole message the limbs hold the Horner polynomial of the padded blocks modulo 2^130 - 5 |
| `Poly1305Polynomial.HornerIsSum` | src/aead.rs:284-302 | The loop computes, modulo 2^130 - 5, the sum over n blocks of block i times r to the power n - i, a block being the little-endian value of its bytes plus 256 to the number of them |
| `Poly1305Polynomial.LimbsHoldPolynomial` | src/aead.rs:284-302 | Over a whole message the final limbs are congruent to that indexed sum, and within bounds |
| `Poly1305Polynomial.PaddedValue` | src/aead.rs:288-302 | A padded block counts the bytes of its chunk and a 1 right behind them |
| `Poly1305.Mac` | src/aead.rs:304-317 | The tag is the ored limbs of the accumulated message plus `s` modulo 2^128 |
| `Poly1305.OrLimbsValue` | src/aead.rs:304-314 | The ored limbs are the low 128 bits of the accumulator, less 2^78 when limb 2 is 2^26 and limb 3 is odd |
| `Poly1305.TagMatches` | src/aead.rs:304-317 | The tag is the one of RFC 8439 exactly when the accumulator is below 2^130 - 5 and no carry is lost in the or |
| `Poly1305.MacMatches` | src/aead.rs:264-317 | Over a whole message the tag is the Horner polynomial plus `s` modulo 2^128 exactly in those cases |
| `Poly1305Polynomial.TagIsPolynomial` | src/aead.rs:264-317 | The tag is the residue of the indexed sum plus `s` modulo 2^128 exactly when no final reduction and no carry is missed |
| `Poly1305.TagDiffers` | src/aead.rs:264-317 | For r = 1 and thirty-two bytes of 0xff it is not, whatever `s` is |
| `Canonical.EncodedParts` | src/canonical.rs:31-60 | A value is encoded as its marker and narrowest payload, and decodes to itself |
| `Canonical.DecodedIsEncoded` | src/canonical.rs:67-80 | Whatever decodes is the encoding of its value: the encoding is a bijection onto the accepted strings |
| `Canonical.NarrowReaderAgrees` | src/canonical.rs:93-106 | The `u64` reader agrees with the general one but for the widest marker |
| `Canonical.VarintReadsBack` | src/canonical.rs:31-80 | An encoded value is read back wherever it stands, with the position right behind it |
| `Canonical.VarintIsCanonical` | src/canonical.rs:67-80 | Whatever is read, the bytes consumed are the only encoding of the value |
| `Canonical.ShiftXorIsZigZag` | src/canonical.rs:109-111 | The shift and xor interleave non-negative and negative integers |
| `Canonical.ZigZagReadsBack` | src/canonical.rs:109-116 | Decoding inverts encoding over all of `i128` |
| `Canonical.UnZigZagReadsBack` | src/canonical.rs:109-116 | Encoding inverts decoding over all of `u128` |
| `VarintLayout.EncodedLies` | src/canonical.rs:31-60 | Byte by byte: values up to 250 are one byte, others stand behind 251, 252, 253 or 254 in two, four, eight or sixteen bytes, least significant first, whichever is the least that holds them |
| `VarintLayout.SignedLies` | src/canonical.rs:109-111 | Signed integers are encoded as 0, 1, 2, 3 and so on for 0, -1, 1, -2 and so on |
| `CompactReader.CompactCursor.TakeBytes` | src/compact.rs:621-630 | Taking bytes checks the end, the byte limit and the input in that order |
| `CompactReader.CompactCursor.ReadVarint` | src/compact.rs:663-700 | A 64-bit varint is read as specified: a wider canonical one is an overflow, not a canonicality failure |
| `CompactReader.CompactCursor.ReadVarintU128` | src/compact.rs:704-732 | A 128-bit varint is read as specified |
| `CompactReader.CompactCursor.ReadZigzag` | src/compact.rs:736-740 | A signed integer is read as specified and range checked |
| `CompactReader.CompactCursor.EnterContainer` | src/compact.rs:800-813 | The collection limit is checked before the depth limit, and only success deepens |
| `CompactReader.PlainRun` | src/compact.rs:831-843 | A run of single-byte varints taken at once reads as one after the other, and meets the byte limit with the same error |
| `CompactReader.NarrowIsBelow` | src/compact.rs:688-697 | The two ways of narrowing a payload agree with a bounded read |
| `CompactReader.CompactCursor.ReadVarintsBulk` | src/compact.rs:822-882 | Bulk reading returns what as many single reads return, with the same final position on success and the same error on failure |
| `CompactDecoder.DecodeCompact` | src/compact.rs:982-1473 | Decoding by type yields the specified value or error, leaves the cursor behind the value and the depth as it was |
| `CompactDecoder.DecodeVec` | src/compact.rs:1223-1277 | A container is left again whatever happens inside it |
| `CompactDecoder.ManyVarints` | src/compact.rs:1259-1262 | The bulk fast path of `u64` vectors is the generic element loop |
| `CompactDecoder.DecodePairs` | src/compact.rs:1379-1400 | Pairs are read into a sorted map and a repeated key is refused |
| `CompactDecoder.DeserializeCompact` | src/compact.rs:196-205 | Deserializing is decoding and, on request, rejecting what is left over |
| `CompactTheorems.ManyBytes` | src/compact.rs:1228-1237 | Taking the bytes of a vector at once is reading them one by one, while the end fits `usize` |
| `CompactTheorems.ReadsBack` | src/compact.rs:982-1473 | For every type and every value within the limits, decoding the value's bytes wherever they stand gives the value, with the position right behind them |
| `CompactTheorems.DecodedIsSound` | src/compact.rs:982-1473 | Whatever decodes is well typed and within limits, and for a map-free type or ordered keys the bytes consumed are its encoding |
| `CompactLayout.WireLies` | src/compact.rs:975-1473 | Where the bytes of a value stand, the value lies by a reference of positions: numbers in their least width, counts before what they count, keys before values, a byte before what is optional, two's complement for `i8` |
| `CompactTheorems.RoundTrip` | src/compact.rs:162-205 | Deserializing what serializing wrote gives the value back and consumes every byte, exactly when the value is within the limits of decoding |
| `CompactTheorems.AcceptsExactlyEncodings` | src/compact.rs:196-205 | Without maps, strict decoding accepts exactly the encodings, each as the value it encodes |
| `CompactTheorems.CanonicalIffOrdered` | src/compact.rs:1379-1400 | With maps, the bytes decoded are the value's encoding exactly when the keys of every map in them arrive in ascending order |
| `CompactTheorems.UnsortedMapIsAccepted` | src/compact.rs:1379-1400 | Under any key order, two keys in the wrong order decode and re-encode as other bytes |
| `CompactTheorems.SignedBytesPanic` | src/compact.rs:1238-1250 | Every non-empty vector of `i8` that is serialized and admitted by the limits panics on the bytes of its own encoding |
| `CompactOrder.BeforeIsStrictOrder` | src/compact.rs:1378-1400 | The order of keys derived from their parts is a strict total order, as the theorems about maps ask |
| `CompactTheorems.AppendsInOrder` | src/compact.rs:1363-1400 | A key behind all others is new, in order, and inserted at the end |
| `CompactTheorems.InsertSound` | src/compact.rs:1379-1400 | Inserting a new key keeps a map sorted, typed and within limits |
| `CompactEncoder.WriteVarintInto` | src/compact.rs:532-551 | The inlined writer puts the canonical encoding behind what the buffer holds |
| `CompactEncoder.BoundedWriter.WriteAll` | src/compact.rs:233-248 | All bytes are written, or none and the limit that refuses them |
| `CompactEncoder.BoundedWriter.EncodeVarintsBulk` | src/compact.rs:447-466 | Whatever the batching, the concatenation of the canonical encodings is written, or the byte limit refuses the whole |
| `CompactEncoder.BulkIsWire` | src/compact.rs:395-432 | The batched integers are the element-by-element encoding of the slice |
| `CompactEncoder.RawBytesAreWire` | src/compact.rs:374-382 | The bytes of a slice in memory are the element-by-element encoding of it |
| `CompactEncoder.EncodeCompact` | src/compact.rs:975-1473 | Encoding by type writes the value's bytes and restores the depth, or reports a limit that the whole value exceeds |
| `CompactEncoder.EncodeElements` | src/compact.rs:370-438 | The three ways of writing elements write the same bytes |
| `CompactEncoder.SerializeCompact` | src/compact.rs:162-169 | Serializing succeeds exactly when depth and size admit the value, and each error names a limit that does not |
| `AdaptiveFrames.ShiftWidthsAgree` | src/adaptive.rs:636-642 | The 64-bit and the 128-bit shift agree on 64-bit integers |
| `AdaptiveFrames.VarintSizeIsExact` | src/adaptive.rs:652-660 | The size table is the length of the encoding |
| `AdaptiveFrames.RunIsMaximal` | src/adaptive.rs:563-579 | A run covers equal values and ends where they differ |
| `AdaptiveFrames.BestIsSmallest` | src/adaptive.rs:582-590 | The chosen size is the least of the three; ties prefer raw, then delta |
| `AdaptiveFrames.LayoutIsExact` | src/adaptive.rs:592-634 | The predicted size is the size of the frame, and a payload chosen from the whole list is no larger than any of the three |
| `AdaptiveFrames.ChosenByMode` | src/adaptive.rs:592-634 | Off always chooses raw; otherwise no strategy has a smaller payload on the values looked at, and none as small comes earlier in the order raw, delta, run lengths |
| `AdaptiveLayout.FrameLies` | src/adaptive.rs:320-365 | A frame is 0, 1 or 2 for its strategy, the count, and then the values, or each value less the one before it, or each maximal run as its value and its length, and nothing more |
| `AdaptiveFrames.RawReadsBack` | src/adaptive.rs:423-436 | Independent varints read back as the list |
| `AdaptiveFrames.DeltaReadsBack` | src/adaptive.rs:437-451 | Deltas reconstruct the list without leaving 64 bits |
| `AdaptiveFrames.RleReadsBack` | src/adaptive.rs:452-462 | Run lengths expand to the list |
| `AdaptiveFrames.FrameReadsBack` | src/adaptive.rs:406-467 | For every list and strategy, decoding the frame into any buffer large enough gives the list |
| `Adaptive.RawSize` | src/adaptive.rs:543-548 | The fold is the payload's length, or an overflow |
| `Adaptive.DeltaSize` | src/adaptive.rs:551-561 | The fold over neighbours is the payload's length, or an overflow |
| `Adaptive.RleSize` | src/adaptive.rs:564-579 | The loop over runs is the payload's length, or an overflow |
| `Adaptive.ChooseLayout` | src/adaptive.rs:592-634 | The mode's layout is computed, sampling the first 64 values of a long list in heuristic mode |
| `Adaptive.EncodeInto` | src/adaptive.rs:320-365 | The buffer's front becomes the frame of the predicted size and the rest is untouched; on any error all of it is |
| `Adaptive.EncodeRaw` | src/adaptive.rs:285-298 | The growing pass of the default mode writes the raw frame |
| `Adaptive.SinglesRead` | src/adaptive.rs:424-430 | A run of single bytes reads as one varint after the other |
| `Adaptive.FillRaw` | src/adaptive.rs:423-436 | Plain runs and single varints fill the buffer with what the payload reads as |
| `Adaptive.FillDelta` | src/adaptive.rs:437-451 | Reconstructed values fill the buffer, or an overflow is reported |
| `Adaptive.FillRuns` | src/adaptive.rs:452-462 | Runs fill the buffer; an empty or overlong run is refused |
| `Adaptive.DecodeInto` | src/adaptive.rs:406-467 | The buffer's front becomes the decoded list and the rest is untouched; a buffer too small is left as it was |
| `TaggedMachines.Walker.TakeBytes` | src/probe.rs:155-167 | The walker advances within `usize`, the byte limit and the input, or fails in that order |
| `TaggedMachines.Walker.WalkOne` | src/probe.rs:239-259 | Walking a value moves the cursor behind it and grows the counters by exactly its shape |
| `TaggedMachines.Walker.WalkContainer` | src/probe.rs:262-299 | Walking a container counts it, restores the depth and records the deepest nesting |
| `TaggedMachines.Walker.WalkEach` | src/probe.rs:271-297 | The entry loop counts every entry, checks the collection limit first and consumes the terminator |
| `TaggedMachines.ProbeInput` | src/probe.rs:118-140 | The probe reports the walk of the first value and, on request, rejects what follows it |
| `TaggedMachines.Decoder.NextToken` | src/decoder.rs:310-330 | A token is read whole and with its value: null and booleans by tag, numbers in range, the bits of floats, the bytes of strings that are UTF-8 |
| `TaggedMachines.Decoder.SkipValue` | src/decoder.rs:413-434 | The loop over a counter of open containers, behind a pending token or not, stops where the flat skip stops |
| `TaggedMachines.Decoder.PeekToken` | src/decoder.rs:332-338 | The token read ahead is the next one, or the one already pending, and what a skip will do stays the same |
| `TaggedMachines.Decoder.TakeToken` | src/decoder.rs:341-346 | The pending token is returned and cleared, or else the next one is read |
| `TaggedValues.ReadsBack` | src/decoder.rs:310-330 | By induction over the tree: wherever emitted bytes stand, reading them token by token gives back the value itself, numbers, float bits and text included, and ends right behind it |
| `TaggedValues.ReadIsEmitted` | src/decoder.rs:310-330 | Whatever is read is well typed, and the bytes consumed are those the encoder emits for it |
| `TaggedValues.ReadsExactlyEmitted` | src/ser.rs:277-373 | Between two positions a value is read exactly when it is well typed and the bytes there are the ones emitted for it |
| `TaggedValues.EmittedIsPrefixFree` | src/ser.rs:277-373 | Two values whose emitted bytes begin one input are the same value |
| `TaggedValues.FirstAndLast` | src/tags.rs:9-33 | The first byte is the number of the value's kind, 0 to 11, and containers close with 255 |
| `TaggedLimits.AdmitsByHeight` | src/ser.rs:240-265 | The encoder's limits admit a value exactly when its height is within what is left of the depth limit, every container is within the collection limit and every float is finite |
| `TaggedLimits.ProbeMeasures` | src/probe.rs:118-140 | Of emitted bytes the probe reports one entry for every node but the root, and as depth the least depth limit under which the encoder writes the value |
| `TaggedTheorems.SkipsValue` | src/decoder.rs:413-434 | After a value that both can read, the flat skip has the same containers open and stands at the same byte as the walk |
| `TaggedTheorems.SkipsEntries` | src/decoder.rs:413-434 | After the entries of a container and its terminator, the flat skip has closed exactly that container |
| `TaggedTheorems.SkipVersusWalk` | src/decoder.rs:413-434 | On an input the probe walks, the skip succeeds exactly when the decoder can read every token of it, and then stops where the walk stops |
| `TaggedTheorems.ProbeIgnoresUtf8` | src/probe.rs:18-28 | The probe accepts a string that the decoder rejects, although its documentation promises equal acceptance |
| `TaggedOutline.SkipIsOutline` | src/decoder.rs:413-434 | On every input the counter of open containers stops where reading the nested structure stops, or fails with the same error |
| `TaggedOutline.WalkVersusSkip` | src/probe.rs:239-299 | On an input the skip accepts, the probe's walk succeeds exactly when at every container depth, entries and terminator are within their limits and an object's keys are strings each with a value; both then stop at the same byte |
| `TaggedTheorems.SkipIgnoresKeysAndLimit` | src/decoder.rs:418-425 | Inputs with a key that is no string, and with a terminator beyond the byte limit, that the skip accepts and the walk refuses |
| `TaggedOutline.SkipIgnoresDepthAndEntries` | src/decoder.rs:418-425 | Inputs with a container beyond the depth limit, with an entry beyond the collection limit, and with a key without a value, that the skip accepts and the walk refuses |
| `TaggedTheorems.WalksValue` | src/probe.rs:239-299 | Walking a value's emitted bytes anywhere finds its length, containers, entries and nesting, and every token is readable |
| `TaggedTheorems.ProbeIsExact` | src/probe.rs:118-140 | Probing the emitted bytes of any value within the limits reports exactly their length and the value's containers, entries and depth |
| `TaggedOutline.SkipIsExact` | src/decoder.rs:413-434 | Skipping any value anywhere in an input steps over exactly its bytes, whatever its depth, its entries and its floats |
| `TaggedEncoder.Encoder.Emit` | src/ser.rs:120-135 | All bytes are written, or none when the total would pass the limit |
| `TaggedEncoder.Encoder.EnterContainer` | src/ser.rs:240-247 | The depth limit is checked before the tag is written |
| `TaggedEncoder.Encoder.CountElement` | src/ser.rs:249-265 | An entry is counted at the innermost container, within the collection limit |
| `TaggedEncoder.Encoder.ExitContainer` | src/ser.rs:267-274 | Closing writes the terminator and gives the next container at this depth a fresh count |
| `TaggedEncoder.Encoder.EmitValue` | src/ser.rs:277-373 | Emitting a value writes its bytes and restores depth and counts, or reports a limit that the whole value exceeds |
| `TaggedEncoder.ToVec` | src/ser.rs:48-83 | Encoding succeeds exactly when depth, entries, floats and bytes allow |
| `DeltaFrames.GroupsReadBack` | src/delta.rs:286-305 | Every value of a `u128` is read back from its seven-bit groups, with its whole encoding consumed |
| `DeltaFrames.GroupsAreCanonical` | src/delta.rs:286-305 | The groups read are the encoding of the value exactly when there is one byte or the last byte is not zero |
| `DeltaFrames.TwoZeros` | src/delta.rs:286-305 | Two different byte strings read as zero |
| `DeltaLayout.GroupsLie` | src/delta.rs:237-248 | Seven bits a byte, least significant first, the high bit on every byte but the last, and no zero byte at the end of several |
| `DeltaFrames.GroupsFit` | src/delta.rs:286-305 | No value beyond 128 bits is ever read |
| `DeltaFrames.LookupIsFirst` | src/delta.rs:73-77 | Lookup finds the newest position of a value, and exactly when the table holds it |
| `DeltaFrames.TableInvariant` | src/delta.rs:88-97 | Over any updates the table stays within its capacity and never holds a value twice |
| `DeltaFrames.EntriesReadBack` | src/delta.rs:206-227 | Replaying the entries of a frame gives the updates and the sender's table |
| `DeltaFrames.FrameReadsBack` | src/delta.rs:152-230 | One accepted frame decodes to its updates and moves the receiver's table to the sender's |
| `DeltaLayout.FrameLies` | src/delta.rs:152-179 | A frame is the four magic bytes, version 1, no flags and the count, and then per update a 0 and the newest position of the value, or a 1, its length and its bytes, against the table as the updates before it moved it |
| `DeltaLayout.ResetForgets` | src/delta.rs:199-202 | With the reset flag a frame reads the same whatever the receiver's table was |
| `DeltaFrames.Lockstep` | src/delta.rs:152-230 | Over any run of accepted frames from equal tables the receiver returns exactly the sender's batches and ends with the sender's table, within capacity and free of duplicates |
| `DeltaFrames.TableIsWindow` | src/delta.rs:84-97 | The table is the newest values of everything ever entered, as many as fit |
| `DeltaFrames.RefusedLeavesTable` | src/delta.rs:152-171 | A refused batch leaves the sender's table alone exactly when there is no room at all, when it enters nothing, or when it enters so many values that the newest of them are the full table again |
| `DeltaFrames.OneRefused` | src/delta.rs:152-171 | A refused frame with one update leaves the sender's table alone exactly when the table already held the value or has no room at all |
| `DeltaFrames.StaleReference` | src/delta.rs:152-230 | Where the peers' tables differ at a position, the sender's next use of its value there reaches the receiver as its own value at that position, or as a reference out of range |
| `DeltaFrames.RefusedFrameEndsLockstep` | src/delta.rs:152-179 | After any refused batch that changed the table there is a value whose next frame, if accepted, the receiver does not read as that value |
| `DeltaFrames.RefusedFrameDesynchronizes` | src/delta.rs:152-171 | It happens: after one frame refused by the byte limit, the sender's next frame refers to a value the receiver never saw |
| `DeltaFrames.DeltaReadsBack` | src/delta.rs:129-145 | A value is recovered from its difference to any base, unless the difference leaves `i128` |
| `DeltaLayout.DifferenceLies` | src/delta.rs:129-136 | What crosses the wire is the value less the base, even numbers for no less and odd ones for less |
| `Delta.DeltaTable.Lookup` | src/delta.rs:73-77 | The scan returns the position of the newest equal entry |
| `Delta.DeltaTable.Insert` | src/delta.rs:88-97 | The value enters at the front and the oldest entry is evicted when full |
| `Delta.WriteVarint` | src/delta.rs:237-248 | The loop appends the value's groups |
| `Delta.EncodeUpdates` | src/delta.rs:152-179 | The frame and the table afterwards are the specified ones, the table even when the frame is refused |
| `Delta.DeltaCursor.Varint` | src/delta.rs:286-305 | Oring groups into place reads the value the groups denote, and never past bit 127 |
| `Delta.DecodeUpdates` | src/delta.rs:186-230 | The updates, the error and the table afterwards are the specified ones |
| `IbltGroup.AddAssociates` | src/ibl.rs:99-122 | Cells add associatively under wrapping counts and xor |
| `IbltGroup.AddInverse` | src/ibl.rs:99-122 | Every cell has an inverse |
| `IbltGroup.AppliedIsPlus` | src/ibl.rs:99-122 | Inserting or deleting an entry adds its signature, whatever the hash and even where its positions coincide |
| `IbltGroup.UndoEntry` | src/ibl.rs:99-122 | Deleting what was inserted, or inserting what was deleted, restores the table |
| `IblCells.CellAfter` | src/ibl.rs:99-122 | Inserting or deleting an entry moves a cell's count by the number of the three seeds that send the key there, modulo 2^32, and xors key, value and hash into it when that number is odd |
| `IblCells.CellOfSum` | src/ibl.rs:195-201 | The table of a list, cell by cell: zeros for no entries, and one more entry lands on what is there |
| `IbltGroup.OrderIrrelevant` | src/ibl.rs:195-201 | The order of insertions and deletions is irrelevant |
| `IbltGroup.CommonElementsCancel` | src/ibl.rs:124-139 | Elements common to both sides leave the difference unchanged, wherever they were inserted |
| `IbltGroup.DifferenceIsSum` | src/ibl.rs:124-139 | The difference is the sum of one side's elements and the opposites of the other's |
| `Ibl.Iblt.Insert` | src/ibl.rs:99-109 | Three hits add the entry's signature in place |
| `Ibl.Iblt.Delete` | src/ibl.rs:112-122 | Three hits take the entry's signature away in place |
| `Ibl.Iblt.SubtractTable` | src/ibl.rs:128-139 | The table becomes the difference, or is unchanged when the sizes differ |
| `Ibl.Iblt.Decode` | src/ibl.rs:146-186 | Decoding a copy ends as its run of peeling steps ends: with the entries, a hash that does not verify, counts left over, or no steps left; on success the entries account for the table exactly when nothing is left of it |
| `Ibl.OneOutcome` | src/ibl.rs:146-186 | A table and a number of steps have one outcome of decoding |
| `IblCells.StopsByCounts` | src/ibl.rs:146-186 | Decoding succeeds exactly when every count left is zero, is incomplete exactly when some is not and none is one or minus one, and meets a hash mismatch exactly when the lowest cell with such a count does not hash |
| `IblCells.PeelsLowest` | src/ibl.rs:146-180 | A step records the key and value of the lowest cell with a count of one or minus one, and the count as its sign |
| `IblCells.LoneEntry` | src/ibl.rs:146-186 | A table of one entry decodes to it in one step, unless all three seeds send it to one cell, and then stops at once as incomplete |
| `Ibl.PeelConserves` | src/ibl.rs:146-186 | After every peeling step the original table is the residual plus the signed sum of the entries emitted |
| `Ibl.ReconcileConserves` | src/ibl.rs:208-212 | Whatever the common part and the order, what is peeled and what is left add up to one side's elements minus the other's |
| `Ibl.Reconcile` | src/ibl.rs:208-212 | Reconciling refuses tables of different sizes, and otherwise returns the one outcome of decoding the difference, errors included |
| `IblCells.OneDifference` | src/ibl.rs:208-212 | Two sides that share all but one entry, inserted in any order, reconcile to that entry with its side exactly when its three positions are not one |
| `Ibl.EncodeSet` | src/ibl.rs:195-201 | Encoding a list gives the sum of its signatures |
| `Ibl.DecodedAccounts` | src/ibl.rs:182-185 | The entries a run has emitted account for the table exactly when nothing at all is left of it, not merely no counts |
| `Ibl.AccountsIffNothingLeft` | src/ibl.rs:182-185 | Entries and a residual that add up to a table account for it exactly when the residual is zero |
| `Ibl.DifferentValuesGoUnseen` | src/ibl.rs:93-96 | Two sides with different values for one key differ in no count, so decoding reports no difference |

## Left out

- Memory mapping, file input and output, OS randomness, threads, SIMD kernels and pointer casts: foreign calls. The vectorised prefix scan is modelled by its scalar form.
- The rounds of BLAKE3 `compress` and of ChaCha20, and the AEAD construction around Poly1305: the first is a parameter, the others are not part of this model; cryptographic strength is not stated.
- Header parsing, schema identity, envelope validation and error display of archives.
- MerkleTheorems.Soundness: assumes that the hashed inputs do not collide, instead of bounding the probability of a collision.
- MerkleProofs.Extract: takes proofs with a block size of at least one and a block count of at most 2^63; beyond that `tree_height` overflows.
- Lz.Compress: takes inputs shorter than 2^32 bytes, whose length the header can hold.
- The element type of LZ77's `head` and `prev` arrays: positions are natural numbers with the code's own sentinel, and fit 32 bits by the bound on the input.
- CompactTheorems.RoundTrip: covers types built from integers, booleans, characters, strings, options, vectors, arrays, tuples, ordered maps and enums; recursive types, hash maps (whose order is arbitrary), double-ended queues and borrowed byte slices (which book a container on encoding but none on decoding) are not modelled.
- Floats in the compact profile: their vector path casts by alignment and copies into a vector of length zero, as that of `i8` does.
- CompactEncoder.SerializeCompact: a value that breaks the depth limit and the byte limit reports one of the two; which one is not stated. Sizes that overflow `usize` are excluded.
- The target names inside integer overflow errors, and the refusal of a vector that memory cannot hold.
- Traversal of values by the serialization framework: the model emits value trees with one counted entry per array element and object key, and leaves out lookahead other than before a skip, backtracking and error relaying. Trees are read back from the decoder's tokens without the depth and collection limits that its container calls check.
- The widening of a 32-bit float to 64 bits when a token is read: the token keeps its 32 bits.
- The probe and the decoder under fixed-width or big-endian integers.
- Adaptive strings and their seven-bit packing.
- Ibl.Iblt.Decode: bounded by a number of steps, since peeling need not end when a false pure cell survives; recovery of the exact difference is stated for a difference of one entry; for more, conservation.
- The mixing function behind IBLT positions is a parameter; a debug build's overflow panic on counts is not modelled, counts wrap as in a release build.
- Allocation of the update list from the frame's declared count.
- Header fields, builders, fingerprints, reflection, static sizes, CBOR, schema evolution, entropy coding, bit packing, projection, trust and budget setters: separate features outside these cores, or members that would only be easy.
