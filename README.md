# rust-merkle in Dafny

This is a model of the streaming Merkle-root accumulator from `rust-merkle` and its inclusion-proof helpers, with proofs about both.

**Accumulator.** The state is a map from level to bytes. Inserting a value works like adding a carry to a binary counter:

- If the level is occupied, the stored value and the incoming value are combined into a parent hash, with the stored value on the left.
- The occupied level is then cleared, and the parent hash is carried one level up.
- Finalizing sorts the levels highest first and right-folds their values with the parent hash.

**Proofs.** A proof holds:

- the partial roots at the index's set bit positions (`pre`);
- the leaf digest;
- the partial roots at the index's clear bit positions (`post`).

Checking a proof replays the accumulator: load `pre`, insert the leaf at level 0, load `post`, insert the leaf at level 0 again, and finalize. The leaf really is inserted twice, and the model keeps that as written.

**Files.** There is one module per source file:

- `merkle_tree.dfy` (module `MerkleTree`):
  - `leaf_hash` and `parent_hash`;
  - the `foldr` loop;
  - `insert` and `delete` on the level map;
  - the `finalize` and `root` loops.
- `merkle_proof.dfy` (module `MerkleProof`):
  - the `SubRoot` and `Proof` records;
  - `read_leaf`;
  - the `prove_leaf` push loops;
  - the `load_stack` loop;
  - `root_from_proof_and_leaf`;
  - `verify_leaf`.
- `util.dfy` (module `Util`): `bit_test`, `ones` and `zeros` on a 32-bit signed index, using its two's-complement bit pattern.

**Parameters.** Every operation that hashes takes SHA-256 as a parameter `h: Hasher`. It may be any function on byte strings whose result is 32 bytes long. So every property here holds for any such hash function.

`MerkleTree::subroot(stream, i)` is called by `prove_leaf`, but src/merkle_tree.rs does not define it, although examples/ calls it. It is a parameter `subroot: SubrootFn`.

**How the loops are modelled.**

- `foldr`, `finalize`, `root` and `load_stack` are methods with loop invariants.
- The two push loops of `prove_leaf` are identical apart from the list of levels. They are one method, `PushEntries`, which `ProveLeaf` calls for `ones(index)` and then for `zeros(index)`.
- Each is proved equal to a recursive specification:
  - `FoldRight`;
  - `Finalized`, which peels off the highest level;
  - `Accumulate` followed by `Finalized`;
  - `Loaded`;
  - `Entries`.
- Properties are then proved about those specifications.
- `insert` and `delete` thread the map by value through recursion, so they are functions on `map`. `Insert` terminates because each recursive step removes one key.

**The counter invariant.** After `n` leaf inserts the level map is a binary counter for `n`:

- level `j` is occupied exactly when bit `j` of `n` is set (`AccumulateLevels`);
- an occupied level `j` holds the root of the `2^j` blocks that start at `n - n % 2^(j+1)` (`AccumulateValues`);
- the proof goes through a reference counter `Expected`, defined by pairing digests level by level, and a perfect-tree function `Tree`.

A level's block ends at the most recent leaf only for the lowest occupied level. With three blocks, level 1 holds `parent(leaf 0, leaf 1)`, and leaf 2 waits at level 0. The model follows the code, so it states the start of each block, not its end.

## Model

| member | source | states |
|---|---|---|
| MerkleTree.LeafHash | src/merkle_tree.rs:9-18 | a leaf digest is the hash of the block's bytes and is 32 bytes long |
| MerkleTree.ParentHash | src/merkle_tree.rs:20-30 | a parent digest is the hash of left followed by right and is 32 bytes long |
| MerkleTree.Foldr | src/merkle_tree.rs:32-49 | the backward loop computes the right fold of the collection |
| MerkleTree.FoldRightShape | src/merkle_tree.rs:36-46 | the right fold of no elements is empty; of one element it is that element, not re-hashed; of `[a] + rest`, for non-empty `rest`, it is `f(a, fold(rest))` |
| MerkleTree.FoldRightDigest | src/merkle_tree.rs:32-49 | folding 32-byte values with the parent hash gives a 32-byte value |
| MerkleTree.Delete | src/merkle_tree.rs:68-72 | the result has exactly the keys other than `node`, each with its old value |
| MerkleTree.Insert | src/merkle_tree.rs:51-66 | levels below `node` keep their presence and their values |
| MerkleTree.InsertFree | src/merkle_tree.rs:56-65 | inserting at a free level stores the value there and changes nothing else |
| MerkleTree.InsertEffect | src/merkle_tree.rs:51-72 | with `f` the first free level at or above `node`: levels `node..f-1` are cleared; `f` holds the carried value, in which each stored value is the left operand of one parent hash; every other level is unchanged |
| MerkleTree.InsertDigests | src/merkle_tree.rs:51-66 | inserting a digest into a stack of digests keeps every level a digest, and the result is never empty |
| MerkleTree.DescendingKeysExist | src/merkle_tree.rs:75-76 | the collected keys can always be sorted into a strictly descending listing |
| MerkleTree.FoldDescending | src/merkle_tree.rs:74-87 | right-folding the values in descending key order equals the level-by-level finalized value |
| MerkleTree.Finalize | src/merkle_tree.rs:74-87 | collecting the values in sorted key order and folding them gives the finalized value; an empty stack gives the empty string |
| MerkleTree.FinalizedSingle | src/merkle_tree.rs:74-87 | a single-level stack finalizes to that level's value, not re-hashed |
| MerkleTree.FinalizedPeel | src/merkle_tree.rs:74-87 | with two or more levels, the highest level's value is the outermost left operand of a parent hash with the finalized rest |
| MerkleTree.FinalizedDigest | src/merkle_tree.rs:74-87 | a non-empty stack of digests finalizes to a 32-byte digest |
| MerkleTree.Root | src/merkle_tree.rs:89-101 | no blocks give the empty string; otherwise each leaf digest is inserted at level 0 in order and the stack is finalized |
| MerkleTree.AccumulateLevels | src/merkle_tree.rs:94-98 | after n leaf inserts into the empty map, the occupied levels are exactly the set bits of n; every level holds 32 bytes and at least one is occupied when n > 0 (what each level holds is `AccumulateValues`) |
| MerkleTree.InsertExpected | src/merkle_tree.rs:51-66 | inserting one more digest at level k into the reference binary counter `Expected` over digests `c` (odd last digest kept at level k, the rest hashed in pairs one level up) gives the reference counter over `c + [v]` |
| MerkleTree.AccumulateExpected | src/merkle_tree.rs:94-98 | the level map after inserting the leaf digests of the blocks one by one at level 0 equals the reference counter over those leaf digests |
| MerkleTree.TreePairs | src/merkle_tree.rs:20-30 | the perfect tree of depth d over the pairwise parent hashes of 2^(d+1) digests is the perfect tree of depth d+1 over the digests |
| MerkleTree.ExpectedValues | src/merkle_tree.rs:51-66 | an occupied level j of the reference counter over level-k digests `c` is at least k and holds the perfect tree over the 2^(j-k) digests starting at `|c| - |c| % 2^(j-k+1)` |
| MerkleTree.ExpectedPerfect | src/merkle_tree.rs:51-66 | the reference counter over exactly 2^d digests occupies the single level k+d |
| MerkleTree.RootOfPerfect | src/merkle_tree.rs:89-101 | the root of 2^d blocks is the perfect binary tree of parent hashes over their leaf digests, halves left then right |
| MerkleTree.AccumulateValues | src/merkle_tree.rs:94-98 | after n leaf inserts, an occupied level j holds the root of the 2^j blocks starting at `s = n - n % 2^(j+1)` (written `Start(n, 2 * 2^j)`), and that block lies inside the stream |
| MerkleTree.RootDigest | src/merkle_tree.rs:89-101 | the root of a non-empty stream is 32 bytes long |
| MerkleTree.RootSmall | src/merkle_tree.rs:89-101 | the root of no blocks is empty; the root of one block is its leaf digest |
| MerkleTree.RootOfThree | src/merkle_tree.rs:153-169 | the root of three blocks is `parent(parent(leaf a, leaf b), leaf c)` |
| Util.BitTest | src/util.rs:6-8 | tests bit n of the two's-complement pattern; n limited to 0..31, which every caller meets |
| Util.Ones | src/util.rs:10-12 | contains exactly the positions 0..31 whose bit is set in the two's-complement pattern, strictly ascending |
| Util.Zeros | src/util.rs:14-16 | contains exactly the positions 0..31 whose bit is clear, strictly ascending |
| Util.OnesZerosPartition | src/util.rs:10-16 | every position 0..31 is in exactly one of the two lists; together they have 32 entries and nothing else |
| Util.OnesOfZero | src/util.rs:10-12 | `ones(0)` is empty |
| Util.OnesOfOne | src/util.rs:10-16 | `ones(1) == [0]` and `zeros(1)` has 31 entries |
| Util.OnesOfMinimum | src/util.rs:6-12 | for `i32::MIN` only bit 31 is set, so `ones` is `[31]` |
| Util.ZerosOfMinusOne | src/util.rs:14-16 | every bit of -1 is set, so `zeros(-1)` is empty |
| MerkleProof.ReadLeaf | src/merkle_proof.rs:24-30 | `None` exactly for the empty stream; otherwise the 32-byte leaf digest of the first block |
| MerkleProof.PushEntries | src/merkle_proof.rs:33-49 | each push loop yields one entry per level, in order, each with that level's partial root |
| MerkleProof.ProveLeaf | src/merkle_proof.rs:32-54 | `pre` mirrors `ones(index)` and `post` mirrors `zeros(index)`, each entry with `subroot(stream, i)`; the leaf is the digest of the first block; the stream must be non-empty |
| MerkleProof.ProofForSize | src/merkle_proof.rs:32-54 | a proof has 32 entries in all, and its leaf is the first block's digest |
| MerkleProof.ProofForPre | src/merkle_proof.rs:33-40 | `pre` holds each set bit position of the index exactly once, ascending, with the partial root of that level |
| MerkleProof.ProofForPost | src/merkle_proof.rs:42-49 | `post` holds each clear bit position exactly once, ascending, with the partial root of that level |
| MerkleProof.ProofForIndexOne | src/merkle_proof.rs:104-116 | for index 1, `pre` is the single entry for level 0 and `post` has 31 entries |
| MerkleProof.LoadStack | src/merkle_proof.rs:56-65 | the loop computes the left fold of insert over the blocks, each at its own level |
| MerkleProof.LoadedAppend | src/merkle_proof.rs:56-65 | loading `a + b` equals loading `a` and then `b` |
| MerkleProof.LoadedSmall | src/merkle_proof.rs:119-129 | loading nothing keeps the stack; loading `SubRoot{0, v}` when level 0 is free stores `v` at level 0 |
| MerkleProof.LoadedNonEmpty | src/merkle_proof.rs:56-65 | loading into a non-empty stack leaves it non-empty |
| MerkleProof.RootFromProofAndLeaf | src/merkle_proof.rs:67-75 | the result is the finalized replay of `pre`, leaf at 0, `post`, leaf at 0; the proof's own leaf field is not used |
| MerkleProof.InsertFinalizedDigest | src/merkle_proof.rs:72-74 | inserting any value at level 0 of a non-empty stack and finalizing gives a 32-byte digest, whatever the lengths of the stored values |
| MerkleProof.ReconstructedDigest | src/merkle_proof.rs:67-75 | checking any proof against any leaf yields a 32-byte digest |
| MerkleProof.ReconstructedEmptyProof | src/merkle_proof.rs:132-147 | with empty `pre` and `post` the result is `parent_hash(leaf, leaf)` |
| MerkleProof.VerifyLeaf | src/merkle_proof.rs:77-79 | true exactly when the known root equals the replayed root; a known root that is not 32 bytes long is never accepted |
| MerkleProof.EmptyProofVerifies | src/merkle_proof.rs:150-174 | an empty proof verifies exactly the known root `parent_hash(leaf, leaf)` |

## Left out

- SHA-256 itself (the `sha2` crate): it is a parameter constrained only to 32-byte output. The concrete digest vectors in the tests need a real SHA-256, so only their structure is stated.
- `MerkleTree::subroot` and `MerkleTree::limit`: src/merkle_tree.rs does not define them, although examples/ calls them. `subroot` is a parameter, and no property depends on what it computes; `limit` is used only by examples/.
- Whether a proof built by `prove_leaf` verifies against the stream's root (soundness or completeness). This depends on `subroot`, and no code or test of the repository claims it.
- i32 overflow of `node + 1` in `insert`: a level can only grow by carrying, so levels are unbounded above `i32::MIN` and the overflow past `i32::MAX` is not modelled.
- `Vec::sort_by` is a library routine. `Finalize` models it by its result, a strictly descending listing of the keys, chosen by a such-that statement.
- HashMap hashing and iteration order: `finalize` sorts the keys, so the order does not matter.
- `string_to_byte_slice` (src/util.rs:2-4) is unused.
- The driver programs (src/main.rs, examples/) only do timing and printing, and src/lib.rs only re-exports modules.
- MerkleProof.ProveLeaf: the source calls `subroot` for every entry before `expect` panics on an empty stream. The model requires a non-empty stream instead of modelling the panic.
