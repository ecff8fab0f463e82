/** Inclusion proofs over the streaming accumulator (src/merkle_proof.rs).

    A proof lists, for each bit position of the leaf index, a partial root:
    the set positions in `pre`, the clear positions in `post`.  Checking a
    proof replays the accumulator: load `pre`, insert the leaf at level 0,
    load `post`, insert the leaf at level 0 a second time, and finalize. */
module MerkleProof {
  import opened Util
  import opened MerkleTree

  datatype Option<T> = None | Some(value: T)

  /** A partial root together with the level it is loaded at. */
  datatype SubRoot = SubRoot(i: i32, subroot: Bytes)

  datatype Proof = Proof(pre: seq<SubRoot>, leaf: Bytes, post: seq<SubRoot>)

  /** `MerkleTree::subroot(stream, i)`: the partial root of the stream at
      level `i`.  Its definition is not part of this model, so it is a
      parameter of every operation that uses it. */
  type SubrootFn = (seq<Bytes>, i32) -> Bytes

  // ---------------------------------------------------------------------
  // Building a proof

  /** `read_leaf`: the leaf digest of the first block, if there is one. */
  function ReadLeaf(h: Hasher, stream: seq<Bytes>): (r: Option<Bytes>)
    ensures r.None? <==> |stream| == 0
    ensures r.Some? ==> r.value == LeafHash(h, stream[0]) && |r.value| == 32
  {
    if |stream| == 0 then None else Some(LeafHash(h, stream[0]))
  }

  /** One proof entry per level, in the order of `levels`. */
  function Entries(subroot: SubrootFn, stream: seq<Bytes>, levels: seq<i32>): (r: seq<SubRoot>)
    ensures |r| == |levels|
    ensures forall k :: 0 <= k < |levels| ==>
      r[k] == SubRoot(levels[k], subroot(stream, levels[k]))
  {
    seq(|levels|, k requires 0 <= k < |levels| => SubRoot(levels[k], subroot(stream, levels[k])))
  }

  /** The proof that `prove_leaf` builds: an entry for every set bit of
      `index` in `pre`, one for every clear bit in `post`, both ascending,
      and the leaf digest of the first block. */
  function ProofFor(h: Hasher, subroot: SubrootFn, stream: seq<Bytes>, index: i32): (r: Proof)
    requires |stream| > 0
  {
    Proof(Entries(subroot, stream, Ones(index)), LeafHash(h, stream[0]),
          Entries(subroot, stream, Zeros(index)))
  }

  /** One push loop of `prove_leaf`: an entry for each level in turn. */
  method PushEntries(subroot: SubrootFn, stream: seq<Bytes>, levels: seq<i32>)
    returns (entries: seq<SubRoot>)
    ensures entries == Entries(subroot, stream, levels)
  {
    entries := [];
    for k := 0 to |levels|
      invariant |entries| == k
      invariant forall j :: 0 <= j < k ==> entries[j] == SubRoot(levels[j], subroot(stream, levels[j]))
    {
      entries := entries + [SubRoot(levels[k], subroot(stream, levels[k]))];
    }
  }

  /** `prove_leaf`: the entries for `ones(index)`, those for `zeros(index)`,
      then the leaf read from the stream.  An empty stream makes `expect`
      panic, so the stream must not be empty. */
  method ProveLeaf(h: Hasher, subroot: SubrootFn, stream: seq<Bytes>, index: i32)
    returns (proof: Proof)
    requires |stream| > 0
    ensures proof == ProofFor(h, subroot, stream, index)
  {
    var pre := PushEntries(subroot, stream, Ones(index));
    var post := PushEntries(subroot, stream, Zeros(index));
    var leaf := ReadLeaf(h, stream);
    proof := Proof(pre, leaf.value, post);
  }

  /** The entries for a list of levels carry those levels, in the same
      order, each with the partial root of its level. */
  lemma EntriesLevels(subroot: SubrootFn, stream: seq<Bytes>, levels: seq<i32>)
    requires forall a, b :: 0 <= a < b < |levels| ==> levels[a] < levels[b]
    ensures var e := Entries(subroot, stream, levels);
      && (forall k :: 0 <= k < |e| ==> e[k].i in levels && e[k].subroot == subroot(stream, e[k].i))
      && (forall a, b :: 0 <= a < b < |e| ==> e[a].i < e[b].i)
      && (forall n :: n in levels ==> exists k :: 0 <= k < |e| && e[k].i == n)
  {
    var e := Entries(subroot, stream, levels);
    forall n | n in levels ensures exists k :: 0 <= k < |e| && e[k].i == n {
      var k :| 0 <= k < |levels| && levels[k] == n;
      assert e[k].i == n;
    }
  }

  /** A proof has 32 entries, one per bit position of the index, and its
      leaf is the digest of the first block. */
  lemma ProofForSize(h: Hasher, subroot: SubrootFn, stream: seq<Bytes>, index: i32)
    requires |stream| > 0
    ensures var p := ProofFor(h, subroot, stream, index);
      |p.pre| + |p.post| == 32 && p.leaf == LeafHash(h, stream[0])
  {
    OnesZerosPartition(index);
  }

  /** `pre` holds exactly the set bit positions of the index, each once and
      ascending, with the partial root of that level. */
  lemma ProofForPre(h: Hasher, subroot: SubrootFn, stream: seq<Bytes>, index: i32)
    requires |stream| > 0
    ensures var pre := ProofFor(h, subroot, stream, index).pre;
      && (forall k :: 0 <= k < |pre| ==>
            0 <= pre[k].i < 32 && BitTest(index, pre[k].i)
            && pre[k].subroot == subroot(stream, pre[k].i))
      && (forall a, b :: 0 <= a < b < |pre| ==> pre[a].i < pre[b].i)
      && (forall n :: 0 <= n < 32 && BitTest(index, n) ==> exists k :: 0 <= k < |pre| && pre[k].i == n)
  {
    EntriesLevels(subroot, stream, Ones(index));
  }

  /** `post` holds exactly the clear bit positions of the index, each once
      and ascending, with the partial root of that level. */
  lemma ProofForPost(h: Hasher, subroot: SubrootFn, stream: seq<Bytes>, index: i32)
    requires |stream| > 0
    ensures var post := ProofFor(h, subroot, stream, index).post;
      && (forall k :: 0 <= k < |post| ==>
            0 <= post[k].i < 32 && !BitTest(index, post[k].i)
            && post[k].subroot == subroot(stream, post[k].i))
      && (forall a, b :: 0 <= a < b < |post| ==> post[a].i < post[b].i)
      && (forall n :: 0 <= n < 32 && !BitTest(index, n) ==> exists k :: 0 <= k < |post| && post[k].i == n)
  {
    EntriesLevels(subroot, stream, Zeros(index));
  }

  /** For index 1: one entry before the leaf, for level 0, and 31 after. */
  lemma ProofForIndexOne(h: Hasher, subroot: SubrootFn, stream: seq<Bytes>)
    requires |stream| > 0
    ensures var p := ProofFor(h, subroot, stream, 1);
      p.pre == [SubRoot(0, subroot(stream, 0))] && |p.post| == 31
  {
    OnesOfOne();
  }

  // ---------------------------------------------------------------------
  // Checking a proof

  /** Inserting the blocks in order, each at its own level: a left fold of
      insert over the blocks. */
  function Loaded(h: Hasher, stack: Stack, blocks: seq<SubRoot>): (r: Stack)
    decreases |blocks|
  {
    if blocks == [] then stack
    else Loaded(h, Insert(h, stack, blocks[0].subroot, blocks[0].i), blocks[1..])
  }

  /** `load_stack`: insert every block in turn. */
  method LoadStack(h: Hasher, stack: Stack, blocks: seq<SubRoot>) returns (r: Stack)
    ensures r == Loaded(h, stack, blocks)
  {
    r := stack;
    var i := 0;
    while i < |blocks|
      invariant 0 <= i <= |blocks|
      invariant Loaded(h, r, blocks[i..]) == Loaded(h, stack, blocks)
    {
      assert blocks[i..][1..] == blocks[i + 1..];
      r := Insert(h, r, blocks[i].subroot, blocks[i].i);
      i := i + 1;
    }
  }

  /** Loading two lists one after the other is loading their concatenation. */
  lemma {:induction false} LoadedAppend(h: Hasher, stack: Stack, a: seq<SubRoot>, b: seq<SubRoot>)
    decreases |a|
    ensures Loaded(h, stack, a + b) == Loaded(h, Loaded(h, stack, a), b)
  {
    if a == [] {
      assert a + b == b;
    } else {
      var next := Insert(h, stack, a[0].subroot, a[0].i);
      assert (a + b)[0] == a[0];
      assert (a + b)[1..] == a[1..] + b;
      assert Loaded(h, stack, a + b) == Loaded(h, next, a[1..] + b);
      LoadedAppend(h, next, a[1..], b);
    }
  }

  /** Loading nothing keeps the stack, and loading one block at a free level
      stores its partial root there. */
  lemma LoadedSmall(h: Hasher, stack: Stack, v: Bytes)
    ensures Loaded(h, stack, []) == stack
    ensures 0 !in stack ==> Loaded(h, stack, [SubRoot(0, v)]) == stack[0 := v]
  {
    assert [SubRoot(0, v)][1..] == [];
  }

  /** An insert always leaves some level occupied. */
  lemma InsertNonEmpty(h: Hasher, stack: Stack, value: Bytes, node: Level)
    ensures Insert(h, stack, value, node) != map[]
  {
    InsertEffect(h, stack, value, node);
  }

  /** Loading into a non-empty stack gives a non-empty stack. */
  lemma {:induction false} LoadedNonEmpty(h: Hasher, stack: Stack, blocks: seq<SubRoot>)
    requires stack != map[]
    decreases |blocks|
    ensures Loaded(h, stack, blocks) != map[]
  {
    if blocks != [] {
      var next := Insert(h, stack, blocks[0].subroot, blocks[0].i);
      InsertNonEmpty(h, stack, blocks[0].subroot, blocks[0].i);
      LoadedNonEmpty(h, next, blocks[1..]);
    }
  }

  /** The stack that checking a proof ends with, before finalize: `pre`,
      the leaf at level 0, `post`, and the leaf at level 0 once more. */
  function Replayed(h: Hasher, leaf: Bytes, pre: seq<SubRoot>, post: seq<SubRoot>): (r: Stack)
  {
    var afterPre := Loaded(h, map[], pre);
    var withLeaf := Insert(h, afterPre, leaf, 0);
    var afterPost := Loaded(h, withLeaf, post);
    Insert(h, afterPost, leaf, 0)
  }

  /** What `root_from_proof_and_leaf` returns. */
  ghost function Reconstructed(h: Hasher, leaf: Bytes, pre: seq<SubRoot>, post: seq<SubRoot>): (r: Bytes)
  {
    Finalized(h, Replayed(h, leaf, pre, post))
  }

  /** `root_from_proof_and_leaf`: replay the proof around the given leaf and
      finalize.  The leaf carried inside the proof is not used. */
  method RootFromProofAndLeaf(h: Hasher, leaf: Bytes, proof: Proof) returns (r: Bytes)
    ensures r == Reconstructed(h, leaf, proof.pre, proof.post)
  {
    var stack: Stack := map[];
    stack := LoadStack(h, stack, proof.pre);
    stack := Insert(h, stack, leaf, 0);
    stack := LoadStack(h, stack, proof.post);
    stack := Insert(h, stack, leaf, 0);
    r := Finalize(h, stack);
  }

  /** Absorbing a non-empty run, or a digest, gives a digest. */
  lemma {:induction false} AbsorbDigest(h: Hasher, run: seq<Bytes>, v: Bytes)
    requires run != [] || |v| == 32
    decreases |run|
    ensures |Absorb(h, run, v)| == 32
  {
    if run != [] {
      AbsorbDigest(h, run[1..], ParentHash(h, run[0], v));
    }
  }

  /** A stack with two distinct levels finalizes to a parent hash. */
  lemma FinalizedOfTwo(h: Hasher, stack: Stack, a: Level, b: Level)
    requires a in stack && b in stack && a != b
    ensures |Finalized(h, stack)| == 32
  {
    var m := MaxOf(stack.Keys);
    var rest := Delete(stack, m);
    assert a in rest || b in rest;
  }

  /** Inserting into a non-empty stack and finalizing always gives a 32-byte
      digest, whatever the lengths of the stored values: either the insert
      carries, and the carried value is a parent hash, or it lands beside
      another occupied level, and finalize hashes the two. */
  lemma InsertFinalizedDigest(h: Hasher, stack: Stack, value: Bytes)
    requires stack != map[]
    ensures |Finalized(h, Insert(h, stack, value, 0))| == 32
  {
    var r := Insert(h, stack, value, 0);
    InsertEffect(h, stack, value, 0);
    var f := FirstFree(stack, 0);
    if 0 in stack {
      AbsorbDigest(h, Run(stack, 0), value);
      assert |r[f]| == 32;
      var m := MaxOf(r.Keys);
      if m != f {
        FinalizedOfTwo(h, r, m, f);
      }
    } else {
      var k :| k in stack;
      assert k in r && 0 in r && k != 0;
      FinalizedOfTwo(h, r, k, 0);
    }
  }

  /** Checking any proof against any leaf yields a 32-byte digest: the second
      leaf insert meets a non-empty stack. */
  lemma ReconstructedDigest(h: Hasher, leaf: Bytes, pre: seq<SubRoot>, post: seq<SubRoot>)
    ensures |Reconstructed(h, leaf, pre, post)| == 32
  {
    var withLeaf := Insert(h, Loaded(h, map[], pre), leaf, 0);
    InsertNonEmpty(h, Loaded(h, map[], pre), leaf, 0);
    LoadedNonEmpty(h, withLeaf, post);
    InsertFinalizedDigest(h, Loaded(h, withLeaf, post), leaf);
  }

  /** With an empty proof the two leaf inserts meet at level 0 and carry to
      level 1: the root is the parent hash of the leaf with itself. */
  lemma ReconstructedEmptyProof(h: Hasher, leaf: Bytes)
    ensures Reconstructed(h, leaf, [], []) == ParentHash(h, leaf, leaf)
  {
    var one := Insert(h, map[], leaf, 0);
    InsertFree(h, map[], leaf, 0);
    assert one == map[0 := leaf];
    var cleared := Delete(one, 0);
    assert cleared.Keys == {};
    assert cleared == map[];
    var two := Insert(h, one, leaf, 0);
    assert two == Insert(h, cleared, ParentHash(h, leaf, leaf), 1);
    InsertFree(h, map[], ParentHash(h, leaf, leaf), 1);
    FinalizedSingle(h, two, 1);
  }

  /** `verify_leaf`: does the replayed root equal the known root?  A known
      root that is not 32 bytes long is never accepted. */
  method VerifyLeaf(h: Hasher, knownroot: Bytes, leaf: Bytes, proof: Proof) returns (ok: bool)
    ensures ok <==> knownroot == Reconstructed(h, leaf, proof.pre, proof.post)
    ensures |knownroot| != 32 ==> !ok
  {
    var root := RootFromProofAndLeaf(h, leaf, proof);
    ReconstructedDigest(h, leaf, proof.pre, proof.post);
    ok := knownroot == root;
  }

  /** An empty proof verifies exactly the parent hash of the leaf with
      itself. */
  lemma EmptyProofVerifies(h: Hasher, knownroot: Bytes, leaf: Bytes)
    ensures knownroot == Reconstructed(h, leaf, [], []) <==> knownroot == ParentHash(h, leaf, leaf)
  {
    ReconstructedEmptyProof(h, leaf);
  }
}
