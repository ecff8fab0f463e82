/** The streaming Merkle-root accumulator (src/merkle_tree.rs).

    The state is a map from level to bytes.  Inserting at a level behaves
    like adding a carry to a binary counter: an occupied level is combined
    with the incoming value, cleared, and the result carried one level up.
    Finalizing folds the remaining levels, highest first, with a right fold. */
module MerkleTree {

  type byte = x: int | 0 <= x < 256
  type Bytes = seq<byte>

  /** Every value of `f` is 32 bytes long. */
  ghost predicate Digests(f: Bytes -> Bytes)
  {
    forall s :: |f(s)| == 32
  }

  /** The hash function (SHA-256 in the source), left abstract: any function
      on byte strings whose digests are 32 bytes long. */
  type Hasher = f: Bytes -> Bytes | Digests(f)
    witness (s: Bytes) => seq(32, _ => 0)

  /** An accumulator level.  Levels start out as `i32` values and only ever
      grow by carrying, so they are never below `i32::MIN`; the carry past
      `i32::MAX` is not modelled. */
  type Level = x: int | -0x8000_0000 <= x

  /** The accumulator state: level -> partial root. */
  type Stack = map<Level, Bytes>

  // ---------------------------------------------------------------------
  // Hashing primitives

  /** The digest of one block: the hash of its bytes, with no domain tag. */
  function LeafHash(h: Hasher, node: Bytes): (r: Bytes)
    ensures |r| == 32
  {
    h(node)
  }

  /** The digest of two children: the hash of their plain concatenation,
      left operand first. */
  function ParentHash(h: Hasher, left: Bytes, right: Bytes): (r: Bytes)
    ensures |r| == 32
  {
    h(left + right)
  }

  /** `parent_hash` as the combinator handed to `foldr`. */
  function Combine(h: Hasher): (Bytes, Bytes) -> Bytes
  {
    (l: Bytes, r: Bytes) => ParentHash(h, l, r)
  }

  // ---------------------------------------------------------------------
  // Right fold

  /** The right fold that `foldr` computes: empty gives the empty string, a
      single element is returned as it is, otherwise the head is combined
      with the fold of the rest. */
  function FoldRight(f: (Bytes, Bytes) -> Bytes, col: seq<Bytes>): (r: Bytes)
  {
    if |col| == 0 then []
    else if |col| == 1 then col[0]
    else f(col[0], FoldRight(f, col[1..]))
  }

  /** `foldr`: starts from the last element and combines backwards. */
  method Foldr(f: (Bytes, Bytes) -> Bytes, col: seq<Bytes>) returns (result: Bytes)
    ensures result == FoldRight(f, col)
  {
    if |col| == 0 {
      return [];
    }
    result := col[|col| - 1];
    var i := |col| - 1;
    while i > 0
      invariant 0 <= i < |col|
      invariant result == FoldRight(f, col[i..])
    {
      i := i - 1;
      assert col[i..][1..] == col[i + 1..];
      result := f(col[i], result);
    }
    assert col[0..] == col;
  }

  /** The three shapes of the fold: nothing gives the empty string, one
      element comes back unchanged (not re-hashed), and a longer collection
      combines its head with the fold of the rest. */
  lemma FoldRightShape(f: (Bytes, Bytes) -> Bytes, a: Bytes, rest: seq<Bytes>)
    ensures FoldRight(f, []) == []
    ensures FoldRight(f, [a]) == a
    ensures rest != [] ==> FoldRight(f, [a] + rest) == f(a, FoldRight(f, rest))
  {
    assert ([a] + rest)[1..] == rest;
  }

  /** A parent-hash fold of 32-byte values is a 32-byte value. */
  lemma {:induction false} FoldRightDigest(h: Hasher, col: seq<Bytes>)
    requires |col| > 0
    requires forall k :: 0 <= k < |col| ==> |col[k]| == 32
    ensures |FoldRight(Combine(h), col)| == 32
  {
    if |col| > 1 {
      assert |ParentHash(h, col[0], FoldRight(Combine(h), col[1..]))| == 32;
    }
  }

  // ---------------------------------------------------------------------
  // Insert with carry

  /** `delete`: the stack without `node`. */
  function Delete(stack: Stack, node: Level): (r: Stack)
    ensures r.Keys == stack.Keys - {node}
    ensures forall k :: k in r <==> k in stack && k != node
    ensures forall k :: k in r ==> r[k] == stack[k]
  {
    stack - {node}
  }

  /** The lowest free level at or above `node`: where an insert at `node`
      comes to rest. */
  function FirstFree(stack: Stack, node: Level): (f: Level)
    decreases |stack|
    ensures node <= f && f !in stack
    ensures forall k :: node <= k < f ==> k in stack
  {
    if node in stack then FirstFree(Delete(stack, node), node + 1) else node
  }

  /** The values stored at the occupied levels `node, node + 1, ...` below
      the first free level, lowest first. */
  function Run(stack: Stack, node: Level): (r: seq<Bytes>)
    decreases |stack|
    ensures |r| == FirstFree(stack, node) - node
    ensures forall k :: 0 <= k < |r| ==> node + k in stack && r[k] == stack[node + k]
  {
    if node in stack then [stack[node]] + Run(Delete(stack, node), node + 1) else []
  }

  /** The value that a carry `v` becomes after absorbing the run of occupied
      levels: each stored value becomes the LEFT operand of the next
      parent hash. */
  function Absorb(h: Hasher, run: seq<Bytes>, v: Bytes): (r: Bytes)
  {
    if run == [] then v else Absorb(h, run[1..], ParentHash(h, run[0], v))
  }

  /** `insert`: store `value` at a free level, or combine it with the
      occupied level, clear that level and carry the result one level up.
      Every recursive step removes one key.  Levels below `node` are never
      touched. */
  function Insert(h: Hasher, stack: Stack, value: Bytes, node: Level): (r: Stack)
    decreases |stack|
    ensures forall k :: k < node ==> (k in r <==> k in stack)
    ensures forall k :: k < node && k in r ==> r[k] == stack[k]
  {
    if node in stack then
      var parent := ParentHash(h, stack[node], value);
      Insert(h, Delete(stack, node), parent, node + 1)
    else
      stack[node := value]
  }

  /** Inserting at a free level stores the value there and changes nothing
      else. */
  lemma InsertFree(h: Hasher, stack: Stack, value: Bytes, node: Level)
    requires node !in stack
    ensures Insert(h, stack, value, node) == stack[node := value]
  {
  }

  /** The effect of one insert: with `f` the first free level at or above
      `node`, the levels `node .. f - 1` are cleared, level `f` receives the
      carried value, and every other level keeps its value. */
  lemma {:induction false} InsertEffect(h: Hasher, stack: Stack, value: Bytes, node: Level)
    decreases |stack|
    ensures var r, f := Insert(h, stack, value, node), FirstFree(stack, node);
      && (forall k :: k in r <==> k == f || (k in stack && !(node <= k < f)))
      && (forall k :: k in r && k != f ==> r[k] == stack[k])
      && f in r && r[f] == Absorb(h, Run(stack, node), value)
  {
    if node in stack {
      var parent := ParentHash(h, stack[node], value);
      var rest := Delete(stack, node);
      InsertEffect(h, rest, parent, node + 1);
      assert Run(stack, node)[1..] == Run(rest, node + 1);
    }
  }

  /** An insert keeps every stored value a 32-byte digest. */
  lemma {:induction false} InsertDigests(h: Hasher, stack: Stack, value: Bytes, node: Level)
    requires forall k :: k in stack ==> |stack[k]| == 32
    requires |value| == 32
    decreases |stack|
    ensures var r := Insert(h, stack, value, node);
      r != map[] && forall k :: k in r ==> |r[k]| == 32
  {
    if node in stack {
      InsertDigests(h, Delete(stack, node), ParentHash(h, stack[node], value), node + 1);
    }
  }

  // ---------------------------------------------------------------------
  // Finalize

  /** The largest element of a non-empty set of levels. */
  ghost function MaxOf(s: set<Level>): (m: Level)
    requires s != {}
    ensures m in s && forall y :: y in s ==> y <= m
    decreases |s|
  {
    var x :| x in s;
    var rest := s - {x};
    assert forall y | y in s :: y in rest || y == x;
    if rest == {} then
      x
    else
      var m := MaxOf(rest);
      if x > m then x else m
  }

  /** What `finalize` returns, stated level by level: nothing for an empty
      stack, the lone value (not re-hashed) for a single level, and otherwise
      the parent hash of the HIGHEST level's value with the finalized rest,
      so the highest level is the outermost left operand. */
  ghost function Finalized(h: Hasher, stack: Stack): (r: Bytes)
    decreases |stack|
  {
    if stack == map[] then []
    else
      var m := MaxOf(stack.Keys);
      var rest := Delete(stack, m);
      if rest == map[] then stack[m] else ParentHash(h, stack[m], Finalized(h, rest))
  }

  /** `keys` lists the set `s` in strictly descending order. */
  predicate DescendingKeys(keys: seq<Level>, s: set<Level>)
  {
    && (forall x | x in s :: x in keys)
    && (forall j | 0 <= j < |keys| :: keys[j] in s)
    && (forall j, k | 0 <= j < k < |keys| :: keys[j] > keys[k])
  }

  /** Every finite set of levels has a descending listing (what sorting the
      collected keys produces). */
  lemma {:induction false} DescendingKeysExist(s: set<Level>)
    decreases |s|
    ensures exists keys :: DescendingKeys(keys, s)
  {
    if s == {} {
      assert DescendingKeys([], s);
    } else {
      var m := MaxOf(s);
      DescendingKeysExist(s - {m});
      var rest :| DescendingKeys(rest, s - {m});
      var keys := [m] + rest;
      assert forall j | 0 < j < |keys| :: keys[j] == rest[j - 1];
      assert forall x | x in s :: x == m || x in rest;
      assert DescendingKeys(keys, s);
    }
  }

  /** The values stored under `keys`, in the order of `keys`. */
  function ValuesAt(stack: Stack, keys: seq<Level>): (values: seq<Bytes>)
    requires forall j | 0 <= j < |keys| :: keys[j] in stack
    ensures |values| == |keys|
    ensures forall j :: 0 <= j < |keys| ==> values[j] == stack[keys[j]]
  {
    seq(|keys|, j requires 0 <= j < |keys| => stack[keys[j]])
  }

  /** Dropping the first key drops the first value, and the values under the
      other keys are read just as well from the stack without that key. */
  lemma ValuesAtTail(stack: Stack, keys: seq<Level>)
    requires keys != [] && forall j | 0 <= j < |keys| :: keys[j] in stack
    requires forall j | 1 <= j < |keys| :: keys[j] != keys[0]
    ensures forall j | 0 <= j < |keys| - 1 :: keys[1..][j] in Delete(stack, keys[0])
    ensures ValuesAt(stack, keys)[1..] == ValuesAt(Delete(stack, keys[0]), keys[1..])
  {
    var rest := Delete(stack, keys[0]);
    var a, b := ValuesAt(stack, keys)[1..], ValuesAt(rest, keys[1..]);
    assert |a| == |b|;
    forall j | 0 <= j < |a| ensures a[j] == b[j] {
      assert a[j] == stack[keys[j + 1]];
    }
  }

  /** The head of a descending listing is the maximum, and the tail lists
      the rest. */
  lemma DescendingHead(keys: seq<Level>, s: set<Level>)
    requires DescendingKeys(keys, s) && keys != []
    ensures keys[0] in s && MaxOf(s) == keys[0]
    ensures DescendingKeys(keys[1..], s - {keys[0]})
  {
    var m := keys[0];
    assert m in s;
    assert forall x | x in s :: x == m || x in keys[1..];
    assert forall j | 0 <= j < |keys[1..]| :: keys[1..][j] == keys[j + 1];
  }

  /** Folding the values in descending key order is the level-by-level
      description of finalize. */
  lemma {:induction false} FoldDescending(h: Hasher, stack: Stack, keys: seq<Level>)
    requires DescendingKeys(keys, stack.Keys)
    decreases |keys|
    ensures FoldRight(Combine(h), ValuesAt(stack, keys)) == Finalized(h, stack)
  {
    if keys == [] {
      assert stack.Keys == {};
    } else {
      var m := keys[0];
      DescendingHead(keys, stack.Keys);
      var rest := Delete(stack, m);
      var tail := keys[1..];
      assert DescendingKeys(tail, rest.Keys);
      FoldDescending(h, rest, tail);
      var values := ValuesAt(stack, keys);
      assert values[0] == stack[m];
      if tail == [] {
        assert rest.Keys == {};
        assert rest == map[];
        assert FoldRight(Combine(h), values) == stack[m];
      } else {
        assert tail[0] in rest;
        ValuesAtTail(stack, keys);
        assert FoldRight(Combine(h), values) == ParentHash(h, stack[m], FoldRight(Combine(h), values[1..]));
      }
    }
  }

  /** `finalize`: collect the levels, sort them in descending order, collect
      their values in that order and fold them.  The sort itself is the
      library's `sort_by`, modelled by its result: a descending listing of
      the keys. */
  method Finalize(h: Hasher, stack: Stack) returns (r: Bytes)
    ensures r == Finalized(h, stack)
    ensures stack == map[] ==> r == []
  {
    DescendingKeysExist(stack.Keys);
    var keys: seq<Level> :| DescendingKeys(keys, stack.Keys);
    assert forall j | 0 <= j < |keys| :: keys[j] in stack;
    var values: seq<Bytes> := [];
    var i := 0;
    while i < |keys|
      invariant 0 <= i <= |keys|
      invariant values == ValuesAt(stack, keys[..i])
    {
      if keys[i] in stack {
        values := values + [stack[keys[i]]];
      }
      i := i + 1;
    }
    assert keys[..i] == keys;
    FoldDescending(h, stack, keys);
    r := Foldr(Combine(h), values);
  }

  /** Finalizing a single level gives its value as it is, not re-hashed. */
  lemma FinalizedSingle(h: Hasher, stack: Stack, k: Level)
    requires k in stack && forall x :: x in stack ==> x == k
    ensures Finalized(h, stack) == stack[k]
  {
    assert MaxOf(stack.Keys) == k;
    assert Delete(stack, k).Keys == {};
    assert Delete(stack, k) == map[];
  }

  /** With two or more levels, the highest level is the outermost left
      operand and the rest is finalized as a whole. */
  lemma FinalizedPeel(h: Hasher, stack: Stack, m: Level)
    requires |stack| >= 2
    requires m in stack && forall k :: k in stack ==> k <= m
    ensures Finalized(h, stack) == ParentHash(h, stack[m], Finalized(h, Delete(stack, m)))
  {
    assert MaxOf(stack.Keys) == m;
    assert |Delete(stack, m)| == |stack| - 1;
  }

  /** Finalizing a non-empty stack of digests gives a digest. */
  lemma {:induction false} FinalizedDigest(h: Hasher, stack: Stack)
    requires stack != map[]
    requires forall k :: k in stack ==> |stack[k]| == 32
    decreases |stack|
    ensures |Finalized(h, stack)| == 32
  {
    var m := MaxOf(stack.Keys);
    var rest := Delete(stack, m);
    if rest != map[] {
      FinalizedDigest(h, rest);
    }
  }

  // ---------------------------------------------------------------------
  // Root

  /** The state after inserting the leaf digest of every block at level 0,
      in order, starting from the empty stack. */
  function Accumulate(h: Hasher, blocks: seq<Bytes>): (r: Stack)
  {
    if blocks == [] then map[]
    else
      var last := |blocks| - 1;
      Insert(h, Accumulate(h, blocks[..last]), LeafHash(h, blocks[last]), 0)
  }

  /** What `root` returns. */
  ghost function RootOf(h: Hasher, stream: seq<Bytes>): (r: Bytes)
  {
    if stream == [] then [] else Finalized(h, Accumulate(h, stream))
  }

  /** `root`: the empty string for no blocks; otherwise insert each leaf
      digest at level 0 and finalize. */
  method Root(h: Hasher, stream: seq<Bytes>) returns (r: Bytes)
    ensures r == RootOf(h, stream)
  {
    if |stream| == 0 {
      return [];
    }
    var stack: Stack := map[];
    var i := 0;
    while i < |stream|
      invariant 0 <= i <= |stream|
      invariant stack == Accumulate(h, stream[..i])
    {
      assert stream[..i + 1][..i] == stream[..i];
      stack := Insert(h, stack, LeafHash(h, stream[i]), 0);
      i := i + 1;
    }
    assert stream[..i] == stream;
    r := Finalize(h, stack);
  }

  // ---------------------------------------------------------------------
  // The binary counter

  /** Bit `j` of the natural number `n`, for the leaf count of the
      accumulator (unbounded, unlike the `i32` index that `Util.BitTest`
      reads). */
  predicate Bit(n: nat, j: nat)
  {
    if j == 0 then n % 2 == 1 else Bit(n / 2, j - 1)
  }

  /** Zero has no set bit. */
  lemma {:induction false} BitOfZero(j: nat)
    ensures !Bit(0, j)
  {
    if j > 0 {
      BitOfZero(j - 1);
    }
  }

  /** The position of the lowest clear bit of `n`. */
  function LowestZero(n: nat): (z: nat)
    ensures !Bit(n, z) && forall j: nat :: j < z ==> Bit(n, j)
  {
    if n % 2 == 0 then 0 else 1 + LowestZero(n / 2)
  }

  /** Adding one clears the trailing ones, sets the lowest clear bit and
      leaves the higher bits alone. */
  lemma {:induction false} Increment(n: nat, j: nat)
    ensures Bit(n + 1, j) <==> j == LowestZero(n) || (Bit(n, j) && j > LowestZero(n))
  {
    if j > 0 {
      if n % 2 == 0 {
        assert (n + 1) / 2 == n / 2;
      } else {
        assert (n + 1) / 2 == n / 2 + 1;
        Increment(n / 2, j - 1);
      }
    }
  }

  /** The counter invariant: after `n` leaf inserts into the empty stack,
      the occupied levels are exactly the set bits of `n`, and every level
      holds a 32-byte digest. */
  lemma {:induction false} AccumulateLevels(h: Hasher, blocks: seq<Bytes>)
    ensures var stack := Accumulate(h, blocks);
      && (forall j :: j in stack <==> 0 <= j && Bit(|blocks|, j))
      && (forall j :: j in stack ==> |stack[j]| == 32)
      && (blocks != [] ==> stack != map[])
  {
    if blocks == [] {
      forall j: nat ensures !Bit(|blocks|, j) {
        BitOfZero(j);
      }
    } else {
      var last := |blocks| - 1;
      var prev := Accumulate(h, blocks[..last]);
      AccumulateLevels(h, blocks[..last]);
      var n := last;
      var f := FirstFree(prev, 0);
      var z := LowestZero(n);
      assert f == z by {
        assert z !in prev;
        assert forall j :: 0 <= j < z ==> j in prev;
      }
      var stack := Insert(h, prev, LeafHash(h, blocks[last]), 0);
      assert stack == Accumulate(h, blocks);
      InsertEffect(h, prev, LeafHash(h, blocks[last]), 0);
      InsertDigests(h, prev, LeafHash(h, blocks[last]), 0);
      forall j ensures j in stack <==> 0 <= j && Bit(n + 1, j) {
        if 0 <= j {
          Increment(n, j);
        }
      }
    }
  }

  // ---------------------------------------------------------------------
  // What each level of the counter holds

  /** 2 to the power `k`. */
  function Pow2(k: nat): (p: nat)
    ensures p >= 1
  {
    if k == 0 then 1 else 2 * Pow2(k - 1)
  }

  lemma MulBound(t: int, d: int)
    requires d > 0
    ensures t >= 1 ==> t * d >= d
    ensures t <= -1 ==> t * d <= -d
  {
  }

  /** Quotient and remainder are the only ones with `n == q * d + r`. */
  lemma DivUnique(n: int, d: int, q: int, r: int)
    requires d > 0 && 0 <= r < d && n == q * d + r
    ensures n / d == q && n % d == r
  {
    var t := q - n / d;
    assert t * d == n % d - r;
    MulBound(t, d);
  }

  /** Halving `m` halves its remainder modulo `2 * q`, up to the low bit. */
  lemma ModDouble(m: nat, q: nat)
    requires q >= 1
    ensures m % (2 * q) == 2 * ((m / 2) % q) + m % 2
  {
    var a, b := m / 2, m % 2;
    var x, y := a / q, a % q;
    assert x * (2 * q) == 2 * (x * q);
    DivUnique(m, 2 * q, x, 2 * y + b);
  }

  /** The root of a perfect tree over `2^d` digests of one level: the
      digest itself for one, otherwise the parent hash of the roots of the
      two halves. */
  function Tree(h: Hasher, c: seq<Bytes>, d: nat): (r: Bytes)
    requires |c| == Pow2(d)
    ensures d > 0 ==> |r| == 32
  {
    if d == 0 then c[0]
    else
      var half := Pow2(d - 1);
      ParentHash(h, Tree(h, c[..half], d - 1), Tree(h, c[half..], d - 1))
  }

  /** Adjacent digests hashed together in pairs, `[P(c0, c1), P(c2, c3), ...]`;
      an odd last digest is dropped. */
  function Pairs(h: Hasher, c: seq<Bytes>): (r: seq<Bytes>)
    decreases |c|
    ensures 2 * |r| <= |c| <= 2 * |r| + 1
  {
    if |c| < 2 then [] else [ParentHash(h, c[0], c[1])] + Pairs(h, c[2..])
  }

  /** An odd last digest has no partner. */
  lemma {:induction false} PairsOdd(h: Hasher, e: seq<Bytes>, u: Bytes)
    requires |e| % 2 == 0
    decreases |e|
    ensures Pairs(h, e + [u]) == Pairs(h, e)
  {
    if e != [] {
      assert (e + [u])[2..] == e[2..] + [u];
      PairsOdd(h, e[2..], u);
    }
  }

  /** The state a binary counter over the level-`k` digests `c` is in: an
      odd last digest stays at level `k`, and the others, hashed in pairs,
      are the level-`k + 1` digests of the levels above. */
  function Expected(h: Hasher, c: seq<Bytes>, k: nat): (r: Stack)
    decreases |c|
  {
    if c == [] then map[]
    else
      var up := Expected(h, Pairs(h, c), k + 1);
      if |c| % 2 == 1 then up[k := c[|c| - 1]] else up
  }

  /** The counter over level-`k` digests occupies only levels `k` and up. */
  lemma {:induction false} ExpectedAbove(h: Hasher, c: seq<Bytes>, k: nat)
    decreases |c|
    ensures forall j :: j in Expected(h, c, k) ==> k <= j
  {
    if c != [] {
      ExpectedAbove(h, Pairs(h, c), k + 1);
    }
  }

  /** Writing a level and clearing it again gives back the stack. */
  lemma DeleteUpdate(stack: Stack, k: Level, v: Bytes)
    requires k !in stack
    ensures Delete(stack[k := v], k) == stack
  {
    var d := Delete(stack[k := v], k);
    assert d.Keys == stack.Keys;
    assert forall j | j in d :: d[j] == stack[j];
  }

  /** Unfolding the counter for an even number of digests: level `k` is
      free and the pairs fill the levels above. */
  lemma ExpectedEven(h: Hasher, c: seq<Bytes>, k: nat)
    requires |c| % 2 == 0
    ensures Expected(h, c, k) == Expected(h, Pairs(h, c), k + 1)
  {
    if c == [] {
      assert Pairs(h, c) == [];
    }
  }

  /** Unfolding the counter for an odd number of digests `e + [u]`: the
      last one is at level `k`. */
  lemma ExpectedOdd(h: Hasher, e: seq<Bytes>, u: Bytes, k: nat)
    requires |e| % 2 == 0
    ensures Expected(h, e + [u], k) == Expected(h, Pairs(h, e), k + 1)[k := u]
  {
    PairsOdd(h, e, u);
    assert |e + [u]| % 2 == 1;
  }

  /** Two more digests after an even number of digests form a new pair. */
  lemma ExpectedTwoMore(h: Hasher, e: seq<Bytes>, u: Bytes, v: Bytes, k: nat)
    requires |e| % 2 == 0
    ensures Expected(h, e + [u, v], k) == Expected(h, Pairs(h, e + [u, v]), k + 1)
  {
    assert |e + [u, v]| == |e| + 2;
    ExpectedEven(h, e + [u, v], k);
  }

  /** Inserting into the counter for an even number of digests fills the
      free level `k`. */
  lemma InsertExpectedEven(h: Hasher, c: seq<Bytes>, v: Bytes, k: nat)
    requires |c| % 2 == 0
    ensures Insert(h, Expected(h, c, k), v, k) == Expected(h, c + [v], k)
  {
    ExpectedEven(h, c, k);
    ExpectedOdd(h, c, v, k);
    ExpectedAbove(h, Pairs(h, c), k + 1);
    InsertFree(h, Expected(h, Pairs(h, c), k + 1), v, k);
  }

  /** Inserting onto an occupied level that was just written carries the
      parent hash one level up into the stack as it was before. */
  lemma InsertCarry(h: Hasher, stack: Stack, k: Level, u: Bytes, v: Bytes)
    requires k !in stack
    ensures Insert(h, stack[k := u], v, k) == Insert(h, stack, ParentHash(h, u, v), k + 1)
  {
    DeleteUpdate(stack, k, u);
  }

  /** Inserting into the counter for an odd number of digests `e + [u]`
      carries: `u` and the new digest are hashed into a new last pair,
      provided that inserting that pair into the level above works. */
  lemma InsertExpectedOdd(h: Hasher, e: seq<Bytes>, u: Bytes, v: Bytes, k: nat)
    requires |e| % 2 == 0
    requires Insert(h, Expected(h, Pairs(h, e), k + 1), ParentHash(h, u, v), k + 1)
      == Expected(h, Pairs(h, e) + [ParentHash(h, u, v)], k + 1)
    ensures Insert(h, Expected(h, e + [u], k), v, k) == Expected(h, e + [u, v], k)
  {
    ExpectedOdd(h, e, u, k);
    ExpectedAbove(h, Pairs(h, e), k + 1);
    InsertCarry(h, Expected(h, Pairs(h, e), k + 1), k, u, v);
    PairsAppend(h, e, u, v);
    ExpectedTwoMore(h, e, u, v, k);
  }

  /** An odd-length sequence is an even-length one and its last element. */
  lemma SplitLast(c: seq<Bytes>, v: Bytes)
    requires |c| % 2 == 1
    ensures var e, u := c[..|c| - 1], c[|c| - 1];
      |e| % 2 == 0 && c == e + [u] && c + [v] == e + [u, v]
  {
  }

  /** Inserting a level-`k` digest into the counter for `c` gives the
      counter for `c + [v]`. */
  lemma {:induction false} InsertExpected(h: Hasher, c: seq<Bytes>, v: Bytes, k: nat)
    decreases |c|
    ensures Insert(h, Expected(h, c, k), v, k) == Expected(h, c + [v], k)
  {
    var m := |c|;
    if m % 2 == 0 {
      InsertExpectedEven(h, c, v, k);
    } else {
      var e, u := c[..m - 1], c[m - 1];
      SplitLast(c, v);
      InsertExpected(h, Pairs(h, e), ParentHash(h, u, v), k + 1);
      InsertExpectedOdd(h, e, u, v, k);
    }
  }

  /** Two more digests add one more pair. */
  lemma {:induction false} PairsAppend(h: Hasher, e: seq<Bytes>, u: Bytes, v: Bytes)
    requires |e| % 2 == 0
    decreases |e|
    ensures Pairs(h, e + [u, v]) == Pairs(h, e) + [ParentHash(h, u, v)]
  {
    if e == [] {
      assert [u, v][2..] == [];
    } else {
      assert (e + [u, v])[2..] == e[2..] + [u, v];
      PairsAppend(h, e[2..], u, v);
    }
  }

  /** The leaf digests of the blocks, in order. */
  function Leaves(h: Hasher, blocks: seq<Bytes>): (r: seq<Bytes>)
    ensures |r| == |blocks| && forall i :: 0 <= i < |blocks| ==> r[i] == LeafHash(h, blocks[i])
  {
    if blocks == [] then []
    else
      var last := |blocks| - 1;
      Leaves(h, blocks[..last]) + [LeafHash(h, blocks[last])]
  }

  /** The accumulator after the blocks is the counter over their leaf
      digests. */
  lemma {:induction false} AccumulateExpected(h: Hasher, blocks: seq<Bytes>)
    ensures Accumulate(h, blocks) == Expected(h, Leaves(h, blocks), 0)
  {
    if blocks != [] {
      var last := |blocks| - 1;
      AccumulateExpected(h, blocks[..last]);
      InsertExpected(h, Leaves(h, blocks[..last]), LeafHash(h, blocks[last]), 0);
    }
  }

  /** Pairing distributes over a concatenation whose first part has even
      length. */
  lemma {:induction false} PairsConcat(h: Hasher, a: seq<Bytes>, b: seq<Bytes>, n: nat)
    requires |a| == 2 * n
    decreases n
    ensures Pairs(h, a + b) == Pairs(h, a) + Pairs(h, b)
  {
    if n == 0 {
      assert a + b == b;
    } else {
      var ab := a + b;
      assert ab[0] == a[0] && ab[1] == a[1] && ab[2..] == a[2..] + b;
      PairsConcat(h, a[2..], b, n - 1);
      var x := [ParentHash(h, a[0], a[1])];
      assert x + (Pairs(h, a[2..]) + Pairs(h, b)) == (x + Pairs(h, a[2..])) + Pairs(h, b);
    }
  }

  /** The pairs of the two halves of `4 * q` digests are the two halves of
      their pairs. */
  lemma {:induction false} PairsHalves(h: Hasher, w: seq<Bytes>, q: nat)
    requires |w| == 4 * q
    ensures var pw := Pairs(h, w);
      |pw| == 2 * q && pw[..q] == Pairs(h, w[..2 * q]) && pw[q..] == Pairs(h, w[2 * q..])
  {
    var l, r := w[..2 * q], w[2 * q..];
    assert w == l + r;
    PairsConcat(h, l, r, q);
  }

  /** Pairing the digests `2i .. 2(i + q)` gives the pairs `i .. i + q`. */
  lemma {:induction false} PairsMiddle(h: Hasher, c: seq<Bytes>, i: nat, q: nat)
    requires 2 * (i + q) <= |c|
    ensures var pc := Pairs(h, c);
      i + q <= |pc| && pc[i..i + q] == Pairs(h, c[2 * i..2 * (i + q)])
  {
    var x, mid, y := c[..2 * i], c[2 * i..2 * (i + q)], c[2 * (i + q)..];
    SplitThree(c, 2 * i, 2 * (i + q));
    PairsConcat(h, x, mid + y, i);
    PairsConcat(h, mid, y, q);
    var px, pm, py := Pairs(h, x), Pairs(h, mid), Pairs(h, y);
    MiddleOf(px, pm, py, i, i + q);
  }

  /** A sequence is its three parts around two cut points. */
  lemma SplitThree<T>(c: seq<T>, a: nat, b: nat)
    requires a <= b <= |c|
    ensures c == c[..a] + (c[a..b] + c[b..])
  {
  }

  /** The middle part of a three-part concatenation. */
  lemma MiddleOf<T>(x: seq<T>, mid: seq<T>, y: seq<T>, a: nat, b: nat)
    requires a == |x| && b == |x| + |mid|
    ensures (x + (mid + y))[a..b] == mid
  {
  }

  /** The two-digest case of `TreePairs`. */
  lemma TreePairsBase(h: Hasher, w: seq<Bytes>)
    requires |w| == 2
    ensures |Pairs(h, w)| == 1 && Tree(h, Pairs(h, w), 0) == Tree(h, w, 1)
  {
    assert w[..1] == [w[0]] && w[1..] == [w[1]];
  }

  /** The inductive step of `TreePairs`, from the two halves of `w`. */
  lemma {:induction false} TreePairsStep(h: Hasher, w: seq<Bytes>, d: nat, q: nat)
    requires d > 0 && q == Pow2(d - 1) && |w| == 4 * q
    requires var l, r := w[..2 * q], w[2 * q..];
      && Tree(h, Pairs(h, l), d - 1) == Tree(h, l, d)
      && Tree(h, Pairs(h, r), d - 1) == Tree(h, r, d)
    ensures |Pairs(h, w)| == Pow2(d) && Tree(h, Pairs(h, w), d) == Tree(h, w, d + 1)
  {
    PairsHalves(h, w, q);
    var pw := Pairs(h, w);
    assert Pow2(d) == 2 * q;
    assert Tree(h, pw, d) == ParentHash(h, Tree(h, pw[..q], d - 1), Tree(h, pw[q..], d - 1));
    assert Tree(h, w, d + 1) == ParentHash(h, Tree(h, w[..2 * q], d), Tree(h, w[2 * q..], d));
  }

  /** A perfect tree over pairs of digests is the perfect tree one level
      higher over the digests themselves. */
  lemma {:induction false} TreePairs(h: Hasher, w: seq<Bytes>, d: nat)
    requires |w| == Pow2(d + 1)
    decreases d
    ensures |Pairs(h, w)| == Pow2(d) && Tree(h, Pairs(h, w), d) == Tree(h, w, d + 1)
  {
    if d == 0 {
      TreePairsBase(h, w);
    } else {
      var q := Pow2(d - 1);
      TreePairs(h, w[..2 * q], d - 1);
      TreePairs(h, w[2 * q..], d - 1);
      TreePairsStep(h, w, d, q);
    }
  }

  /** A level other than an odd last digest's comes from the levels above. */
  lemma {:induction false} ExpectedUp(h: Hasher, c: seq<Bytes>, k: nat, j: nat)
    requires j in Expected(h, c, k) && !(|c| % 2 == 1 && j == k)
    ensures var up := Expected(h, Pairs(h, c), k + 1);
      j in up && Expected(h, c, k)[j] == up[j]
  {
  }

  /** Where the last complete block of `p` digests out of `n` starts,
      when the blocks are counted from the front. */
  function Start(n: nat, p: nat): (s: nat)
    requires p >= 1
    ensures s <= n
  {
    MulBound(n / p, p);
    n - n % p
  }

  /** Halving the digest count halves the start of the last full block. */
  lemma {:induction false} HalfStart(m: nat, q: nat)
    requires q >= 1
    ensures 2 * Start(m / 2, 2 * q) == Start(m, 4 * q)
  {
    ModDouble(m, 2 * q);
  }

  /** `v` is the perfect tree over the last complete block of `2^d`
      digests of `c`, the blocks being counted from the front. */
  ghost predicate HoldsBlock(h: Hasher, c: seq<Bytes>, d: nat, v: Bytes)
  {
    var p := Pow2(d);
    var s := Start(|c|, 2 * p);
    s + p <= |c| && v == Tree(h, c[s..s + p], d)
  }

  /** An odd last digest is the one-digest tree at level `k`. */
  lemma {:induction false} ExpectedValuesLow(h: Hasher, c: seq<Bytes>, k: nat)
    requires |c| % 2 == 1
    ensures k in Expected(h, c, k) && HoldsBlock(h, c, 0, Expected(h, c, k)[k])
  {
    var m := |c|;
    assert Start(m, 2) == m - 1;
    assert c[m - 1..m] == [c[m - 1]];
  }

  /** The last full block of `2^(d-1)` pairs is the pairing of the last
      full block of `2^d` digests. */
  lemma {:induction false} TreeOfPairsBlock(h: Hasher, c: seq<Bytes>, d: nat, v: Bytes)
    requires d > 0 && HoldsBlock(h, Pairs(h, c), d - 1, v)
    ensures HoldsBlock(h, c, d, v)
  {
    var m, cp := |c|, Pairs(h, c);
    var q, p := Pow2(d - 1), Pow2(d);
    var s', s := Start(|cp|, 2 * q), Start(m, 2 * p);
    assert |cp| == m / 2;
    StartOfPairs(m, d, q, p);
    BlockAssemble(h, c, cp, d, q, p, s', s);
  }

  /** The start of the last full block of pairs is half the start of the
      last full block of digests. */
  lemma {:induction false} StartOfPairs(m: nat, d: nat, q: nat, p: nat)
    requires d > 0 && q == Pow2(d - 1) && p == Pow2(d)
    ensures 2 * Start(m / 2, 2 * q) == Start(m, 2 * p)
  {
    assert p == 2 * q;
    HalfStart(m, q);
  }

  /** `TreeOfPairsBlock` once both block starts are known. */
  lemma {:induction false} BlockAssemble(h: Hasher, c: seq<Bytes>, cp: seq<Bytes>, d: nat, q: nat, p: nat, s': nat, s: nat)
    requires cp == Pairs(h, c) && |cp| == |c| / 2
    requires d > 0 && q == Pow2(d - 1) && p == Pow2(d) && s == 2 * s' && s' + q <= |cp|
    ensures s + p <= |c| && Tree(h, cp[s'..s' + q], d - 1) == Tree(h, c[s..s + p], d)
  {
    assert p == 2 * q;
    PairsMiddle(h, c, s', q);
    BlockOfPairs(h, c, d, q, s');
  }

  /** `TreePairs` on the block of `2^d` digests at `2 * s'`. */
  lemma {:induction false} BlockOfPairs(h: Hasher, c: seq<Bytes>, d: nat, q: nat, s': nat)
    requires d > 0 && q == Pow2(d - 1) && 2 * (s' + q) <= |c|
    ensures var seg := c[2 * s'..2 * s' + Pow2(d)];
      Tree(h, Pairs(h, c[2 * s'..2 * (s' + q)]), d - 1) == Tree(h, seg, d)
  {
    var seg := c[2 * s'..2 * (s' + q)];
    assert Pow2(d) == 2 * q;
    TreePairs(h, seg, d - 1);
  }

  /** The counter for `c` holds at level `j` the root of the perfect tree
      over the `2^(j-k)` digests that end just before the last
      `|c| % 2^(j-k+1)` of them. */
  lemma {:induction false} ExpectedValues(h: Hasher, c: seq<Bytes>, k: nat, j: nat)
    requires j in Expected(h, c, k)
    decreases |c|
    ensures k <= j && HoldsBlock(h, c, j - k, Expected(h, c, k)[j])
  {
    if |c| % 2 == 1 && j == k {
      ExpectedValuesLow(h, c, k);
    } else {
      var cp := Pairs(h, c);
      ExpectedUp(h, c, k, j);
      ExpectedAbove(h, cp, k + 1);
      ExpectedValues(h, cp, k + 1, j);
      TreeOfPairsBlock(h, c, j - k, Expected(h, cp, k + 1)[j]);
    }
  }

  /** The counter for one digest has the single level `k`. */
  lemma {:induction false} ExpectedOne(h: Hasher, c: seq<Bytes>, k: nat)
    requires |c| == 1
    ensures Expected(h, c, k) == map[k := c[0]]
  {
    assert Pairs(h, c) == [];
  }

  /** The counter for `2^d` digests with `d > 0` is the counter for their
      `2^(d-1)` pairs one level up. */
  lemma {:induction false} ExpectedDouble(h: Hasher, c: seq<Bytes>, k: nat, d: nat)
    requires |c| == Pow2(d) && d > 0
    ensures |Pairs(h, c)| == Pow2(d - 1)
    ensures Expected(h, c, k) == Expected(h, Pairs(h, c), k + 1)
  {
    assert |c| == 2 * Pow2(d - 1);
    ExpectedEven(h, c, k);
  }

  /** The counter for `2^d` digests has the single level `k + d`. */
  lemma {:induction false} ExpectedPerfect(h: Hasher, c: seq<Bytes>, k: nat, d: nat)
    requires |c| == Pow2(d)
    decreases d
    ensures k + d in Expected(h, c, k)
    ensures forall j :: j in Expected(h, c, k) ==> j == k + d
  {
    if d == 0 {
      ExpectedOne(h, c, k);
    } else {
      ExpectedDouble(h, c, k, d);
      ExpectedPerfect(h, Pairs(h, c), k + 1, d - 1);
    }
  }

  /** Leaf digests of a slice are the slice of the leaf digests. */
  lemma {:induction false} LeavesSlice(h: Hasher, blocks: seq<Bytes>, a: nat, b: nat)
    requires a <= b <= |blocks|
    ensures Leaves(h, blocks)[a..b] == Leaves(h, blocks[a..b])
  {
    assert forall i :: 0 <= i < b - a ==> Leaves(h, blocks)[a..b][i] == Leaves(h, blocks[a..b])[i];
  }

  /** The root of `2^d` blocks is the perfect tree over their leaf digests. */
  lemma {:induction false} RootOfPerfect(h: Hasher, seg: seq<Bytes>, d: nat)
    requires |seg| == Pow2(d)
    ensures RootOf(h, seg) == Tree(h, Leaves(h, seg), d)
  {
    var c := Leaves(h, seg);
    AccumulateExpected(h, seg);
    ExpectedPerfect(h, c, 0, d);
    FinalizedSingle(h, Expected(h, c, 0), d);
    ExpectedValues(h, c, 0, d);
    var p := Pow2(d);
    DivUnique(p, 2 * p, 0, p);
    assert Start(p, 2 * p) == 0;
    assert c[0..p] == c;
  }

  /** The value half of the counter invariant: after `n` leaf inserts, an
      occupied level `j` holds the root of the `2^j` blocks that start at
      `n - n % 2^(j+1)`. */
  lemma {:induction false} AccumulateValues(h: Hasher, blocks: seq<Bytes>, j: nat)
    requires j in Accumulate(h, blocks)
    ensures var p := Pow2(j); var s := Start(|blocks|, 2 * p);
      s + p <= |blocks| && Accumulate(h, blocks)[j] == RootOf(h, blocks[s..s + p])
  {
    var c := Leaves(h, blocks);
    AccumulateExpected(h, blocks);
    ExpectedValues(h, c, 0, j);
    var p := Pow2(j);
    ValuesOfBlocks(h, blocks, c, j, p, Start(|blocks|, 2 * p));
  }

  /** `AccumulateValues` once the block is known to be in range. */
  lemma {:induction false} ValuesOfBlocks(h: Hasher, blocks: seq<Bytes>, c: seq<Bytes>, j: nat, p: nat, s: nat)
    requires c == Leaves(h, blocks) && p == Pow2(j) && s + p <= |blocks|
    ensures RootOf(h, blocks[s..s + p]) == Tree(h, c[s..s + p], j)
  {
    LeavesSlice(h, blocks, s, s + p);
    RootOfPerfect(h, blocks[s..s + p], j);
  }

  /** The root of a non-empty stream is a 32-byte digest. */
  lemma RootDigest(h: Hasher, stream: seq<Bytes>)
    requires stream != []
    ensures |RootOf(h, stream)| == 32
  {
    AccumulateLevels(h, stream);
    FinalizedDigest(h, Accumulate(h, stream));
  }

  /** No blocks give the empty root; one block gives its leaf digest. */
  lemma RootSmall(h: Hasher, a: Bytes)
    ensures RootOf(h, []) == []
    ensures RootOf(h, [a]) == LeafHash(h, a)
  {
    assert [a][..0] == [];
    assert Accumulate(h, [a]) == Insert(h, map[], LeafHash(h, a), 0);
    InsertFree(h, map[], LeafHash(h, a), 0);
    FinalizedSingle(h, map[0 := LeafHash(h, a)], 0);
  }

  /** Three blocks: the first two pair up at level 1, the third waits at
      level 0, and finalize hashes level 1 with level 0. */
  lemma RootOfThree(h: Hasher, a: Bytes, b: Bytes, c: Bytes)
    ensures RootOf(h, [a, b, c]) ==
      ParentHash(h, ParentHash(h, LeafHash(h, a), LeafHash(h, b)), LeafHash(h, c))
  {
    var la, lb, lc := LeafHash(h, a), LeafHash(h, b), LeafHash(h, c);
    assert [a, b, c][..2] == [a, b];
    assert [a, b][..1] == [a];
    assert [a][..0] == [];
    assert Accumulate(h, [a]) == map[0 := la];
    var pab := ParentHash(h, la, lb);
    assert Accumulate(h, [a, b]) == Insert(h, map[], pab, 1);
    assert Accumulate(h, [a, b]) == map[1 := pab];
    var s := map[1 := pab, 0 := lc];
    assert Accumulate(h, [a, b, c]) == s;
    FinalizedPeel(h, s, 1);
    FinalizedSingle(h, Delete(s, 1), 0);
  }
}
