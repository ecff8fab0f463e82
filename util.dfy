/** Bit-position helpers: the set and unset bit positions of a 32-bit signed
    integer, enumerated over the fixed range 0..31 (src/util.rs). */
module Util {

  /** Rust's `i32`, as the range of integers it can hold. */
  type i32 = x: int | -0x8000_0000 <= x < 0x8000_0000

  /** The two's-complement bit pattern of an `i32`. */
  function Bits(i: i32): bv32
  {
    (if i < 0 then i + 0x1_0000_0000 else i) as bv32
  }

  /** `i & (1 << n) != 0`: is bit `n` of `i` set?  Callers only ask about
      positions 0..31.  This reads the 32-bit pattern of a proof index,
      negative indices included; `MerkleTree.Bit` is a separate predicate
      because it reads the unbounded leaf count of the accumulator, which
      is never an `i32` in the source and is never passed here. */
  predicate BitTest(i: i32, n: int)
    requires 0 <= n < 32
  {
    (Bits(i) & (1 << n)) != 0
  }

  /** The positions `n..31`, in ascending order, whose bit test equals `wanted`:
      the filtered range `(n..32).filter(...)`. */
  function Positions(i: i32, wanted: bool, n: int): (r: seq<i32>)
    requires 0 <= n <= 32
    decreases 32 - n
    ensures forall k :: k in r <==> n <= k < 32 && BitTest(i, k) == wanted
    ensures forall a, b :: 0 <= a < b < |r| ==> r[a] < r[b]
  {
    if n == 32 then []
    else
      var rest := Positions(i, wanted, n + 1);
      assert forall b :: 0 <= b < |rest| ==> rest[b] in rest;
      if BitTest(i, n) == wanted then [n] + rest else rest
  }

  /** `ones(i)`: the set bit positions of `i`, ascending. */
  function Ones(i: i32): (r: seq<i32>)
    ensures forall n :: n in r <==> 0 <= n < 32 && BitTest(i, n)
    ensures forall a, b :: 0 <= a < b < |r| ==> r[a] < r[b]
  {
    Positions(i, true, 0)
  }

  /** `zeros(i)`: the clear bit positions of `i`, ascending. */
  function Zeros(i: i32): (r: seq<i32>)
    ensures forall n :: n in r <==> 0 <= n < 32 && !BitTest(i, n)
    ensures forall a, b :: 0 <= a < b < |r| ==> r[a] < r[b]
  {
    Positions(i, false, 0)
  }

  lemma {:induction false} PositionsCount(i: i32, n: int)
    requires 0 <= n <= 32
    decreases 32 - n
    ensures |Positions(i, true, n)| + |Positions(i, false, n)| == 32 - n
  {
    if n < 32 {
      PositionsCount(i, n + 1);
    }
  }

  /** Every position 0..31 lies in exactly one of `ones(i)` and `zeros(i)`;
      together they have 32 entries. */
  lemma OnesZerosPartition(i: i32)
    ensures |Ones(i)| + |Zeros(i)| == 32
    ensures forall n :: 0 <= n < 32 ==> (n in Ones(i) <==> n !in Zeros(i))
    ensures forall n :: n in Ones(i) || n in Zeros(i) <==> 0 <= n < 32
  {
    PositionsCount(i, 0);
  }

  /** A non-empty sequence has its first element as a member. */
  lemma FirstIsMember(s: seq<i32>)
    ensures s == [] || s[0] in s
  {
  }

  lemma OnlyLowBit(n: int)
    requires 0 <= n < 32
    ensures BitTest(1, n) <==> n == 0
  {
  }

  lemma OnlySignBit(n: int)
    requires 0 <= n < 32
    ensures BitTest(-0x8000_0000, n) <==> n == 31
  {
  }

  /** `ones(0)` is empty: no bit of 0 is set. */
  lemma OnesOfZero()
    ensures Ones(0) == []
  {
    FirstIsMember(Ones(0));
  }

  /** A strictly ascending sequence of n integers spans at least n - 1. */
  lemma {:induction false} AscendingSpan(s: seq<i32>)
    requires |s| > 0
    requires forall a, b :: 0 <= a < b < |s| ==> s[a] < s[b]
    ensures s[|s| - 1] - s[0] >= |s| - 1
  {
    if |s| > 1 {
      AscendingSpan(s[..|s| - 1]);
    }
  }

  /** A strictly ascending sequence whose only member is `x` is `[x]`. */
  lemma AscendingSingleton(s: seq<i32>, x: i32)
    requires forall n :: n in s <==> n == x
    requires forall a, b :: 0 <= a < b < |s| ==> s[a] < s[b]
    ensures s == [x]
  {
    assert x in s;
    assert s[0] in s && s[|s| - 1] in s;
    AscendingSpan(s);
  }

  /** `ones(1) == [0]` and `zeros(1)` has 31 entries: the sizes the proof
      test relies on. */
  lemma OnesOfOne()
    ensures Ones(1) == [0]
    ensures |Zeros(1)| == 31
  {
    forall n | 0 <= n < 32 ensures BitTest(1, n) <==> n == 0 {
      OnlyLowBit(n);
    }
    AscendingSingleton(Ones(1), 0);
    OnesZerosPartition(1);
  }

  /** The most negative `i32` has only its sign bit set. */
  lemma OnesOfMinimum()
    ensures Ones(-0x8000_0000) == [31]
  {
    forall n | 0 <= n < 32 ensures BitTest(-0x8000_0000, n) <==> n == 31 {
      OnlySignBit(n);
    }
    AscendingSingleton(Ones(-0x8000_0000), 31);
  }

  /** Every bit of -1 is set. */
  lemma ZerosOfMinusOne()
    ensures Zeros(-1) == []
  {
    FirstIsMember(Zeros(-1));
  }
}
