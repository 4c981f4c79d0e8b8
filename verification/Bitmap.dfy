/** The CatFS block bitmap: one bit per block, packed eight to a byte. */
module Bitmap {
  import opened Words

  type Bytes = seq<bv8>

  /** The byte with only bit `n` set. */
  function One(n: nat): bv8 {
    if n == 0 then 1 else if n == 1 then 2 else if n == 2 then 4 else if n == 3 then 8
    else if n == 4 then 16 else if n == 5 then 32 else if n == 6 then 64 else 128
  }

  lemma OneIs(n: nat)
    requires n < 8
    ensures One(n) == (1 as bv8) << n
  {
    if n == 0 {} else if n == 1 {} else if n == 2 {} else if n == 3 {} else if n == 4 {} else if n == 5 {} else if n == 6 {}
  }

  predicate BitOf(x: bv8, n: nat) { x & One(n) != 0 }

  /** Whether bit `b` is set. */
  predicate Test(bm: Bytes, b: nat)
    requires b / 8 < |bm|
  {
    BitOf(bm[b / 8], b % 8)
  }

  function Set(bm: Bytes, b: nat): (r: Bytes)
    requires b / 8 < |bm|
    ensures |r| == |bm| && forall c: nat | c / 8 < |bm| :: Test(r, c) <==> c == b || Test(bm, c)
  {
    SetBit(bm[b / 8], b % 8);
    bm[b / 8 := bm[b / 8] | One(b % 8)]
  }

  function Clear(bm: Bytes, b: nat): (r: Bytes)
    requires b / 8 < |bm|
    ensures |r| == |bm| && forall c: nat | c / 8 < |bm| :: Test(r, c) <==> c != b && Test(bm, c)
  {
    ClearBit(bm[b / 8], b % 8);
    bm[b / 8 := bm[b / 8] & !One(b % 8)]
  }

  lemma SetBitAt(x: bv8, m: nat, n: nat)
    requires m < 8 && n < 8
    ensures BitOf(x | One(m), n) <==> n == m || BitOf(x, n)
  {
    if m == 0 {} else if m == 1 {} else if m == 2 {} else if m == 3 {} else if m == 4 {} else if m == 5 {} else if m == 6 {}
  }

  lemma ClearBitAt(x: bv8, m: nat, n: nat)
    requires m < 8 && n < 8
    ensures BitOf(x & !One(m), n) <==> n != m && BitOf(x, n)
  {
    if m == 0 {} else if m == 1 {} else if m == 2 {} else if m == 3 {} else if m == 4 {} else if m == 5 {} else if m == 6 {}
  }

  lemma SetBit(x: bv8, m: nat)
    requires m < 8
    ensures forall n: nat | n < 8 :: BitOf(x | One(m), n) <==> n == m || BitOf(x, n)
  {
    forall n: nat | n < 8 ensures BitOf(x | One(m), n) <==> n == m || BitOf(x, n) { SetBitAt(x, m, n); }
  }

  lemma ClearBit(x: bv8, m: nat)
    requires m < 8
    ensures forall n: nat | n < 8 :: BitOf(x & !One(m), n) <==> n != m && BitOf(x, n)
  {
    forall n: nat | n < 8 ensures BitOf(x & !One(m), n) <==> n != m && BitOf(x, n) { ClearBitAt(x, m, n); }
  }

  /** A set of numbers below `n` has at most `n` members, and exactly `n` only when it has them all. */
  lemma {:induction false} FullBelow(n: nat, s: set<int>)
    requires forall x | x in s :: 0 <= x < n
    ensures |s| <= n
    ensures |s| == n <==> forall x | 0 <= x < n :: x in s
  {
    if n == 0 {
      assert forall x :: x !in s;
    } else {
      FullBelow(n - 1, s - {n - 1});
      if n - 1 in s {
        assert |s - {n - 1}| == |s| - 1;
        assert forall x | 0 <= x < n - 1 :: x in s <==> x in s - {n - 1};
      } else {
        assert s - {n - 1} == s;
      }
    }
  }

  /** What the bitmap and the free counter say about block `b`. */
  ghost predicate ExactAt(bm: Bytes, freeBlocks: nat, used: set<int>, b: int)
  {
    && |bm| == BLOCKS_MAX / 8 && freeBlocks + |used| == BLOCKS_MAX
    && (b in used ==> 0 <= b < BLOCKS_MAX)
    && (0 <= b < BLOCKS_MAX ==> (Test(bm, b) <==> b in used))
  }

  /** The bitmap and the free counter describe exactly the blocks in `used`. */
  ghost predicate Exact(bm: Bytes, freeBlocks: nat, used: set<int>) {
    forall b {:trigger ExactAt(bm, freeBlocks, used, b)} :: ExactAt(bm, freeBlocks, used, b)
  }

  lemma UsedInRange(bm: Bytes, freeBlocks: nat, used: set<int>)
    requires Exact(bm, freeBlocks, used)
    ensures |bm| == BLOCKS_MAX / 8 && freeBlocks + |used| == BLOCKS_MAX && forall c | c in used :: 0 <= c < BLOCKS_MAX
  {
    assert ExactAt(bm, freeBlocks, used, 0);
    forall c | c in used
      ensures 0 <= c < BLOCKS_MAX
    {
      assert ExactAt(bm, freeBlocks, used, c);
    }
  }

  /** Claiming a free block. */
  lemma Claim(bm: Bytes, freeBlocks: nat, used: set<int>, b: nat)
    requires Exact(bm, freeBlocks, used) && b < BLOCKS_MAX && b !in used
    ensures |bm| == BLOCKS_MAX / 8 && freeBlocks > 0
    ensures Exact(Set(bm, b), freeBlocks - 1, used + {b})
  {
    UsedInRange(bm, freeBlocks, used);
    FullBelow(BLOCKS_MAX, used);
    var bm', free', used' := Set(bm, b), freeBlocks - 1, used + {b};
    forall c
      ensures ExactAt(bm', free', used', c)
    {
      assert ExactAt(bm, freeBlocks, used, c);
    }
  }

  /** Releasing a block in use. */
  lemma Release(bm: Bytes, freeBlocks: nat, used: set<int>, b: nat)
    requires Exact(bm, freeBlocks, used) && b < BLOCKS_MAX && b in used
    ensures |bm| == BLOCKS_MAX / 8
    ensures Exact(Clear(bm, b), freeBlocks + 1, used - {b})
  {
    UsedInRange(bm, freeBlocks, used);
    var bm', free', used' := Clear(bm, b), freeBlocks + 1, used - {b};
    forall c
      ensures ExactAt(bm', free', used', c)
    {
      assert ExactAt(bm, freeBlocks, used, c);
    }
  }

  /** No clear bit means no free block, and conversely. */
  lemma NoneFree(bm: Bytes, freeBlocks: nat, used: set<int>)
    requires Exact(bm, freeBlocks, used) && forall b | 0 <= b < BLOCKS_MAX :: b in used
    ensures freeBlocks == 0
  {
    UsedInRange(bm, freeBlocks, used);
    FullBelow(BLOCKS_MAX, used);
  }

  lemma EmptyExact(bm: Bytes)
    requires |bm| == BLOCKS_MAX / 8 && forall k | 0 <= k < |bm| :: bm[k] == 0
    ensures Exact(bm, BLOCKS_MAX, {})
  {
  }
}
