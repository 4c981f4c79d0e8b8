/** The kernel heap: a linked list of block headers that tiles one memory range. */
module Heap {

  const HEAP_MAGIC := 0xC4FE
  const HDR := 32               // sizeof(block_header_t): two 64-bit words, a padded flag, a pointer
  const MIN_SPLIT := 32
  const WALK_MAX := 65536

  datatype Header = Header(magic: int, size: int, free: bool, next: int)

  /** One block of the tiling: the header address, the usable bytes behind it, and its state. */
  datatype Block = Block(addr: int, size: int, free: bool)

  /** ALIGN(n, 8) on 64-bit integers. */
  function Align8(n: nat): nat
    requires n < 0x1_0000_0000_0000_0000
  {
    (n + 7) / 8 * 8 % 0x1_0000_0000_0000_0000
  }

  /** Rounding up gives room for the request, and less than eight bytes more, except in the last seven sizes, where it wraps
      to 0. */
  lemma Align8Suffices(n: nat)
    requires n < 0x1_0000_0000_0000_0000
    ensures Align8(n) >= n <==> n <= 0xFFFF_FFFF_FFFF_FFF8
    ensures Align8(n) % 8 == 0 && Align8(n) < n + 8
  {
    var q := (n + 7) / 8;
    assert n <= 8 * q <= n + 7;
    if n <= 0xFFFF_FFFF_FFFF_FFF8 {
      assert 8 * q < 0x1_0000_0000_0000_0000 && Align8(n) == 8 * q;
    } else {
      assert 8 * q == 0x1_0000_0000_0000_0000 && Align8(n) == 0;
    }
  }

  lemma AlignedUp(a: nat)
    ensures var r := (a + 15) / 16 * 16; a <= r < a + 16 && r % 8 == 0
  {
    var q := (a + 15) / 16;
    assert a <= 16 * q < a + 16 && 16 * q == 8 * (2 * q);
  }

  /** Consecutive blocks follow each other without gap or overlap. */
  ghost predicate Adjacent(bs: seq<Block>, k: int)
    requires 0 <= k < |bs| - 1
  {
    bs[k + 1].addr == bs[k].addr + HDR + bs[k].size
  }

  /** The blocks fill the heap, and the last one is not empty. */
  ghost predicate Tiles(bs: seq<Block>, start: int, total: int) {
    && |bs| > 0 && bs[0].addr == start && start > 0
    && (forall k | 0 <= k < |bs| - 1 :: Adjacent(bs, k))
    && bs[|bs| - 1].addr + bs[|bs| - 1].size == start + total && bs[|bs| - 1].size > 0
    && (forall k | 0 <= k < |bs| :: bs[k].size >= 0 && bs[k].addr % 8 == 0)
  }

  ghost function NextAddr(bs: seq<Block>, k: int): int {
    if 0 <= k < |bs| - 1 then bs[k + 1].addr else 0
  }

  ghost predicate HeaderOk(mem: map<int, Header>, bs: seq<Block>, k: int)
    requires 0 <= k < |bs|
  {
    bs[k].addr in mem && mem[bs[k].addr] == Header(HEAP_MAGIC, bs[k].size, bs[k].free, NextAddr(bs, k))
  }

  /** The headers in memory link exactly the blocks `bs`, in order. */
  ghost predicate Linked(mem: map<int, Header>, bs: seq<Block>) {
    forall k | 0 <= k < |bs| :: HeaderOk(mem, bs, k)
  }

  /** No two neighbouring blocks are both free. */
  ghost predicate Canonical(bs: seq<Block>) {
    forall k | 0 <= k < |bs| - 1 :: !(bs[k].free && bs[k + 1].free)
  }

  /** Live allocations: the pointers handed out, each with its usable size. */
  ghost function Live(bs: seq<Block>): set<(int, int)> {
    set k | 0 <= k < |bs| && !bs[k].free :: (bs[k].addr + HDR, bs[k].size)
  }

  lemma {:induction false} AddrOrder(bs: seq<Block>, start: int, total: int, i: int, j: int)
    requires Tiles(bs, start, total) && 0 <= i < j < |bs|
    ensures bs[i].addr + HDR + bs[i].size <= bs[j].addr
    decreases j - i
  {
    assert Adjacent(bs, j - 1);
    if i < j - 1 { AddrOrder(bs, start, total, i, j - 1); }
  }

  lemma {:induction false} InHeap(bs: seq<Block>, start: int, total: int, k: int)
    requires Tiles(bs, start, total) && 0 <= k < |bs|
    ensures start <= bs[k].addr < start + total && bs[k].addr + bs[k].size <= start + total
  {
    if k > 0 { AddrOrder(bs, start, total, 0, k); }
    if k < |bs| - 1 { AddrOrder(bs, start, total, k, |bs| - 1); }
  }

  /** Live allocations are 8-aligned, lie inside the heap, and overlap neither each other nor any header. */
  lemma LiveDisjoint(bs: seq<Block>, start: int, total: int, p: (int, int), q: (int, int))
    requires Tiles(bs, start, total) && p in Live(bs) && q in Live(bs)
    ensures p.0 % 8 == 0 && start + HDR <= p.0 && p.0 + p.1 <= start + HDR + total
    ensures p == q || p.0 + p.1 <= q.0 - HDR || q.0 + q.1 <= p.0 - HDR
  {
    var i :| 0 <= i < |bs| && !bs[i].free && (bs[i].addr + HDR, bs[i].size) == p;
    var j :| 0 <= j < |bs| && !bs[j].free && (bs[j].addr + HDR, bs[j].size) == q;
    InHeap(bs, start, total, i);
    if i < j { AddrOrder(bs, start, total, i, j); }
    if j < i { AddrOrder(bs, start, total, j, i); }
  }

  /** The usable bytes of the free (or of the allocated) blocks. */
  function Bytes(bs: seq<Block>, free: bool): (n: int) {
    if bs == [] then 0
    else Bytes(bs[..|bs| - 1], free) + if bs[|bs| - 1].free == free then bs[|bs| - 1].size else 0
  }

  lemma {:induction false} PrefixBytes(bs: seq<Block>, start: int, total: int, n: nat)
    requires Tiles(bs, start, total) && 0 < n <= |bs|
    ensures start + Bytes(bs[..n], true) + Bytes(bs[..n], false) + HDR * (n - 1) == bs[n - 1].addr + bs[n - 1].size
    ensures 0 <= Bytes(bs[..n], true) && 0 <= Bytes(bs[..n], false)
  {
    assert bs[..n][..n - 1] == bs[..n - 1];
    if n > 1 {
      PrefixBytes(bs, start, total, n - 1);
      assert Adjacent(bs, n - 2);
    }
  }

  /** Free bytes, allocated bytes and the headers between them add up to the heap. */
  lemma BytesConserved(bs: seq<Block>, start: int, total: int)
    requires Tiles(bs, start, total)
    ensures Bytes(bs, true) + Bytes(bs, false) + HDR * (|bs| - 1) == total
    ensures 0 <= Bytes(bs, true) <= total
  {
    PrefixBytes(bs, start, total, |bs|);
    assert bs[..|bs|] == bs;
  }

  lemma {:induction false} BytesConcat(a: seq<Block>, b: seq<Block>, free: bool)
    ensures Bytes(a + b, free) == Bytes(a, free) + Bytes(b, free)
    decreases |b|
  {
    if b == [] {
      assert a + b == a;
    } else {
      assert (a + b)[..|a + b| - 1] == a + b[..|b| - 1];
      BytesConcat(a, b[..|b| - 1], free);
    }
  }

  lemma OneBlockBytes(b: Block, free: bool)
    ensures Bytes([b], free) == if b.free == free then b.size else 0
  {
    assert [b][..0] == [];
  }

  // ---- Allocation ----

  predicate Fits(b: Block, need: int) {
    b.free && b.size >= need
  }

  /** The blocks after block `k` was taken for `need` bytes, split when enough is left over. */
  function Taken(bs: seq<Block>, k: int, need: int): seq<Block>
    requires 0 <= k < |bs|
  {
    var b := bs[k];
    if b.size >= need + HDR + MIN_SPLIT
    then bs[..k] + [Block(b.addr, need, false), Block(b.addr + HDR + need, b.size - need - HDR, true)] + bs[k + 1..]
    else bs[k := b.(free := false)]
  }

  lemma TakenTiles(bs: seq<Block>, start: int, total: int, k: int, need: int)
    requires Tiles(bs, start, total) && 0 <= k < |bs| && Fits(bs[k], need) && need >= 0 && need % 8 == 0
    ensures Tiles(Taken(bs, k, need), start, total)
  {
    var r := Taken(bs, k, need);
    forall m | 0 <= m < |r| - 1
      ensures Adjacent(r, m)
    {
      TakenAdjacent(bs, start, total, k, need, m);
    }
    TakenLast(bs, k, need);
  }

  lemma TakenAdjacent(bs: seq<Block>, start: int, total: int, k: int, need: int, m: int)
    requires Tiles(bs, start, total) && 0 <= k < |bs| && 0 <= m < |Taken(bs, k, need)| - 1
    ensures Adjacent(Taken(bs, k, need), m)
  {
    if m < |bs| - 1 { assert Adjacent(bs, m); }
    if 0 <= m - 1 < |bs| - 1 { assert Adjacent(bs, m - 1); }
  }

  /** The last block keeps its end, and is not emptied. */
  lemma TakenLast(bs: seq<Block>, k: int, need: int)
    requires 0 <= k < |bs|
    ensures var last, last' := bs[|bs| - 1], Taken(bs, k, need)[|Taken(bs, k, need)| - 1];
      last'.addr + last'.size == last.addr + last.size && (last.size > 0 ==> last'.size > 0)
  {
  }

  lemma TakenLive(bs: seq<Block>, k: int, need: int)
    requires 0 <= k < |bs| && Fits(bs[k], need)
    ensures Live(Taken(bs, k, need)) == Live(bs) + {(bs[k].addr + HDR, Taken(bs, k, need)[k].size)}
  {
    var r := Taken(bs, k, need);
    assert r[k].addr == bs[k].addr && !r[k].free;
    forall p | p in Live(bs)
      ensures p in Live(r)
    {
      var m :| 0 <= m < |bs| && !bs[m].free && (bs[m].addr + HDR, bs[m].size) == p;
      if m < k { assert r[m] == bs[m]; }
      else if |r| == |bs| { assert r[m] == bs[m]; }
      else { assert r[m + 1] == bs[m]; }
    }
    forall p | p in Live(r)
      ensures p in Live(bs) + {(bs[k].addr + HDR, r[k].size)}
    {
      var m :| 0 <= m < |r| && !r[m].free && (r[m].addr + HDR, r[m].size) == p;
      if m < k || (|r| == |bs| && m > k) { assert r[m] == bs[m]; }
      else if m > k + 1 { assert r[m] == bs[m - 1]; }
    }
  }

  /** How many bytes an allocation of `need` is given in a block of `size`: no more than asked for if the rest can be a block. */
  predicate Given(size: int, need: int, n: int) {
    && need <= n < need + HDR + MIN_SPLIT
    && (size >= need + HDR + MIN_SPLIT ==> n == need)
    && (size < need + HDR + MIN_SPLIT ==> n == size)
  }

  /** What taking block `k` costs: the bytes given, and a header where the block is split; all other blocks stay as they are. */
  lemma TakenSizes(bs: seq<Block>, k: int, need: int)
    requires 0 <= k < |bs| && Fits(bs[k], need)
    ensures var bs' := Taken(bs, k, need); k < |bs'| && Given(bs[k].size, need, bs'[k].size)
    ensures var bs' := Taken(bs, k, need); var n := bs'[k].size;
      && Bytes(bs', true) == Bytes(bs, true) - n - HDR * (|bs'| - |bs|)
      && Bytes(bs', false) == Bytes(bs, false) + n
      && |bs'| == |bs| + (if bs[k].size > n then 1 else 0)
    ensures var bs' := Taken(bs, k, need); bs'[..k] == bs[..k] && bs'[|bs'| - (|bs| - k - 1)..] == bs[k + 1..]
  {
    var mid := TakenParts(bs, k, need);
    MidBytes(bs[k], mid, need);
    forall free: bool
      ensures Bytes(bs, free) == Bytes(bs[..k], free) + Bytes([bs[k]], free) + Bytes(bs[k + 1..], free)
      ensures Bytes(Taken(bs, k, need), free) == Bytes(bs[..k], free) + Bytes(mid, free) + Bytes(bs[k + 1..], free)
    {
      ThreeParts(bs[..k], [bs[k]], bs[k + 1..], free);
      ThreeParts(bs[..k], mid, bs[k + 1..], free);
    }
  }

  /** Taking a block replaces it and no other. */
  lemma TakenParts(bs: seq<Block>, k: int, need: int) returns (mid: seq<Block>)
    requires 0 <= k < |bs| && Fits(bs[k], need)
    ensures mid == Taken([bs[k]], 0, need) && 1 <= |mid| <= 2 && Given(bs[k].size, need, mid[0].size)
    ensures |mid| == 1 + (if bs[k].size > mid[0].size then 1 else 0)
    ensures bs == bs[..k] + [bs[k]] + bs[k + 1..] && Taken(bs, k, need) == bs[..k] + mid + bs[k + 1..]
  {
    mid := Taken([bs[k]], 0, need);
  }

  lemma ThreeParts(a: seq<Block>, b: seq<Block>, c: seq<Block>, free: bool)
    ensures Bytes(a + b + c, free) == Bytes(a, free) + Bytes(b, free) + Bytes(c, free)
  {
    BytesConcat(a, b, free);
    BytesConcat(a + b, c, free);
  }

  lemma MidBytes(b: Block, mid: seq<Block>, need: int)
    requires Fits(b, need) && mid == Taken([b], 0, need)
    ensures var n := mid[0].size;
      && Bytes(mid, true) == Bytes([b], true) - n - HDR * (|mid| - 1) && Bytes(mid, false) == Bytes([b], false) + n
  {
    OneBlockBytes(b, true);
    OneBlockBytes(b, false);
    if |mid| == 2 { assert mid == [mid[0]] + [mid[1]]; } else { assert mid == [mid[0]]; }
    forall free: bool, c: Block ensures Bytes([c], free) == if c.free == free then c.size else 0 { OneBlockBytes(c, free); }
    if |mid| == 2 {
      BytesConcat([mid[0]], [mid[1]], true);
      BytesConcat([mid[0]], [mid[1]], false);
    }
  }

  lemma TakenCanonical(bs: seq<Block>, k: int, need: int)
    requires 0 <= k < |bs| && Fits(bs[k], need) && Canonical(bs)
    ensures Canonical(Taken(bs, k, need))
  {
  }

  /** The headers in memory after block `k` was taken. */
  function TakenMemory(mem: map<int, Header>, addr: int, need: int): map<int, Header>
    requires addr in mem
  {
    var h := mem[addr];
    if h.size >= need + HDR + MIN_SPLIT then
      var newb := addr + HDR + need;
      mem[newb := Header(HEAP_MAGIC, h.size - need - HDR, true, h.next)]
         [addr := Header(h.magic, need, false, newb)]
    else mem[addr := h.(free := false)]
  }

  lemma TakenLinked(mem: map<int, Header>, bs: seq<Block>, start: int, total: int, k: int, need: int)
    requires Tiles(bs, start, total) && Linked(mem, bs) && 0 <= k < |bs| && Fits(bs[k], need) && need >= 0 && need % 8 == 0
    ensures bs[k].addr in mem && Linked(TakenMemory(mem, bs[k].addr, need), Taken(bs, k, need))
  {
    assert HeaderOk(mem, bs, k);
    var r := Taken(bs, k, need);
    var mem' := TakenMemory(mem, bs[k].addr, need);
    forall m | 0 <= m < |r|
      ensures HeaderOk(mem', r, m)
    {
      var i := if m <= k then m else if |r| > |bs| then m - 1 else m;
      assert HeaderOk(mem, bs, i);
      if i < k { AddrOrder(bs, start, total, i, k); }
      if i > k { AddrOrder(bs, start, total, k, i); }
    }
  }

  // ---- Release ----

  /** Blocks `k` and `k + 1` merged into one free block. */
  function Merged(bs: seq<Block>, k: int): seq<Block>
    requires 0 <= k < |bs| - 1
  {
    bs[..k] + [Block(bs[k].addr, bs[k].size + HDR + bs[k + 1].size, true)] + bs[k + 2..]
  }

  function MergedMemory(mem: map<int, Header>, a: int, b: int): map<int, Header>
    requires a in mem && b in mem
  {
    mem[a := mem[a].(size := mem[a].size + HDR + mem[b].size, next := mem[b].next)]
  }

  lemma MergedKeeps(mem: map<int, Header>, bs: seq<Block>, start: int, total: int, k: int)
    requires Tiles(bs, start, total) && Linked(mem, bs) && 0 <= k < |bs| - 1 && bs[k].free && bs[k + 1].free
    ensures bs[k].addr in mem && bs[k + 1].addr in mem
    ensures Tiles(Merged(bs, k), start, total)
    ensures Linked(MergedMemory(mem, bs[k].addr, bs[k + 1].addr), Merged(bs, k))
    ensures Live(Merged(bs, k)) == Live(bs)
  {
    var r := Merged(bs, k);
    assert HeaderOk(mem, bs, k) && HeaderOk(mem, bs, k + 1) && Adjacent(bs, k);
    forall m | 0 <= m < |r| - 1
      ensures Adjacent(r, m)
    {
      assert Adjacent(bs, m) && Adjacent(bs, m + 1);
    }
    var mem' := MergedMemory(mem, bs[k].addr, bs[k + 1].addr);
    forall m | 0 <= m < |r|
      ensures HeaderOk(mem', r, m)
    {
      var i := if m <= k then m else m + 1;
      assert HeaderOk(mem, bs, i);
      if i < k { AddrOrder(bs, start, total, i, k); }
      if i > k { AddrOrder(bs, start, total, k, i); }
    }
    MergedLive(bs, k);
  }

  lemma MergedLive(bs: seq<Block>, k: int)
    requires 0 <= k < |bs| - 1 && bs[k].free && bs[k + 1].free
    ensures Live(Merged(bs, k)) == Live(bs)
  {
    var r := Merged(bs, k);
    forall p | p in Live(bs)
      ensures p in Live(r)
    {
      var m :| 0 <= m < |bs| && !bs[m].free && (bs[m].addr + HDR, bs[m].size) == p;
      assert m < k ==> r[m] == bs[m];
      assert m > k + 1 ==> r[m - 1] == bs[m];
    }
    forall p | p in Live(r)
      ensures p in Live(bs)
    {
      var m :| 0 <= m < |r| && !r[m].free && (r[m].addr + HDR, r[m].size) == p;
      assert m < k ==> r[m] == bs[m];
      assert m > k ==> r[m] == bs[m + 1];
    }
  }

  /** Marking block `k` free. */
  lemma FreedKeeps(mem: map<int, Header>, bs: seq<Block>, start: int, total: int, k: int)
    requires Tiles(bs, start, total) && Linked(mem, bs) && 0 <= k < |bs| && !bs[k].free
    ensures var r := bs[k := bs[k].(free := true)];
            bs[k].addr in mem && Tiles(r, start, total)
            && Linked(mem[bs[k].addr := mem[bs[k].addr].(free := true)], r)
            && Live(r) == Live(bs) - {(bs[k].addr + HDR, bs[k].size)}
  {
    var r := bs[k := bs[k].(free := true)];
    assert HeaderOk(mem, bs, k);
    var mem' := mem[bs[k].addr := mem[bs[k].addr].(free := true)];
    forall m | 0 <= m < |r| - 1
      ensures Adjacent(r, m)
    {
      assert Adjacent(bs, m);
    }
    forall m | 0 <= m < |r|
      ensures HeaderOk(mem', r, m)
    {
      assert HeaderOk(mem, bs, m);
      if m < k { AddrOrder(bs, start, total, m, k); }
      if m > k { AddrOrder(bs, start, total, k, m); }
    }
    FreedLive(bs, start, total, k);
  }

  lemma FreedLive(bs: seq<Block>, start: int, total: int, k: int)
    requires Tiles(bs, start, total) && 0 <= k < |bs| && !bs[k].free
    ensures Live(bs[k := bs[k].(free := true)]) == Live(bs) - {(bs[k].addr + HDR, bs[k].size)}
  {
    var r := bs[k := bs[k].(free := true)];
    var gone := (bs[k].addr + HDR, bs[k].size);
    forall p | p in Live(bs) && p != gone
      ensures p in Live(r)
    {
      var m :| 0 <= m < |bs| && !bs[m].free && (bs[m].addr + HDR, bs[m].size) == p;
      assert r[m] == bs[m];
    }
    forall p | p in Live(r)
      ensures p in Live(bs) && p != gone
    {
      var m :| 0 <= m < |r| && !r[m].free && (r[m].addr + HDR, r[m].size) == p;
      assert r[m] == bs[m];
      if m < k { AddrOrder(bs, start, total, m, k); }
      if m > k { AddrOrder(bs, start, total, k, m); }
    }
  }

  /** A canonical heap without live allocations is one free block again. */
  lemma AllFreedIsOneBlock(bs: seq<Block>, start: int, total: int)
    requires Tiles(bs, start, total) && Canonical(bs) && Live(bs) == {}
    ensures bs == [Block(start, total, true)]
  {
    assert |bs| > 1 ==> !(bs[0].free && bs[0 + 1].free);
    forall k | 0 <= k < |bs|
      ensures bs[k].free
    {
      var b := bs[k];
      assert !b.free ==> (b.addr + HDR, b.size) in Live(bs);
    }
  }

  // ---- The allocator ----

  class Allocator {
    var start: int                   // heap_start, 0 for NULL
    var total: int                   // heap_total
    var mem: map<int, Header>        // headers in memory; swallowed ones stay behind
    ghost var blocks: seq<Block>

    ghost predicate Valid()
      reads this
    {
      if start == 0 then blocks == []
      else Tiles(blocks, start, total) && Linked(mem, blocks) && 0 < total < 0x1_0000_0000
    }

    constructor ()
      ensures Valid() && start == 0 && blocks == []
    {
      start, total, mem, blocks := 0, 0, map[], [];
    }

    /** Whether the kernel accepts `p` as a header address. */
    predicate HeaderValid(p: int)
      reads this
    {
      p != 0 && start != 0 && start <= p <= start + total && p % 8 == 0
    }

    lemma ReachableHeadersValid(k: int)
      requires Valid() && start != 0 && 0 <= k < |blocks|
      ensures HeaderValid(blocks[k].addr) && blocks[k].addr in mem && mem[blocks[k].addr].magic == HEAP_MAGIC
    {
      InHeap(blocks, start, total, k);
      assert HeaderOk(mem, blocks, k);
    }

    method Init(startAddr: nat, size: nat)
      requires startAddr > 0 && size < 0x1_0000_0000
      modifies this
      ensures Valid() || size < 48
      ensures size < 48 ==> unchanged(this)
      ensures size >= 48 ==>
                start == (startAddr + 15) / 16 * 16 && total == size - (start - startAddr) - HDR
                && blocks == [Block(start, total, true)]
    {
      var aligned := (startAddr + 15) / 16 * 16;
      if size < HDR + 16 { return; }
      AlignedUp(startAddr);
      var rest := size - (aligned - startAddr);
      start := aligned;
      mem := mem[aligned := Header(HEAP_MAGIC, rest - HDR, true, 0)];
      total := rest - HDR;
      blocks := [Block(aligned, rest - HDR, true)];
    }

    /** Merges neighbouring free blocks, giving up after `WALK_MAX` steps. */
    method Coalesce()
      requires Valid() && start != 0
      modifies `mem, `blocks
      ensures Valid() && Live(blocks) == Live(old(blocks))
      ensures |old(blocks)| <= WALK_MAX + 1 ==> Canonical(blocks)
    {
      var cur, seen := start, 0;
      ghost var k, n := 0, |blocks|;
      while true
        invariant Valid() && 0 <= k < |blocks| && cur == blocks[k].addr
        invariant Live(blocks) == Live(old(blocks))
        invariant seen <= WALK_MAX && seen == k + n - |blocks|
        invariant forall m | 0 <= m < k :: !(blocks[m].free && blocks[m + 1].free)
        decreases |blocks| - k
      {
        ReachableHeadersValid(k);
        assert HeaderOk(mem, blocks, k);
        if k < |blocks| - 1 { ReachableHeadersValid(k + 1); }
        if mem[cur].next == 0 || seen >= WALK_MAX { break; }
        seen := seen + 1;
        assert k < |blocks| - 1;
        ReachableHeadersValid(k + 1);
        assert HeaderOk(mem, blocks, k + 1);
        var next := mem[cur].next;
        if !HeaderValid(cur) || !HeaderValid(next) || mem[cur].magic != HEAP_MAGIC || mem[next].magic != HEAP_MAGIC {
          assert false;
          return;
        }
        if mem[cur].free && mem[next].free {
          MergedKeeps(mem, blocks, start, total, k);
          mem := MergedMemory(mem, cur, next);
          blocks := Merged(blocks, k);
        } else {
          cur := next;
          k := k + 1;
        }
      }
    }

    /** Marks block `k`, at header `cur`, allocated, splitting off what is not needed. */
    method Take(cur: int, need: int, ghost k: int)
      requires Valid() && start != 0 && 0 <= k < |blocks| && cur == blocks[k].addr
      requires Fits(blocks[k], need) && need >= 0 && need % 8 == 0
      modifies `mem, `blocks
      ensures Valid() && blocks == Taken(old(blocks), k, need) && blocks[k].size >= need
      ensures Live(blocks) == Live(old(blocks)) + {(cur + HDR, blocks[k].size)}
      ensures Canonical(old(blocks)) ==> Canonical(blocks)
    {
      TakenTiles(blocks, start, total, k, need);
      TakenLinked(mem, blocks, start, total, k, need);
      TakenLive(blocks, k, need);
      if Canonical(blocks) { TakenCanonical(blocks, k, need); }
      assert HeaderOk(mem, blocks, k);
      if mem[cur].size >= need + HDR + MIN_SPLIT {
        var newb := cur + HDR + need;
        mem := mem[newb := Header(HEAP_MAGIC, mem[cur].size - need - HDR, true, mem[cur].next)]
                  [cur := mem[cur].(next := newb, size := need, free := false)];
      } else {
        mem := mem[cur := mem[cur].(free := false)];
      }
      blocks := Taken(blocks, k, need);
    }

    /** Allocates `size` bytes from the first block that fits; `p` is 0 when no block among the first
        `WALK_MAX` does.  `k` is the index of the block taken. */
    method Kmalloc(size: nat) returns (p: int, ghost k: int)
      requires Valid() && size < 0x1_0000_0000_0000_0000
      modifies `mem, `blocks
      ensures Valid()
      ensures p == 0 ==> unchanged(this)
      ensures p == 0 <==> start == 0 || size == 0
                          || forall m | 0 <= m < |old(blocks)| && m < WALK_MAX :: !Fits(old(blocks)[m], Align8(size))
      ensures p != 0 ==> 0 <= k < |old(blocks)| && p == old(blocks)[k].addr + HDR && Fits(old(blocks)[k], Align8(size))
      ensures p != 0 ==> forall m | 0 <= m < k :: !Fits(old(blocks)[m], Align8(size))
      ensures p != 0 ==> blocks == Taken(old(blocks), k, Align8(size)) && Given(old(blocks)[k].size, Align8(size), blocks[k].size)
      ensures p != 0 ==> Bytes(blocks, true) == Bytes(old(blocks), true) - blocks[k].size - HDR * (|blocks| - |old(blocks)|)
      ensures p != 0 ==> Live(blocks) == Live(old(blocks)) + {(p, blocks[k].size)}
      ensures Canonical(old(blocks)) ==> Canonical(blocks)
    {
      k := 0;
      if start == 0 || size == 0 { return 0, k; }
      var need := Align8(size);
      Align8Suffices(size);
      var cur;
      cur, k := Search(need);
      if cur == 0 { return 0, k; }
      TakenSizes(blocks, k, need);
      Take(cur, need, k);
      return cur + HDR, k;
    }

    /** Walks the list for the first of the first `WALK_MAX` blocks that fits; `cur` is 0 when none does. */
    method Search(need: nat) returns (cur: int, ghost k: int)
      requires Valid() && start != 0
      ensures cur != 0 ==> 0 <= k < |blocks| && cur == blocks[k].addr && Fits(blocks[k], need) && forall m | 0 <= m < k :: !Fits(blocks[m], need)
      ensures cur >= 0 && (cur != 0 ==> k < WALK_MAX)
      ensures cur == 0 ==> forall m | 0 <= m < |blocks| && m < WALK_MAX :: !Fits(blocks[m], need)
    {
      k := 0;
      cur := start;
      var seen := 0;
      while cur != 0 && seen < WALK_MAX
        invariant 0 <= k <= |blocks| && seen == k <= WALK_MAX
        invariant cur == if k < |blocks| then blocks[k].addr else 0
        invariant forall m | 0 <= m < k :: !Fits(blocks[m], need)
        decreases WALK_MAX - seen
      {
        seen := seen + 1;
        ReachableHeadersValid(k);
        assert HeaderOk(mem, blocks, k);
        if !HeaderValid(cur) || mem[cur].magic != HEAP_MAGIC {
          assert false;
          return 0, k;
        }
        if mem[cur].free && mem[cur].size >= need { return; }
        cur := mem[cur].next;
        k := k + 1;
      }
      if k < |blocks| { ReachableHeadersValid(k); }
      return 0, k;
    }

    /** Releases `p`: a live allocation is freed and its neighbours merged; NULL, an address outside the heap
        and a block that is free already are ignored. */
    method Kfree(p: int, ghost k: int)
      requires Valid()
      requires p == 0 || start == 0 || p < start + HDR || p >= start + total + HDR
               || (0 <= k < |blocks| && p == blocks[k].addr + HDR)
      modifies `mem, `blocks
      ensures Valid()
      ensures 0 <= k < |old(blocks)| && p == old(blocks)[k].addr + HDR && !old(blocks)[k].free ==>
                Live(blocks) == Live(old(blocks)) - {(p, old(blocks)[k].size)}
                && (|old(blocks)| <= WALK_MAX + 1 ==> Canonical(blocks))
      ensures !(0 <= k < |old(blocks)| && p == old(blocks)[k].addr + HDR && !old(blocks)[k].free) ==>
                unchanged(this)
    {
      if start != 0 && 0 <= k < |blocks| { InHeap(blocks, start, total, k); }
      if p == 0 || start == 0 { return; }
      if p < start + HDR || p >= start + total + HDR { return; }
      var hdr := p - HDR;
      ReachableHeadersValid(k);
      assert HeaderOk(mem, blocks, k);
      if !HeaderValid(hdr) || mem[hdr].magic != HEAP_MAGIC || mem[hdr].free { return; }
      FreedKeeps(mem, blocks, start, total, k);
      mem := mem[hdr := mem[hdr].(free := true)];
      blocks := blocks[k := blocks[k].(free := true)];
      Coalesce();
    }

    /** The 32-bit sum of the free blocks, which cannot overflow. */
    method FreeBytes() returns (n: int)
      requires Valid()
      ensures n == Bytes(blocks, true) && 0 <= n < 0x1_0000_0000
    {
      n := 0;
      var cur := start;
      ghost var k := 0;
      if start != 0 { BytesConserved(blocks, start, total); }
      while cur != 0
        invariant 0 <= k <= |blocks| && cur == if k < |blocks| then blocks[k].addr else 0
        invariant n == Bytes(blocks[..k], true)
        decreases |blocks| - k
      {
        assert HeaderOk(mem, blocks, k);
        if k < |blocks| - 1 { ReachableHeadersValid(k + 1); }
        assert blocks[..k + 1][..k] == blocks[..k];
        n := n + if mem[cur].free then mem[cur].size else 0;
        cur := mem[cur].next;
        k := k + 1;
      }
      if k < |blocks| { ReachableHeadersValid(k); }
      assert blocks[..k] == blocks;
    }
  }

  // ---- Whole runs ----

  datatype HeapOp = Malloc(size: nat) | Free(p: int)

  /** Block `k` is the first of the blocks within the walk limit that fits. */
  ghost predicate FirstFit(bs: seq<Block>, need: int, k: int) {
    0 <= k < |bs| && k < WALK_MAX && Fits(bs[k], need) && forall m | 0 <= m < k :: !Fits(bs[m], need)
  }

  ghost predicate NoFit(bs: seq<Block>, need: int) {
    forall m | 0 <= m < |bs| && m < WALK_MAX :: !Fits(bs[m], need)
  }

  /** `kmalloc`: NULL exactly when nothing fits or nothing is asked for, otherwise the first block that fits. */
  ghost predicate MallocMeans(size: nat, p: int, bs: seq<Block>, bs': seq<Block>)
    requires size < 0x1_0000_0000_0000_0000
  {
    TakeMeans(size == 0, Align8(size), p, bs, bs')
  }

  ghost predicate TakeMeans(nothing: bool, need: int, p: int, bs: seq<Block>, bs': seq<Block>) {
    if nothing || NoFit(bs, need) then p == 0 && bs' == bs
    else exists k :: FirstFit(bs, need, k) && p == bs[k].addr + HDR && bs' == Taken(bs, k, need)
  }

  /** `p` is the pointer of a live allocation. */
  ghost predicate Freeable(bs: seq<Block>, p: int) {
    exists n :: (p, n) in Live(bs)
  }

  ghost predicate FreeMeans(p: int, bs: seq<Block>, bs': seq<Block>) {
    exists n :: (p, n) in Live(bs) && Live(bs') == Live(bs) - {(p, n)}
  }

  /** What a successful allocation does: one more live allocation, elsewhere than all others, in the first block `k` that fits,
      with what that block can give; and the free bytes fall by that, and by a header where the block is split. */
  lemma MallocAdds(size: nat, p: int, bs: seq<Block>, bs': seq<Block>, start: int, total: int) returns (n: int, k: int)
    requires size < 0x1_0000_0000_0000_0000 && Tiles(bs, start, total) && MallocMeans(size, p, bs, bs') && p != 0
    ensures Live(bs') == Live(bs) + {(p, n)} && (forall q | q in Live(bs) :: q.0 != p)
    ensures FirstFit(bs, Align8(size), k) && p == bs[k].addr + HDR && Given(bs[k].size, Align8(size), n)
    ensures Bytes(bs', true) == Bytes(bs, true) - n - (if bs[k].size > n then HDR else 0)
    ensures size <= 0xFFFF_FFFF_FFFF_FFF8 ==> size <= n < size + 8 + HDR + MIN_SPLIT
  {
    Align8Suffices(size);
    n, k := TakeAdds(size == 0, Align8(size), p, bs, bs', start, total);
  }

  lemma TakeAdds(nothing: bool, need: int, p: int, bs: seq<Block>, bs': seq<Block>, start: int, total: int) returns (n: int, k: int)
    requires Tiles(bs, start, total) && TakeMeans(nothing, need, p, bs, bs') && p != 0
    ensures Live(bs') == Live(bs) + {(p, n)} && (forall q | q in Live(bs) :: q.0 != p)
    ensures FirstFit(bs, need, k) && p == bs[k].addr + HDR && Given(bs[k].size, need, n)
    ensures Bytes(bs', true) == Bytes(bs, true) - n - (if bs[k].size > n then HDR else 0)
  {
    n, k := TakenAdds(nothing, need, p, bs, bs');
    FreshPointer(bs, start, total, k);
  }

  lemma TakenAdds(nothing: bool, need: int, p: int, bs: seq<Block>, bs': seq<Block>) returns (n: int, k: int)
    requires TakeMeans(nothing, need, p, bs, bs') && p != 0
    ensures FirstFit(bs, need, k) && p == bs[k].addr + HDR && Given(bs[k].size, need, n)
    ensures Live(bs') == Live(bs) + {(p, n)}
    ensures Bytes(bs', true) == Bytes(bs, true) - n - (if bs[k].size > n then HDR else 0)
  {
    k :| FirstFit(bs, need, k) && p == bs[k].addr + HDR && bs' == Taken(bs, k, need);
    n := bs'[k].size;
    TakenLive(bs, k, need);
    TakenSizes(bs, k, need);
  }

  lemma LiveIndex(bs: seq<Block>, p: int) returns (k: int)
    requires Freeable(bs, p)
    ensures 0 <= k < |bs| && !bs[k].free && p == bs[k].addr + HDR
  {
    var n :| (p, n) in Live(bs);
    k :| 0 <= k < |bs| && !bs[k].free && (bs[k].addr + HDR, bs[k].size) == (p, n);
  }

  lemma FreshPointer(bs: seq<Block>, start: int, total: int, k: int)
    requires Tiles(bs, start, total) && 0 <= k < |bs| && bs[k].free
    ensures forall q | q in Live(bs) :: q.0 != bs[k].addr + HDR
  {
    forall q | q in Live(bs)
      ensures q.0 != bs[k].addr + HDR
    {
      var m :| 0 <= m < |bs| && !bs[m].free && (bs[m].addr + HDR, bs[m].size) == q;
      if m < k { AddrOrder(bs, start, total, m, k); }
      if m > k { AddrOrder(bs, start, total, k, m); }
    }
  }

  datatype Result = Refused | Called(p: int)

  /** One call of a run: any `kmalloc`, and `kfree` of exactly the live pointers. */
  ghost predicate StepMeaning(op: HeapOp, r: Result, bs: seq<Block>, bs': seq<Block>) {
    match op
    case Malloc(size) => size < 0x1_0000_0000_0000_0000 && r.Called? && MallocMeans(size, r.p, bs, bs')
    case Free(p) => if Freeable(bs, p) then r.Called? && FreeMeans(p, bs, bs') else r.Refused? && bs' == bs
  }

  method Step(h: Allocator, op: HeapOp) returns (r: Result)
    requires h.Valid() && h.start != 0 && (op.Malloc? ==> op.size < 0x1_0000_0000_0000_0000)
    modifies h
    ensures h.Valid() && h.start == old(h.start) && h.total == old(h.total)
    ensures StepMeaning(op, r, old(h.blocks), h.blocks)
    ensures Canonical(old(h.blocks)) && |old(h.blocks)| <= WALK_MAX + 1 ==> Canonical(h.blocks)
  {
    ghost var bs := h.blocks;
    match op
    case Malloc(size) =>
      ghost var k;
      var p;
      p, k := h.Kmalloc(size);
      r := Called(p);
      if p != 0 { assert FirstFit(bs, Align8(size), k); }
    case Free(q) =>
      r := Refused;
      var live := IsLive(h, q);
      if live {
        ghost var k := LiveIndex(bs, q);
        h.Kfree(q, k);
        assert (q, bs[k].size) in Live(bs);
        r := Called(0);
      }
  }

  /** A heap cannot have more blocks than headers fit into it. */
  lemma {:induction false} BlockBound(bs: seq<Block>, start: int, total: int)
    requires Tiles(bs, start, total)
    ensures HDR * (|bs| - 1) <= total
  {
    HeaderSpace(bs, start, total, |bs| - 1);
  }

  lemma {:induction false} HeaderSpace(bs: seq<Block>, start: int, total: int, k: int)
    requires Tiles(bs, start, total) && 0 <= k < |bs|
    ensures start + HDR * k <= bs[k].addr
    decreases k
  {
    if k > 0 {
      HeaderSpace(bs, start, total, k - 1);
      assert Adjacent(bs, k - 1);
    }
  }

  /** No list of the run outgrows the kernel's walk limit; certain when the heap has no room for more headers. */
  ghost predicate WithinWalk(trace: seq<seq<Block>>, total: int) {
    total <= HDR * WALK_MAX || forall n | 0 <= n < |trace| :: |trace[n]| <= WALK_MAX + 1
  }

  /** Between any two calls: the tiling; no two free neighbours; one free block if nothing is live. */
  ghost predicate Tidy(bs: seq<Block>, start: int, total: int) {
    Canonical(bs) && (Live(bs) == {} ==> bs == [Block(start, total, true)])
  }

  /** Every list of the run tiles the heap and, within the walk limit, is tidy. */
  ghost predicate TraceOk(trace: seq<seq<Block>>, start: int, total: int) {
    && (forall n | 0 <= n < |trace| :: Tiles(trace[n], start, total))
    && (WithinWalk(trace, total) ==> forall n | 0 <= n < |trace| :: Tidy(trace[n], start, total))
  }

  lemma CanonicalIsTidy(bs: seq<Block>, start: int, total: int)
    requires Tiles(bs, start, total) && Canonical(bs)
    ensures Tidy(bs, start, total)
  {
    if Live(bs) == {} { AllFreedIsOneBlock(bs, start, total); }
  }

  lemma TraceExtends(trace: seq<seq<Block>>, bs: seq<Block>, start: int, total: int)
    requires TraceOk(trace, start, total) && |trace| > 0 && Tiles(bs, start, total)
    requires Canonical(trace[|trace| - 1]) && |trace[|trace| - 1]| <= WALK_MAX + 1 ==> Canonical(bs)
    ensures TraceOk(trace + [bs], start, total)
  {
    var last := trace[|trace| - 1];
    BlockBound(last, start, total);
    if WithinWalk(trace + [bs], total) {
      assert forall n | 0 <= n < |trace| :: (trace + [bs])[n] == trace[n];
      assert WithinWalk(trace, total) && Tidy(last, start, total);
      CanonicalIsTidy(bs, start, total);
    }
  }

  /** Every interleaving of allocations and releases of live pointers keeps the tiling; within the walk limit the list
      stays canonical at every step, and is one free block whenever everything is released. */
  method Run(h: Allocator, ops: seq<HeapOp>) returns (results: seq<Result>, ghost trace: seq<seq<Block>>)
    requires h.Valid() && h.start != 0 && Canonical(h.blocks)
    requires forall op | op in ops && op.Malloc? :: op.size < 0x1_0000_0000_0000_0000
    modifies h
    ensures h.Valid() && h.start == old(h.start) && h.total == old(h.total)
    ensures |results| == |ops| && |trace| == |ops| + 1 && trace[0] == old(h.blocks) && trace[|ops|] == h.blocks
    ensures forall n | 0 <= n < |ops| :: StepMeaning(ops[n], results[n], trace[n], trace[n + 1])
    ensures TraceOk(trace, h.start, h.total)
  {
    results, trace := [], [h.blocks];
    CanonicalIsTidy(h.blocks, h.start, h.total);
    for n := 0 to |ops|
      invariant h.Valid() && h.start == old(h.start) != 0 && h.total == old(h.total)
      invariant |results| == n && |trace| == n + 1 && trace[0] == old(h.blocks) && trace[n] == h.blocks
      invariant forall m | 0 <= m < n :: StepMeaning(ops[m], results[m], trace[m], trace[m + 1])
      invariant TraceOk(trace, h.start, h.total)
    {
      assert ops[n] in ops;
      var r := Step(h, ops[n]);
      TraceExtends(trace, h.blocks, h.start, h.total);
      results, trace := results + [r], trace + [h.blocks];
    }
  }

  /** Whether `p` is a live allocation: found by walking the list. */
  method IsLive(h: Allocator, p: int) returns (yes: bool)
    requires h.Valid() && h.start != 0
    ensures yes <==> Freeable(h.blocks, p)
  {
    var cur := h.start;
    ghost var k := 0;
    while cur != 0
      invariant 0 <= k <= |h.blocks| && cur == if k < |h.blocks| then h.blocks[k].addr else 0
      invariant forall m | 0 <= m < k :: h.blocks[m].free || h.blocks[m].addr + HDR != p
      decreases |h.blocks| - k
    {
      assert HeaderOk(h.mem, h.blocks, k);
      if k < |h.blocks| - 1 { h.ReachableHeadersValid(k + 1); }
      if !h.mem[cur].free && cur + HDR == p {
        assert (p, h.blocks[k].size) in Live(h.blocks);
        return true;
      }
      cur := h.mem[cur].next;
      k := k + 1;
    }
    if k < |h.blocks| { h.ReachableHeadersValid(k); }
    return false;
  }

  /** `kmalloc(2^64 - 1)` on a fresh heap succeeds with a block of no bytes. */
  method HugeRequest() returns (h: Allocator, p: int)
    ensures fresh(h) && h.Valid() && p != 0 && (p, 0) in Live(h.blocks)
  {
    h := new Allocator();
    h.Init(16, 1024);
    ghost var bs := h.blocks;
    assert Align8(0xFFFF_FFFF_FFFF_FFFF) == 0;
    assert Fits(bs[0], 0);
    ghost var k;
    p, k := h.Kmalloc(0xFFFF_FFFF_FFFF_FFFF);
    assert k == 0;
  }

  /** On a fresh heap of 1024 bytes, 992 of them usable, requests of 400 and 480 bytes both succeed and are given just that. */
  method TwoRequests() returns (h: Allocator, p: int, q: int)
    ensures fresh(h) && h.Valid() && p != 0 && q != 0 && p != q && (p, 400) in Live(h.blocks) && (q, 480) in Live(h.blocks)
    ensures Bytes(h.blocks, true) == 48
  {
    h, p := OneRequest();
    ghost var k;
    q, k := h.Kmalloc(480);
  }

  method OneRequest() returns (h: Allocator, p: int)
    ensures fresh(h) && h.Valid() && h.start != 0 && p == 48 && (p, 400) in Live(h.blocks) && Bytes(h.blocks, true) == 560
    ensures |h.blocks| == 2 && !h.blocks[0].free && h.blocks[1] == Block(448, 560, true) && Fits(h.blocks[1], Align8(480))
  {
    h := new Allocator();
    h.Init(16, 1024);
    OneBlockBytes(h.blocks[0], true);
    assert Fits(h.blocks[0], Align8(400));
    ghost var k;
    p, k := h.Kmalloc(400);
    RestOf(h.blocks);
  }

  /** What the first request leaves. */
  lemma RestOf(bs: seq<Block>)
    requires bs == Taken([Block(16, 992, true)], 0, 400)
    ensures |bs| == 2 && bs[1] == Block(448, 560, true) && !bs[0].free && Fits(bs[1], Align8(480)) && (48, 400) in Live(bs)
  {
    assert bs[0] == Block(16, 400, false);
  }
}
