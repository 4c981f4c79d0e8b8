/** The mounted CatFS state and its operations, updated in place. */
module CatFs {
  import opened Words
  import opened CatForest
  import opened CatStore
  import opened CatBytes
  import opened CatPrune
  import opened CatNames
  import opened CatLookup
  import Bitmap

  /** 32-bit addition, as the kernel computes offsets. */
  function Add32(a: U32, b: U32): (r: U32) {
    if a + b < 0x1_0000_0000 then a + b else a + b - 0x1_0000_0000
  }

  /** The size of a file of `size` bytes once `w` bytes are written at `offset`. */
  function SizeAfter(size: U32, offset: U32, w: int): U32 {
    if 0 < w && size < offset + w < 0x1_0000_0000 then offset + w else size
  }

  /** No block is held by two slots, of the same or of different inodes. */
  lemma SingleOwner(im: Image, u: Slot, v: Slot)
    requires Coherent(im) && ValidSlot(u) && ValidSlot(v)
    requires Val(im.table, im.ins, u) == Val(im.table, im.ins, v) != 0
    ensures u == v
  {
    Unseal(im);
  }

  /** A bit is set exactly for block 0 and the blocks held by some slot, and the free counter counts
      the clear bits. */
  lemma BitmapMeansOwned(bitmap: Bitmap.Bytes, freeBlocks: nat, im: Image)
    requires Coherent(im) && Bitmap.Exact(bitmap, freeBlocks, InUse(im))
    ensures |bitmap| == BLOCKS_MAX / 8
    ensures forall b: nat | b < BLOCKS_MAX ::
              Bitmap.Test(bitmap, b) <==> b == 0 || exists u :: ValidSlot(u) && Val(im.table, im.ins, u) == b
    ensures freeBlocks == |set b: nat | b < BLOCKS_MAX && !Bitmap.Test(bitmap, b)|
  {
    Bitmap.UsedInRange(bitmap, freeBlocks, InUse(im));
    forall b: nat | b < BLOCKS_MAX
      ensures Bitmap.Test(bitmap, b) <==> b == 0 || exists u :: ValidSlot(u) && Val(im.table, im.ins, u) == b
    {
      BitIsOwned(bitmap, freeBlocks, im, b);
    }
    FreeIsClear(bitmap, freeBlocks, InUse(im));
  }

  lemma BitIsOwned(bitmap: Bitmap.Bytes, freeBlocks: nat, im: Image, b: nat)
    requires Coherent(im) && Bitmap.Exact(bitmap, freeBlocks, InUse(im)) && b < BLOCKS_MAX
    ensures |bitmap| == BLOCKS_MAX / 8
    ensures Bitmap.Test(bitmap, b) <==> b == 0 || exists u :: ValidSlot(u) && Val(im.table, im.ins, u) == b
  {
    assert Bitmap.ExactAt(bitmap, freeBlocks, InUse(im), b);
    UsedIsOwned(im, b);
  }

  lemma FreeIsClear(bitmap: Bitmap.Bytes, freeBlocks: nat, used: set<int>)
    requires Bitmap.Exact(bitmap, freeBlocks, used)
    ensures |bitmap| == BLOCKS_MAX / 8
    ensures freeBlocks == |set b: nat | b < BLOCKS_MAX && !Bitmap.Test(bitmap, b)|
  {
    Bitmap.UsedInRange(bitmap, freeBlocks, used);
    forall b: nat | b < BLOCKS_MAX ensures Bitmap.Test(bitmap, b) <==> b in used {
      assert Bitmap.ExactAt(bitmap, freeBlocks, used, b);
    }
    var clear := set b: nat | b < BLOCKS_MAX && !Bitmap.Test(bitmap, b);
    ClearCount(clear, used, BLOCKS_MAX);
  }

  lemma UsedIsOwned(im: Image, b: nat)
    requires Coherent(im) && b < BLOCKS_MAX
    ensures b in InUse(im) <==> b == 0 || exists u :: ValidSlot(u) && Val(im.table, im.ins, u) == b
  {
    Unseal(im);
  }

  /** What is not used is counted by what is clear. */
  lemma ClearCount(clear: set<int>, used: set<int>, n: nat)
    requires forall b :: b in clear <==> 0 <= b < n && b !in used
    requires forall b | b in used :: 0 <= b < n
    ensures |clear| + |used| == n
  {
    Bitmap.FullBelow(n, clear + used);
    assert clear !! used;
  }

  // ---- What a write takes ----

  /** The slots on the paths of file blocks `a` to `b - 1`. */
  ghost function Paths(i: int, a: int, b: int): set<Slot>
    decreases b - a
  {
    if b <= a then {} else Paths(i, a, b - 1) + Path(i, b - 1)
  }

  /** The slots on the paths of the file blocks that hold one of the `w` bytes from `offset` on. */
  ghost function PathsOf(i: int, offset: nat, w: nat): set<Slot> {
    if w == 0 then {} else Paths(i, offset / 512, (offset + w - 1) / 512 + 1)
  }

  /** One more chunk, which lies in one block and begins it unless it is the first, adds the path of that block. */
  lemma PathsNext(i: int, offset: nat, w: nat, chunk: nat)
    requires 0 < chunk <= 512 - (offset + w) % 512 && (w > 0 ==> (offset + w) % 512 == 0)
    ensures PathsOf(i, offset, w + chunk) == PathsOf(i, offset, w) + Path(i, (offset + w) / 512)
  {
    var l := (offset + w) / 512;
    assert (offset + w + chunk - 1) / 512 == l;
    if w > 0 {
      assert (offset + w - 1) / 512 == l - 1;
    } else {
      assert Paths(i, l, l) == {};
    }
  }

  /** What filling the slots of `path` comes to: they are held afterwards exactly on success, and nothing else is added. */
  ghost predicate Filled(held: set<Slot>, held': set<Slot>, path: set<Slot>, ok: bool) {
    held <= held' <= held + path && (ok <==> path <= held')
  }

  /** With so many blocks free before and after, the slots of `path` can be filled exactly if there are enough. */
  lemma FilledIff(held: set<Slot>, free: nat, held': set<Slot>, free': nat, path: set<Slot>, ok: bool)
    requires Filled(held, held', path, ok) && free + |held| == free' + |held'| && (!ok ==> free' == 0)
    ensures ok <==> |path - held| <= free
  {
    assert held + path == held + (path - held);
    if ok {
      assert held' == held + path;
    } else {
      Smaller(held', held + path);
    }
  }

  lemma Smaller(a: set<Slot>, b: set<Slot>)
    requires a < b
    ensures |a| < |b|
  {
    assert b == a + (b - a);
    assert |b - a| > 0;
  }

  /** Where a truncate to `newSize` starts to free: the rounding up wraps at 32 bits. */
  function FirstFreed(newSize: U32): nat { Add32(newSize, 511) / 512 }

  /** A shrinking truncate keeps the blocks below the new size of a file that has any, exactly when the rounding does not wrap. */
  lemma TruncateKeeps(im: Image, i: int, newSize: U32, l0: int)
    requires Coherent(im) && (i, l0) in im.store
    ensures (forall l | (i, l) in im.store && 512 * l < newSize :: (i, l) in Cut(im.store, i, FirstFreed(newSize), SlotsOf(i)))
            <==> newSize + 511 < 0x1_0000_0000
  {
    Unseal(im);
    if newSize + 511 >= 0x1_0000_0000 {
      assert FirstFreed(newSize) == 0 && l0 < MAX_FILE_BLOCKS && 512 * l0 < newSize;
      assert (i, l0) !in Cut(im.store, i, FirstFreed(newSize), SlotsOf(i));
    }
  }

  /** The free counter rises by exactly the number of blocks released. */
  lemma ReleasedCount(a: Image, b: Image, i: int, first: int, bits: Bitmap.Bytes, free: nat, bits': Bitmap.Bytes, free': nat)
    requires Pruned(a, b, i, first, SlotsOf(i))
    requires Bitmap.Exact(bits, free, InUse(a)) && Bitmap.Exact(bits', free', InUse(b))
    ensures free' == free + |Released(a, i, first, SlotsOf(i))|
  {
    assert PrunedAt(a, b, i, first, SlotsOf(i), Ind(i));
    ReleasedInUse(a, i, first, SlotsOf(i));
    Bitmap.UsedInRange(bits, free, InUse(a));
    Bitmap.UsedInRange(bits', free', InUse(b));
    SplitCount(InUse(a), Released(a, i, first, SlotsOf(i)));
  }

  lemma ReleasedInUse(im: Image, i: int, first: int, done: iset<Slot>)
    requires Shaped(im.table, im.ins)
    ensures Released(im, i, first, done) <= InUse(im)
  {
  }

  lemma SplitCount(all: set<int>, part: set<int>)
    requires part <= all
    ensures |all| == |all - part| + |part|
  {
    assert all == (all - part) + part;
  }

  lemma LeafIsHeld(im: Image, i: int, k: int, j: int, l: int)
    requires Coherent(im) && 0 <= i < INODE_MAX && 0 <= k < PTRS && 0 <= j < PTRS && l == DoubleIndex(k, j)
    ensures L2(i, k, j) in Held(im) <==> Phys(im, i, l) != 0
    ensures L1(i, k) in Held(im) <==> Level1Block(im, i, k) != 0
  {
    HeldIs(im, L2(i, k, j));
    HeldIs(im, L1(i, k));
    PositionIsInjective(L2(i, k, j));
  }

  /** Once `w` of `len` bytes are written: the slots on their paths are held besides those held before. If that is all there
      was to write, or the file is at its limit, no others are; else the disk is full, and the next byte's path is not held. */
  ghost predicate Took(held: set<Slot>, held': set<Slot>, free': nat, i: int, offset: nat, len: nat, w: nat) {
    if w == len || offset + w >= MAX_FILE_BYTES then held' == held + PathsOf(i, offset, w)
    else free' == 0 && held + PathsOf(i, offset, w) <= held' < held + PathsOf(i, offset, w + 1)
  }

  /** A write stores as many bytes as it can: the slots it needs are no more than the blocks free before, and for one byte
      more they would be. */
  lemma TookMost(held: set<Slot>, free: nat, held': set<Slot>, free': nat, i: int, offset: nat, len: nat, w: nat)
    requires w <= len && Took(held, held', free', i, offset, len, w) && free + |held| == free' + |held'|
    ensures |PathsOf(i, offset, w) - held| <= free
    ensures w < len && offset + w < MAX_FILE_BYTES ==> |PathsOf(i, offset, w + 1) - held| > free
  {
    var now, more := PathsOf(i, offset, w), PathsOf(i, offset, w + 1);
    assert held + now == held + (now - held) && held + more == held + (more - held);
    if w == len || offset + w >= MAX_FILE_BYTES {
    } else {
      AtMost(held + now, held');
      Smaller(held', held + more);
    }
  }

  lemma AtMost(a: set<Slot>, b: set<Slot>)
    requires a <= b
    ensures |a| <= |b|
  {
    assert b == a + (b - a);
  }

  // ---- What new blocks hold besides what was written ----

  /** In every file block that was not mapped before, the bytes other than the `n` written from `offset` on are those the disk
      held in the block it was given. */
  ghost predicate FreshBytes(im: Image, im': Image, i: int, offset: int, n: int) {
    forall l {:trigger FreshAt(im, im', i, offset, n, l)} :: FreshAt(im, im', i, offset, n, l)
  }

  lemma WriteStarts(im: Image, i: int, offset: nat, buf: seq<Byte>)
    requires |im.disk| == BLOCKS_MAX
    ensures Written(im.store, im.store, i, offset, buf[..0]) && FreshBytes(im, im, i, offset, 0) && Extends(im, im)
  {
    WrittenNothing(im.store, i, offset, buf);
  }

  ghost predicate FreshAt(im: Image, im': Image, i: int, offset: int, n: int, l: int) {
    (i, l) in im'.store && (i, l) !in im.store ==> exists b :: FreshIn(im, im', i, offset, n, l, b)
  }

  ghost predicate FreshIn(im: Image, im': Image, i: int, offset: int, n: int, l: int, b: int) {
    && 0 <= i < INODE_MAX && 0 <= l < MAX_FILE_BLOCKS && 0 <= b < |im.disk| && (i, l) in im'.store
    && b !in im.owner && b in im'.owner && im'.owner[b] == LeafSlot(i, l)
    && forall o | 0 <= o < 512 && !(offset <= 512 * l + o < offset + n) :: im'.store[(i, l)][o] == im.disk[b][o]
  }

  lemma FreshFrame(im0: Image, im: Image, im': Image, i: int, offset: int, n: int)
    requires FreshBytes(im0, im, i, offset, n) && im'.store == im.store
    requires forall b | b in im.owner :: b in im'.owner && im'.owner[b] == im.owner[b]
    ensures FreshBytes(im0, im', i, offset, n)
  {
    forall l ensures FreshAt(im0, im', i, offset, n, l) {
      assert FreshAt(im0, im, i, offset, n, l);
      if b :| FreshIn(im0, im, i, offset, n, l, b) { assert FreshIn(im0, im', i, offset, n, l, b); }
    }
  }

  /** One turn of the write loop, which maps block `l`, to disk block `b` if that is new, and stores `more` at byte `o` of it. */
  lemma FreshStep(im0: Image, im: Image, mid: Image, im': Image, i: int, offset: nat, n: nat, l: nat, o: nat, more: seq<Byte>, b: int)
    requires Extends(im0, im) && FreshBytes(im0, im, i, offset, n) && Extends(im, im') && im'.owner == mid.owner
    requires Resolved(im.store, mid.store, i, l, true) && ((i, l) !in im.store ==> Fresh(im, mid, i, l, b))
    requires o + |more| <= 512 && im'.store == mid.store[(i, l) := Patched(mid.store[(i, l)], o, more)] && 512 * l + o == offset + n
    ensures FreshBytes(im0, im', i, offset, n + |more|)
  {
    var n' := n + |more|;
    forall k ensures FreshAt(im0, im', i, offset, n', k) {
      assert FreshAt(im0, im, i, offset, n, k);
      if (i, k) in im'.store && (i, k) !in im0.store {
        if (i, k) in im.store {
          var c :| FreshIn(im0, im, i, offset, n, k, c);
          assert FreshIn(im0, im', i, offset, n', k, c);
        } else {
          assert FreshIn(im0, im', i, offset, n', l, b);
        }
      }
    }
  }

  class CatFs {
    var mounted: bool
    var disk: seq<Sector>         // data region, indexed by block number
    var inodes: seq<Inode>
    var bitmap: Bitmap.Bytes
    var freeBlocks: nat
    var freeInodes: nat

    ghost var used: set<int>      // blocks whose bitmap bit is set
    ghost var im: Image           // the disk and the inodes, with owners and logical view

    /** Single ownership, an exact bitmap, and the logical view of the disk. */
    ghost predicate Valid()
      reads this
    {
      && Bitmap.Exact(bitmap, freeBlocks, used)
      && im.disk == disk && im.ins == inodes && Coherent(im)
      && used == InUse(im)
    }

    method BmAlloc() returns (nb: int)
      requires Bitmap.Exact(bitmap, freeBlocks, used)
      modifies `bitmap, `freeBlocks, `used
      ensures Bitmap.Exact(bitmap, freeBlocks, used)
      ensures nb >= 0 ==> nb < BLOCKS_MAX && nb !in old(used) && used == old(used) + {nb}
      ensures nb >= 0 ==> freeBlocks == old(freeBlocks) - 1 && forall c | 0 <= c < nb :: c in old(used)
      ensures nb < 0 ==> old(freeBlocks) == 0 && used == old(used) && bitmap == old(bitmap) && freeBlocks == 0
    {
      for i := 0 to BLOCKS_MAX
        invariant forall c | 0 <= c < i :: c in used
      {
        assert Bitmap.ExactAt(bitmap, freeBlocks, used, i);
        if !Bitmap.Test(bitmap, i) {
          Bitmap.Claim(bitmap, freeBlocks, used, i);
          bitmap := Bitmap.Set(bitmap, i);
          if freeBlocks > 0 { freeBlocks := freeBlocks - 1; }
          used := used + {i};
          return i;
        }
      }
      Bitmap.NoneFree(bitmap, freeBlocks, used);
      return -1;
    }

    method BmFree(b: int)
      requires Bitmap.Exact(bitmap, freeBlocks, used) && 0 <= b < BLOCKS_MAX
      modifies `bitmap, `freeBlocks, `used
      ensures Bitmap.Exact(bitmap, freeBlocks, used) && used == old(used) - {b}
    {
      assert Bitmap.ExactAt(bitmap, freeBlocks, used, b);
      if Bitmap.Test(bitmap, b) {
        Bitmap.Release(bitmap, freeBlocks, used, b);
        bitmap := Bitmap.Clear(bitmap, b);
        freeBlocks := freeBlocks + 1;
        used := used - {b};
      }
    }

    method ResolveDirect(i: int, l: int, create: bool) returns (ok: bool, phys: int)
      requires Valid() && Live(im, i) && 0 <= l < DIRECT
      modifies `inodes, `bitmap, `freeBlocks, `used, `im
      ensures Valid() && SameButPointers(old(inodes), inodes, i)
      ensures Resolved(old(im.store), im.store, i, l, ok)
      ensures ok ==> phys == Phys(im, i, l) != 0
      ensures !ok ==> !create || freeBlocks == 0
      ensures !create ==> unchanged(this)
      ensures create ==> Filled(old(Held(im)), Held(im), {Direct(i, l)}, ok)
      ensures Extends(old(im), im) && (ok && (i, l) !in old(im.store) ==> Fresh(old(im), im, i, l, phys))
    {
      PhysInStore(im, i, l);
      HeldIs(im, Direct(i, l));
      phys := inodes[i].blocks[l];
      if phys == 0 {
        if !create { return false, 0; }
        var nb := BmAlloc();
        if nb < 0 { return false, 0; }
        im := AddDirect(im, i, l, nb);
        inodes := inodes[i := inodes[i].(blocks := inodes[i].blocks[l := nb])];
        phys := nb;
      }
      return true, phys;
    }

    /** Allocates and zeroes the indirect block of inode `i`. */
    method NewIndirect(i: int) returns (ok: bool)
      requires Valid() && Live(im, i) && inodes[i].indirect == 0
      modifies `inodes, `disk, `bitmap, `freeBlocks, `used, `im
      ensures Valid() && SameButPointers(old(inodes), inodes, i) && im.store == old(im.store)
      ensures ok ==> inodes[i].indirect != 0 && Held(im) == old(Held(im)) + {Ind(i)}
      ensures !ok ==> inodes == old(inodes) && im == old(im) && freeBlocks == 0
      ensures Extends(old(im), im)
    {
      var nb := BmAlloc();
      if nb < 0 { return false; }
      im := AddInd(im, i, nb);
      inodes := inodes[i := inodes[i].(indirect := nb)];
      disk := disk[nb := Zeros(SECTOR_SIZE)];
      return true;
    }

    /** Entry `k` of the indirect block, allocated on demand. */
    method IndirectLeaf(i: int, k: int, l: int, create: bool) returns (ok: bool, phys: int)
      requires Valid() && Live(im, i) && 0 <= k < PTRS && l == DIRECT + k && inodes[i].indirect != 0
      modifies `disk, `bitmap, `freeBlocks, `used, `im
      ensures Valid()
      ensures Resolved(old(im.store), im.store, i, l, ok)
      ensures ok ==> phys == Phys(im, i, l) != 0
      ensures !ok ==> !create || freeBlocks == 0
      ensures !create ==> unchanged(this)
      ensures create ==> Filled(old(Held(im)), Held(im), {IndLeaf(i, k)}, ok)
      ensures Extends(old(im), im) && (ok && (i, l) !in old(im.store) ==> Fresh(old(im), im, i, l, phys))
    {
      ReadIndirect(im, i, k, l);
      HeldIs(im, IndLeaf(i, k));
      var c := inodes[i].indirect;
      var sec := disk[c];
      phys := Pointers(sec)[k];
      if phys == 0 {
        if !create { return false, 0; }
        var nb := BmAlloc();
        if nb < 0 { return false, 0; }
        im := AddIndLeaf(im, i, k, l, nb);
        disk := disk[c := SetPointer(sec, k, nb)];
        phys := nb;
      }
      return true, phys;
    }

    method ResolveIndirect(i: int, k: int, l: int, create: bool) returns (ok: bool, phys: int)
      requires Valid() && Live(im, i) && 0 <= k < PTRS && l == DIRECT + k
      modifies `inodes, `disk, `bitmap, `freeBlocks, `used, `im
      ensures Valid() && SameButPointers(old(inodes), inodes, i)
      ensures Resolved(old(im.store), im.store, i, l, ok)
      ensures ok ==> phys == Phys(im, i, l) != 0
      ensures !ok ==> !create || freeBlocks == 0
      ensures !create ==> unchanged(this)
      ensures create ==> Filled(old(Held(im)), Held(im), {Ind(i), IndLeaf(i, k)}, ok)
      ensures Extends(old(im), im) && (ok && (i, l) !in old(im.store) ==> Fresh(old(im), im, i, l, phys))
    {
      HeldIs(im, Ind(i));
      HeldIs(im, IndLeaf(i, k));
      if inodes[i].indirect == 0 {
        ReadIndirect(im, i, k, l);
        if !create { return false, 0; }
        ok := NewIndirect(i);
        if !ok { return false, 0; }
      }
      ghost var mid := im;
      ok, phys := IndirectLeaf(i, k, l, create);
      ExtendsTrans(old(im), mid, im);
      if ok && (i, l) !in old(im.store) { FreshTrans(old(im), mid, im, i, l, phys); }
    }

    /** Allocates and zeroes the double-indirect block of inode `i`. */
    method NewDouble(i: int) returns (ok: bool)
      requires Valid() && Live(im, i) && inodes[i].dindirect == 0
      modifies `inodes, `disk, `bitmap, `freeBlocks, `used, `im
      ensures Valid() && SameButPointers(old(inodes), inodes, i) && im.store == old(im.store)
      ensures ok ==> inodes[i].dindirect != 0 && Held(im) == old(Held(im)) + {Dind(i)}
      ensures !ok ==> inodes == old(inodes) && im == old(im) && freeBlocks == 0
      ensures Extends(old(im), im)
    {
      var nb := BmAlloc();
      if nb < 0 { return false; }
      im := AddDind(im, i, nb);
      inodes := inodes[i := inodes[i].(dindirect := nb)];
      disk := disk[nb := Zeros(SECTOR_SIZE)];
      return true;
    }

    /** Finds the level-1 block `k` under the double-indirect block, allocated on demand. */
    method Level1(i: int, k: int, create: bool) returns (ok: bool, l1: int)
      requires Valid() && Live(im, i) && 0 <= k < PTRS && inodes[i].dindirect != 0
      modifies `disk, `bitmap, `freeBlocks, `used, `im
      ensures Valid() && im.store == old(im.store)
      ensures ok ==> l1 == Level1Block(im, i, k) != 0
      ensures !ok ==> Level1Block(im, i, k) == 0 && (!create || freeBlocks == 0)
      ensures !create ==> unchanged(this)
      ensures create ==> Filled(old(Held(im)), Held(im), {L1(i, k)}, ok)
      ensures Extends(old(im), im)
    {
      ReadDouble(im, i, k);
      HeldIs(im, L1(i, k));
      var c := inodes[i].dindirect;
      var sec := disk[c];
      l1 := Pointers(sec)[k];
      if l1 == 0 {
        if !create { return false, 0; }
        var nb := BmAlloc();
        if nb < 0 { return false, 0; }
        im := AddL1(im, i, k, nb);
        disk := disk[c := SetPointer(sec, k, nb)][nb := Zeros(SECTOR_SIZE)];
        l1 := nb;
      }
      return true, l1;
    }

    /** Entry `j` of level-1 block `k`, allocated on demand. */
    method Level2(i: int, k: int, j: int, l: int, l1: int, create: bool) returns (ok: bool, phys: int)
      requires Valid() && Live(im, i) && 0 <= k < PTRS && 0 <= j < PTRS && l == DoubleIndex(k, j) && l1 == Level1Block(im, i, k) != 0
      modifies `disk, `bitmap, `freeBlocks, `used, `im
      ensures Valid()
      ensures Resolved(old(im.store), im.store, i, l, ok)
      ensures ok ==> phys == Phys(im, i, l) != 0
      ensures !ok ==> !create || freeBlocks == 0
      ensures !create ==> unchanged(this)
      ensures create ==> Filled(old(Held(im)), Held(im), {L2(i, k, j)}, ok)
      ensures Extends(old(im), im) && (ok && (i, l) !in old(im.store) ==> Fresh(old(im), im, i, l, phys))
    {
      ReadLevel1(im, i, k, j, l);
      LeafIsHeld(im, i, k, j, l);
      var sec := disk[l1];
      phys := Pointers(sec)[j];
      if phys == 0 {
        if !create { return false, 0; }
        var nb := BmAlloc();
        if nb < 0 { return false, 0; }
        im := AddL2(im, i, k, j, l, nb);
        disk := disk[l1 := SetPointer(sec, j, nb)];
        phys := nb;
      }
      return true, phys;
    }

    method ResolveDouble(i: int, k: int, j: int, l: int, create: bool) returns (ok: bool, phys: int)
      requires Valid() && Live(im, i) && 0 <= k < PTRS && 0 <= j < PTRS && l == DoubleIndex(k, j)
      modifies `inodes, `disk, `bitmap, `freeBlocks, `used, `im
      ensures Valid() && SameButPointers(old(inodes), inodes, i)
      ensures Resolved(old(im.store), im.store, i, l, ok)
      ensures ok ==> phys == Phys(im, i, l) != 0
      ensures !ok ==> !create || freeBlocks == 0
      ensures !create ==> unchanged(this)
      ensures create ==> Filled(old(Held(im)), Held(im), {Dind(i), L1(i, k), L2(i, k, j)}, ok)
      ensures Extends(old(im), im) && (ok && (i, l) !in old(im.store) ==> Fresh(old(im), im, i, l, phys))
    {
      HeldIs(im, Dind(i));
      LeafIsHeld(im, i, k, j, l);
      if inodes[i].dindirect == 0 {
        ReadDouble(im, i, k);
        ReadLevel1(im, i, k, j, l);
        if !create { return false, 0; }
        ok := NewDouble(i);
        if !ok { return false, 0; }
      }
      ghost var mid := im;
      ok, phys := ResolveLevels(i, k, j, l, create);
      ExtendsTrans(old(im), mid, im);
      if ok && (i, l) !in old(im.store) { FreshTrans(old(im), mid, im, i, l, phys); }
    }

    /** The two levels below the double-indirect block. */
    method ResolveLevels(i: int, k: int, j: int, l: int, create: bool) returns (ok: bool, phys: int)
      requires Valid() && Live(im, i) && 0 <= k < PTRS && 0 <= j < PTRS && l == DoubleIndex(k, j) && inodes[i].dindirect != 0
      modifies `disk, `bitmap, `freeBlocks, `used, `im
      ensures Valid()
      ensures Resolved(old(im.store), im.store, i, l, ok)
      ensures ok ==> phys == Phys(im, i, l) != 0
      ensures !ok ==> !create || freeBlocks == 0
      ensures !create ==> unchanged(this)
      ensures create ==> Filled(old(Held(im)), Held(im), {L1(i, k), L2(i, k, j)}, ok)
      ensures Extends(old(im), im) && (ok && (i, l) !in old(im.store) ==> Fresh(old(im), im, i, l, phys))
    {
      LeafIsHeld(im, i, k, j, l);
      var l1;
      ok, l1 := Level1(i, k, create);
      if !ok {
        ReadLevel1(im, i, k, j, l);
        LeafIsHeld(im, i, k, j, l);
        return false, 0;
      }
      ghost var mid := im;
      ok, phys := Level2(i, k, j, l, l1, create);
      ExtendsTrans(old(im), mid, im);
      if ok && (i, l) !in old(im.store) { FreshTrans(old(im), mid, im, i, l, phys); }
    }

    /** Every block but block 0 is free or held by a slot. */
    lemma FreeCount()
      requires Valid()
      ensures freeBlocks + |Held(im)| == BLOCKS_MAX - 1
    {
      Bitmap.UsedInRange(bitmap, freeBlocks, used);
      HeldCount(im);
    }

    /** Maps file block `l` of inode `i` to a disk block. When asked to create, it fills exactly the slots on the path of the
        block that are empty, and fails exactly when they are more than there are free blocks. */
    method ResolveBlock(i: int, l: nat, create: bool) returns (ok: bool, phys: int)
      requires Valid() && Live(im, i)
      modifies `inodes, `disk, `bitmap, `freeBlocks, `used, `im
      ensures Valid() && SameButPointers(old(inodes), inodes, i)
      ensures Resolved(old(im.store), im.store, i, l, ok)
      ensures ok ==> l < MAX_FILE_BLOCKS && phys == Phys(im, i, l) != 0
      ensures !create || l >= MAX_FILE_BLOCKS ==> unchanged(this)
      ensures create && l < MAX_FILE_BLOCKS ==>
                && Filled(old(Held(im)), Held(im), Path(i, l), ok) && (!ok ==> freeBlocks == 0)
                && (ok <==> |Path(i, l) - old(Held(im))| <= old(freeBlocks))
      ensures Extends(old(im), im) && (ok && (i, l) !in old(im.store) ==> Fresh(old(im), im, i, l, phys))
    {
      FreeCount();
      ok, phys := Resolve(i, l, create);
      FreeCount();
      if create && l < MAX_FILE_BLOCKS {
        FilledIff(old(Held(im)), old(freeBlocks), Held(im), freeBlocks, Path(i, l), ok);
      }
    }

    /** The three ways to a file block. */
    method Resolve(i: int, l: nat, create: bool) returns (ok: bool, phys: int)
      requires Valid() && Live(im, i)
      modifies `inodes, `disk, `bitmap, `freeBlocks, `used, `im
      ensures Valid() && SameButPointers(old(inodes), inodes, i)
      ensures Resolved(old(im.store), im.store, i, l, ok)
      ensures ok ==> l < MAX_FILE_BLOCKS && phys == Phys(im, i, l) != 0
      ensures !create || l >= MAX_FILE_BLOCKS ==> unchanged(this)
      ensures create && l < MAX_FILE_BLOCKS ==> Filled(old(Held(im)), Held(im), Path(i, l), ok) && (!ok ==> freeBlocks == 0)
      ensures Extends(old(im), im) && (ok && (i, l) !in old(im.store) ==> Fresh(old(im), im, i, l, phys))
    {
      if l < DIRECT {
        ok, phys := ResolveDirect(i, l, create);
        return;
      }
      var n := l - DIRECT;
      if n < PTRS {
        ok, phys := ResolveIndirect(i, n, l, create);
        return;
      }
      n := n - PTRS;
      var k, j := n / PTRS, n % PTRS;
      assert l == DoubleIndex(k, j);
      if k >= PTRS {
        NothingBeyondLastBlock(im, i, l);
        return false, 0;
      }
      ok, phys := ResolveDouble(i, k, j, l, create);
    }

    /** Stores `sec` as file block `l` of inode `i`. */
    method WriteBlock(i: int, l: int, phys: int, sec: Sector)
      requires Valid() && Live(im, i) && 0 <= l < MAX_FILE_BLOCKS && phys == Phys(im, i, l) != 0
      modifies `disk, `im
      ensures Valid() && im.store == old(im.store)[(i, l) := sec] && Held(im) == old(Held(im)) && im.owner == old(im.owner)
      ensures Extends(old(im), im)
    {
      PhysInStore(im, i, l);
      im := Rewrite(im, i, l, sec);
      disk := disk[phys := sec];
    }

    /** One turn of the read loop: the bytes delivered next, or none at a hole. */
    method ReadChunk(idx: int, offset: U32, want: U32, data: seq<Byte>) returns (more: seq<Byte>)
      requires Valid() && Live(im, idx) && |data| < want
      requires ReadsAs(im.store, idx, offset, data) && (data != [] ==> offset + |data| <= MAX_FILE_BYTES)
      modifies this
      ensures unchanged(this)
      ensures |more| <= want - |data| && ReadsAs(im.store, idx, offset, data + more)
      ensures more == [] <==> (idx, (offset + |data|) / 512) !in im.store
      ensures more != [] ==> offset + |data + more| <= MAX_FILE_BYTES
    {
      var pos := Add32(offset, |data|);
      var l, o := pos / 512, pos % 512;
      var ok, phys := ResolveBlock(idx, l, false);
      if !ok {
        assert data + [] == data;
        return [];
      }
      PhysInStore(im, idx, l);
      var chunk := if want - |data| > 512 - o then 512 - o else want - |data|;
      ReadsAsExtend(im.store, idx, offset, data, l, o, chunk);
      return disk[phys][o..o + chunk];
    }

    /** `n` is the return value; on success `data` holds the `n` bytes delivered. */
    method Read(idx: int, offset: U32, len: U32) returns (n: int, data: seq<Byte>)
      requires Valid()
      modifies this
      ensures unchanged(this)
      ensures n < 0 <==> !mounted || !Live(im, idx)
      ensures n < 0 ==> n == -1 && data == []
      ensures n >= 0 ==> n == |data| && ReadsAs(im.store, idx, offset, data)
      ensures n >= 0 && offset >= inodes[idx].size ==> n == 0
      ensures n >= 0 && offset < inodes[idx].size ==>
                var want := if Add32(offset, len) > inodes[idx].size then inodes[idx].size - offset else len;
                n <= want && (n < want ==> (idx, (offset + n) / 512) !in im.store)
    {
      if !mounted || idx < 0 || idx >= INODE_MAX { return -1, []; }
      if inodes[idx].kind.Free? { return -1, []; }
      if offset >= inodes[idx].size { return 0, []; }
      var want := len;
      if Add32(offset, len) > inodes[idx].size { want := inodes[idx].size - offset; }
      data := [];
      while |data| < want
        invariant unchanged(this)
        invariant |data| <= want && ReadsAs(im.store, idx, offset, data)
        invariant data != [] ==> offset + |data| <= MAX_FILE_BYTES
      {
        var more := ReadChunk(idx, offset, want, data);
        if more == [] { break; }
        data := data + more;
      }
      return |data|, data;
    }

    /** Stores `more` at byte `o` of file block `l`, mapping the block first if need be, which gives `mid`. */
    method PatchBlock(idx: int, l: nat, o: int, more: seq<Byte>) returns (ok: bool, ghost mid: Image, ghost b: int)
      requires Valid() && Live(im, idx) && 0 <= o < 512 && 0 < |more| <= 512 - o
      modifies `inodes, `disk, `bitmap, `freeBlocks, `used, `im
      ensures Valid() && SameButPointers(old(inodes), inodes, idx)
      ensures Resolved(old(im.store), mid.store, idx, l, ok)
      ensures ok ==> l < MAX_FILE_BLOCKS && im.store == mid.store[(idx, l) := Patched(mid.store[(idx, l)], o, more)]
      ensures !ok ==> im.store == old(im.store) && (freeBlocks == 0 || l >= MAX_FILE_BLOCKS)
      ensures l < MAX_FILE_BLOCKS ==> Filled(old(Held(im)), Held(im), Path(idx, l), ok)
      ensures Extends(old(im), im) && im.owner == mid.owner
      ensures ok && (idx, l) !in old(im.store) ==> Fresh(old(im), mid, idx, l, b)
    {
      var phys;
      ok, phys := ResolveBlock(idx, l, true);
      mid, b := im, phys;
      if !ok { return; }
      PhysInStore(im, idx, l);
      var tmp: Sector := *;
      if |more| < 512 {
        tmp := disk[phys];
      } else {
        PatchedWhole(tmp, mid.store[(idx, l)], o, more);
      }
      WriteBlock(idx, l, phys, Patched(tmp, o, more));
      ExtendsTrans(old(im), mid, im);
    }

    /** Where the next bytes go, and how many of them fit there. */
    method NextChunk(offset: U32, w: U32, len: nat) returns (l: nat, o: nat, chunk: nat)
      requires w < len < 0x1_0000_0000 && (w > 0 ==> offset + w <= MAX_FILE_BYTES)
      ensures l == (offset + w) / 512 && o == (offset + w) % 512 && 512 * l + o == offset + w
      ensures 0 < chunk <= len - w && chunk <= 512 - o && (chunk == len - w || (offset + w + chunk) % 512 == 0)
      ensures l >= MAX_FILE_BLOCKS <==> offset + w >= MAX_FILE_BYTES
      ensures l < MAX_FILE_BLOCKS ==> offset + w + chunk <= MAX_FILE_BYTES
    {
      var pos := Add32(offset, w);
      l, o := pos / 512, pos % 512;
      chunk := if len - w > 512 - o then 512 - o else len - w;
    }

    /** One turn of the write loop: how many bytes of `buf` it stored, none when writing must stop. */
    method WriteChunk(idx: int, offset: U32, buf: seq<Byte>, w: U32, ghost im0: Image) returns (chunk: int)
      requires Valid() && Live(im, idx) && w < |buf| < 0x1_0000_0000
      requires w > 0 ==> offset + w <= MAX_FILE_BYTES
      requires Written(im0.store, im.store, idx, offset, buf[..w])
      requires Extends(im0, im) && FreshBytes(im0, im, idx, offset, w)
      modifies `inodes, `disk, `bitmap, `freeBlocks, `used, `im
      ensures Valid() && SameButPointers(old(inodes), inodes, idx)
      ensures 0 <= chunk <= |buf| - w && (chunk > 0 ==> offset + w + chunk <= MAX_FILE_BYTES)
      ensures chunk > 0 ==> chunk == |buf| - w || (offset + w + chunk) % 512 == 0
      ensures Written(im0.store, im.store, idx, offset, if chunk == 0 then buf[..w] else buf[..w + chunk])
      ensures Extends(im0, im) && FreshBytes(im0, im, idx, offset, w + chunk)
      ensures chunk == 0 && offset + w < MAX_FILE_BYTES ==> freeBlocks == 0
      ensures offset + w >= MAX_FILE_BYTES ==> chunk == 0 && Held(im) == old(Held(im))
      ensures offset + w < MAX_FILE_BYTES ==>
                Filled(old(Held(im)), Held(im), Path(idx, (offset + w) / 512), chunk > 0) && chunk <= 512 - (offset + w) % 512
    {
      var l, o;
      l, o, chunk := NextChunk(offset, w, |buf|);
      if l >= MAX_FILE_BLOCKS { return 0; }
      ghost var im1 := im;
      var ok; ghost var mid, b;
      ok, mid, b := PatchBlock(idx, l, o, buf[w..w + chunk]);
      ExtendsTrans(im0, im1, im);
      if !ok {
        FreshFrame(im0, im1, im, idx, offset, w);
        return 0;
      }
      WrittenChunk(im0.store, im1.store, mid.store, idx, offset, buf, w, chunk, l, o);
      FreshStep(im0, im1, mid, im, idx, offset, w, l, o, buf[w..w + chunk], b);
    }

    /** The write loop: stores bytes until `buf` ends, the disk is full or the file is at its limit. */
    method WriteBlocks(idx: int, offset: U32, buf: seq<Byte>) returns (w: int)
      requires Valid() && Live(im, idx) && |buf| < 0x1_0000_0000
      modifies `inodes, `disk, `bitmap, `freeBlocks, `used, `im
      ensures Valid() && SameButPointers(old(inodes), inodes, idx)
      ensures 0 <= w <= |buf| && (w > 0 ==> offset + w <= MAX_FILE_BYTES)
      ensures Written(old(im.store), im.store, idx, offset, buf[..w])
      ensures Took(old(Held(im)), Held(im), freeBlocks, idx, offset, |buf|, w)
      ensures Extends(old(im), im) && FreshBytes(old(im), im, idx, offset, w)
    {
      w := 0;
      ghost var ins0, im0, held0 := inodes, im, Held(im);
      WriteStarts(im0, idx, offset, buf);
      while w < |buf|
        invariant Valid() && SameButPointers(ins0, inodes, idx)
        invariant 0 <= w <= |buf| && (w > 0 ==> offset + w <= MAX_FILE_BYTES)
        invariant Written(im0.store, im.store, idx, offset, buf[..w])
        invariant Extends(im0, im) && FreshBytes(im0, im, idx, offset, w)
        invariant Held(im) == held0 + PathsOf(idx, offset, w)
        invariant 0 < w < |buf| ==> (offset + w) % 512 == 0
      {
        var chunk := WriteNext(idx, offset, buf, w, im0, ins0, held0);
        if chunk == 0 { break; }
        w := w + chunk;
      }
    }

    /** One turn of the write loop, keeping account of the slots filled since `held0`. */
    method WriteNext(idx: int, offset: U32, buf: seq<Byte>, w: U32, ghost im0: Image, ghost ins0: seq<Inode>, ghost held0: set<Slot>)
        returns (chunk: int)
      requires Valid() && Live(im, idx) && w < |buf| < 0x1_0000_0000 && SameButPointers(ins0, inodes, idx)
      requires w > 0 ==> offset + w <= MAX_FILE_BYTES && (offset + w) % 512 == 0
      requires Written(im0.store, im.store, idx, offset, buf[..w])
      requires Extends(im0, im) && FreshBytes(im0, im, idx, offset, w)
      requires Held(im) == held0 + PathsOf(idx, offset, w)
      modifies `inodes, `disk, `bitmap, `freeBlocks, `used, `im
      ensures Valid() && SameButPointers(ins0, inodes, idx)
      ensures 0 <= chunk <= |buf| - w && (chunk > 0 ==> offset + w + chunk <= MAX_FILE_BYTES)
      ensures Written(im0.store, im.store, idx, offset, if chunk == 0 then buf[..w] else buf[..w + chunk])
      ensures Extends(im0, im) && FreshBytes(im0, im, idx, offset, w + chunk)
      ensures chunk == 0 ==> Took(held0, Held(im), freeBlocks, idx, offset, |buf|, w)
      ensures chunk > 0 ==> Held(im) == held0 + PathsOf(idx, offset, w + chunk)
      ensures chunk > 0 && w + chunk < |buf| ==> (offset + (w + chunk)) % 512 == 0
    {
      ghost var ins1 := inodes;
      chunk := WriteChunk(idx, offset, buf, w, im0);
      SameButPointersTrans(ins0, ins1, inodes, idx);
      PathsNext(idx, offset, w, if chunk > 0 then chunk else 1);
    }

    /** The same, with the blocks it needs counted. */
    method WriteMost(idx: int, offset: U32, buf: seq<Byte>) returns (w: int)
      requires Valid() && Live(im, idx) && |buf| < 0x1_0000_0000
      modifies `inodes, `disk, `bitmap, `freeBlocks, `used, `im
      ensures Valid() && SameButPointers(old(inodes), inodes, idx)
      ensures 0 <= w <= |buf| && (w > 0 ==> offset + w <= MAX_FILE_BYTES)
      ensures Written(old(im.store), im.store, idx, offset, buf[..w]) && FreshBytes(old(im), im, idx, offset, w)
      ensures Took(old(Held(im)), Held(im), freeBlocks, idx, offset, |buf|, w)
      ensures |PathsOf(idx, offset, w) - old(Held(im))| <= old(freeBlocks)
      ensures w < |buf| ==> offset + w >= MAX_FILE_BYTES || |PathsOf(idx, offset, w + 1) - old(Held(im))| > old(freeBlocks)
    {
      FreeCount();
      w := WriteBlocks(idx, offset, buf);
      FreeCount();
      TookMost(old(Held(im)), old(freeBlocks), Held(im), freeBlocks, idx, offset, |buf|, w);
    }

    /** `w` is the return value: the number of bytes of `buf` stored from `offset` on. */
    method Write(idx: int, offset: U32, buf: seq<Byte>) returns (w: int)
      requires Valid() && |buf| < 0x1_0000_0000
      modifies this
      ensures Valid() && mounted == old(mounted) && freeInodes == old(freeInodes)
      ensures w < 0 <==> !mounted || !old(Live(im, idx)) || old(inodes[idx].kind).Dir?
      ensures w < 0 ==> w == -1 && unchanged(this)
      ensures w >= 0 ==> w <= |buf| && Written(old(im.store), im.store, idx, offset, buf[..w])
      ensures w > 0 ==> offset + w <= MAX_FILE_BYTES
      ensures w >= 0 ==> FreshBytes(old(im), im, idx, offset, w)
      ensures w >= 0 ==> Took(old(Held(im)), Held(im), freeBlocks, idx, offset, |buf|, w)
      ensures w >= 0 ==> |PathsOf(idx, offset, w) - old(Held(im))| <= old(freeBlocks)
      ensures 0 <= w < |buf| ==> offset + w >= MAX_FILE_BYTES || |PathsOf(idx, offset, w + 1) - old(Held(im))| > old(freeBlocks)
      ensures w >= 0 ==> SameButPointers(Resize(old(inodes), idx, SizeAfter(old(inodes[idx].size), offset, w)), inodes, idx)
    {
      if !mounted || idx < 0 || idx >= INODE_MAX { return -1; }
      if inodes[idx].kind.Free? || inodes[idx].kind.Dir? { return -1; }
      ghost var ins0 := inodes;
      w := WriteMost(idx, offset, buf);
      SameButPointersResize(ins0, inodes, idx, SizeAfter(ins0[idx].size, offset, w));
      ghost var im1 := im;
      EndWritten(idx, offset, w);
      FreshFrame(old(im), im1, im, idx, offset, w);
    }

    /** The size follows what has been written. */
    method EndWritten(idx: int, offset: U32, w: int)
      requires Valid() && Live(im, idx) && 0 <= w < 0x1_0000_0000 && (w > 0 ==> offset + w <= MAX_FILE_BYTES)
      modifies `inodes, `im
      ensures Valid() && im.store == old(im.store) && Held(im) == old(Held(im)) && im.owner == old(im.owner) && im.disk == old(im.disk)
      ensures inodes == Resize(old(inodes), idx, SizeAfter(old(inodes[idx].size), offset, w))
    {
      if w > 0 && Add32(offset, w) > inodes[idx].size {
        var n := inodes[idx].(size := Add32(offset, w));
        im := Relabel(im, idx, n);
        inodes := inodes[idx := n];
      }
    }

    /** One turn of the release loop: entry `k`, when it is past `start` and in use. */
    method FreeEntry(p: seq<int>, start: int, k: int) returns (p': seq<int>)
      requires Bitmap.Exact(bitmap, freeBlocks, used) && 0 <= k < |p| && 0 <= p[k] < BLOCKS_MAX
      modifies `bitmap, `freeBlocks, `used
      ensures Bitmap.Exact(bitmap, freeBlocks, used)
      ensures used == old(used) - FreedAt(p, start, k)
      ensures p' == if k >= start then p[k := 0] else p
    {
      p' := p;
      if k >= start && p'[k] != 0 {
        BmFree(p'[k]);
        p' := p'[k := 0];
      }
    }

    /** Releases the blocks of the pointers from `start` on, clearing them in the buffer. */
    method FreeTail(p: seq<int>, start: int) returns (p': seq<int>, any: bool)
      requires Bitmap.Exact(bitmap, freeBlocks, used)
      requires |p| == PTRS && AllBlocks(p)
      modifies `bitmap, `freeBlocks, `used
      ensures Bitmap.Exact(bitmap, freeBlocks, used)
      ensures used == old(used) - TailBlocks(p, start)
      ensures p' == TailCleared(p, start) && AllWords(p')
      ensures any <==> AnyLeft(p')
    {
      p', any := p, false;
      ghost var used0 := used;
      for k := 0 to PTRS
        invariant Bitmap.Exact(bitmap, freeBlocks, used)
        invariant used == used0 - FreedUpTo(p, start, k)
        invariant |p'| == PTRS && forall m | 0 <= m < PTRS :: p'[m] == if m < k && m >= start then 0 else p[m]
        invariant any <==> exists m | 0 <= m < k && m < start :: p[m] != 0
      {
        assert FreedAt(p', start, k) == FreedAt(p, start, k);
        FreedStep(used0, p, start, k);
        p' := FreeEntry(p', start, k);
        if p'[k] != 0 { any := true; }
      }
      LoopClearsTail(p, p', start);
    }

    /** The same on a pointer sector. */
    method FreeSectorTail(sec: Sector, start: int) returns (sec': Sector, any: bool)
      requires Bitmap.Exact(bitmap, freeBlocks, used) && AllBlocks(Pointers(sec))
      modifies `bitmap, `freeBlocks, `used
      ensures Bitmap.Exact(bitmap, freeBlocks, used)
      ensures used == old(used) - TailBlocks(Pointers(sec), start)
      ensures Pointers(sec') == TailCleared(Pointers(sec), start)
      ensures any <==> AnyLeft(Pointers(sec'))
    {
      var p;
      p, any := FreeTail(Pointers(sec), start);
      sec' := FromPointers(p);
    }

    /** One turn of the loop over the direct pointers. */
    method CutDirect(i: int, first: nat, k: int, ghost im0: Image)
      requires Valid() && Live(im, i) && first <= k < DIRECT
      requires Pruned(im0, im, i, first, DirectSlots(i, first, k))
      modifies `inodes, `bitmap, `freeBlocks, `used, `im
      ensures Valid() && Pruned(im0, im, i, first, DirectSlots(i, first, k + 1)) && Live(im, i)
    {
      EntriesInRange(im, i);
      im := StepDirect(im0, im, i, first, k);
      var b := inodes[i].blocks[k];
      if b != 0 {
        BmFree(b);
        inodes := inodes[i := inodes[i].(blocks := inodes[i].blocks[k := 0])];
      }
    }

    method FreeDirect(i: int, first: nat)
      requires Valid() && Live(im, i)
      modifies `inodes, `bitmap, `freeBlocks, `used, `im
      ensures Valid() && Pruned(old(im), im, i, first, DirectSlots(i, first, DIRECT))
    {
      ghost var im0 := im;
      PruneNothing(im0, i, first, DirectSlots(i, first, first));
      var k := first;
      while k < DIRECT
        invariant Valid() && Live(im, i) && first <= k && (k <= DIRECT || k == first)
        invariant Pruned(im0, im, i, first, DirectSlots(i, first, k))
      {
        CutDirect(i, first, k, im0);
        k := k + 1;
      }
      DirectDone(im0, im, i, first, k);
    }

    method FreeSingle(i: int, first: nat)
      requires Valid() && Live(im, i)
      modifies `inodes, `disk, `bitmap, `freeBlocks, `used, `im
      ensures Valid() && Pruned(old(im), im, i, first, SingleSlots(i))
    {
      EntriesInRange(im, i);
      var c := inodes[i].indirect;
      if c == 0 {
        NoSingle(im, i, first);
        return;
      }
      var sec, any := FreeSectorTail(disk[c], first - DIRECT);
      im := PruneSingle(im, i, first, sec);
      if any {
        disk := disk[c := sec];
      } else {
        BmFree(c);
        inodes := inodes[i := inodes[i].(indirect := 0)];
      }
    }

    /** Cuts level-1 block `b`, entry `k` of the buffer `l1`; `v` is the image with the buffer written back. */
    method CutPresent(i: int, first: nat, k: int, b: int, ghost l1: Sector, ghost im0: Image, ghost v: Image)
        returns (any: bool, ghost v': Image)
      requires Bitmap.Exact(bitmap, freeBlocks, used) && used == InUse(v) && 0 <= k < PTRS
      requires Buffered(v, disk, inodes, i, l1) && Pruned(im0, v, i, first, DoubleSlots(i, 0, k))
      requires b == Pointers(l1)[k] != 0 && first < DoubleIndex(k, PTRS)
      modifies `disk, `bitmap, `freeBlocks, `used
      ensures Bitmap.Exact(bitmap, freeBlocks, used)
      ensures any ==> used == InUse(v')
      ensures !any ==> used - {b} == InUse(v')
      ensures Buffered(v', disk, inodes, i, if any then l1 else SetPointer(l1, k, 0))
      ensures Pruned(im0, v', i, first, DoubleSlots(i, 0, k + 1))
    {
      BufferedEntry(v, disk, inodes, i, l1, k);
      var sec;
      sec, any := FreeSectorTail(disk[b], first - DoubleIndex(k, 0));
      v' := StepBuffer(im0, v, disk, inodes, i, first, k, l1, b, sec, used);
      if any { disk := disk[b := sec]; }
    }

    /** One turn of the loop over the level-1 blocks. */
    method CutLevel1(i: int, first: nat, k: int, l1: Sector, ghost im0: Image, ghost v: Image)
        returns (l1': Sector, ghost v': Image)
      requires Bitmap.Exact(bitmap, freeBlocks, used) && used == InUse(v) && 0 <= k < PTRS
      requires Buffered(v, disk, inodes, i, l1) && Pruned(im0, v, i, first, DoubleSlots(i, 0, k))
      modifies `disk, `bitmap, `freeBlocks, `used
      ensures Bitmap.Exact(bitmap, freeBlocks, used) && used == InUse(v')
      ensures Buffered(v', disk, inodes, i, l1') && Pruned(im0, v', i, first, DoubleSlots(i, 0, k + 1))
      ensures l1' == l1 || l1' == SetPointer(l1, k, 0)
    {
      l1', v' := l1, v;
      var b := Pointers(l1)[k];
      if b == 0 || first >= DoubleIndex(k, PTRS) {
        BufferedEntry(v, disk, inodes, i, l1, k);
        SkipDouble(im0, v, i, first, k);
      } else {
        var any;
        any, v' := CutPresent(i, first, k, b, l1, im0, v);
        if !any {
          BufferedEntry(v, old(disk), inodes, i, l1, k);
          BmFree(b);
          l1' := SetPointer(l1, k, 0);
        }
      }
    }

    /** Cuts every level-1 block, keeping the entries of the double-indirect block in a buffer. */
    method CutAllLevel1(i: int, first: nat) returns (l1: Sector, anyL1: bool, ghost v: Image)
      requires Valid() && Live(im, i) && inodes[i].dindirect != 0
      modifies `disk, `bitmap, `freeBlocks, `used
      ensures Bitmap.Exact(bitmap, freeBlocks, used) && used == InUse(v)
      ensures Buffered(v, disk, inodes, i, l1) && Pruned(old(im), v, i, first, DoubleSlots(i, 0, PTRS))
      ensures anyL1 == AnyLeft(Pointers(l1))
    {
      ghost var im0 := im;
      v := im;
      StartBuffer(im, i);
      PruneNothing(im, i, first, DoubleSlots(i, 0, 0));
      l1, anyL1 := disk[inodes[i].dindirect], false;
      for k := 0 to PTRS
        invariant Bitmap.Exact(bitmap, freeBlocks, used) && used == InUse(v)
        invariant Buffered(v, disk, inodes, i, l1) && Pruned(im0, v, i, first, DoubleSlots(i, 0, k))
        invariant anyL1 == AnyBelow(Pointers(l1), k) && (k == PTRS ==> anyL1 == AnyLeft(Pointers(l1)))
      {
        ghost var p0 := Pointers(l1);
        l1, v := CutLevel1(i, first, k, l1, im0, v);
        AnyBelowStep(p0, Pointers(l1), k);
        if Pointers(l1)[k] != 0 { anyL1 := true; }
      }
    }

    method FreeDouble(i: int, first: nat)
      requires Valid() && Live(im, i)
      modifies `inodes, `disk, `bitmap, `freeBlocks, `used, `im
      ensures Valid() && Pruned(old(im), im, i, first, AllDouble(i))
    {
      var d := inodes[i].dindirect;
      if d == 0 {
        NoDouble(im, i, first);
        return;
      }
      ghost var im0 := im;
      var l1, anyL1; ghost var v;
      l1, anyL1, v := CutAllLevel1(i, first);
      im := EndBuffer(im0, v, disk, inodes, i, first, l1);
      if anyL1 {
        disk := disk[d := l1];
      } else {
        BmFree(d);
        inodes := inodes[i := inodes[i].(dindirect := 0)];
      }
    }

    /** Releases every block of inode `i` at or beyond file block `first`. */
    method FreeBlocksFrom(i: int, first: nat)
      requires Valid() && Live(im, i)
      modifies `inodes, `disk, `bitmap, `freeBlocks, `used, `im
      ensures Valid() && Pruned(old(im), im, i, first, SlotsOf(i))
      ensures freeBlocks == old(freeBlocks) + |Released(old(im), i, first, SlotsOf(i))|
    {
      ghost var a, free := im, freeBlocks;
      ghost var bits := bitmap;
      FreeDirect(i, first);
      ghost var b := im;
      PrunedStaysLive(a, b, i, first, DirectSlots(i, first, DIRECT), i);
      FreeSingle(i, first);
      ghost var c := im;
      PrunedStaysLive(b, c, i, first, SingleSlots(i), i);
      FreeDouble(i, first);
      ThreePasses(a, b, c, im, i, first);
      ReleasedCount(a, im, i, first, bits, free, bitmap, freeBlocks);
    }

    /** `r` is the return value; `cut` is the image between releasing blocks and setting the size. */
    method Truncate(idx: int, newSize: U32) returns (r: int, ghost cut: Image)
      requires Valid()
      modifies this
      ensures Valid() && mounted == old(mounted) && freeInodes == old(freeInodes)
      ensures r == if !mounted || !old(Live(im, idx)) || old(inodes[idx].kind).Dir? then -1 else 0
      ensures r < 0 ==> unchanged(this)
      ensures r == 0 && newSize < old(inodes[idx].size) ==>
                Pruned(old(im), cut, idx, FirstFreed(newSize), SlotsOf(idx))
      ensures r == 0 && newSize < old(inodes[idx].size) ==>
                freeBlocks == old(freeBlocks) + |Released(old(im), idx, FirstFreed(newSize), SlotsOf(idx))|
      ensures r == 0 && newSize >= old(inodes[idx].size) ==> cut == old(im) && freeBlocks == old(freeBlocks)
      ensures r == 0 ==> Held(im) == if newSize < old(inodes[idx].size) then Surviving(old(Held(im)), old(im.store), idx, FirstFreed(newSize))
                                     else old(Held(im))
      ensures r == 0 ==> |cut.ins| == INODE_MAX && im == cut.(ins := Resize(cut.ins, idx, newSize))
    {
      cut := im;
      if !mounted || idx < 0 || idx >= INODE_MAX { return -1, cut; }
      if inodes[idx].kind.Free? || inodes[idx].kind.Dir? { return -1, cut; }
      if newSize < inodes[idx].size {
        var first := Add32(newSize, 511) / 512;
        FreeBlocksFrom(idx, first);
        PrunedStaysLive(cut, im, idx, first, SlotsOf(idx), idx);
        HeldAfterCut(cut, im, idx, first);
      }
      cut := im;
      var n := inodes[idx].(size := newSize);
      im := Relabel(im, idx, n);
      inodes := inodes[idx := n];
      return 0, cut;
    }

    /** Releases the indirect block and every block it points to. */
    method FreeAllSingle(i: int)
      requires Valid() && Live(im, i)
      modifies `inodes, `bitmap, `freeBlocks, `used, `im
      ensures Valid() && Pruned(old(im), im, i, 0, SingleSlots(i))
    {
      EntriesInRange(im, i);
      var c := inodes[i].indirect;
      if c == 0 {
        NoSingle(im, i, 0);
        return;
      }
      NothingLeft(Pointers(disk[c]), -DIRECT);
      var sec, any := FreeSectorTail(disk[c], -DIRECT);
      im := PruneSingle(im, i, 0, sec);
      BmFree(c);
      inodes := inodes[i := inodes[i].(indirect := 0)];
    }

    /** Releases level-1 block `b` and every block it points to; only the ghost buffer loses the entry. */
    method FreeLevel1(i: int, k: int, b: int, ghost l1: Sector, ghost im0: Image, ghost v: Image)
        returns (ghost v': Image)
      requires Bitmap.Exact(bitmap, freeBlocks, used) && used == InUse(v) && 0 <= k < PTRS
      requires Buffered(v, disk, inodes, i, l1) && Pruned(im0, v, i, 0, DoubleSlots(i, 0, k)) && b == Pointers(l1)[k] != 0
      modifies `bitmap, `freeBlocks, `used
      ensures Bitmap.Exact(bitmap, freeBlocks, used) && used == InUse(v')
      ensures Buffered(v', disk, inodes, i, SetPointer(l1, k, 0)) && Pruned(im0, v', i, 0, DoubleSlots(i, 0, k + 1))
    {
      BufferedEntry(v, disk, inodes, i, l1, k);
      var sec, any := FreeSectorTail(disk[b], 0);
      v' := DropLevel1(im0, v, disk, inodes, i, k, l1, b, sec);
      BmFree(b);
    }

    method FreeAllLevel1(i: int) returns (ghost l1: Sector, ghost v: Image)
      requires Valid() && Live(im, i) && inodes[i].dindirect != 0
      modifies `bitmap, `freeBlocks, `used
      ensures Bitmap.Exact(bitmap, freeBlocks, used) && used == InUse(v)
      ensures Buffered(v, disk, inodes, i, l1) && Pruned(im, v, i, 0, DoubleSlots(i, 0, PTRS)) && !AnyLeft(Pointers(l1))
    {
      v := im;
      StartBuffer(im, i);
      PruneNothing(im, i, 0, DoubleSlots(i, 0, 0));
      var p := Pointers(disk[inodes[i].dindirect]);
      l1 := disk[inodes[i].dindirect];
      for k := 0 to PTRS
        invariant Bitmap.Exact(bitmap, freeBlocks, used) && used == InUse(v)
        invariant Buffered(v, disk, inodes, i, l1) && Pruned(im, v, i, 0, DoubleSlots(i, 0, k))
        invariant Pointers(l1)[k..] == p[k..] && forall m | 0 <= m < k :: Pointers(l1)[m] == 0
      {
        if p[k] == 0 {
          BufferedEntry(v, disk, inodes, i, l1, k);
          SkipDouble(im, v, i, 0, k);
        } else {
          v := FreeLevel1(i, k, p[k], l1, im, v);
          l1 := SetPointer(l1, k, 0);
        }
      }
    }

    /** Releases the double-indirect block, its level-1 blocks and every block they point to. */
    method FreeAllDouble(i: int)
      requires Valid() && Live(im, i)
      modifies `inodes, `bitmap, `freeBlocks, `used, `im
      ensures Valid() && Pruned(old(im), im, i, 0, AllDouble(i))
    {
      var d := inodes[i].dindirect;
      if d == 0 {
        NoDouble(im, i, 0);
        return;
      }
      ghost var l1, v := FreeAllLevel1(i);
      im := EndBuffer(im, v, disk, inodes, i, 0, l1);
      BmFree(d);
      inodes := inodes[i := inodes[i].(dindirect := 0)];
    }

    method FreeAllBlocks(i: int)
      requires Valid() && Live(im, i)
      modifies `inodes, `bitmap, `freeBlocks, `used, `im
      ensures Valid() && Pruned(old(im), im, i, 0, SlotsOf(i))
      ensures freeBlocks == old(freeBlocks) + |Released(old(im), i, 0, SlotsOf(i))|
    {
      ghost var a, free := im, freeBlocks;
      ghost var bits := bitmap;
      FreeDirect(i, 0);
      ghost var b := im;
      PrunedStaysLive(a, b, i, 0, DirectSlots(i, 0, DIRECT), i);
      FreeAllSingle(i);
      ghost var c := im;
      PrunedStaysLive(b, c, i, 0, SingleSlots(i), i);
      FreeAllDouble(i);
      ThreePasses(a, b, c, im, i, 0);
      ReleasedCount(a, im, i, 0, bits, free, bitmap, freeBlocks);
    }

    /** The first child of `dir` called `name`, or -1. */
    method SearchChild(dir: int, name: string) returns (found: int)
      requires |inodes| == INODE_MAX
      ensures found == FindChild(inodes, dir, name, 1)
    {
      var i := 1;
      while i < INODE_MAX
        invariant 1 <= i <= INODE_MAX && FindChild(inodes, dir, name, 1) == FindChild(inodes, dir, name, i)
      {
        if !inodes[i].kind.Free? && inodes[i].parent == dir && inodes[i].name == name { return i; }
        i := i + 1;
      }
      return -1;
    }

    /** Splits the first component and the slash that may follow it off a path. */
    method NextComponent(p: string) returns (comp: string, rest: string)
      requires p != ""
      ensures rest == AfterComponent(p) && |rest| < |p|
      ensures Components(p) == if comp == "" then Components(rest) else [comp] + Components(rest)
    {
      var ci := 0;
      while ci < |p| && p[ci] != '/' && ci < NAME_MAX - 1
        invariant ci <= |p| && ci < NAME_MAX && ComponentLength(p, ci) == ComponentLength(p, 0)
      {
        ci := ci + 1;
      }
      comp := p[..ci];
      rest := if ci < |p| && p[ci] == '/' then p[ci + 1..] else p[ci..];
    }

    /** Walks a path component by component. */
    method Lookup(path: string) returns (r: int)
      requires |inodes| == INODE_MAX
      ensures r == if !mounted then -1 else LookupPath(inodes, path)
    {
      if !mounted { return -1; }
      if path == "/" { return 0; }
      if !inodes[0].kind.Dir? { return -1; }
      var cur := 0;
      var p := if path != "" && path[0] == '/' then path[1..] else path;
      ghost var target := Walk(inodes, 0, Components(p));
      while p != ""
        invariant Walk(inodes, cur, Components(p)) == target
        decreases |p|
      {
        var comp, rest := NextComponent(p);
        ghost var names := Components(rest);
        assert ([comp] + names)[1..] == names;
        p := rest;
        if comp == "" { continue; }
        var found := SearchChild(cur, comp);
        if found < 0 { return -1; }
        cur := found;
      }
      return cur;
    }

    /** Everything a mounted file system keeps between calls. */
    ghost predicate Consistent()
      reads this
    {
      Valid() && Grounded(inodes) && freeInodes == |FreeInodes(inodes)|
    }

    /** A freshly formatted file system over whatever the data region holds: block 0 reserved, only the root directory. */
    constructor Format(sectors: seq<Sector>)
      requires |sectors| == BLOCKS_MAX
      ensures Consistent() && Tree(inodes) && mounted && im.store == map[] && Held(im) == {} && used == {0} && freeBlocks == BLOCKS_MAX - 1
      ensures disk == sectors && freeInodes == INODE_MAX - 1
      ensures inodes[0] == NewInode("/", Dir, -1) && forall i | 0 < i < INODE_MAX :: inodes[i] == EMPTY_INODE
    {
      var root := EMPTY_INODE.(name := "/", kind := Dir, perms := 0x1ED, parent := -1);
      var ins := seq(INODE_MAX, i => if i == 0 then root else EMPTY_INODE);
      var bits: Bitmap.Bytes := seq(BLOCKS_MAX / 8, i => 0);
      ghost var image := EmptyImage(ins, sectors);
      Bitmap.EmptyExact(bits);
      Bitmap.Claim(bits, BLOCKS_MAX, {}, 0);
      mounted := true;
      disk := sectors;
      inodes := ins;
      bitmap := Bitmap.Set(bits, 0);
      freeBlocks := BLOCKS_MAX - 1;
      freeInodes := INODE_MAX - 1;
      used := {} + {0};
      im := image;
      EmptyTree(ins);
    }

    method SplitLast(path: string) returns (dir: string, base: string)
      requires path != ""
      ensures dir == DirPart(path) && base == BasePart(path)
    {
      var last, p := 0, 0;
      while p < |path|
        invariant 0 <= last < |path| && (last > 0 ==> path[last] == '/') && last <= p <= |path|
        invariant forall j | last < j < p :: path[j] != '/'
      {
        if path[p] == '/' { last := p; }
        p := p + 1;
      }
      assert last == LastSlash(path);
      if last == 0 {
        return "/", path[1..];
      }
      return path[..last], path[last + 1..];
    }

    method FindFreeInode() returns (r: int)
      requires Consistent()
      ensures r == -1 || (0 < r < INODE_MAX && inodes[r].kind.Free?)
      ensures r == -1 <==> freeInodes == 0
      ensures forall j | 0 < j < r :: !inodes[j].kind.Free?
    {
      for i := 1 to INODE_MAX
        invariant forall j | 0 < j < i :: !inodes[j].kind.Free?
      {
        if inodes[i].kind.Free? {
          assert i in FreeInodes(inodes);
          return i;
        }
      }
      assert FreeInodes(inodes) == {};
      return -1;
    }

    /** Creates `path`; `r` is the new inode or -1. */
    method Create(path: string, kind: Kind) returns (r: int)
      requires Consistent() && !kind.Free? && path != ""
      requires |DirPart(path)| < 64 && |BasePart(path)| < NAME_MAX
      modifies this
      ensures Consistent() && mounted == old(mounted) && freeBlocks == old(freeBlocks)
      ensures r < 0 ==> r == -1 && unchanged(this)
      ensures r < 0 <==> !mounted || !Creatable(old(inodes), path) || old(freeInodes) == 0
      ensures disk == old(disk) && im.owner == old(im.owner)
      ensures r >= 0 ==> 0 < r < INODE_MAX && old(inodes[r].kind).Free? && im.store == old(im.store)
      ensures r >= 0 ==> freeInodes == old(freeInodes) - 1 && forall j | 0 < j < r :: !old(inodes)[j].kind.Free?
      ensures r >= 0 ==>
                inodes == old(inodes)[r := NewInode(BasePart(path), kind, LookupPath(old(inodes), DirPart(path)))]
      ensures r >= 0 ==> Used(old(inodes), LookupPath(old(inodes), DirPart(path)))
      ensures r >= 0 && old(Tree(inodes)) ==>
                && (Tree(inodes) <==> CreatesInTree(old(inodes), path))
                && ('/' in path ==>
                      (Tree(inodes) <==> old(inodes)[LookupPath(old(inodes), DirPart(path))].kind.Dir?))
                && LookupPath(inodes, path) == (if '/' in path then r else -1)
                && (OnlyAdds(old(inodes), inodes, r) <==>
                    '/' in path || BasePart(path) == "" || FindChild(old(inodes), 0, BasePart(path), 1) < r)
    {
      if !mounted { return -1; }
      var dir, base := SplitLast(path);
      var parent := Lookup(dir);
      if parent < 0 { return -1; }
      var existing := Lookup(path);
      if existing >= 0 { return -1; }
      r := FindFreeInode();
      if r < 0 { return; }
      var n := NewInode(base, kind, parent);
      LookupFinds(inodes, dir);
      GroundedCreate(inodes, dir, r, n);
      if Tree(inodes) { CreatedInTree(inodes, path, r, n); }
      Install(r, n);
    }

    /** Fills the free inode `i`. */
    method Install(i: int, n: Inode)
      requires Valid() && freeInodes == |FreeInodes(inodes)|
      requires 0 < i < INODE_MAX && inodes[i].kind.Free? && !n.kind.Free? && NoBlocks(n)
      modifies `im, `inodes, `freeInodes
      ensures freeInodes == old(freeInodes) - 1 && Valid() && freeInodes == |FreeInodes(inodes)|
      ensures inodes == old(inodes)[i := n] && im.store == old(im.store) && im.owner == old(im.owner)
    {
      FreeInodesTaken(inodes, i, n);
      im := Replace(im, i, n);
      inodes := inodes[i := n];
      freeInodes := freeInodes - 1;
    }

    /** Removes inode `idx` unless it is the root, free, or a directory with children. */
    method Unlink(idx: int) returns (r: int)
      requires Consistent()
      modifies this
      ensures Consistent() && mounted == old(mounted) && (old(Tree(inodes)) ==> Tree(inodes))
      ensures r == if mounted && idx > 0 && old(Live(im, idx)) && !(old(inodes[idx].kind).Dir? && HasChild(old(inodes), idx))
                   then 0 else -1
      ensures r < 0 ==> unchanged(this)
      ensures r == 0 ==> inodes == old(inodes)[idx := EMPTY_INODE] && freeInodes == old(freeInodes) + 1
      ensures r == 0 ==> im.store == map p | p in old(im.store) && p.0 != idx :: old(im.store)[p]
      ensures r == 0 ==> freeBlocks == old(freeBlocks) + |Released(old(im), idx, 0, SlotsOf(idx))|
      ensures r == 0 ==> DataKept(old(im), im) && Held(im) == Others(old(Held(im)), idx)
    {
      if !mounted || idx <= 0 || idx >= INODE_MAX { return -1; }
      if inodes[idx].kind.Free? { return -1; }
      if inodes[idx].kind.Dir? {
        var has := SearchAnyChild(idx);
        if has { return -1; }
      }
      Unlinked(inodes, idx);
      FreeInodesReturned(inodes, idx, EMPTY_INODE);
      Erase(idx);
      freeInodes := freeInodes + 1;
      return 0;
    }

    /** Releases the blocks of inode `idx` and clears it. */
    method Erase(idx: int)
      requires Valid() && Live(im, idx)
      modifies `inodes, `bitmap, `freeBlocks, `used, `im
      ensures Valid() && inodes == old(inodes)[idx := EMPTY_INODE]
      ensures im.store == map p | p in old(im.store) && p.0 != idx :: old(im.store)[p]
      ensures freeBlocks == old(freeBlocks) + |Released(old(im), idx, 0, SlotsOf(idx))|
      ensures DataKept(old(im), im) && Held(im) == Others(old(Held(im)), idx)
    {
      ghost var im0 := im;
      FreeAllBlocks(idx);
      HeldAfterCut(im0, im, idx, 0);
      CutAtZeroHolds(im0, idx);
      PrunedStaysLive(im0, im, idx, 0, SlotsOf(idx), idx);
      CutAtZeroEmpties(im0, im, idx);
      im := Replace(im, idx, EMPTY_INODE);
      inodes := inodes[idx := EMPTY_INODE];
      assert inodes == im0.ins[idx := EMPTY_INODE];
    }

    method SearchAnyChild(idx: int) returns (has: bool)
      requires |inodes| == INODE_MAX
      ensures has == HasChild(inodes, idx)
    {
      for i := 1 to INODE_MAX
        invariant forall j | 0 < j < i && Used(inodes, j) :: inodes[j].parent != idx
      {
        if !inodes[i].kind.Free? && inodes[i].parent == idx { return true; }
      }
      return false;
    }

    /** Whether `idx` lies on the way from `from` to the root. */
    method SearchAncestor(from: int, idx: int, ghost n: nat) returns (found: bool)
      requires Grounded(inodes) && Reach(inodes, from, n) && idx > 0
      ensures found == OnChain(inodes, from, n, idx)
    {
      var p := from;
      ghost var m := n;
      while p >= 0
        invariant p >= 0 ==> Reach(inodes, p, m) && OnChain(inodes, from, n, idx) == OnChain(inodes, p, m, idx)
        invariant p < 0 ==> !OnChain(inodes, from, n, idx)
        decreases if p >= 0 then m + 1 else 0
      {
        if p == idx { return true; }
        p := inodes[p].parent;
        if m > 0 { m := m - 1; }
      }
      return false;
    }

    /** Moves inode `idx` to directory `newParent` under the name `newName`. */
    method Rename(idx: int, newParent: int, newName: string) returns (r: int)
      requires Consistent()
      modifies this
      ensures Consistent() && mounted == old(mounted) && im.store == old(im.store) && disk == old(disk) && im.owner == old(im.owner)
      ensures freeBlocks == old(freeBlocks) && freeInodes == old(freeInodes)
      ensures r == if mounted && CanRename(old(inodes), idx, newParent, newName) then 0 else -1
      ensures r < 0 ==> unchanged(this)
      ensures r == 0 ==> inodes == old(inodes)[idx := old(inodes[idx]).(parent := newParent, name := newName)]
      ensures r == 0 && '/' in newName ==> !Named(inodes, idx)
      ensures r == 0 && old(Tree(inodes)) ==> (Tree(inodes) <==> '/' !in newName) && (Named(inodes, idx) <==> '/' !in newName)
    {
      if !mounted || idx <= 0 || idx >= INODE_MAX { return -1; }
      if newParent < 0 || newParent >= INODE_MAX || !inodes[newParent].kind.Dir? { return -1; }
      if |newName| == 0 || |newName| >= NAME_MAX { return -1; }
      if inodes[idx].kind.Free? { return -1; }
      ghost var n := GroundDepth(inodes, newParent);
      var below := SearchAncestor(newParent, idx, n);
      BelowIs(inodes, newParent, idx, n);
      if below { return -1; }
      for i := 1 to INODE_MAX
        invariant forall j | 0 < j < i && j != idx && Used(inodes, j) && inodes[j].parent == newParent :: inodes[j].name != newName
      {
        if i == idx || inodes[i].kind.Free? { continue; }
        if inodes[i].parent == newParent && inodes[i].name == newName { return -1; }
      }
      var node := inodes[idx].(parent := newParent, name := newName);
      GroundedMove(inodes, idx, node, n);
      if Tree(inodes) { TreeRename(inodes, idx, node, n); }
      im := Relabel(im, idx, node);
      FreeInodesSame(inodes, inodes[idx := node]);
      inodes := inodes[idx := node];
      if '/' in newName { SlashedIsUnnamed(inodes, idx); } else if Tree(inodes) { TreeIsNamed(inodes, idx); }
      return 0;
    }
  }
}
