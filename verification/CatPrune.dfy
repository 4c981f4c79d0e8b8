/** Releasing blocks: what truncation and unlinking do to the pointer forest. */
module CatPrune {
  import opened Words
  import opened CatForest
  import opened CatStore

  /** Which slots of inode `i` survive a cut at file block `first`: data slots below the cut,
      a pointer block that still has a child, and a level-1 block that lies wholly below the cut. */
  ghost predicate Keeps(im: Image, i: int, first: int, u: Slot)
    requires Shaped(im.table, im.ins) && ValidSlot(u)
  {
    u.i == i ==>
      match u
      case Direct(_, k) => k < first
      case IndLeaf(_, k) => DIRECT + k < first
      case L2(_, k, j) => DoubleIndex(k, j) < first
      case Ind(_) => exists k | 0 <= k < PTRS :: HasLeaf(im, i, first, k)
      case L1(_, k) => KeepsL1(im, i, first, k)
      case Dind(_) => exists k | 0 <= k < PTRS :: KeepsL1(im, i, first, k) && Val(im.table, im.ins, L1(i, k)) != 0
  }

  ghost predicate HasLeaf(im: Image, i: int, first: int, k: int)
    requires Shaped(im.table, im.ins) && 0 <= i < INODE_MAX && 0 <= k < PTRS
  {
    DIRECT + k < first && Val(im.table, im.ins, IndLeaf(i, k)) != 0
  }

  ghost predicate HasLeaf2(im: Image, i: int, first: int, k: int, j: int)
    requires Shaped(im.table, im.ins) && 0 <= i < INODE_MAX && 0 <= k < PTRS && 0 <= j < PTRS
  {
    DoubleIndex(k, j) < first && Val(im.table, im.ins, L2(i, k, j)) != 0
  }

  ghost predicate KeepsL1(im: Image, i: int, first: int, k: int)
    requires Shaped(im.table, im.ins) && 0 <= i < INODE_MAX && 0 <= k < PTRS
  {
    first >= DoubleIndex(k, PTRS) || exists j | 0 <= j < PTRS :: HasLeaf2(im, i, first, k, j)
  }

  /** What has become of slot `u`, and of the whole image, once the slots of inode `i` in `done`
      have been cut at file block `first` and nothing else changed. */
  ghost predicate PrunedAt(im: Image, im': Image, i: int, first: int, done: iset<Slot>, u: Slot)
    requires Shaped(im.table, im.ins) && Shaped(im'.table, im'.ins)
  {
    && Sound(im) && Sound(im')
    && (ValidSlot(u) ==>
          Val(im'.table, im'.ins, u) == if u in done && !Keeps(im, i, first, u) then 0 else Val(im.table, im.ins, u))
    && im'.store == Cut(im.store, i, first, done)
    && InUse(im') == InUse(im) - Released(im, i, first, done)
    && SameButPointers(im.ins, im'.ins, i) && DataKept(im, im')
  }

  /** Only pointer blocks are rewritten: data blocks, released or not, and blocks not in use keep what they hold. */
  ghost predicate DataKept(im: Image, im': Image) {
    && |im.disk| == |im'.disk| == BLOCKS_MAX
    && forall c | 0 <= c < BLOCKS_MAX && !(c in im.owner && !IsLeaf(im.owner[c])) :: im'.disk[c] == im.disk[c]
  }

  ghost predicate Pruned(im: Image, im': Image, i: int, first: int, done: iset<Slot>) {
    && Shaped(im.table, im.ins) && Shaped(im'.table, im'.ins)
    && forall u {:trigger PrunedAt(im, im', i, first, done, u)} :: PrunedAt(im, im', i, first, done, u)
  }

  ghost function Cut(store: Store, i: int, first: int, done: iset<Slot>): Store {
    map p | p in store && !(p.0 == i && p.1 >= first && Leaf(p) in done) :: store[p]
  }

  ghost function Leaf(p: (int, int)): Slot {
    if 0 <= p.0 < INODE_MAX && 0 <= p.1 < MAX_FILE_BLOCKS then LeafSlot(p.0, p.1) else Ind(p.0)
  }

  /** The blocks held by slots of `done` that do not survive the cut. */
  ghost function Released(im: Image, i: int, first: int, done: iset<Slot>): set<int>
    requires Shaped(im.table, im.ins)
  {
    set b | b in im.owner && ValidSlot(im.owner[b]) && im.owner[b] in done && !Keeps(im, i, first, im.owner[b])
  }

  lemma KeepsLeaf(im: Image, i: int, first: int, u: Slot)
    requires Shaped(im.table, im.ins) && ValidSlot(u) && IsLeaf(u)
    ensures Keeps(im, i, first, u) <==> u.i != i || Position(u).1 < first
  {
  }

  ghost function Gone(im: Image, i: int, first: int, done: iset<Slot>): iset<Slot>
    requires Shaped(im.table, im.ins)
  {
    iset u | ValidSlot(u) && u in done && !Keeps(im, i, first, u)
  }

  lemma PrunedInUse(im: Image, i: int, first: int, done: iset<Slot>)
    requires Sound(im)
    ensures Without(im.owner, Gone(im, i, first, done)).Keys + {0} == InUse(im) - Released(im, i, first, done)
  {
    var owner' := Without(im.owner, Gone(im, i, first, done));
    assert 0 !in im.owner;
    forall b
      ensures b in owner' <==> b in im.owner && b !in Released(im, i, first, done)
    {
    }
  }

  lemma PrunedStore(im: Image, i: int, first: int, done: iset<Slot>)
    requires Sound(im) && forall u | u in done :: u.i == i
    ensures Cut(im.store, i, first, done) ==
              map p | p in im.store && LeafSlot(p.0, p.1) !in Gone(im, i, first, done) :: im.store[p]
  {
    forall p | p in im.store
      ensures LeafSlot(p.0, p.1) in Gone(im, i, first, done) <==> p.0 == i && p.1 >= first && Leaf(p) in done
    {
      KeepsLeaf(im, i, first, LeafSlot(p.0, p.1));
    }
  }

  /** Everything follows from what happened to each slot. */
  lemma Prune(im: Image, disk: seq<Sector>, table: Table, ins: seq<Inode>, i: int, first: int, done: iset<Slot>)
      returns (im': Image)
    requires Sound(im) && Tabulated(disk, table) && Shaped(table, ins) && SameButPointers(im.ins, ins, i)
    requires forall j | 0 <= j < INODE_MAX && ins[j].kind.Free? :: NoBlocks(ins[j])
    requires forall u | ValidSlot(u) ::
               Val(table, ins, u) == if u in done && !Keeps(im, i, first, u) then 0 else Val(im.table, im.ins, u)
    requires forall u | u in done :: u.i == i
    requires |disk| == |im.disk| == BLOCKS_MAX
    requires forall c | 0 <= c < BLOCKS_MAX && !(c in im.owner && !IsLeaf(im.owner[c])) :: disk[c] == im.disk[c]
    ensures im'.disk == disk && im'.table == table && im'.ins == ins && Coherent(im') && Pruned(im, im', i, first, done)
  {
    var gone := Gone(im, i, first, done);
    im' := Image(disk, table, ins, Without(im.owner, gone), Cut(im.store, i, first, done));
    DetachOwned(im.table, im.ins, im.owner, table, ins, gone);
    PrunedStore(im, i, first, done);
    StoreAfterDetach(im.disk, im.table, im.ins, im.owner, im.store, disk, table, ins, gone, im'.store);
    PrunedInUse(im, i, first, done);
    forall u
      ensures PrunedAt(im, im', i, first, done, u)
    {
    }
  }

  /** A cut does not change what the cut itself keeps. */
  lemma KeepsStable(a: Image, b: Image, i: int, first: int, done: iset<Slot>, u: Slot)
    requires Pruned(a, b, i, first, done) && ValidSlot(u) && 0 <= i < INODE_MAX
    ensures Keeps(a, i, first, u) <==> Keeps(b, i, first, u)
  {
    assert PrunedAt(a, b, i, first, done, u);
    forall k | 0 <= k < PTRS
      ensures HasLeaf(a, i, first, k) <==> HasLeaf(b, i, first, k)
    {
      assert PrunedAt(a, b, i, first, done, IndLeaf(i, k));
    }
    forall k, j | 0 <= k < PTRS && 0 <= j < PTRS
      ensures HasLeaf2(a, i, first, k, j) <==> HasLeaf2(b, i, first, k, j)
    {
      assert PrunedAt(a, b, i, first, done, L2(i, k, j));
    }
    forall k | 0 <= k < PTRS
      ensures KeepsL1(a, i, first, k) <==> KeepsL1(b, i, first, k)
      ensures KeepsL1(a, i, first, k) ==> Val(a.table, a.ins, L1(i, k)) == Val(b.table, b.ins, L1(i, k))
    {
      assert PrunedAt(a, b, i, first, done, L1(i, k));
    }
  }

  /** Cuts of different slots add up. */
  lemma PruneTrans(a: Image, b: Image, c: Image, i: int, first: int, A: iset<Slot>, B: iset<Slot>)
    requires Pruned(a, b, i, first, A) && Pruned(b, c, i, first, B) && 0 <= i < INODE_MAX
    ensures Pruned(a, c, i, first, A + B)
  {
    forall u
      ensures PrunedAt(a, c, i, first, A + B, u)
    {
      PruneTransAt(a, b, c, i, first, A, B, u);
    }
  }

  lemma PruneTransAt(a: Image, b: Image, c: Image, i: int, first: int, A: iset<Slot>, B: iset<Slot>, u: Slot)
    requires Pruned(a, b, i, first, A) && Pruned(b, c, i, first, B) && 0 <= i < INODE_MAX
    ensures PrunedAt(a, c, i, first, A + B, u)
  {
    PruneTransVal(a, b, c, i, first, A, B, u);
    PruneTransRest(a, b, c, i, first, A, B);
  }

  lemma PruneTransVal(a: Image, b: Image, c: Image, i: int, first: int, A: iset<Slot>, B: iset<Slot>, u: Slot)
    requires Pruned(a, b, i, first, A) && Pruned(b, c, i, first, B) && 0 <= i < INODE_MAX
    ensures ValidSlot(u) ==>
      Val(c.table, c.ins, u) == if u in A + B && !Keeps(a, i, first, u) then 0 else Val(a.table, a.ins, u)
  {
    if ValidSlot(u) {
      assert PrunedAt(a, b, i, first, A, u) && PrunedAt(b, c, i, first, B, u);
      KeepsStable(a, b, i, first, A, u);
    }
  }

  lemma PruneTransRest(a: Image, b: Image, c: Image, i: int, first: int, A: iset<Slot>, B: iset<Slot>)
    requires Pruned(a, b, i, first, A) && Pruned(b, c, i, first, B) && 0 <= i < INODE_MAX
    ensures Sound(a) && Sound(c) && c.store == Cut(a.store, i, first, A + B)
    ensures InUse(c) == InUse(a) - Released(a, i, first, A + B) && SameButPointers(a.ins, c.ins, i) && DataKept(a, c)
  {
    PruneTransData(a, b, c, i, first, A, B);
    assert PrunedAt(a, b, i, first, A, Ind(i)) && PrunedAt(b, c, i, first, B, Ind(i));
    ReleasedTrans(a, b, i, first, A, B);
    SameButPointersTrans(a.ins, b.ins, c.ins, i);
  }

  lemma PruneTransData(a: Image, b: Image, c: Image, i: int, first: int, A: iset<Slot>, B: iset<Slot>)
    requires Pruned(a, b, i, first, A) && Pruned(b, c, i, first, B) && 0 <= i < INODE_MAX
    ensures DataKept(a, c)
  {
    assert PrunedAt(a, b, i, first, A, Ind(i)) && PrunedAt(b, c, i, first, B, Ind(i));
    forall x | x in b.owner ensures x in a.owner && a.owner[x] == b.owner[x] {
      assert PrunedAt(a, b, i, first, A, b.owner[x]);
    }
  }

  lemma ReleasedTrans(a: Image, b: Image, i: int, first: int, A: iset<Slot>, B: iset<Slot>)
    requires Pruned(a, b, i, first, A) && 0 <= i < INODE_MAX
    ensures InUse(b) - Released(b, i, first, B) == InUse(a) - Released(a, i, first, A + B)
  {
    assert PrunedAt(a, b, i, first, A, Ind(i));
    forall x | x in a.owner
      ensures x in Released(a, i, first, A + B) <==> x in Released(a, i, first, A) || x in Released(b, i, first, B)
    {
      var u := a.owner[x];
      assert PrunedAt(a, b, i, first, A, u);
      KeepsStable(a, b, i, first, A, u);
    }
    forall x | x in b.owner && x in Released(b, i, first, B)
      ensures x in Released(a, i, first, A + B)
    {
      assert PrunedAt(a, b, i, first, A, b.owner[x]);
      KeepsStable(a, b, i, first, A, b.owner[x]);
    }
  }

  lemma PruneNothing(im: Image, i: int, first: int, done: iset<Slot>)
    requires Coherent(im) && 0 <= i < INODE_MAX
    requires forall u | u in done && ValidSlot(u) :: Keeps(im, i, first, u) || Val(im.table, im.ins, u) == 0
    ensures Pruned(im, im, i, first, done)
  {
    Unseal(im);
    forall b | b in im.owner
      ensures b !in Released(im, i, first, done)
    {
      assert Val(im.table, im.ins, im.owner[b]) == b;
    }
    forall p | p in im.store
      ensures !(p.0 == i && p.1 >= first && Leaf(p) in done)
    {
      KeepsLeaf(im, i, first, LeafSlot(p.0, p.1));
      PhysInStore(im, p.0, p.1);
    }
    assert Cut(im.store, i, first, done) == im.store;
    forall u
      ensures PrunedAt(im, im, i, first, done, u)
    {
    }
  }

  /** Pointers `p` with every entry from `start` on cleared. */
  function TailCleared(p: seq<int>, start: int): (r: seq<int>)
    ensures |r| == |p|
  {
    seq(|p|, k requires 0 <= k < |p| => if k >= start then 0 else p[k])
  }

  /** The block released by turn `k` of the loop over the pointers `p`. */
  function FreedAt(p: seq<int>, start: int, k: int): set<int>
    requires 0 <= k < |p|
  {
    if k >= start && p[k] != 0 then {p[k]} else {}
  }

  /** The blocks released by the first `n` turns. */
  function FreedUpTo(p: seq<int>, start: int, n: nat): set<int>
    requires n <= |p|
  {
    if n == 0 then {} else FreedUpTo(p, start, n - 1) + FreedAt(p, start, n - 1)
  }

  lemma FreedStep(used: set<int>, p: seq<int>, start: int, k: nat)
    requires k < |p|
    ensures used - FreedUpTo(p, start, k + 1) == used - FreedUpTo(p, start, k) - FreedAt(p, start, k)
  {
  }

  lemma {:induction false} FreedIsTail(p: seq<int>, start: int, n: nat)
    requires n <= |p|
    ensures FreedUpTo(p, start, n) == set k | 0 <= k < n && k >= start && p[k] != 0 :: p[k]
  {
    if n > 0 { FreedIsTail(p, start, n - 1); }
  }

  /** The blocks the cleared entries held. */
  function TailBlocks(p: seq<int>, start: int): set<int> {
    FreedUpTo(p, start, |p|)
  }

  ghost predicate AnyLeft(p: seq<int>) {
    exists k | 0 <= k < |p| :: p[k] != 0
  }

  predicate AllBlocks(p: seq<int>) {
    forall k | 0 <= k < |p| :: 0 <= p[k] < BLOCKS_MAX
  }

  ghost predicate AnyBelow(p: seq<int>, n: int) {
    exists k | 0 <= k < n && k < |p| :: p[k] != 0
  }

  ghost function DirectSlots(i: int, from: int, to: int): iset<Slot> {
    iset u: Slot | u.Direct? && u.i == i && from <= u.k < to
  }

  ghost function SingleSlots(i: int): iset<Slot> {
    iset u: Slot | (u.Ind? || u.IndLeaf?) && u.i == i
  }

  /** The level-1 and level-2 slots of inode `i` under entries `from..to`. */
  ghost function DoubleSlots(i: int, from: int, to: int): iset<Slot> {
    iset u: Slot | (u.L1? || u.L2?) && u.i == i && from <= u.k < to
  }

  /** Which blocks a cut releases, from the slots it empties. */
  lemma ReleasedIs(im: Image, i: int, first: int, done: iset<Slot>, blocks: set<int>)
    requires Sound(im)
    requires forall u | ValidSlot(u) && u in done && !Keeps(im, i, first, u) && Val(im.table, im.ins, u) != 0 ::
               Val(im.table, im.ins, u) in blocks
    requires forall b | b in blocks ::
               exists u :: ValidSlot(u) && u in done && !Keeps(im, i, first, u) && Val(im.table, im.ins, u) == b != 0
    ensures Released(im, i, first, done) == blocks
  {
    forall b | b in im.owner
      ensures b in Released(im, i, first, done) ==> b in blocks
    {
      assert Val(im.table, im.ins, im.owner[b]) == b;
    }
    forall b | b in blocks
      ensures b in Released(im, i, first, done)
    {
      var u :| ValidSlot(u) && u in done && !Keeps(im, i, first, u) && Val(im.table, im.ins, u) == b != 0;
    }
  }

  lemma PruneDirect(im: Image, i: int, first: int, k: int) returns (im': Image)
    requires Live(im, i) && 0 <= k < DIRECT && first <= k && im.ins[i].blocks[k] != 0
    ensures im'.disk == im.disk && im'.ins == im.ins[i := im.ins[i].(blocks := im.ins[i].blocks[k := 0])]
    ensures Coherent(im') && Pruned(im, im', i, first, DirectSlots(i, k, k + 1))
    ensures Released(im, i, first, DirectSlots(i, k, k + 1)) == {im.ins[i].blocks[k]}
  {
    Unseal(im);
    var done := DirectSlots(i, k, k + 1);
    var ins := im.ins[i := im.ins[i].(blocks := im.ins[i].blocks[k := 0])];
    im' := Prune(im, im.disk, im.table, ins, i, first, done);
    assert Val(im.table, im.ins, Direct(i, k)) == im.ins[i].blocks[k];
    ReleasedIs(im, i, first, done, {im.ins[i].blocks[k]});
  }

  /** What reading the cut indirect block says about its slots. */
  lemma SingleSlotsAfterCut(im: Image, i: int, first: int, sec: Sector)
    requires Live(im, i) && 0 < im.ins[i].indirect < BLOCKS_MAX
    requires Pointers(sec) == TailCleared(Pointers(im.disk[im.ins[i].indirect]), first - DIRECT)
    ensures Keeps(im, i, first, Ind(i)) <==> AnyLeft(Pointers(sec))
    ensures forall k | 0 <= k < PTRS :: Val(im.table, im.ins, IndLeaf(i, k)) == Pointers(im.disk[im.ins[i].indirect])[k]
  {
    Unseal(im);
    var c := im.ins[i].indirect;
    assert im.table[c] == Pointers(im.disk[c]);
    forall k | 0 <= k < PTRS
      ensures HasLeaf(im, i, first, k) <==> Pointers(sec)[k] != 0
    {
    }
    assert AnyLeft(Pointers(sec)) ==> exists k | 0 <= k < PTRS :: HasLeaf(im, i, first, k);
  }

  lemma ReleasedSingle(im: Image, i: int, first: int, sec: Sector)
    requires Live(im, i) && 0 < im.ins[i].indirect < BLOCKS_MAX
    requires Pointers(sec) == TailCleared(Pointers(im.disk[im.ins[i].indirect]), first - DIRECT)
    ensures Released(im, i, first, SingleSlots(i)) ==
              TailBlocks(Pointers(im.disk[im.ins[i].indirect]), first - DIRECT)
              + if AnyLeft(Pointers(sec)) then {} else {im.ins[i].indirect}
  {
    var c := im.ins[i].indirect;
    var p := Pointers(im.disk[c]);
    SingleSlotsAfterCut(im, i, first, sec);
    FreedIsTail(p, first - DIRECT, |p|);
    var tail, own := TailBlocks(p, first - DIRECT), if AnyLeft(Pointers(sec)) then {} else {c};
    forall b | b in Released(im, i, first, SingleSlots(i))
      ensures b in tail + own
    {
      ReleasedFromSingle(im, i, first, sec, b);
    }
    forall b | b in tail + own
      ensures b in Released(im, i, first, SingleSlots(i))
    {
      SingleIsReleased(im, i, first, sec, b);
    }
  }

  lemma ReleasedFromSingle(im: Image, i: int, first: int, sec: Sector, b: int)
    requires Live(im, i) && 0 < im.ins[i].indirect < BLOCKS_MAX
    requires Pointers(sec) == TailCleared(Pointers(im.disk[im.ins[i].indirect]), first - DIRECT)
    requires b in Released(im, i, first, SingleSlots(i))
    ensures b in TailBlocks(Pointers(im.disk[im.ins[i].indirect]), first - DIRECT)
            || (b == im.ins[i].indirect && !AnyLeft(Pointers(sec)))
  {
    Unseal(im);
    var p := Pointers(im.disk[im.ins[i].indirect]);
    SingleSlotsAfterCut(im, i, first, sec);
    FreedIsTail(p, first - DIRECT, |p|);
    var u := im.owner[b];
    if u.IndLeaf? { assert p[u.k] == b; }
  }

  lemma SingleIsReleased(im: Image, i: int, first: int, sec: Sector, b: int)
    requires Live(im, i) && 0 < im.ins[i].indirect < BLOCKS_MAX
    requires Pointers(sec) == TailCleared(Pointers(im.disk[im.ins[i].indirect]), first - DIRECT)
    requires b in TailBlocks(Pointers(im.disk[im.ins[i].indirect]), first - DIRECT)
             || (b == im.ins[i].indirect && !AnyLeft(Pointers(sec)))
    ensures b in Released(im, i, first, SingleSlots(i))
  {
    var p := Pointers(im.disk[im.ins[i].indirect]);
    SingleSlotsAfterCut(im, i, first, sec);
    FreedIsTail(p, first - DIRECT, |p|);
    if b in TailBlocks(p, first - DIRECT) {
      var k :| 0 <= k < |p| && k >= first - DIRECT && p[k] != 0 && p[k] == b;
      HeldIsReleased(im, i, first, SingleSlots(i), IndLeaf(i, k), b);
    } else {
      HeldIsReleased(im, i, first, SingleSlots(i), Ind(i), b);
    }
  }

  /** A block held by a slot that does not survive the cut is released. */
  lemma HeldIsReleased(im: Image, i: int, first: int, done: iset<Slot>, u: Slot, b: int)
    requires Coherent(im) && ValidSlot(u) && Val(im.table, im.ins, u) == b != 0 && u in done && !Keeps(im, i, first, u)
    ensures b in Released(im, i, first, done)
  {
    Unseal(im);
  }

  lemma SingleKept(im: Image, i: int, first: int, sec: Sector) returns (im': Image)
    requires Live(im, i) && 0 < im.ins[i].indirect < BLOCKS_MAX && AnyLeft(Pointers(sec))
    requires Pointers(sec) == TailCleared(Pointers(im.disk[im.ins[i].indirect]), first - DIRECT)
    ensures im'.disk == im.disk[im.ins[i].indirect := sec] && im'.ins == im.ins
    ensures Coherent(im') && Pruned(im, im', i, first, SingleSlots(i))
  {
    Unseal(im);
    var c := im.ins[i].indirect;
    var table := im.table[c := Pointers(sec)];
    PointersOwned(im.table, im.ins, im.owner);
    forall u | ValidSlot(u)
      ensures Val(table, im.ins, u) == if u in SingleSlots(i) && !Keeps(im, i, first, u) then 0 else Val(im.table, im.ins, u)
    {
      SingleKeptVal(im, i, first, sec, table, u);
    }
    im' := Prune(im, im.disk[c := sec], table, im.ins, i, first, SingleSlots(i));
  }

  lemma SingleKeptVal(im: Image, i: int, first: int, sec: Sector, table: Table, u: Slot)
    requires Live(im, i) && 0 < im.ins[i].indirect < BLOCKS_MAX && AnyLeft(Pointers(sec)) && ValidSlot(u)
    requires Pointers(sec) == TailCleared(Pointers(im.disk[im.ins[i].indirect]), first - DIRECT)
    requires table == im.table[im.ins[i].indirect := Pointers(sec)]
    ensures Val(table, im.ins, u) == if u in SingleSlots(i) && !Keeps(im, i, first, u) then 0 else Val(im.table, im.ins, u)
  {
    Unseal(im);
    PointersOwned(im.table, im.ins, im.owner);
    SingleSlotsAfterCut(im, i, first, sec);
    if u.IndLeaf? && u.i == i { assert Val(table, im.ins, u) == Pointers(sec)[u.k]; }
  }

  lemma SingleDropped(im: Image, i: int, first: int, sec: Sector) returns (im': Image)
    requires Live(im, i) && 0 < im.ins[i].indirect < BLOCKS_MAX && !AnyLeft(Pointers(sec))
    requires Pointers(sec) == TailCleared(Pointers(im.disk[im.ins[i].indirect]), first - DIRECT)
    ensures im'.disk == im.disk && im'.ins == im.ins[i := im.ins[i].(indirect := 0)]
    ensures Coherent(im') && Pruned(im, im', i, first, SingleSlots(i))
  {
    Unseal(im);
    var ins := im.ins[i := im.ins[i].(indirect := 0)];
    SingleSlotsAfterCut(im, i, first, sec);
    forall u | ValidSlot(u)
      ensures Val(im.table, ins, u) == if u in SingleSlots(i) && !Keeps(im, i, first, u) then 0 else Val(im.table, im.ins, u)
    {
      if u.IndLeaf? && u.i == i { assert Pointers(sec)[u.k] == 0; }
    }
    im' := Prune(im, im.disk, im.table, ins, i, first, SingleSlots(i));
  }

  /** The indirect block after its entries from `first - DIRECT` on were released: rewritten while an
      entry is left, released itself otherwise. */
  lemma PruneSingle(im: Image, i: int, first: int, sec: Sector) returns (im': Image)
    requires Live(im, i) && 0 < im.ins[i].indirect < BLOCKS_MAX
    requires Pointers(sec) == TailCleared(Pointers(im.disk[im.ins[i].indirect]), first - DIRECT)
    ensures im'.disk == if AnyLeft(Pointers(sec)) then im.disk[im.ins[i].indirect := sec] else im.disk
    ensures im'.ins == if AnyLeft(Pointers(sec)) then im.ins else im.ins[i := im.ins[i].(indirect := 0)]
    ensures Coherent(im') && Pruned(im, im', i, first, SingleSlots(i))
    ensures var rest := InUse(im) - TailBlocks(Pointers(im.disk[im.ins[i].indirect]), first - DIRECT);
            InUse(im') == if AnyLeft(Pointers(sec)) then rest else rest - {im.ins[i].indirect}
  {
    if AnyLeft(Pointers(sec)) {
      im' := SingleKept(im, i, first, sec);
    } else {
      im' := SingleDropped(im, i, first, sec);
    }
    ReleasedSingle(im, i, first, sec);
    assert PrunedAt(im, im', i, first, SingleSlots(i), Ind(i));
  }

  /** What reading the cut level-1 block `k` says about its slots. */
  lemma DoubleSlotsAfterCut(im: Image, i: int, first: int, k: int, sec: Sector)
    requires Live(im, i) && 0 <= k < PTRS && 0 < Level1Block(im, i, k) < BLOCKS_MAX && first < DoubleIndex(k, PTRS)
    requires Pointers(sec) == TailCleared(Pointers(im.disk[Level1Block(im, i, k)]), first - DoubleIndex(k, 0))
    ensures Keeps(im, i, first, L1(i, k)) <==> AnyLeft(Pointers(sec))
    ensures forall j | 0 <= j < PTRS ::
              Val(im.table, im.ins, L2(i, k, j)) == Pointers(im.disk[Level1Block(im, i, k)])[j]
    ensures forall j | 0 <= j < PTRS :: Keeps(im, i, first, L2(i, k, j)) <==> j < first - DoubleIndex(k, 0)
  {
    Unseal(im);
    var c := Level1Block(im, i, k);
    assert im.table[c] == Pointers(im.disk[c]);
    forall j | 0 <= j < PTRS
      ensures HasLeaf2(im, i, first, k, j) <==> Pointers(sec)[j] != 0
    {
    }
    assert AnyLeft(Pointers(sec)) ==> exists j | 0 <= j < PTRS :: HasLeaf2(im, i, first, k, j);
  }

  lemma ReleasedDouble(im: Image, i: int, first: int, k: int, sec: Sector)
    requires Live(im, i) && 0 <= k < PTRS && 0 < Level1Block(im, i, k) < BLOCKS_MAX && first < DoubleIndex(k, PTRS)
    requires Pointers(sec) == TailCleared(Pointers(im.disk[Level1Block(im, i, k)]), first - DoubleIndex(k, 0))
    ensures Released(im, i, first, DoubleSlots(i, k, k + 1)) ==
              TailBlocks(Pointers(im.disk[Level1Block(im, i, k)]), first - DoubleIndex(k, 0))
              + if AnyLeft(Pointers(sec)) then {} else {Level1Block(im, i, k)}
  {
    var c, start := Level1Block(im, i, k), first - DoubleIndex(k, 0);
    var p := Pointers(im.disk[c]);
    var tail, own := TailBlocks(p, start), if AnyLeft(Pointers(sec)) then {} else {c};
    forall b | b in Released(im, i, first, DoubleSlots(i, k, k + 1))
      ensures b in tail + own
    {
      ReleasedFromDouble(im, i, first, k, sec, b);
    }
    forall b | b in tail + own
      ensures b in Released(im, i, first, DoubleSlots(i, k, k + 1))
    {
      TailIsReleased(im, i, first, k, sec, b);
    }
  }

  lemma ReleasedFromDouble(im: Image, i: int, first: int, k: int, sec: Sector, b: int)
    requires Live(im, i) && 0 <= k < PTRS && 0 < Level1Block(im, i, k) < BLOCKS_MAX && first < DoubleIndex(k, PTRS)
    requires Pointers(sec) == TailCleared(Pointers(im.disk[Level1Block(im, i, k)]), first - DoubleIndex(k, 0))
    requires b in Released(im, i, first, DoubleSlots(i, k, k + 1))
    ensures b in TailBlocks(Pointers(im.disk[Level1Block(im, i, k)]), first - DoubleIndex(k, 0))
            || (!AnyLeft(Pointers(sec)) && b == Level1Block(im, i, k))
  {
    Unseal(im);
    var u := im.owner[b];
    assert Val(im.table, im.ins, u) == b;
    if u.L2? {
      Level2InTail(im, i, first, k, sec, u.j);
    } else {
      DoubleSlotsAfterCut(im, i, first, k, sec);
    }
  }

  lemma Level2InTail(im: Image, i: int, first: int, k: int, sec: Sector, j: int)
    requires Live(im, i) && 0 <= k < PTRS && 0 < Level1Block(im, i, k) < BLOCKS_MAX && first < DoubleIndex(k, PTRS)
    requires Pointers(sec) == TailCleared(Pointers(im.disk[Level1Block(im, i, k)]), first - DoubleIndex(k, 0))
    requires 0 <= j < PTRS && !Keeps(im, i, first, L2(i, k, j)) && Val(im.table, im.ins, L2(i, k, j)) != 0
    ensures Val(im.table, im.ins, L2(i, k, j)) in TailBlocks(Pointers(im.disk[Level1Block(im, i, k)]), first - DoubleIndex(k, 0))
  {
    var p := Pointers(im.disk[Level1Block(im, i, k)]);
    DoubleSlotsAfterCut(im, i, first, k, sec);
    FreedIsTail(p, first - DoubleIndex(k, 0), |p|);
  }

  lemma TailIsReleased(im: Image, i: int, first: int, k: int, sec: Sector, b: int)
    requires Live(im, i) && 0 <= k < PTRS && 0 < Level1Block(im, i, k) < BLOCKS_MAX && first < DoubleIndex(k, PTRS)
    requires Pointers(sec) == TailCleared(Pointers(im.disk[Level1Block(im, i, k)]), first - DoubleIndex(k, 0))
    requires b in TailBlocks(Pointers(im.disk[Level1Block(im, i, k)]), first - DoubleIndex(k, 0))
             || (!AnyLeft(Pointers(sec)) && b == Level1Block(im, i, k))
    ensures b in Released(im, i, first, DoubleSlots(i, k, k + 1))
  {
    var p, start := Pointers(im.disk[Level1Block(im, i, k)]), first - DoubleIndex(k, 0);
    FreedIsTail(p, start, |p|);
    if b in TailBlocks(p, start) {
      var j :| 0 <= j < |p| && j >= start && p[j] != 0 && p[j] == b;
      Level2IsReleased(im, i, first, k, sec, j);
    } else {
      Level1IsReleased(im, i, first, k, sec);
    }
  }

  lemma Level2IsReleased(im: Image, i: int, first: int, k: int, sec: Sector, j: int)
    requires Live(im, i) && 0 <= k < PTRS && 0 < Level1Block(im, i, k) < BLOCKS_MAX && first < DoubleIndex(k, PTRS)
    requires Pointers(sec) == TailCleared(Pointers(im.disk[Level1Block(im, i, k)]), first - DoubleIndex(k, 0))
    requires 0 <= j < PTRS && j >= first - DoubleIndex(k, 0) && Pointers(im.disk[Level1Block(im, i, k)])[j] != 0
    ensures Pointers(im.disk[Level1Block(im, i, k)])[j] in Released(im, i, first, DoubleSlots(i, k, k + 1))
  {
    DoubleSlotsAfterCut(im, i, first, k, sec);
    HeldIsReleased(im, i, first, DoubleSlots(i, k, k + 1), L2(i, k, j), Pointers(im.disk[Level1Block(im, i, k)])[j]);
  }

  lemma Level1IsReleased(im: Image, i: int, first: int, k: int, sec: Sector)
    requires Live(im, i) && 0 <= k < PTRS && 0 < Level1Block(im, i, k) < BLOCKS_MAX && first < DoubleIndex(k, PTRS)
    requires Pointers(sec) == TailCleared(Pointers(im.disk[Level1Block(im, i, k)]), first - DoubleIndex(k, 0))
    requires !AnyLeft(Pointers(sec))
    ensures Level1Block(im, i, k) in Released(im, i, first, DoubleSlots(i, k, k + 1))
  {
    DoubleSlotsAfterCut(im, i, first, k, sec);
    HeldIsReleased(im, i, first, DoubleSlots(i, k, k + 1), L1(i, k), Level1Block(im, i, k));
  }

  lemma DoubleKeptVal(im: Image, i: int, first: int, k: int, sec: Sector, table: Table, u: Slot)
    requires Live(im, i) && 0 <= k < PTRS && 0 < Level1Block(im, i, k) < BLOCKS_MAX && first < DoubleIndex(k, PTRS)
    requires Pointers(sec) == TailCleared(Pointers(im.disk[Level1Block(im, i, k)]), first - DoubleIndex(k, 0))
    requires AnyLeft(Pointers(sec)) && ValidSlot(u) && table == im.table[Level1Block(im, i, k) := Pointers(sec)]
    ensures Val(table, im.ins, u) ==
              if u in DoubleSlots(i, k, k + 1) && !Keeps(im, i, first, u) then 0 else Val(im.table, im.ins, u)
  {
    Unseal(im);
    PointersOwned(im.table, im.ins, im.owner);
    DoubleSlotsAfterCut(im, i, first, k, sec);
    if u.L2? && u.i == i && u.k == k { assert Val(table, im.ins, u) == Pointers(sec)[u.j]; }
  }

  lemma DoubleKept(im: Image, i: int, first: int, k: int, sec: Sector) returns (im': Image)
    requires Live(im, i) && 0 <= k < PTRS && 0 < Level1Block(im, i, k) < BLOCKS_MAX && first < DoubleIndex(k, PTRS)
    requires Pointers(sec) == TailCleared(Pointers(im.disk[Level1Block(im, i, k)]), first - DoubleIndex(k, 0))
    requires AnyLeft(Pointers(sec))
    ensures im'.disk == im.disk[Level1Block(im, i, k) := sec] && im'.ins == im.ins
    ensures Coherent(im') && Pruned(im, im', i, first, DoubleSlots(i, k, k + 1))
  {
    Unseal(im);
    var c := Level1Block(im, i, k);
    var table := im.table[c := Pointers(sec)];
    forall u | ValidSlot(u)
      ensures Val(table, im.ins, u) ==
                if u in DoubleSlots(i, k, k + 1) && !Keeps(im, i, first, u) then 0 else Val(im.table, im.ins, u)
    {
      DoubleKeptVal(im, i, first, k, sec, table, u);
    }
    im' := Prune(im, im.disk[c := sec], table, im.ins, i, first, DoubleSlots(i, k, k + 1));
  }

  lemma DoubleDroppedVal(im: Image, i: int, first: int, k: int, sec: Sector, table: Table, u: Slot)
    requires Live(im, i) && 0 <= k < PTRS && 0 < Level1Block(im, i, k) < BLOCKS_MAX && first < DoubleIndex(k, PTRS)
    requires Pointers(sec) == TailCleared(Pointers(im.disk[Level1Block(im, i, k)]), first - DoubleIndex(k, 0))
    requires !AnyLeft(Pointers(sec)) && 0 < im.ins[i].dindirect < BLOCKS_MAX && ValidSlot(u)
    requires table == im.table[im.ins[i].dindirect := Pointers(SetPointer(im.disk[im.ins[i].dindirect], k, 0))]
    ensures Val(table, im.ins, u) ==
              if u in DoubleSlots(i, k, k + 1) && !Keeps(im, i, first, u) then 0 else Val(im.table, im.ins, u)
  {
    Unseal(im);
    var d := im.ins[i].dindirect;
    assert im.table[d] == Pointers(im.disk[d]);
    PointersOwned(im.table, im.ins, im.owner);
    DoubleSlotsAfterCut(im, i, first, k, sec);
    if u.L2? && u.i == i && u.k == k { assert Pointers(sec)[u.j] == 0; }
  }

  lemma DoubleDropped(im: Image, i: int, first: int, k: int, sec: Sector) returns (im': Image)
    requires Live(im, i) && 0 <= k < PTRS && 0 < Level1Block(im, i, k) < BLOCKS_MAX && first < DoubleIndex(k, PTRS)
    requires Pointers(sec) == TailCleared(Pointers(im.disk[Level1Block(im, i, k)]), first - DoubleIndex(k, 0))
    requires !AnyLeft(Pointers(sec)) && 0 < im.ins[i].dindirect < BLOCKS_MAX
    ensures var d := im.ins[i].dindirect; im'.disk == im.disk[d := SetPointer(im.disk[d], k, 0)] && im'.ins == im.ins
    ensures Coherent(im') && Pruned(im, im', i, first, DoubleSlots(i, k, k + 1))
  {
    Unseal(im);
    var d := im.ins[i].dindirect;
    var l1 := SetPointer(im.disk[d], k, 0);
    var table := im.table[d := Pointers(l1)];
    assert im.table[d] == Pointers(im.disk[d]);
    PointersOwned(im.table, im.ins, im.owner);
    forall u | ValidSlot(u)
      ensures Val(table, im.ins, u) ==
                if u in DoubleSlots(i, k, k + 1) && !Keeps(im, i, first, u) then 0 else Val(im.table, im.ins, u)
    {
      DoubleDroppedVal(im, i, first, k, sec, table, u);
    }
    im' := Prune(im, im.disk[d := l1], table, im.ins, i, first, DoubleSlots(i, k, k + 1));
  }

  /** Level-1 block `k` after its entries at or beyond the cut were released. */
  lemma PruneDouble(im: Image, i: int, first: int, k: int, sec: Sector) returns (im': Image)
    requires Live(im, i) && 0 <= k < PTRS && 0 < Level1Block(im, i, k) < BLOCKS_MAX && first < DoubleIndex(k, PTRS)
    requires Pointers(sec) == TailCleared(Pointers(im.disk[Level1Block(im, i, k)]), first - DoubleIndex(k, 0))
    requires 0 < im.ins[i].dindirect < BLOCKS_MAX
    ensures im'.ins == im.ins && Coherent(im') && Pruned(im, im', i, first, DoubleSlots(i, k, k + 1))
    ensures var d := im.ins[i].dindirect;
            im'.disk == if AnyLeft(Pointers(sec)) then im.disk[Level1Block(im, i, k) := sec]
                        else im.disk[d := SetPointer(im.disk[d], k, 0)]
    ensures var rest := InUse(im) - TailBlocks(Pointers(im.disk[Level1Block(im, i, k)]), first - DoubleIndex(k, 0));
            InUse(im') == if AnyLeft(Pointers(sec)) then rest else rest - {Level1Block(im, i, k)}
  {
    if AnyLeft(Pointers(sec)) {
      im' := DoubleKept(im, i, first, k, sec);
    } else {
      im' := DoubleDropped(im, i, first, k, sec);
    }
    ReleasedDouble(im, i, first, k, sec);
    assert PrunedAt(im, im', i, first, DoubleSlots(i, k, k + 1), Ind(i));
  }

  lemma DindDroppedVal(im: Image, i: int, first: int, table: Table, ins: seq<Inode>, u: Slot)
    requires Live(im, i) && 0 < im.ins[i].dindirect < BLOCKS_MAX && ValidSlot(u)
    requires !AnyLeft(Pointers(im.disk[im.ins[i].dindirect]))
    requires Shaped(table, ins) && ins == im.ins[i := im.ins[i].(dindirect := 0)]
    requires table == im.table[im.ins[i].dindirect := table[im.ins[i].dindirect]]
    ensures Val(table, ins, u) == if u in iset{Dind(i)} && !Keeps(im, i, first, u) then 0 else Val(im.table, im.ins, u)
  {
    Unseal(im);
    PointersOwned(im.table, im.ins, im.owner);
    NoLevel1(im, i);
  }

  lemma NoLevel1(im: Image, i: int)
    requires Live(im, i) && 0 < im.ins[i].dindirect < BLOCKS_MAX && !AnyLeft(Pointers(im.disk[im.ins[i].dindirect]))
    ensures forall k | 0 <= k < PTRS :: Val(im.table, im.ins, L1(i, k)) == 0
  {
    Unseal(im);
    var d := im.ins[i].dindirect;
    assert im.table[d] == Pointers(im.disk[d]);
    forall k | 0 <= k < PTRS
      ensures Val(im.table, im.ins, L1(i, k)) == 0
    {
      assert Pointers(im.disk[d])[k] == 0;
    }
  }

  /** The double-indirect block itself goes once no level-1 block is left; what the sector then
      holds no longer matters. */
  lemma PruneDind(im: Image, i: int, first: int, junk: Sector) returns (im': Image)
    requires Live(im, i) && 0 < im.ins[i].dindirect < BLOCKS_MAX
    requires !AnyLeft(Pointers(im.disk[im.ins[i].dindirect]))
    ensures im'.disk == im.disk[im.ins[i].dindirect := junk] && im'.ins == im.ins[i := im.ins[i].(dindirect := 0)]
    ensures Coherent(im') && Pruned(im, im', i, first, iset{Dind(i)}) && InUse(im') == InUse(im) - {im.ins[i].dindirect}
  {
    Unseal(im);
    var d := im.ins[i].dindirect;
    var ins := im.ins[i := im.ins[i].(dindirect := 0)];
    assert im.table[d] == Pointers(im.disk[d]);
    PointersOwned(im.table, im.ins, im.owner);
    var table := im.table[d := Pointers(junk)];
    forall u | ValidSlot(u)
      ensures Val(table, ins, u) == if u in iset{Dind(i)} && !Keeps(im, i, first, u) then 0 else Val(im.table, im.ins, u)
    {
      DindDroppedVal(im, i, first, table, ins, u);
    }
    im' := Prune(im, im.disk[d := junk], table, ins, i, first, iset{Dind(i)});
    assert Val(im.table, im.ins, Dind(i)) == d;
    ReleasedIs(im, i, first, iset{Dind(i)}, {d});
    assert PrunedAt(im, im', i, first, iset{Dind(i)}, Ind(i));
  }

  /** Pointer blocks in use, and the entries of those read while cutting, lie on the disk. */
  lemma EntriesInRange(im: Image, i: int)
    requires Coherent(im) && 0 <= i < INODE_MAX
    ensures forall k | 0 <= k < DIRECT :: 0 <= im.ins[i].blocks[k] < BLOCKS_MAX
    ensures 0 <= im.ins[i].indirect < BLOCKS_MAX && 0 <= im.ins[i].dindirect < BLOCKS_MAX
    ensures im.ins[i].indirect != 0 ==>
              AllBlocks(Pointers(im.disk[im.ins[i].indirect]))
  {
    Unseal(im);
    PointersOwned(im.table, im.ins, im.owner);
    forall k | 0 <= k < DIRECT
      ensures 0 <= im.ins[i].blocks[k] < BLOCKS_MAX
    {
      assert im.ins[i].blocks[k] == Val(im.table, im.ins, Direct(i, k));
    }
    if im.ins[i].indirect != 0 {
      forall k | 0 <= k < PTRS
        ensures 0 <= Pointers(im.disk[im.ins[i].indirect])[k] < BLOCKS_MAX
      {
        assert Pointers(im.disk[im.ins[i].indirect])[k] == Val(im.table, im.ins, IndLeaf(i, k));
      }
    }
  }

  lemma Level1InRange(im: Image, i: int, k: int)
    requires Coherent(im) && 0 <= i < INODE_MAX && 0 <= k < PTRS && im.ins[i].dindirect != 0
    ensures 0 < im.ins[i].dindirect < BLOCKS_MAX
    ensures Level1Block(im, i, k) == Pointers(im.disk[im.ins[i].dindirect])[k]
    ensures Level1Block(im, i, k) != 0 ==>
              0 < Level1Block(im, i, k) < BLOCKS_MAX && Level1Block(im, i, k) != im.ins[i].dindirect
              && AllBlocks(Pointers(im.disk[Level1Block(im, i, k)]))
  {
    Unseal(im);
    ReadDouble(im, i, k);
    PointersOwned(im.table, im.ins, im.owner);
    var c := Level1Block(im, i, k);
    if c != 0 {
      forall j | 0 <= j < PTRS
        ensures 0 <= Pointers(im.disk[c])[j] < BLOCKS_MAX
      {
        assert Pointers(im.disk[c])[j] == Val(im.table, im.ins, L2(i, k, j));
      }
    }
  }

  /** One turn of the loop over the direct pointers. */
  lemma StepDirect(im0: Image, im: Image, i: int, first: int, k: int) returns (im': Image)
    requires Live(im, i) && 0 <= first <= k < DIRECT && Pruned(im0, im, i, first, DirectSlots(i, first, k))
    ensures im'.disk == im.disk
    ensures im'.ins == if im.ins[i].blocks[k] == 0 then im.ins
                       else im.ins[i := im.ins[i].(blocks := im.ins[i].blocks[k := 0])]
    ensures InUse(im') == if im.ins[i].blocks[k] == 0 then InUse(im) else InUse(im) - {im.ins[i].blocks[k]}
    ensures Coherent(im') && Pruned(im0, im', i, first, DirectSlots(i, first, k + 1))
  {
    if im.ins[i].blocks[k] == 0 {
      im' := im;
      assert Val(im.table, im.ins, Direct(i, k)) == 0;
      PruneNothing(im, i, first, DirectSlots(i, k, k + 1));
    } else {
      im' := PruneDirect(im, i, first, k);
      assert PrunedAt(im, im', i, first, DirectSlots(i, k, k + 1), Ind(i));
    }
    PruneTrans(im0, im, im', i, first, DirectSlots(i, first, k), DirectSlots(i, k, k + 1));
    assert DirectSlots(i, first, k) + DirectSlots(i, k, k + 1) == DirectSlots(i, first, k + 1);
  }

  /** A cut leaves the kind and the bookkeeping of every inode alone. */
  lemma PrunedStaysLive(im: Image, im': Image, i: int, first: int, done: iset<Slot>, j: int)
    requires Pruned(im, im', i, first, done) && Live(im, j)
    ensures Live(im', j) && SameButPointers(im.ins, im'.ins, i)
  {
    assert PrunedAt(im, im', i, first, done, Ind(i));
  }

  lemma DirectDone(im0: Image, im: Image, i: int, first: int, k: int)
    requires Pruned(im0, im, i, first, DirectSlots(i, first, k)) && k >= DIRECT && (k == DIRECT || k == first)
    ensures Pruned(im0, im, i, first, DirectSlots(i, first, DIRECT))
  {
    assert DirectSlots(i, first, k) == DirectSlots(i, first, DIRECT) || first >= DIRECT;
    if first >= DIRECT {
      assert DirectSlots(i, first, k) == DirectSlots(i, first, DIRECT) == iset{};
    }
  }

  /** What the loop leaves in the buffer. */
  lemma LoopClearsTail(p: seq<int>, p': seq<int>, start: int)
    requires |p| == |p'| && forall m | 0 <= m < |p| :: p'[m] == if m < |p| && m >= start then 0 else p[m]
    requires AllBlocks(p)
    ensures p' == TailCleared(p, start) && AllWords(p')
    ensures (exists m | 0 <= m < |p| && m < start :: p[m] != 0) <==> AnyLeft(p')
  {
  }

  /** Without an indirect block there is nothing to cut at that level. */
  lemma NoSingle(im: Image, i: int, first: int)
    requires Coherent(im) && 0 <= i < INODE_MAX && im.ins[i].indirect == 0
    ensures Pruned(im, im, i, first, SingleSlots(i))
  {
    Unseal(im);
    PruneNothing(im, i, first, SingleSlots(i));
  }

  /** One turn of the loop over the level-1 blocks that has something to cut. */
  lemma StepDouble(im0: Image, im: Image, i: int, first: int, k: int, sec: Sector) returns (im': Image)
    requires Live(im, i) && 0 <= k < PTRS && 0 < Level1Block(im, i, k) < BLOCKS_MAX && first < DoubleIndex(k, PTRS)
    requires Pointers(sec) == TailCleared(Pointers(im.disk[Level1Block(im, i, k)]), first - DoubleIndex(k, 0))
    requires 0 < im.ins[i].dindirect < BLOCKS_MAX && Pruned(im0, im, i, first, DoubleSlots(i, 0, k))
    ensures im'.ins == im.ins && Coherent(im') && Pruned(im0, im', i, first, DoubleSlots(i, 0, k + 1))
    ensures var d := im.ins[i].dindirect;
            im'.disk == if AnyLeft(Pointers(sec)) then im.disk[Level1Block(im, i, k) := sec]
                        else im.disk[d := SetPointer(im.disk[d], k, 0)]
    ensures var rest := InUse(im) - TailBlocks(Pointers(im.disk[Level1Block(im, i, k)]), first - DoubleIndex(k, 0));
            InUse(im') == if AnyLeft(Pointers(sec)) then rest else rest - {Level1Block(im, i, k)}
  {
    im' := PruneDouble(im, i, first, k, sec);
    PruneTrans(im0, im, im', i, first, DoubleSlots(i, 0, k), DoubleSlots(i, k, k + 1));
    assert DoubleSlots(i, 0, k) + DoubleSlots(i, k, k + 1) == DoubleSlots(i, 0, k + 1);
  }

  /** One turn that leaves level-1 block `k` alone: it is absent, or lies wholly below the cut. */
  lemma SkipDouble(im0: Image, im: Image, i: int, first: int, k: int)
    requires Live(im, i) && 0 <= k < PTRS && Pruned(im0, im, i, first, DoubleSlots(i, 0, k))
    requires Level1Block(im, i, k) == 0 || first >= DoubleIndex(k, PTRS)
    ensures Pruned(im0, im, i, first, DoubleSlots(i, 0, k + 1))
  {
    PruneNothing(im, i, first, DoubleSlots(i, k, k + 1));
    PruneTrans(im0, im, im, i, first, DoubleSlots(i, 0, k), DoubleSlots(i, k, k + 1));
    assert DoubleSlots(i, 0, k) + DoubleSlots(i, k, k + 1) == DoubleSlots(i, 0, k + 1);
  }

  ghost function AllDouble(i: int): iset<Slot> {
    DoubleSlots(i, 0, PTRS) + iset{Dind(i)}
  }

  /** After the loop a level-1 block is left: the double-indirect block stays. */
  lemma KeepDind(im0: Image, im: Image, i: int, first: int)
    requires Live(im, i) && im.ins[i].dindirect != 0 && Pruned(im0, im, i, first, DoubleSlots(i, 0, PTRS))
    requires 0 < im.ins[i].dindirect < BLOCKS_MAX && AnyLeft(Pointers(im.disk[im.ins[i].dindirect]))
    ensures Pruned(im0, im, i, first, AllDouble(i))
  {
    var p := Pointers(im.disk[im.ins[i].dindirect]);
    var k :| 0 <= k < |p| && p[k] != 0;
    ReadDouble(im, i, k);
    assert PrunedAt(im0, im, i, first, DoubleSlots(i, 0, PTRS), L1(i, k));
    KeepsStable(im0, im, i, first, DoubleSlots(i, 0, PTRS), L1(i, k));
    assert KeepsL1(im, i, first, k);
    PruneNothing(im, i, first, iset{Dind(i)});
    PruneTrans(im0, im, im, i, first, DoubleSlots(i, 0, PTRS), iset{Dind(i)});
  }

  /** After the loop no level-1 block is left: the double-indirect block goes too. */
  lemma DropDind(im0: Image, im: Image, i: int, first: int, junk: Sector) returns (im': Image)
    requires Live(im, i) && 0 < im.ins[i].dindirect < BLOCKS_MAX && Pruned(im0, im, i, first, DoubleSlots(i, 0, PTRS))
    requires !AnyLeft(Pointers(im.disk[im.ins[i].dindirect]))
    ensures im'.disk == im.disk[im.ins[i].dindirect := junk] && im'.ins == im.ins[i := im.ins[i].(dindirect := 0)]
    ensures Coherent(im') && Pruned(im0, im', i, first, AllDouble(i)) && InUse(im') == InUse(im) - {im.ins[i].dindirect}
  {
    im' := PruneDind(im, i, first, junk);
    PruneTrans(im0, im, im', i, first, DoubleSlots(i, 0, PTRS), iset{Dind(i)});
  }

  lemma NoDouble(im: Image, i: int, first: int)
    requires Coherent(im) && 0 <= i < INODE_MAX && im.ins[i].dindirect == 0
    ensures Pruned(im, im, i, first, AllDouble(i))
  {
    PruneNothing(im, i, first, AllDouble(i));
  }

  ghost function SlotsOf(i: int): iset<Slot> {
    iset u: Slot | u.i == i
  }

  /** The three passes together cut the whole inode. */
  lemma ThreePasses(a: Image, b: Image, c: Image, d: Image, i: int, first: int)
    requires 0 <= i < INODE_MAX && 0 <= first && Coherent(d) && Pruned(a, b, i, first, DirectSlots(i, first, DIRECT))
    requires Pruned(b, c, i, first, SingleSlots(i)) && Pruned(c, d, i, first, AllDouble(i))
    ensures Pruned(a, d, i, first, SlotsOf(i))
  {
    var low := DirectSlots(i, 0, first);
    PruneNothing(d, i, first, low);
    PruneTrans(a, b, c, i, first, DirectSlots(i, first, DIRECT), SingleSlots(i));
    PruneTrans(a, c, d, i, first, DirectSlots(i, first, DIRECT) + SingleSlots(i), AllDouble(i));
    var done := DirectSlots(i, first, DIRECT) + SingleSlots(i) + AllDouble(i) + low;
    PruneTrans(a, d, d, i, first, DirectSlots(i, first, DIRECT) + SingleSlots(i) + AllDouble(i), low);
    SameOnValidSlots(a, d, i, first, done, SlotsOf(i));
  }

  lemma SameOnValidSlots(a: Image, b: Image, i: int, first: int, done: iset<Slot>, done': iset<Slot>)
    requires Pruned(a, b, i, first, done) && 0 <= i < INODE_MAX
    requires forall u | ValidSlot(u) :: u in done <==> u in done'
    ensures Pruned(a, b, i, first, done')
  {
    assert PrunedAt(a, b, i, first, done, Ind(i));
    assert Cut(a.store, i, first, done) == Cut(a.store, i, first, done');
    assert Released(a, i, first, done) == Released(a, i, first, done');
    forall u
      ensures PrunedAt(a, b, i, first, done', u)
    {
      assert PrunedAt(a, b, i, first, done, u);
    }
  }

  /** The double-indirect block is being cut in the buffer `l1`, not yet written back: `im` is the
      disk as it would be with the buffer in place. */
  ghost predicate Buffered(im: Image, disk: seq<Sector>, ins: seq<Inode>, i: int, l1: Sector) {
    && Live(im, i) && im.ins == ins && |disk| == BLOCKS_MAX && 0 < ins[i].dindirect < BLOCKS_MAX
    && im.disk == disk[ins[i].dindirect := l1]
  }

  lemma StartBuffer(im: Image, i: int)
    requires Live(im, i) && im.ins[i].dindirect != 0
    ensures 0 < im.ins[i].dindirect < BLOCKS_MAX
    ensures Buffered(im, im.disk, im.ins, i, im.disk[im.ins[i].dindirect])
  {
    ReadDouble(im, i, 0);
  }

  lemma BufferedEntry(im: Image, disk: seq<Sector>, ins: seq<Inode>, i: int, l1: Sector, k: int)
    requires Buffered(im, disk, ins, i, l1) && 0 <= k < PTRS
    ensures Level1Block(im, i, k) == Pointers(l1)[k]
    ensures var b := Pointers(l1)[k];
            b != 0 ==> 0 < b < BLOCKS_MAX && disk[b] == im.disk[b] && AllBlocks(Pointers(disk[b]))
  {
    Level1InRange(im, i, k);
  }

  /** Cutting level-1 block `b`, entry `k` of the buffer. */
  lemma StepBuffer(im0: Image, im: Image, disk: seq<Sector>, ins: seq<Inode>, i: int, first: int, k: int,
                   l1: Sector, b: int, sec: Sector, used: set<int>) returns (im': Image)
    requires Buffered(im, disk, ins, i, l1) && Pruned(im0, im, i, first, DoubleSlots(i, 0, k))
    requires 0 <= k < PTRS && b == Pointers(l1)[k] && 0 < b < BLOCKS_MAX && first < DoubleIndex(k, PTRS)
    requires Pointers(sec) == TailCleared(Pointers(disk[b]), first - DoubleIndex(k, 0))
    requires used == InUse(im) - TailBlocks(Pointers(disk[b]), first - DoubleIndex(k, 0))
    ensures Pruned(im0, im', i, first, DoubleSlots(i, 0, k + 1))
    ensures if AnyLeft(Pointers(sec)) then Buffered(im', disk[b := sec], ins, i, l1)
            else Buffered(im', disk, ins, i, SetPointer(l1, k, 0))
    ensures AnyLeft(Pointers(sec)) ==> InUse(im') == used
    ensures !AnyLeft(Pointers(sec)) ==> InUse(im') == used - {b}
  {
    BufferedEntry(im, disk, ins, i, l1, k);
    Level1InRange(im, i, k);
    im' := StepDouble(im0, im, i, first, k, sec);
    var d := ins[i].dindirect;
    if AnyLeft(Pointers(sec)) {
      assert disk[d := l1][b := sec] == disk[b := sec][d := l1];
    } else {
      assert disk[d := l1][d := SetPointer(l1, k, 0)] == disk[d := SetPointer(l1, k, 0)];
    }
  }

  /** Writing the buffer back, or dropping the double-indirect block, ends the pass. */
  lemma EndBuffer(im0: Image, im: Image, disk: seq<Sector>, ins: seq<Inode>, i: int, first: int, l1: Sector)
      returns (im': Image)
    requires Buffered(im, disk, ins, i, l1) && Pruned(im0, im, i, first, DoubleSlots(i, 0, PTRS))
    ensures Coherent(im') && Pruned(im0, im', i, first, AllDouble(i))
    ensures AnyLeft(Pointers(l1)) ==>
              im'.disk == disk[ins[i].dindirect := l1] && im'.ins == ins && InUse(im') == InUse(im)
    ensures !AnyLeft(Pointers(l1)) ==>
              im'.disk == disk && im'.ins == ins[i := ins[i].(dindirect := 0)]
              && InUse(im') == InUse(im) - {ins[i].dindirect}
  {
    if AnyLeft(Pointers(l1)) {
      im' := im;
      KeepDind(im0, im, i, first);
    } else {
      var d := ins[i].dindirect;
      im' := DropDind(im0, im, i, first, disk[d]);
      assert disk[d := l1][d := disk[d]] == disk;
    }
  }

  lemma AnyBelowStep(p: seq<int>, p': seq<int>, k: int)
    requires 0 <= k < |p| && (p' == p || p' == p[k := 0])
    ensures AnyBelow(p', k + 1) <==> AnyBelow(p, k) || p'[k] != 0
    ensures k + 1 == |p| ==> (AnyBelow(p', k + 1) <==> AnyLeft(p'))
  {
    if AnyBelow(p, k) {
      var m :| 0 <= m < k && p[m] != 0;
      assert p'[m] != 0;
    }
    if AnyBelow(p', k + 1) && p'[k] == 0 {
      var m :| 0 <= m < k + 1 && p'[m] != 0;
      assert p[m] != 0;
    }
  }

  /** A cut at file block 0 leaves the inode without blocks. */
  lemma CutAtZeroEmpties(im: Image, im': Image, i: int)
    requires Pruned(im, im', i, 0, SlotsOf(i)) && 0 <= i < INODE_MAX
    ensures NoBlocks(im'.ins[i])
    ensures im'.store == map p | p in im.store && p.0 != i :: im.store[p]
  {
    assert PrunedAt(im, im', i, 0, SlotsOf(i), Ind(i));
    assert PrunedAt(im, im', i, 0, SlotsOf(i), Dind(i));
    forall k | 0 <= k < DIRECT
      ensures im'.ins[i].blocks[k] == 0
    {
      assert PrunedAt(im, im', i, 0, SlotsOf(i), Direct(i, k));
      assert Val(im'.table, im'.ins, Direct(i, k)) == im'.ins[i].blocks[k];
    }
    assert Val(im'.table, im'.ins, Ind(i)) == im'.ins[i].indirect;
    assert Val(im'.table, im'.ins, Dind(i)) == im'.ins[i].dindirect;
  }

  lemma NothingLeft(p: seq<int>, start: int)
    requires start <= 0
    ensures !AnyLeft(TailCleared(p, start))
  {
  }

  /** Releasing the whole of level-1 block `k`. */
  lemma DropLevel1(im0: Image, im: Image, disk: seq<Sector>, ins: seq<Inode>, i: int, k: int, l1: Sector, b: int, sec: Sector)
      returns (im': Image)
    requires Buffered(im, disk, ins, i, l1) && Pruned(im0, im, i, 0, DoubleSlots(i, 0, k)) && 0 <= k < PTRS
    requires b == Pointers(l1)[k] && 0 < b < BLOCKS_MAX && Pointers(sec) == TailCleared(Pointers(disk[b]), 0)
    ensures Buffered(im', disk, ins, i, SetPointer(l1, k, 0)) && Pruned(im0, im', i, 0, DoubleSlots(i, 0, k + 1))
    ensures InUse(im') == InUse(im) - TailBlocks(Pointers(disk[b]), 0) - {b}
  {
    var start := 0 - DoubleIndex(k, 0);
    var p := Pointers(disk[b]);
    NothingLeft(p, start);
    assert TailCleared(p, start) == TailCleared(p, 0);
    FreedIsTail(p, start, |p|);
    FreedIsTail(p, 0, |p|);
    assert TailBlocks(p, start) == TailBlocks(p, 0);
    im' := StepBuffer(im0, im, disk, ins, i, 0, k, l1, b, sec, InUse(im) - TailBlocks(p, start));
  }

  // ---- The slots that survive ----

  /** Slot `u` of inode `i` survives a cut at file block `first`, seen from the slots held and the blocks mapped: a data slot
      below the cut, a pointer block that leads to a block below the cut, or a level-1 block wholly below it. */
  ghost predicate Survives(held: set<Slot>, store: Store, i: int, first: int, u: Slot) {
    match u
    case Direct(_, k) => k < first
    case IndLeaf(_, k) => DIRECT + k < first
    case L2(_, k, j) => DoubleIndex(k, j) < first
    case Ind(_) => exists l | DIRECT <= l < DIRECT + PTRS :: l < first && (i, l) in store
    case L1(_, k) => SurvivesL1(store, i, first, k)
    case Dind(_) => exists k | 0 <= k < PTRS :: L1(i, k) in held && SurvivesL1(store, i, first, k)
  }

  ghost predicate SurvivesL1(store: Store, i: int, first: int, k: int) {
    first >= DoubleIndex(k, PTRS) || exists l | DoubleIndex(k, 0) <= l < DoubleIndex(k, PTRS) :: l < first && (i, l) in store
  }

  /** The slots of `held` but those of inode `i` that a cut at file block `first` releases. */
  ghost function Surviving(held: set<Slot>, store: Store, i: int, first: int): set<Slot> {
    set u | u in held && (u.i != i || Survives(held, store, i, first, u))
  }

  /** The slots of all inodes but `i`. */
  ghost function Others(held: set<Slot>, i: int): set<Slot> { set u | u in held && u.i != i }

  lemma KeepsL1Is(im: Image, i: int, first: int, k: int)
    requires Coherent(im) && 0 <= i < INODE_MAX && 0 <= k < PTRS
    ensures KeepsL1(im, i, first, k) <==> SurvivesL1(im.store, i, first, k)
  {
    forall j | 0 <= j < PTRS ensures HasLeaf2(im, i, first, k, j) <==> DoubleIndex(k, j) < first && (i, DoubleIndex(k, j)) in im.store {
      PositionIsInjective(L2(i, k, j));
      PhysInStore(im, i, DoubleIndex(k, j));
    }
    if l :| DoubleIndex(k, 0) <= l < DoubleIndex(k, PTRS) && l < first && (i, l) in im.store {
      assert l == DoubleIndex(k, l - DoubleIndex(k, 0));
      assert HasLeaf2(im, i, first, k, l - DoubleIndex(k, 0));
    }
  }

  lemma KeepsIndIs(im: Image, i: int, first: int)
    requires Coherent(im) && 0 <= i < INODE_MAX
    ensures Keeps(im, i, first, Ind(i)) <==> Survives(Held(im), im.store, i, first, Ind(i))
  {
    forall k | 0 <= k < PTRS ensures HasLeaf(im, i, first, k) <==> DIRECT + k < first && (i, DIRECT + k) in im.store {
      PhysInStore(im, i, DIRECT + k);
    }
    if l :| DIRECT <= l < DIRECT + PTRS && l < first && (i, l) in im.store {
      assert HasLeaf(im, i, first, l - DIRECT);
    }
  }

  /** What a cut keeps can be told from the slots held and the blocks mapped. */
  lemma KeepsIs(im: Image, i: int, first: int, u: Slot)
    requires Coherent(im) && 0 <= i < INODE_MAX && ValidSlot(u)
    ensures Keeps(im, i, first, u) <==> u.i != i || Survives(Held(im), im.store, i, first, u)
  {
    if u.i == i {
      match u
      case Ind(_) => KeepsIndIs(im, i, first);
      case L1(_, k) => KeepsL1Is(im, i, first, k);
      case Dind(_) =>
        forall k | 0 <= k < PTRS
          ensures KeepsL1(im, i, first, k) <==> SurvivesL1(im.store, i, first, k)
          ensures L1(i, k) in Held(im) <==> Val(im.table, im.ins, L1(i, k)) != 0
        {
          KeepsL1Is(im, i, first, k);
          HeldIs(im, L1(i, k));
        }
      case _ =>
    }
  }

  lemma HeldAfterCut(im: Image, im': Image, i: int, first: int)
    requires Coherent(im) && Coherent(im') && Pruned(im, im', i, first, SlotsOf(i)) && 0 <= i < INODE_MAX
    ensures Held(im') == Surviving(Held(im), im.store, i, first)
  {
    forall u ensures u in Held(im') <==> u in Surviving(Held(im), im.store, i, first) {
      HeldIs(im, u);
      HeldIs(im', u);
      if ValidSlot(u) {
        assert PrunedAt(im, im', i, first, SlotsOf(i), u);
        KeepsIs(im, i, first, u);
      }
    }
  }

  /** A cut at file block 0 leaves no slot of the inode. */
  lemma CutAtZeroHolds(im: Image, i: int)
    requires Coherent(im) && 0 <= i < INODE_MAX
    ensures Surviving(Held(im), im.store, i, 0) == Others(Held(im), i)
  {
    Unseal(im);
    forall u | u in Held(im) && u.i == i ensures !Survives(Held(im), im.store, i, 0, u) { HeldIs(im, u); }
  }
}
