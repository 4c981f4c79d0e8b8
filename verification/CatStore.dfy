/** The logical view of CatFS: which sector each (inode, file block) pair maps to.

    The pointer forest of CatForest is only a way to keep this map on disk; every
    file operation is specified on the map alone. */
module CatStore {
  import opened Words
  import opened CatForest

  type Store = map<(int, int), Sector>

  /** The file block reached through entry `j` of level-1 block `k`; 144 is DIRECT + PTRS. */
  function DoubleIndex(k: int, j: int): int {
    144 + 128 * k + j
  }

  /** The slot that file block `l` of inode `i` is read from. */
  function LeafSlot(i: int, l: int): (s: Slot)
    requires 0 <= i < INODE_MAX && 0 <= l < MAX_FILE_BLOCKS
    ensures ValidSlot(s) && IsLeaf(s) && Position(s) == (i, l)
  {
    if l < DIRECT then Direct(i, l)
    else if l < DIRECT + PTRS then IndLeaf(i, l - DIRECT)
    else L2(i, (l - 144) / 128, (l - 144) % 128)
  }

  /** The inode and file block a data slot stands for. */
  function Position(s: Slot): (p: (int, int))
    requires ValidSlot(s) && IsLeaf(s)
    ensures 0 <= p.0 < INODE_MAX && 0 <= p.1 < MAX_FILE_BLOCKS
  {
    match s
    case Direct(i, k) => (i, k)
    case IndLeaf(i, k) => (i, DIRECT + k)
    case L2(i, k, j) => (i, DoubleIndex(k, j))
  }

  lemma PositionIsInjective(s: Slot)
    requires ValidSlot(s) && IsLeaf(s)
    ensures LeafSlot(Position(s).0, Position(s).1) == s
  {
  }

  ghost predicate Represents(disk: seq<Sector>, t: Table, ins: seq<Inode>, store: Store)
    requires Shaped(t, ins) && |disk| == BLOCKS_MAX
  {
    && (forall s {:trigger Val(t, ins, s)} | ValidSlot(s) && IsLeaf(s) :: Val(t, ins, s) != 0 <==> Position(s) in store)
    && (forall s {:trigger Val(t, ins, s)} | ValidSlot(s) && IsLeaf(s) && 0 < Val(t, ins, s) < BLOCKS_MAX ::
          store[Position(s)] == disk[Val(t, ins, s)])
    && (forall p | p in store :: 0 <= p.0 < INODE_MAX && 0 <= p.1 < MAX_FILE_BLOCKS)
  }

  /** Filling a slot adds a block to the view exactly when the slot is a data slot. */
  lemma StoreAfterFill(disk: seq<Sector>, t: Table, ins: seq<Inode>, owner: map<int, Slot>, store: Store,
                       disk': seq<Sector>, t': Table, ins': seq<Inode>, s: Slot, b: int)
    requires |disk| == |disk'| == BLOCKS_MAX && Shaped(t, ins) && Shaped(t', ins') && ValidSlot(s)
    requires Owned(t, ins, owner) && Represents(disk, t, ins, store)
    requires Fills(t, ins, t', ins', s, b) && 0 < b < BLOCKS_MAX && Val(t, ins, s) == 0
    requires forall c | c in owner && IsLeaf(owner[c]) :: disk'[c] == disk[c]
    ensures Represents(disk', t', ins', if IsLeaf(s) then store[Position(s) := disk'[b]] else store)
  {
    if IsLeaf(s) { PositionIsInjective(s); }
    forall u | ValidSlot(u) && IsLeaf(u)
      ensures Position(u) == (if IsLeaf(s) then Position(s) else (-1, -1)) ==> u == s
    {
      PositionIsInjective(u);
    }
  }

  /** Rewriting the block of one data slot changes that entry of the view and no other. */
  lemma StoreAfterRewrite(disk: seq<Sector>, t: Table, ins: seq<Inode>, owner: map<int, Slot>, store: Store,
                          t': Table, s: Slot, sec: Sector)
    requires |disk| == BLOCKS_MAX && Shaped(t, ins) && Shaped(t', ins) && ValidSlot(s) && IsLeaf(s)
    requires Owned(t, ins, owner) && Represents(disk, t, ins, store)
    requires 0 < Val(t, ins, s) < BLOCKS_MAX
    requires forall u | ValidSlot(u) :: Val(t', ins, u) == Val(t, ins, u)
    ensures Represents(disk[Val(t, ins, s) := sec], t', ins, store[Position(s) := sec])
  {
    PositionIsInjective(s);
    forall u | ValidSlot(u) && IsLeaf(u)
      ensures Position(u) == Position(s) ==> u == s
    {
      PositionIsInjective(u);
    }
  }

  /** Emptying slots removes exactly their data slots from the view. */
  lemma StoreAfterDetach(disk: seq<Sector>, t: Table, ins: seq<Inode>, owner: map<int, Slot>, store: Store,
                         disk': seq<Sector>, t': Table, ins': seq<Inode>, gone: iset<Slot>, store': Store)
    requires |disk| == |disk'| == BLOCKS_MAX && Shaped(t, ins) && Shaped(t', ins')
    requires Owned(t, ins, owner) && Represents(disk, t, ins, store)
    requires forall u | ValidSlot(u) :: Val(t', ins', u) == if u in gone then 0 else Val(t, ins, u)
    requires forall c | c in owner && IsLeaf(owner[c]) && owner[c] !in gone :: disk'[c] == disk[c]
    requires store' == map p | p in store && LeafSlot(p.0, p.1) !in gone :: store[p]
    ensures Represents(disk', t', ins', store')
  {
    forall u | ValidSlot(u) && IsLeaf(u)
      ensures Val(t', ins', u) != 0 <==> Position(u) in store'
    {
      PositionIsInjective(u);
    }
  }

  /** One snapshot of the file system: the disk, the inodes, and what they mean. */
  datatype Image = Image(disk: seq<Sector>, table: Table, ins: seq<Inode>, owner: map<int, Slot>, store: Store)

  predicate NoBlocks(n: Inode) {
    n.blocks == Zeros(DIRECT) && n.indirect == 0 && n.dindirect == 0
  }

  ghost predicate Tabulated(disk: seq<Sector>, table: Table) {
    && |disk| == BLOCKS_MAX && |table| == BLOCKS_MAX
    && forall b {:trigger Pointers(disk[b])} | 0 <= b < BLOCKS_MAX :: table[b] == Pointers(disk[b])
  }

  /** Single ownership of every block, free inodes empty, and a faithful logical view. */
  ghost predicate Sound(im: Image) {
    && Tabulated(im.disk, im.table)
    && Shaped(im.table, im.ins)
    && Owned(im.table, im.ins, im.owner)
    && Represents(im.disk, im.table, im.ins, im.store)
    && (forall i {:trigger NoBlocks(im.ins[i])} | 0 <= i < INODE_MAX && im.ins[i].kind.Free? :: NoBlocks(im.ins[i]))
  }

  ghost predicate SoundFor(im: Image, u: Slot) {
    Sound(im)
  }

  /** `Sound`, stated for each slot so that methods can pass it on without looking inside. */
  ghost predicate Coherent(im: Image) {
    && Shaped(im.table, im.ins) && |im.disk| == BLOCKS_MAX
    && forall u {:trigger SoundFor(im, u)} :: SoundFor(im, u)
  }

  lemma Unseal(im: Image)
    requires Coherent(im)
    ensures Sound(im)
  {
    assert SoundFor(im, Ind(0));
  }

  /** The blocks in use: block 0 is reserved as the null pointer. */
  ghost function InUse(im: Image): set<int> {
    im.owner.Keys + {0}
  }

  ghost predicate Live(im: Image, i: int) {
    Coherent(im) && 0 <= i < INODE_MAX && !im.ins[i].kind.Free?
  }

  /** The block holding file block `l` of inode `i`, 0 for none. */
  ghost function Phys(im: Image, i: int, l: int): int
    requires Shaped(im.table, im.ins) && 0 <= i < INODE_MAX && 0 <= l < MAX_FILE_BLOCKS
  {
    Val(im.table, im.ins, LeafSlot(i, l))
  }

  /** Only the block pointers of inode `i` differ. */
  ghost predicate SameButPointers(ins: seq<Inode>, ins': seq<Inode>, i: int)
  {
    && |ins| == |ins'|
    && (forall j | 0 <= j < |ins| && j != i :: ins'[j] == ins[j])
    && (0 <= i < |ins| ==>
          ins'[i] == ins[i].(blocks := ins'[i].blocks, indirect := ins'[i].indirect, dindirect := ins'[i].dindirect))
  }

  lemma SameButPointersTrans(a: seq<Inode>, b: seq<Inode>, c: seq<Inode>, i: int)
    requires SameButPointers(a, b, i) && SameButPointers(b, c, i)
    ensures SameButPointers(a, c, i)
  {
  }

  function Resize(ins: seq<Inode>, i: int, size: U32): seq<Inode>
    requires 0 <= i < |ins|
  {
    ins[i := ins[i].(size := size)]
  }

  lemma SameButPointersResize(a: seq<Inode>, b: seq<Inode>, i: int, size: U32)
    requires SameButPointers(a, b, i) && 0 <= i < |a|
    ensures SameButPointers(Resize(a, i, size), Resize(b, i, size), i)
    ensures size == a[i].size ==> Resize(b, i, size) == b
  {
  }

  /** What resolving file block `l` of inode `i` may do to the logical view: a block that was
      already mapped stays as it is, a fresh one appears with whatever the disk held. */
  ghost predicate Resolved(store: Store, store': Store, i: int, l: int, ok: bool) {
    && (ok <==> (i, l) in store')
    && ((i, l) in store' && (i, l) !in store ==> store' == store[(i, l) := store'[(i, l)]])
    && ((i, l) !in store' || (i, l) in store ==> store' == store)
  }

  lemma PhysInStore(im: Image, i: int, l: int)
    requires Coherent(im) && 0 <= i < INODE_MAX && 0 <= l < MAX_FILE_BLOCKS
    ensures Phys(im, i, l) != 0 <==> (i, l) in im.store
    ensures Resolved(im.store, im.store, i, l, Phys(im, i, l) != 0)
    ensures Phys(im, i, l) != 0 ==> 0 < Phys(im, i, l) < BLOCKS_MAX && im.store[(i, l)] == im.disk[Phys(im, i, l)]
  {
    Unseal(im);
    assert Position(LeafSlot(i, l)) == (i, l);
  }

  lemma NothingBeyondLastBlock(im: Image, i: int, l: int)
    requires Coherent(im) && l >= MAX_FILE_BLOCKS
    ensures Resolved(im.store, im.store, i, l, false)
  {
    Unseal(im);
  }

  /** The level-1 block `k` of inode `i`, 0 for none. */
  ghost function Level1Block(im: Image, i: int, k: int): int
    requires Shaped(im.table, im.ins) && 0 <= i < INODE_MAX && 0 <= k < PTRS
  {
    Val(im.table, im.ins, L1(i, k))
  }

  /** Reading the indirect block finds the file blocks it maps. */
  lemma ReadIndirect(im: Image, i: int, k: int, l: int)
    requires Coherent(im) && 0 <= i < INODE_MAX && 0 <= k < PTRS && l == DIRECT + k
    ensures Resolved(im.store, im.store, i, l, Phys(im, i, l) != 0)
    ensures im.ins[i].indirect != 0 ==>
              0 < im.ins[i].indirect < |im.disk| && Phys(im, i, l) == Pointers(im.disk[im.ins[i].indirect])[k]
    ensures im.ins[i].indirect == 0 ==> Phys(im, i, l) == 0
  {
    Unseal(im);
    PhysInStore(im, i, l);
    PointersOwned(im.table, im.ins, im.owner);
  }

  /** Reading the double-indirect block finds the level-1 blocks. */
  lemma ReadDouble(im: Image, i: int, k: int)
    requires Coherent(im) && 0 <= i < INODE_MAX && 0 <= k < PTRS
    ensures im.ins[i].dindirect != 0 ==>
              0 < im.ins[i].dindirect < |im.disk| && Level1Block(im, i, k) == Pointers(im.disk[im.ins[i].dindirect])[k]
    ensures im.ins[i].dindirect == 0 ==> Level1Block(im, i, k) == 0
    ensures Level1Block(im, i, k) != 0 ==> 0 < Level1Block(im, i, k) < |im.disk|
  {
    Unseal(im);
    PointersOwned(im.table, im.ins, im.owner);
  }

  /** Reading a level-1 block finds the file blocks it maps. */
  lemma ReadLevel1(im: Image, i: int, k: int, j: int, l: int)
    requires Coherent(im) && 0 <= i < INODE_MAX && 0 <= k < PTRS && 0 <= j < PTRS && l == DoubleIndex(k, j)
    ensures Resolved(im.store, im.store, i, l, Phys(im, i, l) != 0)
    ensures Level1Block(im, i, k) == 0 ==> Phys(im, i, l) == 0
    ensures Level1Block(im, i, k) != 0 ==>
              0 < Level1Block(im, i, k) < |im.disk| && Phys(im, i, l) == Pointers(im.disk[Level1Block(im, i, k)])[j]
  {
    Unseal(im);
    ReadDouble(im, i, k);
    PositionIsInjective(L2(i, k, j));
    PhysInStore(im, i, l);
  }

  /** Slot `s` now holds block `b`; the disk and the inodes are the given ones. */
  ghost function Attach(im: Image, disk: seq<Sector>, table: Table, ins: seq<Inode>, s: Slot, b: int): Image
    requires ValidSlot(s) && 0 <= b < |disk|
  {
    Image(disk, table, ins, im.owner[b := s], if IsLeaf(s) then im.store[Position(s) := disk[b]] else im.store)
  }

  /** The slots on the way to file block `l` of inode `i`: its own and those of the pointer blocks above it. */
  function Path(i: int, l: int): (p: set<Slot>) {
    if 0 <= l < DIRECT then {Direct(i, l)}
    else if DIRECT <= l < DIRECT + PTRS then {Ind(i), IndLeaf(i, l - DIRECT)}
    else if DIRECT + PTRS <= l < MAX_FILE_BLOCKS then {Dind(i), L1(i, (l - 144) / 128), L2(i, (l - 144) / 128, (l - 144) % 128)}
    else {}
  }

  /** Blocks in use stay where they are, and blocks that are still not in use keep what they hold. */
  ghost predicate Extends(im: Image, im': Image) {
    && |im.disk| == |im'.disk| == BLOCKS_MAX
    && (forall b | b in im.owner :: b in im'.owner && im'.owner[b] == im.owner[b])
    && (forall b | 0 <= b < BLOCKS_MAX && b !in im'.owner :: im'.disk[b] == im.disk[b])
  }

  lemma ExtendsTrans(a: Image, b: Image, c: Image)
    requires Extends(a, b) && Extends(b, c)
    ensures Extends(a, c)
  {
  }

  /** Block `b`, not in use before, now holds file block `l` of inode `i`, still with what the disk held there. */
  ghost predicate Fresh(im: Image, im': Image, i: int, l: int, b: int) {
    && 0 <= i < INODE_MAX && 0 <= l < MAX_FILE_BLOCKS && 0 <= b < |im.disk|
    && b !in im.owner && b in im'.owner && im'.owner[b] == LeafSlot(i, l)
    && (i, l) in im'.store && im'.store[(i, l)] == im.disk[b]
  }

  lemma FreshTrans(a: Image, b: Image, c: Image, i: int, l: int, p: int)
    requires Extends(a, b) && Fresh(b, c, i, l, p)
    ensures Fresh(a, c, i, l, p)
  {
  }

  /** The slots that hold a block. */
  ghost function Held(im: Image): set<Slot> { ValuesOf(im.owner) }

  function ValuesOf(m: map<int, Slot>): set<Slot> { set b | b in m :: m[b] }

  lemma HeldIs(im: Image, u: Slot)
    requires Coherent(im)
    ensures u in Held(im) <==> ValidSlot(u) && Val(im.table, im.ins, u) != 0
  {
    Unseal(im);
    if ValidSlot(u) && Val(im.table, im.ins, u) != 0 { assert im.owner[Val(im.table, im.ins, u)] == u; }
  }

  /** A mapped file block needs every slot on its path, so the path names no slot too many. */
  lemma PathNeeded(im: Image, i: int, l: int)
    requires Coherent(im) && (i, l) in im.store
    ensures Path(i, l) <= Held(im)
    ensures 0 <= i < INODE_MAX && 0 <= l < MAX_FILE_BLOCKS && LeafSlot(i, l) in Path(i, l)
  {
    Unseal(im);
    assert 0 <= i < INODE_MAX && 0 <= l < MAX_FILE_BLOCKS;
    PhysInStore(im, i, l);
    forall u | u in Path(i, l) ensures u in Held(im) { HeldIs(im, u); }
  }

  /** Every block in use but block 0 is held by exactly one slot. */
  lemma HeldCount(im: Image)
    requires Coherent(im)
    ensures |InUse(im)| == |Held(im)| + 1
  {
    Unseal(im);
    ValuesCount(im.owner);
    assert 0 !in im.owner.Keys;
  }

  lemma {:induction false} ValuesCount(m: map<int, Slot>)
    requires forall a, b | a in m && b in m && m[a] == m[b] :: a == b
    ensures |ValuesOf(m)| == |m.Keys|
    decreases |m.Keys|
  {
    if k :| k in m {
      var rest := ValuesRemoved(m, k);
      ValuesCount(rest);
    } else {
      assert forall k :: k !in m.Keys;
    }
  }

  lemma ValuesRemoved(m: map<int, Slot>, k: int) returns (rest: map<int, Slot>)
    requires k in m && forall a, b | a in m && b in m && m[a] == m[b] :: a == b
    ensures |m.Keys| == |rest.Keys| + 1 && |ValuesOf(m)| == |ValuesOf(rest)| + 1
    ensures forall a, b | a in rest && b in rest && rest[a] == rest[b] :: a == b
  {
    rest := m - {k};
    assert m.Keys == rest.Keys + {k};
    assert m == rest[k := m[k]];
    ValuesAdded(rest, k, m[k]);
  }

  lemma ValuesAdded(m: map<int, Slot>, b: int, s: Slot)
    requires b !in m
    ensures ValuesOf(m[b := s]) == ValuesOf(m) + {s}
  {
    var m' := m[b := s];
    assert m'[b] == s;
    forall k | k in m ensures m[k] in ValuesOf(m') { assert m'[k] == m[k]; }
  }

  /** What one more slot in use comes to, if no other free block changes. */
  lemma Attached(im: Image, im': Image, s: Slot, b: int)
    requires im'.owner == im.owner[b := s] && b !in im.owner && |im.disk| == |im'.disk| == BLOCKS_MAX
    requires forall c | 0 <= c < BLOCKS_MAX && c !in im.owner && c != b :: im'.disk[c] == im.disk[c]
    ensures InUse(im') == InUse(im) + {b} && Held(im') == Held(im) + {s} && Extends(im, im')
  {
    ValuesAdded(im.owner, b, s);
  }

  /** A direct pointer of inode `i` is set to the fresh block `b`. */
  lemma AddDirect(im: Image, i: int, k: int, b: int) returns (im': Image)
    requires Live(im, i) && ValidSlot(Direct(i, k)) && 0 < b < BLOCKS_MAX && b !in InUse(im)
    requires im.ins[i].blocks[k] == 0
    ensures Coherent(im') && InUse(im') == InUse(im) + {b} && Held(im') == Held(im) + {Direct(i, k)}
    ensures im'.disk == im.disk && im'.ins == im.ins[i := im.ins[i].(blocks := im.ins[i].blocks[k := b])]
    ensures SameButPointers(im.ins, im'.ins, i) && Resolved(im.store, im'.store, i, k, true) && Phys(im', i, k) == b
    ensures Extends(im, im') && Fresh(im, im', i, k, b)
  {
    Unseal(im);
    im' := Attach(im, im.disk, im.table, im.ins[i := im.ins[i].(blocks := im.ins[i].blocks[k := b])], Direct(i, k), b);
    FillDirect(im.table, im.ins, im.owner, i, k, b);
    StoreAfterFill(im.disk, im.table, im.ins, im.owner, im.store, im'.disk, im'.table, im'.ins, Direct(i, k), b);
    assert Position(Direct(i, k)) == (i, k);
    Attached(im, im', Direct(i, k), b);
  }

  /** The indirect pointer of inode `i` is set to the fresh, zeroed block `b`. */
  lemma AddInd(im: Image, i: int, b: int) returns (im': Image)
    requires Live(im, i) && 0 < b < BLOCKS_MAX && b !in InUse(im) && im.ins[i].indirect == 0
    ensures Coherent(im') && InUse(im') == InUse(im) + {b} && Held(im') == Held(im) + {Ind(i)} && im'.store == im.store
    ensures im'.disk == im.disk[b := Zeros(SECTOR_SIZE)] && im'.ins == im.ins[i := im.ins[i].(indirect := b)]
    ensures SameButPointers(im.ins, im'.ins, i)
    ensures Extends(im, im')
  {
    Unseal(im);
    var disk, table := Blanked(im.disk, im.table, b);
    im' := Attach(im, disk, table, im.ins[i := im.ins[i].(indirect := b)], Ind(i), b);
    FillInd(im.table, im.ins, im.owner, i, b);
    StoreAfterFill(im.disk, im.table, im.ins, im.owner, im.store, im'.disk, im'.table, im'.ins, Ind(i), b);
    Attached(im, im', Ind(i), b);
  }

  /** Entry `k` of pointer block `c` is set to `b`, on disk and in the table. */
  lemma Entered(disk: seq<Sector>, table: Table, c: int, k: int, b: int) returns (disk': seq<Sector>, table': Table)
    requires Tabulated(disk, table) && 0 <= c < BLOCKS_MAX && 0 <= k < PTRS && 0 <= b < BLOCKS_MAX
    ensures disk' == disk[c := SetPointer(disk[c], k, b)] && |table[c]| == PTRS && table' == table[c := table[c][k := b]]
    ensures Tabulated(disk', table')
  {
    var sec := SetPointer(disk[c], k, b);
    disk', table' := disk[c := sec], table[c := Pointers(sec)];
  }

  lemma Blanked(disk: seq<Sector>, table: Table, b: int) returns (disk': seq<Sector>, table': Table)
    requires Tabulated(disk, table) && 0 <= b < BLOCKS_MAX
    ensures disk' == disk[b := Zeros(SECTOR_SIZE)] && table' == table[b := Zeros(PTRS)] && Tabulated(disk', table')
  {
    ZeroSectorHasNoPointers();
    disk', table' := disk[b := Zeros(SECTOR_SIZE)], table[b := Zeros(PTRS)];
  }

  /** Entry `k` of the indirect block of inode `i` is set to the fresh block `b`. */
  lemma AddIndLeaf(im: Image, i: int, k: int, l: int, b: int) returns (im': Image)
    requires Live(im, i) && ValidSlot(IndLeaf(i, k)) && l == DIRECT + k && 0 < b < BLOCKS_MAX && b !in InUse(im)
    requires 0 < im.ins[i].indirect < BLOCKS_MAX && Pointers(im.disk[im.ins[i].indirect])[k] == 0
    ensures Coherent(im') && InUse(im') == InUse(im) + {b} && Held(im') == Held(im) + {IndLeaf(i, k)}
    ensures var c := im.ins[i].indirect; im'.disk == im.disk[c := SetPointer(im.disk[c], k, b)] && im'.ins == im.ins
    ensures Resolved(im.store, im'.store, i, l, true) && Phys(im', i, l) == b
    ensures Extends(im, im') && Fresh(im, im', i, l, b)
  {
    Unseal(im);
    var disk, table := Entered(im.disk, im.table, im.ins[i].indirect, k, b);
    im' := Attach(im, disk, table, im.ins, IndLeaf(i, k), b);
    PointersOwned(im.table, im.ins, im.owner);
    FillIndLeaf(im.table, im.ins, im.owner, i, k, b);
    StoreAfterFill(im.disk, im.table, im.ins, im.owner, im.store, im'.disk, im'.table, im'.ins, IndLeaf(i, k), b);
    assert Position(IndLeaf(i, k)) == (i, DIRECT + k);
    Attached(im, im', IndLeaf(i, k), b);
  }

  /** The double-indirect pointer of inode `i` is set to the fresh, zeroed block `b`. */
  lemma AddDind(im: Image, i: int, b: int) returns (im': Image)
    requires Live(im, i) && 0 < b < BLOCKS_MAX && b !in InUse(im) && im.ins[i].dindirect == 0
    ensures Coherent(im') && InUse(im') == InUse(im) + {b} && Held(im') == Held(im) + {Dind(i)} && im'.store == im.store
    ensures im'.disk == im.disk[b := Zeros(SECTOR_SIZE)] && im'.ins == im.ins[i := im.ins[i].(dindirect := b)]
    ensures SameButPointers(im.ins, im'.ins, i)
    ensures Extends(im, im')
  {
    Unseal(im);
    var disk, table := Blanked(im.disk, im.table, b);
    im' := Attach(im, disk, table, im.ins[i := im.ins[i].(dindirect := b)], Dind(i), b);
    FillDind(im.table, im.ins, im.owner, i, b);
    StoreAfterFill(im.disk, im.table, im.ins, im.owner, im.store, im'.disk, im'.table, im'.ins, Dind(i), b);
    Attached(im, im', Dind(i), b);
  }

  /** Entry `k` of the double-indirect block is set to the fresh, zeroed block `b`. */
  lemma AddL1(im: Image, i: int, k: int, b: int) returns (im': Image)
    requires Live(im, i) && ValidSlot(L1(i, k)) && 0 < b < BLOCKS_MAX && b !in InUse(im)
    requires 0 < im.ins[i].dindirect < BLOCKS_MAX && Pointers(im.disk[im.ins[i].dindirect])[k] == 0
    ensures Coherent(im') && InUse(im') == InUse(im) + {b} && Held(im') == Held(im) + {L1(i, k)} && im'.store == im.store && im'.ins == im.ins
    ensures var c := im.ins[i].dindirect;
            im'.disk == im.disk[c := SetPointer(im.disk[c], k, b)][b := Zeros(SECTOR_SIZE)]
    ensures Level1Block(im', i, k) == b
    ensures Extends(im, im')
  {
    Unseal(im);
    var disk, table := Entered(im.disk, im.table, im.ins[i].dindirect, k, b);
    disk, table := Blanked(disk, table, b);
    im' := Attach(im, disk, table, im.ins, L1(i, k), b);
    PointersOwned(im.table, im.ins, im.owner);
    FillL1(im.table, im.ins, im.owner, i, k, b);
    StoreAfterFill(im.disk, im.table, im.ins, im.owner, im.store, im'.disk, im'.table, im'.ins, L1(i, k), b);
    Attached(im, im', L1(i, k), b);
  }

  /** Entry `j` of level-1 block `k` is set to the fresh block `b`. */
  lemma AddL2(im: Image, i: int, k: int, j: int, l: int, b: int) returns (im': Image)
    requires Live(im, i) && ValidSlot(L2(i, k, j)) && l == DoubleIndex(k, j) && 0 < b < BLOCKS_MAX && b !in InUse(im)
    requires 0 < Level1Block(im, i, k) < BLOCKS_MAX && Pointers(im.disk[Level1Block(im, i, k)])[j] == 0
    ensures Coherent(im') && InUse(im') == InUse(im) + {b} && Held(im') == Held(im) + {L2(i, k, j)} && im'.ins == im.ins
    ensures var c := Level1Block(im, i, k); im'.disk == im.disk[c := SetPointer(im.disk[c], j, b)]
    ensures Resolved(im.store, im'.store, i, l, true) && Phys(im', i, l) == b
    ensures Extends(im, im') && Fresh(im, im', i, l, b)
  {
    Unseal(im);
    var disk, table := Entered(im.disk, im.table, Level1Block(im, i, k), j, b);
    im' := Attach(im, disk, table, im.ins, L2(i, k, j), b);
    PointersOwned(im.table, im.ins, im.owner);
    FillL2(im.table, im.ins, im.owner, i, k, j, b);
    StoreAfterFill(im.disk, im.table, im.ins, im.owner, im.store, im'.disk, im'.table, im'.ins, L2(i, k, j), b);
    PositionIsInjective(L2(i, k, j));
    Attached(im, im', L2(i, k, j), b);
  }

  /** Rewriting a data block in place. */
  lemma Rewrite(im: Image, i: int, l: int, sec: Sector) returns (im': Image)
    requires Coherent(im) && 0 <= i < INODE_MAX && 0 <= l < MAX_FILE_BLOCKS && 0 < Phys(im, i, l) < BLOCKS_MAX
    ensures Coherent(im') && InUse(im') == InUse(im) && Held(im') == Held(im) && im'.owner == im.owner && Extends(im, im')
    ensures im'.disk == im.disk[Phys(im, i, l) := sec] && im'.ins == im.ins && im'.store == im.store[(i, l) := sec]
  {
    Unseal(im);
    var b := Phys(im, i, l);
    im' := im.(disk := im.disk[b := sec], table := im.table[b := Pointers(sec)], store := im.store[(i, l) := sec]);
    LeafRewrite(im.table, im.ins, im.owner, b, Pointers(sec));
    StoreAfterRewrite(im.disk, im.table, im.ins, im.owner, im.store, im'.table, LeafSlot(i, l), sec);
  }

  /** Changing names, parents or sizes of inodes moves no block. */
  lemma Relabel(im: Image, i: int, n: Inode) returns (im': Image)
    requires Live(im, i) && !n.kind.Free?
    requires n.blocks == im.ins[i].blocks && n.indirect == im.ins[i].indirect && n.dindirect == im.ins[i].dindirect
    ensures Coherent(im') && InUse(im') == InUse(im) && Held(im') == Held(im)
    ensures im' == im.(ins := im.ins[i := n])
  {
    Unseal(im);
    im' := im.(ins := im.ins[i := n]);
    assert forall u | ValidSlot(u) :: Val(im'.table, im'.ins, u) == Val(im.table, im.ins, u);
  }

  /** An inode without blocks may be replaced by another one without blocks. */
  lemma Replace(im: Image, i: int, n: Inode) returns (im': Image)
    requires Coherent(im) && 0 <= i < INODE_MAX && NoBlocks(n) && (NoBlocks(im.ins[i]) || im.ins[i].kind.Free?)
    ensures Coherent(im') && InUse(im') == InUse(im) && Held(im') == Held(im) && im' == im.(ins := im.ins[i := n])
  {
    Unseal(im);
    assert im.ins[i].kind.Free? ==> NoBlocks(im.ins[i]);
    im' := im.(ins := im.ins[i := n]);
    assert forall u | ValidSlot(u) :: Val(im'.table, im'.ins, u) == Val(im.table, im.ins, u);
  }

  /** No inode has a block yet. */
  lemma EmptyImage(ins: seq<Inode>, disk: seq<Sector>) returns (im: Image)
    requires |ins| == INODE_MAX && |disk| == BLOCKS_MAX && forall i | 0 <= i < INODE_MAX :: NoBlocks(ins[i])
    ensures Coherent(im) && im.disk == disk && im.ins == ins && im.store == map[] && InUse(im) == {0} && Held(im) == {}
  {
    var table: Table := seq(BLOCKS_MAX, b requires 0 <= b < BLOCKS_MAX => Pointers(disk[b]));
    im := Image(disk, table, ins, map[], map[]);
    assert forall i | 0 <= i < INODE_MAX :: NoBlocks(ins[i]) && |ins[i].blocks| == DIRECT;
    forall u | ValidSlot(u)
      ensures Val(table, ins, u) == 0
    {
      assert NoBlocks(ins[u.i]);
    }
  }
}
