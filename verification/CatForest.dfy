/** CatFS inodes and the three-level pointer tree each of them roots on disk.

    Every place that can hold a block number is a slot: the 16 direct pointers, the
    indirect and double-indirect pointers of an inode, and the entries of the pointer
    blocks they lead to.  Single ownership is stated through `owner`, the inverse of
    "block held by slot": two slots can never hold the same block. */
module CatForest {
  import opened Words

  const INODE_MAX := 256
  const DIRECT := 16
  const MAX_FILE_BLOCKS := 16528   // DIRECT + PTRS + PTRS * PTRS

  const MAX_FILE_BYTES := 8462336    // MAX_FILE_BLOCKS * 512

  datatype Kind = Free | File | Dir | Symlink

  datatype Inode = Inode(name: string, kind: Kind, perms: nat, size: U32, parent: int,
                         blocks: seq<int>, indirect: int, dindirect: int)

  /** A cleared inode. */
  const EMPTY_INODE := Inode("", Free, 0, 0, 0, Zeros(DIRECT), 0, 0)

  /** Block pointers of every block of the data region. */
  type Table = seq<seq<int>>

  datatype Slot =
    | Direct(i: int, k: int)
    | Ind(i: int)
    | IndLeaf(i: int, k: int)
    | Dind(i: int)
    | L1(i: int, k: int)
    | L2(i: int, k: int, j: int)

  predicate ValidSlot(s: Slot) {
    && 0 <= s.i < INODE_MAX
    && (s.Direct? ==> 0 <= s.k < DIRECT)
    && (s.IndLeaf? || s.L1? || s.L2? ==> 0 <= s.k < PTRS)
    && (s.L2? ==> 0 <= s.j < PTRS)
  }

  /** Slots that hold file data rather than more pointers. */
  predicate IsLeaf(s: Slot) {
    s.Direct? || s.IndLeaf? || s.L2?
  }

  predicate Shaped(t: Table, ins: seq<Inode>) {
    && |t| == BLOCKS_MAX
    && |ins| == INODE_MAX
    && (forall b | 0 <= b < BLOCKS_MAX :: |t[b]| == PTRS)
    && (forall i {:trigger ins[i].blocks} | 0 <= i < INODE_MAX :: |ins[i].blocks| == DIRECT)
  }

  /** Entry `k` of pointer block `b`; block 0 is the null block. */
  function At(t: Table, b: int, k: int): int
    requires |t| == BLOCKS_MAX && (forall b | 0 <= b < BLOCKS_MAX :: |t[b]| == PTRS)
    requires 0 <= k < PTRS
  {
    if 0 < b < BLOCKS_MAX then t[b][k] else 0
  }

  /** The block number held by slot `s`, 0 for none. */
  function Val(t: Table, ins: seq<Inode>, s: Slot): int
    requires Shaped(t, ins) && ValidSlot(s)
  {
    match s
    case Direct(i, k) => ins[i].blocks[k]
    case Ind(i) => ins[i].indirect
    case IndLeaf(i, k) => At(t, ins[i].indirect, k)
    case Dind(i) => ins[i].dindirect
    case L1(i, k) => At(t, ins[i].dindirect, k)
    case L2(i, k, j) => At(t, At(t, ins[i].dindirect, k), j)
  }

  /** `owner` is exactly the inverse of `Val`: single ownership of every block in use. */
  ghost predicate Owned(t: Table, ins: seq<Inode>, owner: map<int, Slot>)
    requires Shaped(t, ins)
  {
    && (forall s {:trigger Val(t, ins, s)} | ValidSlot(s) && Val(t, ins, s) != 0 ::
          Val(t, ins, s) in owner && owner[Val(t, ins, s)] == s)
    && (forall b | b in owner ::
          0 < b < BLOCKS_MAX && ValidSlot(owner[b]) && Val(t, ins, owner[b]) == b)
  }

  /** Filling one empty slot with a block nobody owned. */
  ghost predicate Fills(t: Table, ins: seq<Inode>, t': Table, ins': seq<Inode>, s: Slot, b: int)
    requires Shaped(t, ins) && Shaped(t', ins') && ValidSlot(s)
  {
    forall u {:trigger Val(t', ins', u)} | ValidSlot(u) :: Val(t', ins', u) == if u == s then b else Val(t, ins, u)
  }

  lemma AttachOwned(t: Table, ins: seq<Inode>, owner: map<int, Slot>, t': Table, ins': seq<Inode>, s: Slot, b: int)
    requires Shaped(t, ins) && Shaped(t', ins') && ValidSlot(s) && Owned(t, ins, owner)
    requires 0 < b < BLOCKS_MAX && b !in owner && Val(t, ins, s) == 0
    requires Fills(t, ins, t', ins', s, b)
    ensures Owned(t', ins', owner[b := s])
  {
    forall u | ValidSlot(u) && Val(t', ins', u) != 0
      ensures Val(t', ins', u) in owner[b := s] && owner[b := s][Val(t', ins', u)] == u
    {
    }
  }

  /** A direct pointer is set in the inode itself. */
  lemma FillDirect(t: Table, ins: seq<Inode>, owner: map<int, Slot>, i: int, k: int, b: int)
    requires Shaped(t, ins) && Owned(t, ins, owner) && ValidSlot(Direct(i, k))
    requires 0 < b < BLOCKS_MAX && b !in owner && Val(t, ins, Direct(i, k)) == 0
    ensures var ins' := ins[i := ins[i].(blocks := ins[i].blocks[k := b])];
            Shaped(t, ins') && Fills(t, ins, t, ins', Direct(i, k), b) && Owned(t, ins', owner[b := Direct(i, k)])
  {
    var ins' := ins[i := ins[i].(blocks := ins[i].blocks[k := b])];
    AttachOwned(t, ins, owner, t, ins', Direct(i, k), b);
  }

  /** A fresh indirect block is zeroed, so it adds no leaf. */
  lemma FillInd(t: Table, ins: seq<Inode>, owner: map<int, Slot>, i: int, b: int)
    requires Shaped(t, ins) && Owned(t, ins, owner) && ValidSlot(Ind(i))
    requires 0 < b < BLOCKS_MAX && b !in owner && Val(t, ins, Ind(i)) == 0
    ensures var ins' := ins[i := ins[i].(indirect := b)];
            var t' := t[b := Zeros(PTRS)];
            Shaped(t', ins') && Fills(t, ins, t', ins', Ind(i), b) && Owned(t', ins', owner[b := Ind(i)])
  {
    var ins' := ins[i := ins[i].(indirect := b)];
    var t' := t[b := Zeros(PTRS)];
    PointersOwned(t, ins, owner);
    AttachOwned(t, ins, owner, t', ins', Ind(i), b);
  }

  /** Pointer blocks that are in use have an owner. */
  lemma PointersOwned(t: Table, ins: seq<Inode>, owner: map<int, Slot>)
    requires Shaped(t, ins) && Owned(t, ins, owner)
    ensures forall i | 0 <= i < INODE_MAX && ins[i].indirect != 0 ::
              ins[i].indirect in owner && owner[ins[i].indirect] == Ind(i)
    ensures forall i | 0 <= i < INODE_MAX && ins[i].dindirect != 0 ::
              ins[i].dindirect in owner && owner[ins[i].dindirect] == Dind(i)
    ensures forall i, k | 0 <= i < INODE_MAX && 0 <= k < PTRS && At(t, ins[i].dindirect, k) != 0 ::
              At(t, ins[i].dindirect, k) in owner && owner[At(t, ins[i].dindirect, k)] == L1(i, k)
  {
    forall i | 0 <= i < INODE_MAX && ins[i].indirect != 0
      ensures ins[i].indirect in owner && owner[ins[i].indirect] == Ind(i)
    { assert ins[i].indirect == Val(t, ins, Ind(i)); }
    forall i | 0 <= i < INODE_MAX && ins[i].dindirect != 0
      ensures ins[i].dindirect in owner && owner[ins[i].dindirect] == Dind(i)
    { assert ins[i].dindirect == Val(t, ins, Dind(i)); }
    forall i, k | 0 <= i < INODE_MAX && 0 <= k < PTRS && At(t, ins[i].dindirect, k) != 0
      ensures At(t, ins[i].dindirect, k) in owner && owner[At(t, ins[i].dindirect, k)] == L1(i, k)
    { assert At(t, ins[i].dindirect, k) == Val(t, ins, L1(i, k)); }
  }

  lemma FillIndLeaf(t: Table, ins: seq<Inode>, owner: map<int, Slot>, i: int, k: int, b: int)
    requires Shaped(t, ins) && Owned(t, ins, owner) && ValidSlot(IndLeaf(i, k)) && ins[i].indirect != 0
    requires 0 < b < BLOCKS_MAX && b !in owner && Val(t, ins, IndLeaf(i, k)) == 0
    ensures 0 < ins[i].indirect < BLOCKS_MAX
    ensures var t' := t[ins[i].indirect := t[ins[i].indirect][k := b]];
            Shaped(t', ins) && Fills(t, ins, t', ins, IndLeaf(i, k), b) && Owned(t', ins, owner[b := IndLeaf(i, k)])
  {
    PointersOwned(t, ins, owner);
    var t' := t[ins[i].indirect := t[ins[i].indirect][k := b]];
    AttachOwned(t, ins, owner, t', ins, IndLeaf(i, k), b);
  }

  lemma FillDind(t: Table, ins: seq<Inode>, owner: map<int, Slot>, i: int, b: int)
    requires Shaped(t, ins) && Owned(t, ins, owner) && ValidSlot(Dind(i))
    requires 0 < b < BLOCKS_MAX && b !in owner && Val(t, ins, Dind(i)) == 0
    ensures var ins' := ins[i := ins[i].(dindirect := b)];
            var t' := t[b := Zeros(PTRS)];
            Shaped(t', ins') && Fills(t, ins, t', ins', Dind(i), b) && Owned(t', ins', owner[b := Dind(i)])
  {
    var ins' := ins[i := ins[i].(dindirect := b)];
    var t' := t[b := Zeros(PTRS)];
    PointersOwned(t, ins, owner);
    AttachOwned(t, ins, owner, t', ins', Dind(i), b);
  }

  /** A fresh level-1 block is entered in the double-indirect block and zeroed. */
  lemma FillL1(t: Table, ins: seq<Inode>, owner: map<int, Slot>, i: int, k: int, b: int)
    requires Shaped(t, ins) && Owned(t, ins, owner) && ValidSlot(L1(i, k)) && ins[i].dindirect != 0
    requires 0 < b < BLOCKS_MAX && b !in owner && Val(t, ins, L1(i, k)) == 0
    ensures 0 < ins[i].dindirect < BLOCKS_MAX
    ensures var t' := t[ins[i].dindirect := t[ins[i].dindirect][k := b]][b := Zeros(PTRS)];
            Shaped(t', ins) && Fills(t, ins, t', ins, L1(i, k), b) && Owned(t', ins, owner[b := L1(i, k)])
  {
    PointersOwned(t, ins, owner);
    var t' := t[ins[i].dindirect := t[ins[i].dindirect][k := b]][b := Zeros(PTRS)];
    AttachOwned(t, ins, owner, t', ins, L1(i, k), b);
  }

  lemma FillL2(t: Table, ins: seq<Inode>, owner: map<int, Slot>, i: int, k: int, j: int, b: int)
    requires Shaped(t, ins) && Owned(t, ins, owner) && ValidSlot(L2(i, k, j)) && Val(t, ins, L1(i, k)) != 0
    requires 0 < b < BLOCKS_MAX && b !in owner && Val(t, ins, L2(i, k, j)) == 0
    ensures 0 < Val(t, ins, L1(i, k)) < BLOCKS_MAX
    ensures var l1 := Val(t, ins, L1(i, k));
            var t' := t[l1 := t[l1][j := b]];
            Shaped(t', ins) && Fills(t, ins, t', ins, L2(i, k, j), b) && Owned(t', ins, owner[b := L2(i, k, j)])
  {
    PointersOwned(t, ins, owner);
    var l1 := Val(t, ins, L1(i, k));
    var t' := t[l1 := t[l1][j := b]];
    AttachOwned(t, ins, owner, t', ins, L2(i, k, j), b);
  }

  /** Rewriting a block that holds no pointers in use moves no slot. */
  lemma LeafRewrite(t: Table, ins: seq<Inode>, owner: map<int, Slot>, b: int, p: seq<int>)
    requires Shaped(t, ins) && Owned(t, ins, owner) && 0 <= b < BLOCKS_MAX && |p| == PTRS
    requires b in owner ==> IsLeaf(owner[b])
    ensures var t' := t[b := p];
            Shaped(t', ins) && Owned(t', ins, owner) && (forall u | ValidSlot(u) :: Val(t', ins, u) == Val(t, ins, u))
  {
    PointersOwned(t, ins, owner);
    var t' := t[b := p];
    forall u | ValidSlot(u)
      ensures Val(t', ins, u) == Val(t, ins, u)
    {
    }
  }

  /** The owners left when the slots in `gone` are emptied. */
  ghost function Without(owner: map<int, Slot>, gone: iset<Slot>): (r: map<int, Slot>) {
    map b | b in owner && owner[b] !in gone :: owner[b]
  }

  lemma DetachOwned(t: Table, ins: seq<Inode>, owner: map<int, Slot>, t': Table, ins': seq<Inode>, gone: iset<Slot>)
    requires Shaped(t, ins) && Shaped(t', ins') && Owned(t, ins, owner)
    requires forall u | ValidSlot(u) :: Val(t', ins', u) == if u in gone then 0 else Val(t, ins, u)
    ensures Owned(t', ins', Without(owner, gone))
  {
  }
}
