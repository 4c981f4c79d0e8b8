/** Whole runs of CatFS as runs over names, sizes, free space and mapped file blocks. */
module CatRun {
  import opened Words
  import opened CatForest
  import opened CatStore
  import opened CatBytes
  import opened CatPrune
  import opened CatNames
  import opened CatFs

  datatype Op =
    | CreateOp(path: string, kind: Kind)
    | UnlinkOp(idx: int)
    | RenameOp(idx: int, parent: int, name: string)
    | WriteOp(idx: int, offset: U32, buf: seq<Byte>)
    | TruncateOp(idx: int, size: U32)
    | ReadOp(idx: int, offset: U32, len: U32)

  datatype Outcome = Skipped | Done(code: int, data: seq<Byte>)

  /** A mounted file system: names and sizes, free space, what is stored in which file block, and the slots that hold a block. */
  datatype State = State(ins: seq<Inode>, freeBlocks: nat, freeInodes: nat, store: Store, held: set<Slot>)

  ghost predicate Ready(fs: CatFs)
    reads fs
  {
    fs.Consistent() && fs.mounted
  }

  ghost function StateOf(fs: CatFs): State
    reads fs
  {
    State(fs.inodes, fs.freeBlocks, fs.freeInodes, fs.im.store, Held(fs.im))
  }

  /** Parents lead to the root, both counters are right, only inodes in use have blocks, and the way to every mapped block is held. */
  ghost predicate Sane(s: State) {
    && Grounded(s.ins) && s.freeInodes == |FreeInodes(s.ins)| && s.freeBlocks + |s.held| == BLOCKS_MAX - 1
    && (forall p | p in s.store :: Used(s.ins, p.0) && 0 <= p.1 < MAX_FILE_BLOCKS && Path(p.0, p.1) <= s.held)
    && (forall u | u in s.held :: ValidSlot(u) && Used(s.ins, u.i) && (IsLeaf(u) ==> Position(u) in s.store))
  }

  lemma ReadyIsSane(fs: CatFs)
    requires Ready(fs)
    ensures Sane(StateOf(fs))
  {
    StoreInRange(fs.im);
    fs.FreeCount();
    forall p | p in fs.im.store ensures Path(p.0, p.1) <= Held(fs.im) { PathNeeded(fs.im, p.0, p.1); }
    forall u | u in Held(fs.im) ensures ValidSlot(u) && Used(fs.inodes, u.i) && (IsLeaf(u) ==> Position(u) in fs.im.store) {
      HeldInUse(fs.im, u);
    }
  }

  lemma HeldInUse(im: Image, u: Slot)
    requires Coherent(im) && u in Held(im)
    ensures ValidSlot(u) && Used(im.ins, u.i) && (IsLeaf(u) ==> Position(u) in im.store)
  {
    Unseal(im);
    HeldIs(im, u);
    assert im.ins[u.i].kind.Free? ==> NoBlocks(im.ins[u.i]);
  }

  lemma StoreInRange(im: Image)
    requires Coherent(im)
    ensures forall p | p in im.store :: Used(im.ins, p.0) && 0 <= p.1 < MAX_FILE_BLOCKS
  {
    Unseal(im);
    forall p | p in im.store ensures Used(im.ins, p.0) {
      PhysInStore(im, p.0, p.1);
      assert im.ins[p.0].kind.Free? ==> NoBlocks(im.ins[p.0]);
    }
  }

  // ---- What the calls mean ----

  /** A file that can be written: in use and not a directory. */
  predicate Writable(ins: seq<Inode>, idx: int) { Used(ins, idx) && !ins[idx].kind.Dir? }

  /** The blocks of inode `idx` from `first` on are gone. */
  ghost function BelowBlock(store: Store, idx: int, first: int): Store {
    map p | p in store && !(p.0 == idx && p.1 >= first) :: store[p]
  }

  ghost predicate CreateMeans(path: string, kind: Kind, code: int, s: State, s': State)
    requires path != ""
  {
    if !Creatable(s.ins, path) || s.freeInodes == 0 then code == -1 && s' == s
    else
      && 0 < code < |s.ins| && s.ins[code].kind.Free? && (forall j | 0 < j < code :: Used(s.ins, j))
      && s' == State(s.ins[code := NewInode(BasePart(path), kind, LookupPath(s.ins, DirPart(path)))],
                     s.freeBlocks, s.freeInodes - 1, s.store, s.held)
  }

  ghost predicate UnlinkMeans(idx: int, code: int, s: State, s': State) {
    if !(idx > 0 && Used(s.ins, idx)) || (s.ins[idx].kind.Dir? && HasChild(s.ins, idx)) then code == -1 && s' == s
    else
      && code == 0 && s'.ins == s.ins[idx := EMPTY_INODE]
      && s'.freeInodes == s.freeInodes + 1 && s'.store == BelowBlock(s.store, idx, 0) && s'.held == Others(s.held, idx)
      && s'.freeBlocks + |s'.held| == s.freeBlocks + |s.held|
  }

  ghost predicate RenameMeans(idx: int, parent: int, name: string, code: int, s: State, s': State) {
    if !CanRename(s.ins, idx, parent, name) then code == -1 && s' == s
    else code == 0 && s' == s.(ins := s.ins[idx := s.ins[idx].(parent := parent, name := name)])
  }

  /** The first `code` bytes are stored, as many as the file's limit and the free blocks allow; the size grows to their end, and
      exactly the slots on the way to them that were empty are filled. */
  ghost predicate WriteMeans(idx: int, offset: U32, buf: seq<Byte>, code: int, s: State, s': State)
    requires |s.ins| == INODE_MAX
  {
    if !Writable(s.ins, idx) then code == -1 && s' == s
    else
      && 0 <= code <= |buf| && (code > 0 ==> offset + code <= MAX_FILE_BYTES)
      && |PathsOf(idx, offset, code) - s.held| <= s.freeBlocks
      && (code < |buf| ==> offset + code >= MAX_FILE_BYTES || |PathsOf(idx, offset, code + 1) - s.held| > s.freeBlocks)
      && Took(s.held, s'.held, s'.freeBlocks, idx, offset, |buf|, code) && s'.freeBlocks + |s'.held| == s.freeBlocks + |s.held|
      && SameButPointers(Resize(s.ins, idx, SizeAfter(s.ins[idx].size, offset, code)), s'.ins, idx)
      && s'.freeInodes == s.freeInodes
      && Written(s.store, s'.store, idx, offset, buf[..code])
  }

  ghost predicate TruncateMeans(idx: int, size: U32, code: int, s: State, s': State)
    requires |s.ins| == INODE_MAX
  {
    if !Writable(s.ins, idx) then code == -1 && s' == s
    else
      && code == 0 && SameButPointers(Resize(s.ins, idx, size), s'.ins, idx) && s'.freeInodes == s.freeInodes
      && s'.freeBlocks + |s'.held| == s.freeBlocks + |s.held|
      && if size < s.ins[idx].size then
           && s'.store == BelowBlock(s.store, idx, FirstFreed(size))
           && s'.held == Surviving(s.held, s.store, idx, FirstFreed(size))
         else s'.held == s.held && s'.store == s.store
  }

  /** The bytes stored from `offset` on, up to the end of the file or the first block that is missing. */
  ghost predicate ReadMeans(idx: int, offset: U32, len: U32, code: int, data: seq<Byte>, s: State, s': State) {
    && s' == s
    && if !Used(s.ins, idx) then code == -1 && data == []
       else code == |data| && Gathered(s.store, idx, s.ins[idx].size, offset, len, data)
  }

  /** `data` is what the read loop gathers; the 32-bit comparison of `offset + len` with the size is as it wraps. */
  ghost predicate Gathered(store: Store, idx: int, size: U32, offset: U32, len: U32, data: seq<Byte>) {
    && ReadsAs(store, idx, offset, data)
    && if offset >= size then data == []
       else
         var want := if Add32(offset, len) > size then size - offset else len;
         |data| <= want && (|data| < want ==> (idx, (offset + |data|) / 512) !in store)
  }

  /** Exactly what one call returns and does; `code` and `data` are what it returned. */
  ghost predicate Meaning(op: Op, code: int, data: seq<Byte>, s: State, s': State)
    requires |s.ins| == INODE_MAX
  {
    match op
    case CreateOp(path, kind) => path != "" && CreateMeans(path, kind, code, s, s')
    case UnlinkOp(idx) => UnlinkMeans(idx, code, s, s')
    case RenameOp(idx, parent, name) => RenameMeans(idx, parent, name, code, s, s')
    case WriteOp(idx, offset, buf) => WriteMeans(idx, offset, buf, code, s, s')
    case TruncateOp(idx, size) => TruncateMeans(idx, size, code, s, s')
    case ReadOp(idx, offset, len) => ReadMeans(idx, offset, len, code, data, s, s')
  }

  /** The calls a run may make: path parts fit the fixed buffers, and lengths are 32-bit numbers. */
  predicate Allowed(op: Op) {
    match op
    case CreateOp(path, kind) => !kind.Free? && path != "" && |DirPart(path)| < 64 && |BasePart(path)| < NAME_MAX
    case WriteOp(_, _, buf) => |buf| < 0x1_0000_0000
    case _ => true
  }

  // ---- The calls ----

  lemma UsedIsLive(im: Image, i: int)
    requires Coherent(im)
    ensures Used(im.ins, i) <==> Live(im, i)
  {
  }

  method DoCreate(fs: CatFs, path: string, kind: Kind) returns (r: int)
    requires Ready(fs) && Allowed(CreateOp(path, kind))
    modifies fs
    ensures Ready(fs) && CreateMeans(path, kind, r, old(StateOf(fs)), StateOf(fs))
  {
    r := fs.Create(path, kind);
  }

  method DoUnlink(fs: CatFs, idx: int) returns (r: int)
    requires Ready(fs)
    modifies fs
    ensures Ready(fs) && UnlinkMeans(idx, r, old(StateOf(fs)), StateOf(fs))
  {
    UsedIsLive(fs.im, idx);
    StoreInRange(fs.im);
    fs.FreeCount();
    r := fs.Unlink(idx);
    fs.FreeCount();
  }

  method DoRename(fs: CatFs, idx: int, parent: int, name: string) returns (r: int)
    requires Ready(fs)
    modifies fs
    ensures Ready(fs) && RenameMeans(idx, parent, name, r, old(StateOf(fs)), StateOf(fs))
  {
    r := fs.Rename(idx, parent, name);
  }

  method DoWrite(fs: CatFs, idx: int, offset: U32, buf: seq<Byte>) returns (w: int)
    requires Ready(fs) && |buf| < 0x1_0000_0000
    modifies fs
    ensures Ready(fs) && WriteMeans(idx, offset, buf, w, old(StateOf(fs)), StateOf(fs))
  {
    UsedIsLive(fs.im, idx);
    ghost var ins := fs.inodes;
    fs.FreeCount();
    w := fs.Write(idx, offset, buf);
    fs.FreeCount();
    GroundedFrame(ins, fs.inodes);
    FreeInodesSame(ins, fs.inodes);
  }

  method DoTruncate(fs: CatFs, idx: int, size: U32) returns (r: int)
    requires Ready(fs)
    modifies fs
    ensures Ready(fs) && TruncateMeans(idx, size, r, old(StateOf(fs)), StateOf(fs))
  {
    UsedIsLive(fs.im, idx);
    ghost var im0, cut := fs.im, fs.im;
    fs.FreeCount();
    r, cut := fs.Truncate(idx, size);
    fs.FreeCount();
    if r == 0 {
      TruncatedImage(im0, cut, fs.im, idx, size);
      GroundedFrame(im0.ins, fs.inodes);
      FreeInodesSame(im0.ins, fs.inodes);
    }
  }

  lemma TruncatedImage(im: Image, cut: Image, im': Image, idx: int, size: U32)
    requires Coherent(im) && Used(im.ins, idx)
    requires if size < im.ins[idx].size then Pruned(im, cut, idx, FirstFreed(size), SlotsOf(idx)) else cut == im
    requires |cut.ins| == INODE_MAX && im' == cut.(ins := Resize(cut.ins, idx, size))
    ensures SameButPointers(Resize(im.ins, idx, size), im'.ins, idx)
    ensures im'.store == if size < im.ins[idx].size then BelowBlock(im.store, idx, FirstFreed(size)) else im.store
  {
    if size < im.ins[idx].size {
      assert PrunedAt(im, cut, idx, FirstFreed(size), SlotsOf(idx), Ind(idx));
      SameButPointersResize(im.ins, cut.ins, idx, size);
      StoreInRange(im);
    }
  }

  method DoRead(fs: CatFs, idx: int, offset: U32, len: U32) returns (n: int, data: seq<Byte>)
    requires Ready(fs)
    modifies fs
    ensures Ready(fs) && ReadMeans(idx, offset, len, n, data, old(StateOf(fs)), StateOf(fs))
  {
    UsedIsLive(fs.im, idx);
    n, data := fs.Read(idx, offset, len);
  }

  method Execute(fs: CatFs, op: Op) returns (code: int, data: seq<Byte>)
    requires Ready(fs) && Allowed(op)
    modifies fs
    ensures Ready(fs) && Meaning(op, code, data, old(StateOf(fs)), StateOf(fs))
  {
    data := [];
    match op
    case CreateOp(path, kind) => code := DoCreate(fs, path, kind);
    case UnlinkOp(idx) => code := DoUnlink(fs, idx);
    case RenameOp(idx, parent, name) => code := DoRename(fs, idx, parent, name);
    case WriteOp(idx, offset, buf) => code := DoWrite(fs, idx, offset, buf);
    case TruncateOp(idx, size) => code := DoTruncate(fs, idx, size);
    case ReadOp(idx, offset, len) => code, data := DoRead(fs, idx, offset, len);
  }

  // ---- Runs ----

  /** One call of a run and its outcome: skipped exactly when it is not allowed. */
  ghost predicate StepMeaning(op: Op, o: Outcome, s: State, s': State) {
    && |s.ins| == INODE_MAX
    && if Allowed(op) then o.Done? && Meaning(op, o.code, o.data, s, s') else o.Skipped? && s' == s
  }

  /** Every call of the run does what it should, and every state on the way is sane. */
  ghost predicate Ran(ops: seq<Op>, outcomes: seq<Outcome>, trace: seq<State>) {
    && |outcomes| == |ops| && |trace| == |ops| + 1
    && forall k {:trigger RanAt(ops, outcomes, trace, k)} :: RanAt(ops, outcomes, trace, k)
  }

  ghost predicate RanAt(ops: seq<Op>, outcomes: seq<Outcome>, trace: seq<State>, k: int)
    requires |outcomes| == |ops| && |trace| == |ops| + 1
  {
    && (0 <= k <= |ops| ==> Sane(trace[k]))
    && (0 <= k < |ops| ==> StepMeaning(ops[k], outcomes[k], trace[k], trace[k + 1]))
  }

  /** Any sequence of calls, from a formatted disk or any later state. */
  method Run(fs: CatFs, ops: seq<Op>) returns (outcomes: seq<Outcome>, ghost trace: seq<State>)
    requires Ready(fs)
    modifies fs
    ensures Ready(fs) && Ran(ops, outcomes, trace) && trace[0] == old(StateOf(fs)) && trace[|ops|] == StateOf(fs)
  {
    outcomes := [];
    trace := [StateOf(fs)];
    ReadyIsSane(fs);
    for n := 0 to |ops|
      invariant Ready(fs) && |trace| == n + 1 && trace[0] == old(StateOf(fs)) && trace[n] == StateOf(fs)
      invariant Ran(ops[..n], outcomes, trace)
    {
      var o := Attempt(fs, ops[n]);
      ReadyIsSane(fs);
      RanExtends(ops[..n], outcomes, trace, ops[n], o, StateOf(fs));
      assert ops[..n] + [ops[n]] == ops[..n + 1];
      outcomes, trace := outcomes + [o], trace + [StateOf(fs)];
    }
    assert ops[..|ops|] == ops;
  }

  lemma RanExtends(ops: seq<Op>, outcomes: seq<Outcome>, trace: seq<State>, op: Op, o: Outcome, s: State)
    requires Ran(ops, outcomes, trace) && Sane(s) && StepMeaning(op, o, trace[|ops|], s)
    ensures Ran(ops + [op], outcomes + [o], trace + [s])
  {
    forall k ensures RanAt(ops + [op], outcomes + [o], trace + [s], k) { assert RanAt(ops, outcomes, trace, k); }
  }

  /** Makes the call if it is allowed. */
  method Attempt(fs: CatFs, op: Op) returns (o: Outcome)
    requires Ready(fs)
    modifies fs
    ensures Ready(fs) && StepMeaning(op, o, old(StateOf(fs)), StateOf(fs))
  {
    o := Skipped;
    if Allowed(op) {
      var code, data := Execute(fs, op);
      o := Done(code, data);
    }
  }

  // ---- The tree ----

  /** What a call must not do if the names are to remain a tree: create below a file, with a name already there or without
      a name, or give a name with a slash. */
  ghost predicate KeepsTree(op: Op, ins: seq<Inode>) {
    match op
    case CreateOp(path, _) => path != "" && CreatesInTree(ins, path)
    case RenameOp(_, _, name) => '/' !in name
    case _ => true
  }

  /** A call that succeeds leaves a tree exactly when it is none of those; one that fails always does. */
  lemma TreeStep(op: Op, o: Outcome, s: State, s': State)
    requires Sane(s) && Tree(s.ins) && StepMeaning(op, o, s, s')
    ensures Tree(s'.ins) <==> o.Skipped? || o.code < 0 || KeepsTree(op, s.ins)
  {
    if o.Done? && o.code >= 0 {
      match op
      case CreateOp(path, kind) => CreateTree(path, kind, o.code, s, s');
      case UnlinkOp(idx) => TreeUnlink(s.ins, idx);
      case RenameOp(idx, parent, name) => RenameTree(idx, parent, name, o.code, s, s');
      case _ =>
        NamesStay(op, o, s, s');
        TreeFrame(s.ins, s'.ins);
    }
  }

  lemma NamesStay(op: Op, o: Outcome, s: State, s': State)
    requires StepMeaning(op, o, s, s') && o.Done? && (op.WriteOp? || op.TruncateOp? || op.ReadOp?)
    ensures |s'.ins| == |s.ins| && forall j | 0 <= j < |s.ins| :: SameNames(s.ins[j], s'.ins[j])
  {
    match op
    case WriteOp(idx, offset, buf) =>
      if Writable(s.ins, idx) { ResizeNames(s.ins, s'.ins, idx, SizeAfter(s.ins[idx].size, offset, o.code)); }
    case TruncateOp(idx, size) =>
      if Writable(s.ins, idx) { ResizeNames(s.ins, s'.ins, idx, size); }
    case _ =>
  }

  lemma ResizeNames(ins: seq<Inode>, ins': seq<Inode>, idx: int, size: U32)
    requires 0 <= idx < |ins| && SameButPointers(Resize(ins, idx, size), ins', idx)
    ensures |ins'| == |ins| && forall j | 0 <= j < |ins| :: SameNames(ins[j], ins'[j])
  {
  }

  lemma CreateTree(path: string, kind: Kind, code: int, s: State, s': State)
    requires Sane(s) && Tree(s.ins) && Allowed(CreateOp(path, kind)) && CreateMeans(path, kind, code, s, s') && code >= 0
    ensures Tree(s'.ins) <==> CreatesInTree(s.ins, path)
  {
    LookupFinds(s.ins, DirPart(path));
    TreeCreate(s.ins, code, s'.ins[code]);
    NameFreeAnywhere(s.ins, code, s'.ins[code].parent, BasePart(path));
  }

  lemma RenameTree(idx: int, parent: int, name: string, code: int, s: State, s': State)
    requires Sane(s) && Tree(s.ins) && RenameMeans(idx, parent, name, code, s, s') && code >= 0
    ensures Tree(s'.ins) <==> '/' !in name
  {
    var n := GroundDepth(s.ins, parent);
    BelowIs(s.ins, parent, idx, n);
    TreeRename(s.ins, idx, s'.ins[idx], n);
  }

  /** The tree lasts as long as every successful call keeps it. */
  lemma {:induction false} TreeRun(ops: seq<Op>, outcomes: seq<Outcome>, trace: seq<State>, n: nat)
    requires Ran(ops, outcomes, trace) && n <= |ops| && Tree(trace[0].ins)
    requires forall k | 0 <= k < n :: outcomes[k].Skipped? || outcomes[k].code < 0 || KeepsTree(ops[k], trace[k].ins)
    ensures Tree(trace[n].ins)
    decreases n
  {
    if n > 0 {
      TreeRun(ops, outcomes, trace, n - 1);
      assert RanAt(ops, outcomes, trace, n - 1);
      TreeStep(ops[n - 1], outcomes[n - 1], trace[n - 1], trace[n]);
    }
  }

  /** A formatted disk, whatever its data region held, has one empty directory and is a legal start of a run. */
  method Start(sectors: seq<Sector>) returns (fs: CatFs)
    requires |sectors| == BLOCKS_MAX
    ensures fresh(fs) && Ready(fs) && Tree(fs.inodes) && fs.disk == sectors
    ensures StateOf(fs).store == map[] && StateOf(fs).held == {} && fs.freeBlocks == BLOCKS_MAX - 1 && fs.freeInodes == INODE_MAX - 1
    ensures fs.inodes[0].kind.Dir? && fs.inodes[0].size == 0 && forall i | 0 < i < INODE_MAX :: fs.inodes[i] == EMPTY_INODE
  {
    fs := new CatFs.Format(sectors);
  }
}
