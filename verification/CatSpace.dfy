/** What files take up on a CatFS disk: their mapped blocks, the pointer blocks on the way to them, and nothing else. */
module CatSpace {
  import opened Words
  import opened CatForest
  import opened CatStore
  import opened CatBytes
  import opened CatPrune
  import opened CatNames
  import opened CatFs
  import opened CatRun

  /** Slot `u` lies on the way to a mapped block of inode `i`. */
  ghost predicate OnPath(store: Store, i: int, u: Slot) {
    exists l :: (i, l) in store && u in Path(i, l)
  }

  /** Inode `i` holds no slot that leads to no mapped block. */
  ghost predicate Tight(s: State, i: int) {
    forall u | u in s.held && u.i == i :: OnPath(s.store, i, u)
  }

  lemma {:induction false} PathsMember(i: int, a: int, b: int, u: Slot)
    requires u in Paths(i, a, b)
    ensures exists l | a <= l < b :: u in Path(i, l)
    decreases b - a
  {
    if u !in Path(i, b - 1) { PathsMember(i, a, b - 1, u); }
  }

  lemma {:induction false} PathsCover(i: int, a: int, b: int, l: int)
    requires a <= l < b
    ensures Path(i, l) <= Paths(i, a, b)
    decreases b - a
  {
    if l < b - 1 { PathsCover(i, a, b - 1, l); }
  }

  lemma PathSlots(i: int, l: int, u: Slot)
    requires u in Path(i, l)
    ensures u.i == i && 0 <= l < MAX_FILE_BLOCKS
    ensures u.L1? ==> DoubleIndex(u.k, 0) <= l < DoubleIndex(u.k, PTRS) && Dind(i) in Path(i, l)
  {
  }

  /** The slots a write needs are exactly those on the way to the file blocks it touches. */
  lemma PathsOfIs(i: int, offset: nat, w: nat, u: Slot)
    ensures u in PathsOf(i, offset, w) <==> exists l :: Touched((i, l), i, offset, w) && u in Path(i, l)
  {
    if w > 0 {
      var a, b := offset / 512, (offset + w - 1) / 512 + 1;
      assert forall l :: Touched((i, l), i, offset, w) <==> a <= l < b;
      if u in PathsOf(i, offset, w) {
        PathsMember(i, a, b, u);
        var l :| a <= l < b && u in Path(i, l);
        assert Touched((i, l), i, offset, w);
      }
      if l :| Touched((i, l), i, offset, w) && u in Path(i, l) { PathsCover(i, a, b, l); }
    }
  }

  /** A write that does not run out of blocks leaves no slot idle. */
  lemma TightWrite(idx: int, offset: U32, buf: seq<Byte>, code: int, s: State, s': State, i: int)
    requires |s.ins| == INODE_MAX && WriteMeans(idx, offset, buf, code, s, s') && code >= 0 && Tight(s, i)
    requires i == idx ==> code == |buf| || offset + code >= MAX_FILE_BYTES
    ensures Tight(s', i)
  {
    forall u | u in s'.held && u.i == i ensures OnPath(s'.store, i, u) {
      if u !in s.held { TakenSlot(idx, offset, buf, code, s, s', u); }
      if i == idx {
        StillLeads(idx, offset, buf[..code], s, s', u);
      } else {
        var l :| (i, l) in s.store && u in Path(i, l);
        assert WrittenAt(s.store, s'.store, idx, offset, buf[..code], (i, l));
      }
    }
  }

  /** A write that runs out of blocks leaves a slot idle, unless the bytes it stored took the last block. */
  lemma TightShort(idx: int, offset: U32, buf: seq<Byte>, code: int, s: State, s': State)
    requires Sane(s) && Writable(s.ins, idx) && WriteMeans(idx, offset, buf, code, s, s') && Tight(s, idx)
    requires code < |buf| && offset + code < MAX_FILE_BYTES
    ensures Tight(s', idx) <==> s.freeBlocks == |PathsOf(idx, offset, code) - s.held|
  {
    var need := PathsOf(idx, offset, code);
    SameSize(s.held, need, s'.held);
    if Tight(s', idx) { TookNeeded(idx, offset, buf, code, s, s', need); }
    if s'.held == s.held + need { NoneIdle(idx, offset, buf[..code], s, s'); }
  }

  lemma NoneIdle(idx: int, offset: U32, data: seq<Byte>, s: State, s': State)
    requires Tight(s, idx) && Written(s.store, s'.store, idx, offset, data) && s'.held == s.held + PathsOf(idx, offset, |data|)
    ensures Tight(s', idx)
  {
    forall u | u in s'.held && u.i == idx ensures OnPath(s'.store, idx, u) { StillLeads(idx, offset, data, s, s', u); }
  }

  lemma TookNeeded(idx: int, offset: U32, buf: seq<Byte>, code: int, s: State, s': State, need: set<Slot>)
    requires Sane(s) && WriteMeans(idx, offset, buf, code, s, s') && code >= 0 && Tight(s', idx)
    requires need == PathsOf(idx, offset, code) && s.held + need <= s'.held
    ensures s'.held == s.held + need
  {
    forall u | u in s'.held && u !in s.held ensures u in need { IsNeeded(idx, offset, buf, code, s, s', u); }
  }

  lemma SameSize(a: set<Slot>, b: set<Slot>, c: set<Slot>)
    requires a + b <= c
    ensures c == a + b <==> |c| == |a| + |b - a|
  {
    assert a + b == a + (b - a) && |a + b| == |a| + |b - a|;
    assert c == (a + b) + (c - (a + b)) && |c| == |a + b| + |c - (a + b)|;
  }

  /** A slot that was on the way to a mapped block, or is needed for the bytes written, is on the way to one afterwards. */
  lemma StillLeads(idx: int, offset: U32, data: seq<Byte>, s: State, s': State, u: Slot)
    requires Tight(s, idx) && Written(s.store, s'.store, idx, offset, data) && u.i == idx
    requires u in s.held || u in PathsOf(idx, offset, |data|)
    ensures OnPath(s'.store, idx, u)
  {
    if u in s.held {
      var l :| (idx, l) in s.store && u in Path(idx, l);
      assert WrittenAt(s.store, s'.store, idx, offset, data, (idx, l));
    } else {
      PathsOfIs(idx, offset, |data|, u);
      var l :| Touched((idx, l), idx, offset, |data|) && u in Path(idx, l);
      assert WrittenAt(s.store, s'.store, idx, offset, data, (idx, l));
    }
  }

  /** A slot newly in use that leads to a mapped block is needed for the bytes written. */
  lemma IsNeeded(idx: int, offset: U32, buf: seq<Byte>, code: int, s: State, s': State, u: Slot)
    requires Sane(s) && WriteMeans(idx, offset, buf, code, s, s') && code >= 0 && Tight(s', idx) && u in s'.held && u !in s.held
    ensures u in PathsOf(idx, offset, code)
  {
    TakenSlot(idx, offset, buf, code, s, s', u);
    var l :| (idx, l) in s'.store && u in Path(idx, l);
    assert WrittenAt(s.store, s'.store, idx, offset, buf[..code], (idx, l));
    PathsOfIs(idx, offset, code, u);
  }

  /** A slot that a write fills lies on the way to one of its bytes, or to the one at which it ran out. */
  lemma TakenSlot(idx: int, offset: U32, buf: seq<Byte>, code: int, s: State, s': State, u: Slot)
    requires |s.ins| == INODE_MAX && WriteMeans(idx, offset, buf, code, s, s') && code >= 0 && u in s'.held && u !in s.held
    ensures u.i == idx
    ensures code == |buf| || offset + code >= MAX_FILE_BYTES ==> u in PathsOf(idx, offset, code)
  {
    var w := if code == |buf| || offset + code >= MAX_FILE_BYTES then code else code + 1;
    assert u in PathsOf(idx, offset, w);
    PathsOfIs(idx, offset, w, u);
    var l :| Touched((idx, l), idx, offset, w) && u in Path(idx, l);
    PathSlots(idx, l, u);
  }

  /** A surviving level-1 block of a tight inode leads to a block below the cut. */
  lemma LeadsBelow(s: State, i: int, first: int, k: int) returns (l: int)
    requires Tight(s, i) && L1(i, k) in s.held && SurvivesL1(s.store, i, first, k)
    ensures (i, l) in s.store && l < first && DoubleIndex(k, 0) <= l < DoubleIndex(k, PTRS)
  {
    if first >= DoubleIndex(k, PTRS) {
      assert OnPath(s.store, i, L1(i, k));
      l :| (i, l) in s.store && L1(i, k) in Path(i, l);
      PathSlots(i, l, L1(i, k));
    } else {
      l :| DoubleIndex(k, 0) <= l < DoubleIndex(k, PTRS) && l < first && (i, l) in s.store;
    }
  }

  /** Every slot of a tight inode that survives a cut leads to a block that does. */
  lemma SurvivorLeads(s: State, i: int, first: int, u: Slot) returns (l: int)
    requires Sane(s) && Tight(s, i) && u in s.held && u.i == i && Survives(s.held, s.store, i, first, u)
    ensures (i, l) in s.store && l < first && u in Path(i, l)
  {
    if IsLeaf(u) {
      l := Position(u).1;
      LeafOnPath(u);
    } else if u.Ind? {
      l :| DIRECT <= l < DIRECT + PTRS && l < first && (i, l) in s.store;
    } else {
      var k :| 0 <= k < PTRS && L1(i, k) in s.held && SurvivesL1(s.store, i, first, k) && (u == L1(i, k) || u == Dind(i));
      l := LeadsBelow(s, i, first, k);
      LevelOnPath(i, k, l);
    }
  }

  lemma LeafOnPath(u: Slot)
    requires ValidSlot(u) && IsLeaf(u)
    ensures u in Path(Position(u).0, Position(u).1)
  {
    PositionIsInjective(u);
  }

  lemma LevelOnPath(i: int, k: int, l: int)
    requires 0 <= k < PTRS && DoubleIndex(k, 0) <= l < DoubleIndex(k, PTRS)
    ensures L1(i, k) in Path(i, l) && Dind(i) in Path(i, l)
  {
    assert (l - 144) / 128 == k;
  }

  /** A truncate leaves no slot idle. */
  lemma TightTruncate(idx: int, size: U32, code: int, s: State, s': State, i: int)
    requires Sane(s) && TruncateMeans(idx, size, code, s, s') && code >= 0 && Tight(s, i)
    ensures Tight(s', i)
  {
    forall u | u in s'.held && u.i == i ensures OnPath(s'.store, i, u) {
      if i == idx && size < s.ins[i].size {
        var l := SurvivorLeads(s, i, FirstFreed(size), u);
        assert (i, l) in s'.store;
      } else {
        var l :| (i, l) in s.store && u in Path(i, l);
        assert (i, l) in s'.store;
      }
    }
  }

  /** The call is a write to inode `i` that ran out of blocks. */
  predicate RanOut(op: Op, o: Outcome, i: int) {
    op.WriteOp? && op.idx == i && o.Done? && 0 <= o.code < |op.buf| && op.offset + o.code < MAX_FILE_BYTES
  }

  /** Every call keeps an inode tight, but a write to it that runs out of blocks. */
  lemma TightStep(op: Op, o: Outcome, s: State, s': State, i: int)
    requires Sane(s) && StepMeaning(op, o, s, s') && Tight(s, i) && !RanOut(op, o, i)
    ensures Tight(s', i)
  {
    if o.Done? && o.code >= 0 {
      match op
      case WriteOp(idx, offset, buf) => TightWrite(idx, offset, buf, o.code, s, s', i);
      case TruncateOp(idx, size) => TightTruncate(idx, size, o.code, s, s', i);
      case UnlinkOp(idx) => TightUnlink(idx, o.code, s, s', i);
      case _ =>
    }
  }

  lemma TightUnlink(idx: int, code: int, s: State, s': State, i: int)
    requires UnlinkMeans(idx, code, s, s') && code >= 0 && Tight(s, i)
    ensures Tight(s', i)
  {
    forall u | u in s'.held && u.i == i ensures OnPath(s'.store, i, u) {
      var l :| (i, l) in s.store && u in Path(i, l);
      assert (i, l) in s'.store;
    }
  }

  /** Over a run an inode stays tight as long as no write to it runs out of blocks. */
  lemma {:induction false} TightRun(ops: seq<Op>, outcomes: seq<Outcome>, trace: seq<State>, i: int, m: nat, n: nat)
    requires Ran(ops, outcomes, trace) && m <= n <= |ops| && Tight(trace[m], i)
    requires forall k | m <= k < n :: !RanOut(ops[k], outcomes[k], i)
    ensures Tight(trace[n], i)
    decreases n
  {
    if m < n {
      TightRun(ops, outcomes, trace, i, m, n - 1);
      assert RanAt(ops, outcomes, trace, n - 1);
      TightStep(ops[n - 1], outcomes[n - 1], trace[n - 1], trace[n], i);
    }
  }

  /** Where all inodes are tight the disk is free but for block 0, the mapped blocks and the pointer blocks on the way to them. */
  lemma SpaceIsNeeded(s: State, need: set<Slot>)
    requires Sane(s) && (forall i :: Tight(s, i)) && forall u :: u in need <==> exists p | p in s.store :: u in Path(p.0, p.1)
    ensures s.held == need && s.freeBlocks == BLOCKS_MAX - 1 - |need|
  {
    forall u ensures u in s.held <==> u in need {
      if u in s.held {
        assert Tight(s, u.i) && OnPath(s.store, u.i, u);
        var l :| (u.i, l) in s.store && u in Path(u.i, l);
        assert (u.i, l) in s.store && u in Path((u.i, l).0, (u.i, l).1);
      }
    }
  }
}
