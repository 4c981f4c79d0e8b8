/** Runs of CatFS refine operations on byte sequences, file by file. */
module CatFiles {
  import opened Words
  import opened CatForest
  import opened CatStore
  import opened CatBytes
  import opened CatNames
  import opened CatFs
  import opened CatRun

  /** Inode `i` is in use and has no holes. */
  ghost predicate Whole(s: State, i: int) {
    Used(s.ins, i) && Dense(s.store, i, s.ins[i].size)
  }

  /** The byte sequence such a file stands for. */
  ghost function BytesOf(s: State, i: int): (c: seq<Byte>)
    requires Whole(s, i)
    ensures |c| == s.ins[i].size
  {
    Contents(s.store, i, s.ins[i].size)
  }

  /** Two views agree on inode `j`. */
  ghost predicate AgreeOn(store: Store, store': Store, j: int) {
    forall l {:trigger (j, l) in store'} :: ((j, l) in store' <==> (j, l) in store) && ((j, l) in store ==> store'[(j, l)] == store[(j, l)])
  }

  /** A file that a call leaves alone keeps its bytes. */
  lemma BytesFrame(s: State, s': State, j: int)
    requires Whole(s, j) && Used(s'.ins, j) && s'.ins[j].size == s.ins[j].size && AgreeOn(s.store, s'.store, j)
    ensures Whole(s', j) && BytesOf(s', j) == BytesOf(s, j)
  {
  }

  // ---- Writing ----

  lemma WrittenElsewhere(store: Store, store': Store, i: int, offset: int, data: seq<Byte>, j: int)
    requires Written(store, store', i, offset, data) && j != i
    ensures AgreeOn(store, store', j)
  {
    forall l
      ensures ((j, l) in store' <==> (j, l) in store) && ((j, l) in store ==> store'[(j, l)] == store[(j, l)])
    {
      assert WrittenAt(store, store', i, offset, data, (j, l));
    }
  }

  /** A write splices its bytes into a file without holes, if it starts within the file or at its end, and leaves all others. */
  lemma WriteBytes(idx: int, offset: U32, buf: seq<Byte>, code: int, s: State, s': State, i: int)
    requires |s.ins| == INODE_MAX && WriteMeans(idx, offset, buf, code, s, s') && code >= 0 && Whole(s, i)
    requires i == idx ==> offset <= s.ins[i].size
    ensures Whole(s', i) && BytesOf(s', i) == if i == idx then Splice(BytesOf(s, i), offset, buf[..code]) else BytesOf(s, i)
  {
    if i == idx {
      SplicedBytes(idx, offset, buf, code, s, s');
    } else {
      WrittenElsewhere(s.store, s'.store, idx, offset, buf[..code], i);
      BytesFrame(s, s', i);
    }
  }

  lemma SplicedBytes(idx: int, offset: U32, buf: seq<Byte>, code: int, s: State, s': State)
    requires |s.ins| == INODE_MAX && WriteMeans(idx, offset, buf, code, s, s') && code >= 0 && Whole(s, idx) && offset <= s.ins[idx].size
    ensures Whole(s', idx) && BytesOf(s', idx) == Splice(BytesOf(s, idx), offset, buf[..code])
  {
    WrittenSplices(s.store, s'.store, idx, s.ins[idx].size, offset, buf[..code]);
  }

  // ---- Truncating ----

  /** A shrinking cut keeps the first `newSize` bytes. */
  lemma CutContents(store: Store, i: int, size: int, newSize: int)
    requires Dense(store, i, size) && 0 <= newSize <= size
    ensures var cut := BelowBlock(store, i, (newSize + 511) / 512);
            Dense(cut, i, newSize) && Contents(cut, i, newSize) == Contents(store, i, size)[..newSize]
  {
  }

  /** A file without holes is no larger than its blocks allow. */
  lemma SizeInRange(s: State, i: int)
    requires Sane(s) && Whole(s, i)
    ensures s.ins[i].size <= MAX_FILE_BYTES
  {
    var last := (s.ins[i].size - 1) / 512;
    assert s.ins[i].size > 0 ==> (i, last) in s.store;
  }

  /** A shrinking truncate, on a file without holes far below the wrap, cuts its bytes and leaves all other files. */
  lemma TruncateBytes(idx: int, size: U32, code: int, s: State, s': State, i: int)
    requires Sane(s) && TruncateMeans(idx, size, code, s, s') && code >= 0 && Whole(s, i)
    requires i == idx ==> size <= s.ins[i].size
    ensures Whole(s', i) && BytesOf(s', i) == if i == idx then BytesOf(s, i)[..size] else BytesOf(s, i)
  {
    if i != idx {
      BytesFrame(s, s', i);
    } else if size < s.ins[i].size {
      SizeInRange(s, i);
      assert FirstFreed(size) == (size + 511) / 512;
      CutContents(s.store, i, s.ins[i].size, size);
    } else {
      assert BytesOf(s, i)[..size] == BytesOf(s, i);
    }
  }

  // ---- Reading ----

  function Min(a: int, b: int): int { if a < b then a else b }

  /** How many bytes a read delivers: up to the end of the file, or of its last block where `offset + len` wraps. */
  function Delivered(size: int, offset: int, len: int): int {
    if offset >= size then 0
    else if offset + len < 0x1_0000_0000 then Min(len, size - offset)
    else Min(len, (size + 511) / 512 * 512 - offset)
  }

  /** The read loop on a file without holes delivers exactly so many bytes. */
  lemma ReadDelivers(store: Store, i: int, size: int, offset: int, len: int, n: int)
    requires Dense(store, i, size) && 0 <= offset < size < 0x1_0000_0000 && 0 <= len < 0x1_0000_0000
    requires var want := if Add32(offset, len) > size then size - offset else len;
             0 <= n <= want && (n < want ==> (i, (offset + n) / 512) !in store)
    requires forall l | offset / 512 <= l && 512 * l < offset + n :: (i, l) in store
    ensures n == Delivered(size, offset, len)
  {
    var want := if Add32(offset, len) > size then size - offset else len;
    var blocks := (size + 511) / 512;
    assert (i, blocks) !in store;
    assert offset + n <= 512 * blocks;
    if n < want {
      assert 512 * ((offset + n) / 512) >= size;
    }
    if offset + len < 0x1_0000_0000 {
      assert want == Min(len, size - offset);
    } else {
      assert want == len > size - offset;
      assert n < want ==> offset + n == 512 * blocks;
    }
  }

  /** The delivered length is the requested one, cut at the end of the file, exactly when `offset + len` stays below 2^32
      or the file ends on a block boundary. */
  lemma ReadLength(size: int, offset: int, len: int)
    requires 0 <= offset < size < 0x1_0000_0000 && 0 <= len < 0x1_0000_0000
    ensures Delivered(size, offset, len) == Min(len, size - offset) <==> offset + len < 0x1_0000_0000 || size % 512 == 0
  {
  }

  lemma ReadPrefix(store: Store, i: int, offset: int, data: seq<Byte>, k: int)
    requires ReadsAs(store, i, offset, data) && 0 <= k <= |data|
    ensures ReadsAs(store, i, offset, data[..k])
  {
  }

  lemma ReadCovers(store: Store, i: int, offset: int, data: seq<Byte>)
    requires ReadsAs(store, i, offset, data)
    ensures forall l | offset / 512 <= l && 512 * l < offset + |data| && |data| > 0 :: (i, l) in store
  {
  }

  /** A read of a file without holes delivers so many bytes, and up to the end of the file the slice asked for. */
  lemma ReadBytes(store: Store, i: int, size: U32, offset: U32, len: U32, data: seq<Byte>)
    requires Dense(store, i, size) && Gathered(store, i, size, offset, len, data)
    ensures |data| == Delivered(size, offset, len)
    ensures offset < size ==>
              var k := Min(|data|, size - offset); data[..k] == Contents(store, i, size)[offset..offset + k]
  {
    if offset < size {
      ReadCovers(store, i, offset, data);
      ReadDelivers(store, i, size, offset, len, |data|);
      var k := Min(|data|, size - offset);
      ReadPrefix(store, i, offset, data, k);
      ReadIsSlice(store, i, size, offset, data[..k]);
    }
  }

  /** A read below the wrap delivers what was asked for, up to the end of the file, exactly if no block on the way is missing. */
  lemma ReadStops(store: Store, i: int, size: U32, offset: U32, len: U32, data: seq<Byte>)
    requires Gathered(store, i, size, offset, len, data) && offset < size && offset + len < 0x1_0000_0000
    ensures |data| == Min(len, size - offset) <==>
            forall l | Touched((i, l), i, offset, Min(len, size - offset)) :: (i, l) in store
  {
  }

  // ---- Holes ----

  /** The end of the last block of a file of this size. */
  function LastBlockEnd(size: int): int { (size + 511) / 512 * 512 }

  /** A write leaves a file without holes exactly if it starts no later than in the block after the last. */
  lemma WholeAfterWrite(idx: int, offset: U32, buf: seq<Byte>, code: int, s: State, s': State)
    requires |s.ins| == INODE_MAX && WriteMeans(idx, offset, buf, code, s, s') && code > 0 && Whole(s, idx)
    ensures Whole(s', idx) <==> offset < LastBlockEnd(s.ins[idx].size) + 512
  {
    var size, size' := MappedAfter(idx, offset, buf, code, s, s');
    if offset >= LastBlockEnd(size) + 512 {
      var l := Gap(size, offset, code);
      assert (idx, l) !in s'.store;
    } else {
      forall l ensures (idx, l) in s'.store <==> 0 <= l && 512 * l < size' { NoGap(size, offset, code, l); }
    }
  }

  lemma MappedAfter(idx: int, offset: U32, buf: seq<Byte>, code: int, s: State, s': State) returns (size: nat, size': nat)
    requires |s.ins| == INODE_MAX && WriteMeans(idx, offset, buf, code, s, s') && code > 0 && Whole(s, idx)
    ensures Used(s'.ins, idx) && size == s.ins[idx].size && size' == s'.ins[idx].size
    ensures size' == if offset + code > size then offset + code else size
    ensures forall l :: (idx, l) in s'.store <==> (0 <= l && 512 * l < size) || (offset < 512 * l + 512 && 512 * l < offset + code)
  {
    size, size' := s.ins[idx].size, s'.ins[idx].size;
    forall l
      ensures (idx, l) in s'.store <==> (0 <= l && 512 * l < size) || (offset < 512 * l + 512 && 512 * l < offset + code)
    {
      assert WrittenAt(s.store, s'.store, idx, offset, buf[..code], (idx, l));
      assert (idx, l) in s.store <==> 0 <= l && 512 * l < size;
    }
  }

  lemma Gap(size: nat, offset: nat, n: nat) returns (l: nat)
    requires n > 0 && offset >= LastBlockEnd(size) + 512
    ensures 512 * l >= size && offset >= 512 * l + 512 && 512 * l < offset + n
  {
    l := (size + 511) / 512;
  }

  lemma NoGap(size: nat, offset: nat, n: nat, l: int)
    requires n > 0 && offset < LastBlockEnd(size) + 512
    ensures (0 <= l && 512 * l < size) || (offset < 512 * l + 512 && 512 * l < offset + n)
            <==> 0 <= l && (512 * l < size || 512 * l < offset + n)
  {
    var last := (size + 511) / 512;
    assert 512 * last < size + 512;
  }

  /** A truncate leaves a file without holes exactly if it does not grow it beyond its last block. */
  lemma WholeAfterTruncate(idx: int, size: U32, code: int, s: State, s': State)
    requires Sane(s) && TruncateMeans(idx, size, code, s, s') && code == 0 && Whole(s, idx)
    ensures Whole(s', idx) <==> size <= LastBlockEnd(s.ins[idx].size)
  {
    if size <= s.ins[idx].size {
      TruncateBytes(idx, size, code, s, s', idx);
    } else if size > LastBlockEnd(s.ins[idx].size) {
      assert (idx, (s.ins[idx].size + 511) / 512) !in s'.store;
    }
  }

  // ---- One call and its effect on one file ----

  /** The call does not write beyond the end of file `i` and does not truncate it to a larger size. */
  predicate InBounds(op: Op, ins: seq<Inode>, i: int) {
    match op
    case WriteOp(idx, offset, _) => idx == i && Used(ins, i) ==> offset <= ins[i].size
    case TruncateOp(idx, size) => idx == i && Used(ins, i) ==> size <= ins[i].size
    case _ => true
  }

  predicate Removes(op: Op, o: Outcome, i: int) {
    op.UnlinkOp? && op.idx == i && o.Done? && o.code == 0
  }

  /** What a call does to the bytes `c` of file `i`. */
  function Effect(op: Op, o: Outcome, i: int, c: seq<Byte>): seq<Byte> {
    if o.Skipped? || o.code < 0 then c
    else if op.WriteOp? && op.idx == i && o.code <= |op.buf| && op.offset <= |c| then Splice(c, op.offset, op.buf[..o.code])
    else if op.TruncateOp? && op.idx == i && op.size <= |c| then c[..op.size]
    else c
  }

  /** Every call does to a file without holes what it does to its bytes. */
  lemma FileStep(op: Op, o: Outcome, s: State, s': State, i: int)
    requires Sane(s) && StepMeaning(op, o, s, s') && Whole(s, i) && InBounds(op, s.ins, i) && !Removes(op, o, i)
    ensures Whole(s', i) && BytesOf(s', i) == Effect(op, o, i, BytesOf(s, i))
  {
    if o.Done? && o.code >= 0 {
      match op
      case WriteOp(idx, offset, buf) => WriteBytes(idx, offset, buf, o.code, s, s', i);
      case TruncateOp(idx, size) => TruncateBytes(idx, size, o.code, s, s', i);
      case _ => BytesFrame(s, s', i);
    }
  }

  /** A read delivers the bytes of a file without holes. */
  lemma FileRead(idx: int, offset: U32, len: U32, code: int, data: seq<Byte>, s: State, s': State)
    requires ReadMeans(idx, offset, len, code, data, s, s') && Whole(s, idx)
    ensures var c := BytesOf(s, idx);
      && code == |data| == Delivered(|c|, offset, len)
      && (offset < |c| ==> var k := Min(code, |c| - offset); data[..k] == c[offset..offset + k])
  {
    ReadBytes(s.store, idx, s.ins[idx].size, offset, len, data);
  }

  /** A new file has no bytes. */
  lemma FileBorn(op: Op, o: Outcome, s: State, s': State)
    requires Sane(s) && StepMeaning(op, o, s, s') && op.CreateOp? && o.Done? && o.code >= 0
    ensures !Used(s.ins, o.code) && Whole(s', o.code) && BytesOf(s', o.code) == []
  {
    assert forall l :: (o.code, l) !in s.store;
  }

  // ---- Runs ----

  /** What a sequence of calls does to the bytes of file `i`. */
  function Replay(ops: seq<Op>, outcomes: seq<Outcome>, i: int, c: seq<Byte>): seq<Byte>
    requires |ops| == |outcomes|
  {
    if ops == [] then c
    else
      var n := |ops| - 1;
      Effect(ops[n], outcomes[n], i, Replay(ops[..n], outcomes[..n], i, c))
  }

  /** Over any part of a run that stays in bounds for file `i` and does not remove it, its bytes are those the calls produce. */
  lemma {:induction false} FileRun(ops: seq<Op>, outcomes: seq<Outcome>, trace: seq<State>, i: int, m: nat, n: nat)
    requires Ran(ops, outcomes, trace) && m <= n <= |ops| && Whole(trace[m], i)
    requires forall k | m <= k < n :: InBounds(ops[k], trace[k].ins, i) && !Removes(ops[k], outcomes[k], i)
    ensures Whole(trace[n], i) && BytesOf(trace[n], i) == Replay(ops[m..n], outcomes[m..n], i, BytesOf(trace[m], i))
    decreases n
  {
    if m < n {
      FileRun(ops, outcomes, trace, i, m, n - 1);
      assert RanAt(ops, outcomes, trace, n - 1);
      FileStep(ops[n - 1], outcomes[n - 1], trace[n - 1], trace[n], i);
      ReplayNext(ops, outcomes, i, BytesOf(trace[m], i), m, n);
    }
  }

  lemma {:induction false} ReplayNext(ops: seq<Op>, outcomes: seq<Outcome>, i: int, c: seq<Byte>, m: nat, n: nat)
    requires |ops| == |outcomes| && m < n <= |ops|
    ensures Replay(ops[m..n], outcomes[m..n], i, c) ==
            Effect(ops[n - 1], outcomes[n - 1], i, Replay(ops[m..n - 1], outcomes[m..n - 1], i, c))
  {
    var os, us := ops[m..n], outcomes[m..n];
    assert os[..|os| - 1] == ops[m..n - 1] && us[..|os| - 1] == outcomes[m..n - 1];
  }
}
