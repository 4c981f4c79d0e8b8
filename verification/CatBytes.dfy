/** From blocks to bytes: what reads and writes do to the byte sequence of a file. */
module CatBytes {
  import opened Words
  import opened CatForest
  import opened CatStore

  /** File block `p` holds one of the `n` bytes of inode `i` from `offset` on. */
  predicate Touched(p: (int, int), i: int, offset: int, n: int) {
    p.0 == i && n > 0 && offset < 512 * p.1 + 512 && 512 * p.1 < offset + n
  }

  /** `data` is what the mapped blocks of inode `i` hold from byte `offset` on. */
  ghost predicate ReadsAs(store: Store, i: int, offset: int, data: seq<Byte>) {
    && (forall l | Touched((i, l), i, offset, |data|) :: (i, l) in store)
    && (forall l, o | (i, l) in store && 0 <= o < 512 && offset <= 512 * l + o < offset + |data| ::
          data[512 * l + o - offset] == store[(i, l)][o])
  }

  /** One turn of the read loop, at byte `o` of file block `l`. */
  lemma ReadsAsExtend(store: Store, i: int, offset: int, data: seq<Byte>, l: int, o: int, chunk: int)
    requires ReadsAs(store, i, offset, data) && offset >= 0 && (i, l) in store
    requires 512 * l + o == offset + |data| && 0 <= o < 512 && 0 <= chunk <= 512 - o
    ensures ReadsAs(store, i, offset, data + store[(i, l)][o..o + chunk])
  {
    if chunk > 0 {
      TouchedExtend(i, offset, |data|, l, o, chunk);
    } else {
      assert data + store[(i, l)][o..o + chunk] == data;
    }
  }

  lemma TouchedExtend(i: int, offset: int, n: int, l: int, o: int, more: int)
    requires 0 <= offset && 0 <= n && 512 * l + o == offset + n && 0 <= o < 512 && 0 < more <= 512 - o
    ensures forall p :: Touched(p, i, offset, n + more) <==> Touched(p, i, offset, n) || (p.0 == i && p.1 == l)
  {
  }

  /** The sector `sec` with the bytes from `o` on replaced by `more`. */
  function Patched(sec: Sector, o: int, more: seq<Byte>): (r: Sector)
    requires 0 <= o && o + |more| <= 512
  {
    sec[..o] + more + sec[o + |more|..]
  }

  /** A whole-sector patch does not depend on what was there. */
  lemma PatchedWhole(a: Sector, b: Sector, o: int, more: seq<Byte>)
    requires o == 0 && |more| == 512
    ensures Patched(a, o, more) == Patched(b, o, more)
  {
  }

  /** What writing `data` at byte `offset` of inode `i` does to file block `p`. */
  ghost predicate WrittenAt(store: Store, store': Store, i: int, offset: int, data: seq<Byte>, p: (int, int)) {
    && (p in store' <==> p in store || Touched(p, i, offset, |data|))
    && (p in store && !Touched(p, i, offset, |data|) ==> store'[p] == store[p])
    && (p in store' && Touched(p, i, offset, |data|) ==>
          forall o | 0 <= o < 512 ::
            if offset <= 512 * p.1 + o < offset + |data| then store'[p][o] == data[512 * p.1 + o - offset]
            else p in store ==> store'[p][o] == store[p][o])
  }

  /** `store'` is `store` after `data` was written at byte `offset` of inode `i`:
      the touched blocks are mapped, their bytes are the written ones, and nothing else moved. */
  ghost predicate Written(store: Store, store': Store, i: int, offset: int, data: seq<Byte>) {
    forall p {:trigger WrittenAt(store, store', i, offset, data, p)} :: WrittenAt(store, store', i, offset, data, p)
  }

  lemma WrittenNothing(store: Store, i: int, offset: int, buf: seq<Byte>)
    ensures Written(store, store, i, offset, buf[..0])
  {
  }

  /** One turn of the write loop, at byte `o` of file block `l`. */
  lemma WrittenExtend(store: Store, s1: Store, s2: Store, i: int, offset: int, data: seq<Byte>,
                      l: int, o: int, more: seq<Byte>)
    requires offset >= 0 && Written(store, s1, i, offset, data) && Resolved(s1, s2, i, l, true)
    requires 512 * l + o == offset + |data| && 0 <= o < 512 && 0 < |more| <= 512 - o
    ensures Written(store, s2[(i, l) := Patched(s2[(i, l)], o, more)], i, offset, data + more)
  {
    var s3 := s2[(i, l) := Patched(s2[(i, l)], o, more)];
    TouchedExtend(i, offset, |data|, l, o, |more|);
    forall p
      ensures WrittenAt(store, s3, i, offset, data + more, p)
    {
      assert WrittenAt(store, s1, i, offset, data, p);
    }
  }

  lemma WrittenChunk(store: Store, s1: Store, s2: Store, i: int, offset: int, buf: seq<Byte>, w: int, chunk: int,
                     l: int, o: int)
    requires offset >= 0 && 0 <= w && 0 < chunk && w + chunk <= |buf|
    requires Written(store, s1, i, offset, buf[..w]) && Resolved(s1, s2, i, l, true)
    requires 512 * l + o == offset + w && 0 <= o < 512 && chunk <= 512 - o
    ensures Written(store, s2[(i, l) := Patched(s2[(i, l)], o, buf[w..w + chunk])], i, offset, buf[..w + chunk])
  {
    assert buf[..w] + buf[w..w + chunk] == buf[..w + chunk];
    WrittenExtend(store, s1, s2, i, offset, buf[..w], l, o, buf[w..w + chunk]);
  }

  /** A file without holes: exactly the blocks below its size are mapped. */
  ghost predicate Dense(store: Store, i: int, size: int) {
    forall l :: (i, l) in store <==> 0 <= l && 512 * l < size
  }

  /** The byte sequence a dense file stands for. */
  ghost function Contents(store: Store, i: int, size: int): (c: seq<Byte>)
    requires Dense(store, i, size) && 0 <= size
    ensures |c| == size
    ensures ReadsAs(store, i, 0, c)
  {
    var c := seq(size, p requires 0 <= p < size => ByteAt(store, i, size, p));
    assert forall l, o | (i, l) in store && 0 <= o < 512 && 0 <= 512 * l + o < size :: c[512 * l + o] == store[(i, l)][o];
    c
  }

  ghost function ByteAt(store: Store, i: int, size: int, p: int): (b: Byte)
    requires Dense(store, i, size) && 0 <= p < size
    ensures forall l, o | (i, l) in store && 0 <= o < 512 && 512 * l + o == p :: b == store[(i, l)][o]
  {
    assert 512 * (p / 512) + p % 512 == p;
    store[(i, p / 512)][p % 512]
  }

  /** The reading of a range is determined by the blocks it lies in. */
  lemma ReadsAsUnique(store: Store, i: int, offset: int, c: seq<Byte>, d: seq<Byte>)
    requires 0 <= offset && ReadsAs(store, i, offset, c) && ReadsAs(store, i, offset, d) && |c| == |d|
    ensures c == d
  {
    forall k | 0 <= k < |c|
      ensures c[k] == d[k]
    {
      var l, o := (offset + k) / 512, (offset + k) % 512;
      assert 512 * l + o == offset + k;
      assert c[512 * l + o - offset] == store[(i, l)][o];
    }
  }

  /** `c` with the bytes from `offset` on replaced, or extended, by `d`. */
  function Splice(c: seq<Byte>, offset: int, d: seq<Byte>): (r: seq<Byte>)
    requires 0 <= offset <= |c|
  {
    c[..offset] + d + if offset + |d| < |c| then c[offset + |d|..] else []
  }

  /** Writing within or at the end of a dense file keeps it dense. */
  lemma WrittenDense(store: Store, store': Store, i: int, size: int, offset: int, data: seq<Byte>)
    requires Dense(store, i, size) && 0 <= offset <= size && Written(store, store', i, offset, data)
    ensures Dense(store', i, if offset + |data| > size then offset + |data| else size)
  {
    forall l
      ensures (i, l) in store' <==> 0 <= l && 512 * l < if offset + |data| > size then offset + |data| else size
    {
      assert WrittenAt(store, store', i, offset, data, (i, l));
    }
  }

  lemma WrittenByte(store: Store, store': Store, i: int, size: int, offset: int, data: seq<Byte>, l: int, o: int)
    requires Dense(store, i, size) && 0 <= offset <= size && Written(store, store', i, offset, data)
    requires (i, l) in store' && 0 <= o < 512 && 0 <= 512 * l + o && (512 * l + o < size || 512 * l + o < offset + |data|)
    ensures store'[(i, l)][o] == Splice(Contents(store, i, size), offset, data)[512 * l + o]
  {
    assert WrittenAt(store, store', i, offset, data, (i, l));
    if !(offset <= 512 * l + o < offset + |data|) {
      assert (i, l) in store;
      assert Contents(store, i, size)[512 * l + o - 0] == store[(i, l)][o];
    }
  }

  /** Writing within or at the end of a dense file splices its bytes. */
  lemma WrittenSplices(store: Store, store': Store, i: int, size: int, offset: int, data: seq<Byte>)
    requires Dense(store, i, size) && 0 <= offset <= size && Written(store, store', i, offset, data)
    ensures var size' := if offset + |data| > size then offset + |data| else size;
            Dense(store', i, size') && Contents(store', i, size') == Splice(Contents(store, i, size), offset, data)
  {
    var size' := if offset + |data| > size then offset + |data| else size;
    WrittenDense(store, store', i, size, offset, data);
    SpliceReads(store, store', i, size, offset, data, Splice(Contents(store, i, size), offset, data));
    ReadsAsUnique(store', i, 0, Contents(store', i, size'), Splice(Contents(store, i, size), offset, data));
  }

  lemma SpliceReads(store: Store, store': Store, i: int, size: int, offset: int, data: seq<Byte>, r: seq<Byte>)
    requires Dense(store, i, size) && 0 <= offset <= size && Written(store, store', i, offset, data)
    requires r == Splice(Contents(store, i, size), offset, data)
    ensures |r| == (if offset + |data| > size then offset + |data| else size) && ReadsAs(store', i, 0, r)
  {
    WrittenDense(store, store', i, size, offset, data);
    assert |r| == if offset + |data| > size then offset + |data| else size;
    forall l, o | (i, l) in store' && 0 <= o < 512 && 0 <= 512 * l + o < |r|
      ensures r[512 * l + o] == store'[(i, l)][o]
    {
      WrittenByte(store, store', i, size, offset, data, l, o);
    }
  }

  /** Reading a dense file yields a slice of its bytes. */
  lemma ReadIsSlice(store: Store, i: int, size: int, offset: int, d: seq<Byte>)
    requires Dense(store, i, size) && 0 <= offset && offset + |d| <= size && ReadsAs(store, i, offset, d)
    ensures d == Contents(store, i, size)[offset..offset + |d|]
  {
  }
}
