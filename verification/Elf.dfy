/** Loading an ELF64 executable into a user address space, page by page. */
module Elf {
  import opened Words

  const PAGE_SIZE := 0x1000
  const USER_BASE := 0x4000_0000
  const STACK_TOP := 0x47FF_F000
  const MOD64 := 0x1_0000_0000_0000_0000

  type Page = p: seq<Byte> | |p| == 0x1000 witness Zeros(0x1000)

  // ---- Headers ----

  function Le16(s: seq<Byte>): int
    requires |s| == 2
  {
    s[0] as int + 0x100 * s[1] as int
  }

  datatype Segment = Segment(kind: nat, offset: nat, vaddr: nat, filesz: nat, memsz: nat)

  predicate Native(f: seq<Byte>) {
    && |f| >= 64
    && f[..4] == [0x7F, 0x45, 0x4C, 0x46] && f[4] == 2 && f[5] == 1 && f[6] == 1
    && Le16(f[18..20]) == 62 && Le16(f[16..18]) == 2
    && Le16(f[52..54]) == 64 && Le16(f[54..56]) == 56 && Le16(f[56..58]) > 0
  }

  function Count(f: seq<Byte>): int requires Native(f) { Le16(f[56..58]) }
  function Entry(f: seq<Byte>): int requires Native(f) { Le64(f[24..32]) }
  function HeaderOffset(f: seq<Byte>): int requires Native(f) { Le64(f[32..40]) }

  predicate HeadersInside(f: seq<Byte>) {
    Native(f) && HeaderOffset(f) <= |f| && Count(f) * 56 <= |f| - HeaderOffset(f)
  }

  /** Program header `i`. */
  function SegmentAt(f: seq<Byte>, i: nat): (s: Segment)
    requires HeadersInside(f) && i < Count(f)
    ensures s.vaddr < MOD64 && s.memsz < MOD64
  {
    var o := HeaderOffset(f) + i * 56;
    assert o + 56 <= |f| by { Fits(i, Count(f)); }
    Segment(Le32(f[o..o + 4]), Le64(f[o + 8..o + 16]), Le64(f[o + 16..o + 24]), Le64(f[o + 32..o + 40]), Le64(f[o + 40..o + 48]))
  }

  lemma Fits(i: nat, n: nat)
    requires i < n
    ensures i * 56 + 56 <= n * 56
  {
  }

  function Put16(v: nat): (s: seq<Byte>)
    requires v < 0x1_0000
    ensures |s| == 2 && Le16(s) == v
  {
    [v % 0x100, v / 0x100]
  }

  /** A program header laid out field by field. */
  function HeaderBytes(kind: nat, flags: nat, offset: nat, vaddr: nat, paddr: nat, filesz: nat, memsz: nat, align: nat): (h: seq<Byte>)
    requires kind < 0x1_0000_0000 && flags < 0x1_0000_0000 && offset < MOD64 && vaddr < MOD64 && paddr < MOD64
    requires filesz < MOD64 && memsz < MOD64 && align < MOD64
    ensures |h| == 56
  {
    Put32(kind) + Put32(flags) + Put64(offset) + Put64(vaddr) + Put64(paddr) + Put64(filesz) + Put64(memsz) + Put64(align)
  }

  /** It is read back field by field. */
  lemma SegmentReads(f: seq<Byte>, i: nat, kind: nat, flags: nat, offset: nat, vaddr: nat, paddr: nat, filesz: nat, memsz: nat, align: nat)
    requires kind < 0x1_0000_0000 && flags < 0x1_0000_0000 && offset < MOD64 && vaddr < MOD64 && paddr < MOD64
    requires filesz < MOD64 && memsz < MOD64 && align < MOD64
    requires HeadersInside(f) && i < Count(f)
    requires var o := HeaderOffset(f) + 56 * i; o + 56 <= |f| && f[o..o + 56] == HeaderBytes(kind, flags, offset, vaddr, paddr, filesz, memsz, align)
    ensures SegmentAt(f, i) == Segment(kind, offset, vaddr, filesz, memsz)
  {
    var o := HeaderOffset(f) + 56 * i;
    Fields(Put32(kind), Put32(flags), Put64(offset), Put64(vaddr), Put64(paddr), Put64(filesz), Put64(memsz), Put64(align), f[o..o + 56]);
    Inner(f, o, 0, 4);
    Inner(f, o, 8, 16);
    Inner(f, o, 16, 24);
    Inner(f, o, 32, 40);
    Inner(f, o, 40, 48);
  }

  lemma Inner(f: seq<Byte>, o: nat, a: nat, b: nat)
    requires a <= b <= 56 && o + 56 <= |f|
    ensures f[o..o + 56][a..b] == f[o + a..o + b]
  {
    var x, y := f[o..o + 56][a..b], f[o + a..o + b];
    assert forall k | 0 <= k < |x| :: x[k] == y[k];
  }

  lemma Fields(a: seq<Byte>, b: seq<Byte>, c: seq<Byte>, d: seq<Byte>, e: seq<Byte>, g: seq<Byte>, m: seq<Byte>, n: seq<Byte>, h: seq<Byte>)
    requires |a| == |b| == 4 && |c| == |d| == |e| == |g| == |m| == |n| == 8 && h == a + b + c + d + e + g + m + n
    ensures h[..4] == a && h[8..16] == c && h[16..24] == d && h[32..40] == g && h[40..48] == m
  {
  }

  /** A file header laid out field by field: what is asked of it, and where entry point and program headers are read from. */
  lemma FileHeaderReads(f: seq<Byte>, magic: seq<Byte>, bits: Byte, order: Byte, ident: Byte, pad: seq<Byte>, kind: nat, machine: nat,
                        version: seq<Byte>, entry: nat, phoff: nat, shoff: seq<Byte>, flags: seq<Byte>, size: nat, phsize: nat, phnum: nat,
                        rest: seq<Byte>)
    requires |magic| == 4 && |pad| == 9 && kind < 0x1_0000 && machine < 0x1_0000 && |version| == 4 && entry < MOD64 && phoff < MOD64
    requires |shoff| == 8 && |flags| == 4 && size < 0x1_0000 && phsize < 0x1_0000 && phnum < 0x1_0000 && |rest| >= 6
    requires f == magic + [bits, order, ident] + pad + Put16(kind) + Put16(machine) + version + Put64(entry) + Put64(phoff) + shoff + flags
                  + Put16(size) + Put16(phsize) + Put16(phnum) + rest
    ensures Native(f) <==> magic == [0x7F, 0x45, 0x4C, 0x46] && bits == 2 && order == 1 && ident == 1 && kind == 2 && machine == 62
                           && size == 64 && phsize == 56 && phnum > 0
    ensures Native(f) ==> Entry(f) == entry && HeaderOffset(f) == phoff && Count(f) == phnum
  {
    var start := magic + [bits, order, ident] + pad + Put16(kind) + Put16(machine) + version + Put64(entry) + Put64(phoff);
    StartFields(magic, [bits, order, ident], pad, Put16(kind), Put16(machine), version, Put64(entry), Put64(phoff), start);
    EndFields(start, shoff, flags, Put16(size), Put16(phsize), Put16(phnum), rest, f);
    FirstBytes(start, f);
  }

  /** Where the fields of a file header begin and end. */
  lemma StartFields(a: seq<Byte>, b: seq<Byte>, c: seq<Byte>, d: seq<Byte>, e: seq<Byte>, g: seq<Byte>, h: seq<Byte>, i: seq<Byte>, f: seq<Byte>)
    requires |a| == 4 && |b| == 3 && |c| == 9 && |d| == |e| == 2 && |g| == 4 && |h| == |i| == 8
    requires f == a + b + c + d + e + g + h + i
    ensures |f| == 40 && f[..4] == a && f[4] == b[0] && f[5] == b[1] && f[6] == b[2]
    ensures f[16..18] == d && f[18..20] == e && f[24..32] == h && f[32..40] == i
  {
  }

  lemma EndFields(a: seq<Byte>, j: seq<Byte>, k: seq<Byte>, l: seq<Byte>, m: seq<Byte>, n: seq<Byte>, o: seq<Byte>, f: seq<Byte>)
    requires |a| == 40 && |j| == 8 && |k| == 4 && |l| == |m| == |n| == 2
    requires f == a + j + k + l + m + n + o
    ensures |f| == 58 + |o| && a == f[..40] && f[52..54] == l && f[54..56] == m && f[56..58] == n
  {
  }

  lemma FirstBytes(a: seq<Byte>, f: seq<Byte>)
    requires |f| >= 40 && a == f[..40]
    ensures forall x, y | 0 <= x <= y <= 40 :: a[x..y] == f[x..y]
  {
  }

  /** A segment that occupies memory. */
  predicate Loads(s: Segment) { s.kind == 1 && s.memsz != 0 }

  /** A loadable segment lies inside the file and inside the user window. */
  predicate Fitting(f: seq<Byte>, s: Segment) {
    && s.filesz <= s.memsz && s.offset <= |f| && s.filesz <= |f| - s.offset
    && USER_BASE <= s.vaddr && s.vaddr + s.memsz <= STACK_TOP
  }

  predicate Covers(s: Segment, a: int) { Loads(s) && s.vaddr <= a < s.vaddr + s.memsz }

  /** The byte a segment puts at an address: file contents, then zeros. */
  function SegmentByte(f: seq<Byte>, s: Segment, a: int): nat
    requires Fitting(f, s) && Covers(s, a)
  {
    if a - s.vaddr < s.filesz then f[s.offset + (a - s.vaddr)] as int else 0
  }

  /** What the first `n` headers say about an address: the last segment that covers it decides; -1 for none. */
  function Image(f: seq<Byte>, segs: seq<Segment>, n: nat, a: int): (v: int)
    requires n <= |segs| && forall i | 0 <= i < n && Loads(segs[i]) :: Fitting(f, segs[i])
    ensures v == -1 <==> forall i | 0 <= i < n :: !Covers(segs[i], a)
  {
    if n == 0 then -1
    else if Covers(segs[n - 1], a) then SegmentByte(f, segs[n - 1], a)
    else Image(f, segs, n - 1, a)
  }

  ghost predicate Disjoint(segs: seq<Segment>) {
    forall i, j, a | 0 <= i < j < |segs| && Covers(segs[i], a) :: !Covers(segs[j], a)
  }

  /** The last segment that covers an address decides: a byte of the file, or zero behind them. */
  lemma {:induction false} LastDecides(f: seq<Byte>, segs: seq<Segment>, n: nat, i: nat, a: int)
    requires i < n <= |segs| && forall k | 0 <= k < |segs| && Loads(segs[k]) :: Fitting(f, segs[k])
    requires Covers(segs[i], a) && forall k | i < k < n :: !Covers(segs[k], a)
    ensures var o := a - segs[i].vaddr; Image(f, segs, n, a) == if o < segs[i].filesz then f[segs[i].offset + o] as int else 0
  {
    if i < n - 1 { LastDecides(f, segs, n - 1, i, a); }
  }

  /** For segments that do not overlap the image is, segment by segment, the file's bytes and then zeros. */
  lemma {:induction false} DisjointImage(f: seq<Byte>, segs: seq<Segment>, n: nat, i: nat, a: int)
    requires i < n <= |segs| && forall k | 0 <= k < |segs| && Loads(segs[k]) :: Fitting(f, segs[k])
    requires Disjoint(segs) && Covers(segs[i], a)
    ensures Image(f, segs, n, a) == SegmentByte(f, segs[i], a)
  {
    LastDecides(f, segs, n, i, a);
  }

  function Segments(f: seq<Byte>, n: nat): (segs: seq<Segment>)
    requires HeadersInside(f) && n <= Count(f)
    ensures |segs| == n && forall i | 0 <= i < n :: segs[i] == SegmentAt(f, i)
  {
    if n == 0 then [] else Segments(f, n - 1) + [SegmentAt(f, n - 1)]
  }

  /** What a file must satisfy to be loaded. */
  predicate Loadable(f: seq<Byte>) {
    && HeadersInside(f)
    && (forall i | 0 <= i < Count(f) && Loads(SegmentAt(f, i)) :: Fitting(f, SegmentAt(f, i)))
    && (exists i | 0 <= i < Count(f) :: Loads(SegmentAt(f, i)))
    && USER_BASE <= Entry(f) < STACK_TOP
  }

  // ---- Address spaces ----

  function PageOf(a: int): int { a / 0x1000 }

  /** Different pages have different frames. */
  predicate Injective(table: map<int, int>, n: nat) {
    && (forall p | p in table :: 0 <= table[p] < n)
    && forall p, q | p in table && q in table && p != q :: table[p] != table[q]
  }

  /** The byte a program sees at an address, -1 where nothing is mapped. */
  function Look(table: map<int, int>, frames: seq<Page>, a: int): (v: int)
    requires Injective(table, |frames|)
  {
    if PageOf(a) in table then frames[table[PageOf(a)]][a % 0x1000] as int else -1
  }

  function Patch(page: Page, o: nat, src: seq<Byte>): (r: Page)
    requires o + |src| <= 0x1000
    ensures forall k | 0 <= k < 0x1000 :: r[k] == if o <= k < o + |src| then src[k - o] else page[k]
  {
    page[..o] + src + page[o + |src|..]
  }

  /** Patching the frame of one page changes what is seen there and nowhere else. */
  lemma {:induction false} PatchSeen(table: map<int, int>, frames: seq<Page>, va: int, src: seq<Byte>, a: int)
    requires Injective(table, |frames|) && PageOf(va) in table && va % 0x1000 + |src| <= 0x1000
    ensures var f := table[PageOf(va)];
      Look(table, frames[f := Patch(frames[f], va % 0x1000, src)], a)
      == if va <= a < va + |src| then src[a - va] as int else Look(table, frames, a)
  {
  }

  /** Page `p` holds part of a segment. */
  predicate Touches(s: Segment, p: int) { Loads(s) && PageOf(s.vaddr) <= p <= PageOf(s.vaddr + s.memsz - 1) }

  /** No pages have been mapped but those of `extra` and those that hold part of one of the first `n` segments. */
  ghost predicate OnlyPages(segs: seq<Segment>, n: nat, table0: map<int, int>, table: map<int, int>, extra: set<int>)
    requires n <= |segs|
  {
    forall p | p in table && p !in table0 :: p in extra || exists i | 0 <= i < n :: Touches(segs[i], p)
  }

  lemma OnlyPagesNext(segs: seq<Segment>, n: nat, table0: map<int, int>, table: map<int, int>, table': map<int, int>)
    requires n < |segs| && OnlyPages(segs, n, table0, table, {}) && forall p | p in table' && p !in table :: Touches(segs[n], p)
    ensures OnlyPages(segs, n + 1, table0, table', {})
  {
    forall p | p in table' && p !in table0 ensures exists i | 0 <= i < n + 1 :: Touches(segs[i], p) {
      if p !in table { assert Touches(segs[n], p); }
    }
  }

  datatype Outcome = Rejected | OutOfMemory | Loaded(entry: nat, base: nat, end: nat, stackTop: nat)

  /** The lowest address and the end of the memory of the first `n` segments, exactly. */
  predicate Bounds(segs: seq<Segment>, n: nat, base: nat, end: nat)
    requires n <= |segs|
  {
    && (forall i | 0 <= i < n && Loads(segs[i]) :: base <= segs[i].vaddr && segs[i].vaddr + segs[i].memsz <= end)
    && (exists i | 0 <= i < n :: Loads(segs[i]) && segs[i].vaddr == base)
    && (exists i | 0 <= i < n :: Loads(segs[i]) && segs[i].vaddr + segs[i].memsz == end)
  }

  predicate AllFitting(f: seq<Byte>, segs: seq<Segment>, n: nat)
    requires n <= |segs|
  {
    forall i | 0 <= i < n && Loads(segs[i]) :: Fitting(f, segs[i])
  }

  predicate SomeLoads(segs: seq<Segment>, n: nat)
    requires n <= |segs|
  {
    exists i | 0 <= i < n :: Loads(segs[i])
  }

  /** Widening the bounds by one more segment. */
  lemma {:induction false} BoundsStep(segs: seq<Segment>, n: nat, base: nat, end: nat)
    requires n < |segs| && Loads(segs[n]) && segs[n].vaddr + segs[n].memsz < MOD64
    requires if SomeLoads(segs, n) then Bounds(segs, n, base, end) else base == MOD64 - 1 && end == 0
    ensures var s := segs[n];
      Bounds(segs, n + 1, if s.vaddr < base then s.vaddr else base, if s.vaddr + s.memsz > end then s.vaddr + s.memsz else end)
  {
  }

  lemma Wraps(a: nat, b: nat)
    requires a < MOD64 && b < MOD64
    ensures (a + b) % MOD64 == if a + b < MOD64 then a + b else a + b - MOD64
  {
  }

  class Space {
    var table: map<int, int>
    var frames: seq<Page>
    /** Whether an allocation has been refused. */
    ghost var starved: bool

    ghost predicate Valid()
      reads this
    {
      Injective(table, |frames|)
    }

    ghost function At(a: int): int
      requires Valid()
      reads this
    {
      Look(table, frames, a)
    }

    constructor ()
      ensures Valid() && table == map[] && !starved
    {
      table, frames, starved := map[], [], false;
    }

    /** Maps a page to a fresh frame of unknown contents, unless it is mapped; memory may run out. */
    method MapPage(va: int) returns (ok: bool)
      requires Valid()
      modifies this
      ensures Valid() && table.Keys == old(table).Keys + if ok then {PageOf(va)} else {}
      ensures forall a | PageOf(a) in old(table) :: At(a) == old(At(a))
      ensures starved == (old(starved) || !ok)
    {
      if PageOf(va) in table { return true; }
      ok := *;
      if !ok {
        starved := true;
        return;
      }
      var page: Page := *;
      table := table[PageOf(va) := |frames|];
      frames := frames + [page];
    }

    /** Copies bytes through the page table; fails exactly when it meets an unmapped page. */
    method CopyTo(start: int, bytes: seq<Byte>) returns (ok: bool)
      requires Valid()
      modifies this`frames
      ensures Valid()
      ensures ok <==> forall a | start <= a < start + |bytes| :: PageOf(a) in table
      ensures ok ==> forall a :: At(a) == if start <= a < start + |bytes| then bytes[a - start] as int else old(At(a))
      ensures forall a | a < start || a >= start + |bytes| :: At(a) == old(At(a))
    {
      var va, n := start, |bytes|;
      while n > 0
        invariant 0 <= n <= |bytes| && va == start + (|bytes| - n) && Valid()
        invariant forall a :: At(a) == if start <= a < va then bytes[a - start] as int else old(At(a))
        invariant forall a | start <= a < va :: PageOf(a) in table
      {
        if PageOf(va) !in table { return false; }
        var room := 0x1000 - va % 0x1000;
        var take := if n < room then n else room;
        PutChunk(va, bytes[va - start..va - start + take]);
        assert forall a | va <= a < va + take :: PageOf(a) == PageOf(va);
        va, n := va + take, n - take;
      }
      return true;
    }

    method PutChunk(va: int, src: seq<Byte>)
      requires Valid() && PageOf(va) in table && va % 0x1000 + |src| <= 0x1000
      modifies this`frames
      ensures Valid() && |frames| == |old(frames)|
      ensures forall a :: At(a) == if va <= a < va + |src| then src[a - va] as int else old(At(a))
    {
      var f := table[PageOf(va)];
      forall a
        ensures Look(table, frames[f := Patch(frames[f], va % 0x1000, src)], a)
                == if va <= a < va + |src| then src[a - va] as int else Look(table, frames, a)
      {
        PatchSeen(table, frames, va, src, a);
      }
      frames := frames[f := Patch(frames[f], va % 0x1000, src)];
    }

    /** Zeroes bytes through the page table; fails exactly when it meets an unmapped page. */
    method ZeroAt(start: int, count: nat) returns (ok: bool)
      requires Valid()
      modifies this`frames
      ensures Valid()
      ensures ok <==> forall a | start <= a < start + count :: PageOf(a) in table
      ensures ok ==> forall a :: At(a) == if start <= a < start + count then 0 else old(At(a))
      ensures forall a | a < start || a >= start + count :: At(a) == old(At(a))
    {
      var va, n := start, count;
      while n > 0
        invariant 0 <= n <= count && va == start + (count - n) && Valid()
        invariant forall a :: At(a) == if start <= a < va then 0 else old(At(a))
        invariant forall a | start <= a < va :: PageOf(a) in table
      {
        if PageOf(va) !in table { return false; }
        var room := 0x1000 - va % 0x1000;
        var take := if n < room then n else room;
        PutChunk(va, Zeros(take));
        assert forall a | va <= a < va + take :: PageOf(a) == PageOf(va);
        va, n := va + take, n - take;
      }
      return true;
    }

    /** Maps every page of a range of addresses, first to last. */
    method MapRange(start: nat, end: nat) returns (ok: bool)
      requires Valid() && start < end
      modifies this
      ensures Valid() && old(table).Keys <= table.Keys
      ensures forall a | PageOf(a) in old(table) :: At(a) == old(At(a))
      ensures ok ==> forall a | start <= a < end :: PageOf(a) in table
      ensures forall p | p in table && p !in old(table) :: PageOf(start) <= p <= PageOf(end - 1)
      ensures starved == (old(starved) || !ok)
    {
      var page, last := start - start % 0x1000, (end - 1) - (end - 1) % 0x1000;
      ghost var first := PageOf(start);
      ok := MapPage(page);
      if !ok { return; }
      while page != last
        invariant Valid() && old(table).Keys <= table.Keys && starved == old(starved) && ok
        invariant page == 0x1000 * PageOf(page) && first <= PageOf(page) && page <= last
        invariant forall a | PageOf(a) in old(table) :: At(a) == old(At(a))
        invariant forall p | first <= p <= PageOf(page) :: p in table
        invariant forall p | p in table && p !in old(table) :: first <= p <= PageOf(page)
        decreases last - page
      {
        page := page + 0x1000;
        ok := MapPage(page);
        if !ok { return; }
      }
    }

    /** Maps, fills and clears one segment. */
    method LoadSegment(f: seq<Byte>, s: Segment) returns (ok: bool)
      requires Valid() && Loads(s) && Fitting(f, s)
      modifies this
      ensures Valid() && old(table).Keys <= table.Keys && starved == (old(starved) || !ok)
      ensures ok ==> forall a | Covers(s, a) :: At(a) == SegmentByte(f, s, a)
      ensures ok ==> forall a | !Covers(s, a) && PageOf(a) in old(table) :: At(a) == old(At(a))
      ensures forall p | p in table && p !in old(table) :: Touches(s, p)
    {
      ok := MapRange(s.vaddr, s.vaddr + s.memsz);
      if !ok { return; }
      ok := CopyTo(s.vaddr, f[s.offset..s.offset + s.filesz]);
      assert ok;
      ok := ZeroAt(s.vaddr + s.filesz, s.memsz - s.filesz);
    }

    /** Memory shows the image of the first `n` segments and, outside it, what was there before. */
    ghost predicate Shows(f: seq<Byte>, segs: seq<Segment>, n: nat, table0: map<int, int>, frames0: seq<Page>)
      requires Valid() && n <= |segs| && AllFitting(f, segs, n) && Injective(table0, |frames0|)
      reads this
    {
      && table0.Keys <= table.Keys
      && (forall a {:trigger At(a)} | Image(f, segs, n, a) != -1 :: At(a) == Image(f, segs, n, a))
      && (forall a {:trigger At(a)} | Image(f, segs, n, a) == -1 && PageOf(a) in table0 :: At(a) == Look(table0, frames0, a))
    }

    /** One header: skipped, refused, or loaded. */
    method LoadNext(f: seq<Byte>, ghost segs: seq<Segment>, i: nat, s: Segment, ghost table0: map<int, int>, ghost frames0: seq<Page>) returns (ok: bool)
      requires Valid() && i < |segs| && s == segs[i] && Loads(s) && Fitting(f, s) && AllFitting(f, segs, i)
      requires Injective(table0, |frames0|) && Shows(f, segs, i, table0, frames0)
      modifies this
      ensures Valid() && starved == (old(starved) || !ok)
      ensures ok ==> AllFitting(f, segs, i + 1) && Shows(f, segs, i + 1, table0, frames0)
      ensures forall p | p in table && p !in old(table) :: Touches(s, p)
    {
      ok := LoadSegment(f, s);
      if ok {
        forall a ensures
          (Image(f, segs, i + 1, a) != -1 ==> At(a) == Image(f, segs, i + 1, a))
          && (Image(f, segs, i + 1, a) == -1 && PageOf(a) in table0 ==> At(a) == Look(table0, frames0, a))
        {
          if !Covers(s, a) {
            assert Image(f, segs, i + 1, a) == Image(f, segs, i, a);
            assert old(At(a)) == Look(old(table), old(frames), a);
          }
        }
      }
    }

    /** What the loader knows after `n` headers; stated so that it is passed on without unfolding. */
    ghost predicate Progress(f: seq<Byte>, segs: seq<Segment>, n: nat, base: nat, end: nat, table0: map<int, int>, frames0: seq<Page>)
      reads this
    {
      forall u: bool {:trigger ProgressAt(f, segs, n, base, end, table0, frames0, u)} :: ProgressAt(f, segs, n, base, end, table0, frames0, u)
    }

    ghost predicate ProgressAt(f: seq<Byte>, segs: seq<Segment>, n: nat, base: nat, end: nat, table0: map<int, int>, frames0: seq<Page>, u: bool)
      reads this
    {
      && Valid() && n <= |segs| && Injective(table0, |frames0|)
      && AllFitting(f, segs, n) && Shows(f, segs, n, table0, frames0)
      && if SomeLoads(segs, n) then Bounds(segs, n, base, end) else base == MOD64 - 1 && end == 0
    }

    lemma NoProgress(f: seq<Byte>, segs: seq<Segment>)
      requires Valid()
      ensures Progress(f, segs, 0, MOD64 - 1, 0, table, frames) && OnlyPages(segs, 0, table, table, {})
    {
    }

    /** One header: skipped, refused, or loaded. */
    method LoadHeader(f: seq<Byte>, ghost segs: seq<Segment>, i: nat, s: Segment, base: nat, end: nat,
                      ghost table0: map<int, int>, ghost frames0: seq<Page>) returns (r: Outcome, base': nat, end': nat)
      requires i < |segs| && s == segs[i] && s.vaddr < MOD64 && s.memsz < MOD64
      requires Progress(f, segs, i, base, end, table0, frames0) && OnlyPages(segs, i, table0, table, {})
      modifies this
      ensures Valid() && starved == (old(starved) || r.OutOfMemory?)
      ensures r.Rejected? <==> Loads(s) && !Fitting(f, s)
      ensures r.Loaded? ==> Progress(f, segs, i + 1, base', end', table0, frames0) && OnlyPages(segs, i + 1, table0, table, {})
    {
      base', end' := base, end;
      assert ProgressAt(f, segs, i, base, end, table0, frames0, true);
      if Loads(s) {
        if s.filesz > s.memsz || s.offset > |f| || s.filesz > |f| - s.offset { return Rejected, base, end; }
        var segEnd := (s.vaddr + s.memsz) % MOD64;
        Wraps(s.vaddr, s.memsz);
        if segEnd < s.vaddr || s.vaddr < USER_BASE || segEnd > STACK_TOP { return Rejected, base, end; }
        var ok := LoadNext(f, segs, i, s, table0, frames0);
        if !ok { return OutOfMemory, base, end; }
        BoundsStep(segs, i, base, end);
        if s.vaddr < base { base' := s.vaddr; }
        if segEnd > end { end' := segEnd; }
      } else {
        Skipped(f, segs, i);
      }
      OnlyPagesNext(segs, i, table0, old(table), table);
      r := Loaded(0, base', end', 0);
    }

    /** Walks the program headers. */
    method LoadAll(f: seq<Byte>, segs: seq<Segment>) returns (r: Outcome, base: nat, end: nat)
      requires Valid() && Wide(segs)
      modifies this
      ensures Valid() && starved == (old(starved) || r.OutOfMemory?)
      ensures r.Rejected? ==> !AllFitting(f, segs, |segs|)
      ensures r.Loaded? ==> Progress(f, segs, |segs|, base, end, old(table), old(frames)) && OnlyPages(segs, |segs|, old(table), table, {})
      ensures r.Loaded? ==> AllFitting(f, segs, |segs|)
    {
      base, end := MOD64 - 1, 0;
      var i := 0;
      r := Loaded(0, 0, 0, 0);
      NoProgress(f, segs);
      while i < |segs|
        invariant 0 <= i <= |segs| && starved == old(starved) && r.Loaded? && Valid()
        invariant Progress(f, segs, i, base, end, old(table), old(frames)) && OnlyPages(segs, i, old(table), table, {})
      {
        r, base, end := LoadHeader(f, segs, i, segs[i], base, end, old(table), old(frames));
        if !r.Loaded? { return; }
        i := i + 1;
      }
      assert ProgressAt(f, segs, i, base, end, old(table), old(frames), true);
    }

    /** The stack page, after which a successful load is complete. */
    method Finish(f: seq<Byte>, ghost segs: seq<Segment>, entry: nat, base: nat, end: nat,
                  ghost table0: map<int, int>, ghost frames0: seq<Page>) returns (r: Outcome)
      requires Progress(f, segs, |segs|, base, end, table0, frames0) && OnlyPages(segs, |segs|, table0, table, {})
      modifies this
      ensures Valid() && starved == (old(starved) || r.OutOfMemory?)
      ensures r.Rejected? <==> !SomeLoads(segs, |segs|) || !(USER_BASE <= entry < STACK_TOP)
      ensures r.Loaded? ==> r == Loaded(entry, base, end, STACK_TOP + PAGE_SIZE) && PageOf(STACK_TOP) in table
                            && Progress(f, segs, |segs|, base, end, table0, frames0)
                            && OnlyPages(segs, |segs|, table0, table, {PageOf(STACK_TOP)})
    {
      assert ProgressAt(f, segs, |segs|, base, end, table0, frames0, true);
      var none := end == 0;
      assert none == !SomeLoads(segs, |segs|);
      if none || entry < USER_BASE || entry >= STACK_TOP { return Rejected; }
      var ok := MapPage(STACK_TOP);
      if !ok { return OutOfMemory; }
      forall a | Image(f, segs, |segs|, a) != -1 ensures At(a) == Image(f, segs, |segs|, a) {
        assert old(At(a)) == Image(f, segs, |segs|, a);
      }
      forall a | Image(f, segs, |segs|, a) == -1 && PageOf(a) in table0 ensures At(a) == Look(table0, frames0, a) {
        assert old(At(a)) == Look(table0, frames0, a);
      }
      r := Loaded(entry, base, end, STACK_TOP + PAGE_SIZE);
    }

    /**
     * Loads an executable. Success means the file is loadable, memory shows exactly its image (and
     * elsewhere what was mapped before), the bounds are exact and the stack page is there; short of
     * memory running out, every loadable file succeeds.
     */
    method LoadUser(f: seq<Byte>) returns (r: Outcome)
      requires Valid()
      modifies this
      ensures Valid()
      ensures starved == (old(starved) || r.OutOfMemory?)
      ensures r.Rejected? ==> !Loadable(f)
      ensures r.Loaded? ==> Loadable(f) && r.entry == Entry(f) && r.stackTop == STACK_TOP + PAGE_SIZE
                            && PageOf(STACK_TOP) in table && SomeLoads(Segments(f, Count(f)), Count(f))
      ensures r.Loaded? ==> Progress(f, Segments(f, Count(f)), Count(f), r.base, r.end, old(table), old(frames))
                            && OnlyPages(Segments(f, Count(f)), Count(f), old(table), table, {PageOf(STACK_TOP)})
    {
      if !Native(f) || HeaderOffset(f) > |f| || Count(f) * 56 > |f| - HeaderOffset(f) { return Rejected; }
      var segs := Segments(f, Count(f));
      LoadableIs(f, segs);
      var base, end;
      r, base, end := LoadAll(f, segs);
      if r.Loaded? {
        r := Finish(f, segs, Entry(f), base, end, old(table), old(frames));
      }
    }
  }

  /** Addresses and sizes are 64-bit. */
  predicate Wide(segs: seq<Segment>) {
    forall i | 0 <= i < |segs| :: segs[i].vaddr < MOD64 && segs[i].memsz < MOD64
  }

  lemma {:induction false} LoadableIs(f: seq<Byte>, segs: seq<Segment>)
    requires HeadersInside(f) && segs == Segments(f, Count(f))
    ensures |segs| == Count(f) && Wide(segs)
    ensures Loadable(f) <==> AllFitting(f, segs, |segs|) && SomeLoads(segs, |segs|) && USER_BASE <= Entry(f) < STACK_TOP
  {
    assert forall i | 0 <= i < |segs| :: segs[i] == SegmentAt(f, i);
  }

  lemma {:induction false} Skipped(f: seq<Byte>, segs: seq<Segment>, i: nat)
    requires i < |segs| && !Loads(segs[i]) && AllFitting(f, segs, i)
    ensures AllFitting(f, segs, i + 1) && (SomeLoads(segs, i + 1) <==> SomeLoads(segs, i))
    ensures forall a :: Image(f, segs, i + 1, a) == Image(f, segs, i, a)
    ensures forall base, end :: Bounds(segs, i, base, end) ==> Bounds(segs, i + 1, base, end)
  {
  }
}
