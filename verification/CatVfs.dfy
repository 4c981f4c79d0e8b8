/** The VFS adapter of CatFS: printing the path of an inode and creating a child by name. */
module CatVfs {
  import opened CatForest
  import opened CatNames
  import opened CatLookup
  import opened CatFs

  const VFS_PATH_MAX := 1024

  datatype PathResult = TooLong | Path(path: string)

  /** The inodes from `i` up to, not including, the root. */
  ghost function Chain(ins: seq<Inode>, i: int, n: nat): (c: seq<int>)
    requires Reach(ins, i, n)
    ensures |c| == n
    decreases n
  {
    if n == 0 then [] else [i] + Chain(ins, ins[i].parent, n - 1)
  }

  /** The path obtained by appending the names of `chain`, last first, to the root. */
  function Printed(ins: seq<Inode>, chain: seq<int>): (p: string)
    requires forall k | 0 <= k < |chain| :: 0 <= chain[k] < |ins|
    ensures p != "" && p[0] == '/'
  {
    if chain == [] then "/" else Join(Printed(ins, chain[1..]), ins[chain[0]].name)
  }

  lemma {:induction false} ChainInside(ins: seq<Inode>, i: int, n: nat)
    requires Reach(ins, i, n)
    ensures forall k | 0 <= k < n :: 0 < Chain(ins, i, n)[k] < |ins|
    decreases n
  {
    if n > 0 { ChainInside(ins, ins[i].parent, n - 1); }
  }

  lemma {:induction false} PrintedIsPath(ins: seq<Inode>, i: int, n: nat)
    requires Reach(ins, i, n)
    ensures forall k | 0 <= k < n :: 0 < Chain(ins, i, n)[k] < |ins|
    ensures Printed(ins, Chain(ins, i, n)) == PathOf(ins, i, n)
    decreases n
  {
    ChainInside(ins, i, n);
    if n > 0 {
      PrintedIsPath(ins, ins[i].parent, n - 1);
      assert Chain(ins, i, n)[1..] == Chain(ins, ins[i].parent, n - 1);
    }
  }

  lemma {:induction false} PrintedGrows(ins: seq<Inode>, chain: seq<int>, k: nat)
    requires forall k | 0 <= k < |chain| :: 0 <= chain[k] < |ins|
    requires k <= |chain|
    ensures |Printed(ins, chain[k..])| <= |Printed(ins, chain)|
  {
    if k == 0 {
      assert chain[0..] == chain;
    } else {
      PrintedGrows(ins, chain[1..], k - 1);
      assert chain[1..][k - 1..] == chain[k..];
    }
  }

  lemma PrintedNext(ins: seq<Inode>, chain: seq<int>, k: nat)
    requires (forall k | 0 <= k < |chain| :: 0 <= chain[k] < |ins|) && k < |chain|
    ensures Printed(ins, chain[k..]) == Join(Printed(ins, chain[k + 1..]), ins[chain[k]].name)
  {
    assert chain[k..][1..] == chain[k + 1..];
  }

  /** The chain of inodes from `idx` to the root, read off the parent pointers. */
  method ReadChain(fs: CatFs, idx: int, ghost n: nat) returns (chain: seq<int>)
    requires Tree(fs.inodes) && Used(fs.inodes, idx) && Reach(fs.inodes, idx, n)
    ensures chain == Chain(fs.inodes, idx, n)
  {
    DepthBound(fs.inodes, idx, n);
    chain := [];
    var i := idx;
    ghost var m := n;
    while i > 0
      invariant Used(fs.inodes, i) && Reach(fs.inodes, i, m) && |chain| + m == n && chain + Chain(fs.inodes, i, m) == Chain(fs.inodes, idx, n)
      decreases m
    {
      assert |chain| < INODE_MAX && WellPlaced(fs.inodes, i);
      chain := chain + [i];
      i := fs.inodes[i].parent;
      m := m - 1;
    }
    assert m == 0;
  }

  /** Prints the path of inode `idx` into a buffer of `size` characters, or fails when it does not fit. */
  method PathForIndex(fs: CatFs, idx: int, size: nat) returns (r: PathResult)
    requires Tree(fs.inodes)
    ensures r.Path? ==> Used(fs.inodes, idx) && |r.path| < size && LookupPath(fs.inodes, r.path) == idx
    ensures r.Path? ==> exists n: nat :: Reach(fs.inodes, idx, n) && r.path == PathOf(fs.inodes, idx, n)
    ensures r.TooLong? <==> !Used(fs.inodes, idx)
                            || forall n: nat | Reach(fs.inodes, idx, n) :: |PathOf(fs.inodes, idx, n)| >= size
  {
    if size < 2 || idx < 0 || idx >= INODE_MAX || (idx > 0 && fs.inodes[idx].kind.Free?) {
      return TooLong;
    }
    ghost var n := DepthOf(fs.inodes, idx);
    forall m: nat | Reach(fs.inodes, idx, m)
      ensures m == n
    {
      ReachUnique(fs.inodes, idx, m, n);
    }
    PrintedIsPath(fs.inodes, idx, n);
    LookupOfPath(fs.inodes, idx, n);
    var chain := ReadChain(fs, idx, n);
    var out := "/";
    var k := |chain|;
    while k > 0
      invariant 0 <= k <= |chain| && out == Printed(fs.inodes, chain[k..]) && |out| < size
    {
      k := k - 1;
      var name := fs.inodes[chain[k]].name;
      PrintedGrows(fs.inodes, chain, k);
      PrintedNext(fs.inodes, chain, k);
      NamesNotEmpty(fs.inodes, idx, n, k);
      r := AppendName(out, name, size);
      if r.TooLong? { return; }
      out := r.path;
    }
    assert chain[0..] == chain;
    return Path(out);
  }

  lemma {:induction false} NamesNotEmpty(ins: seq<Inode>, i: int, n: nat, k: nat)
    requires Tree(ins) && Used(ins, i) && Reach(ins, i, n) && k < n
    ensures 0 < Chain(ins, i, n)[k] < |ins| && ValidName(ins[Chain(ins, i, n)[k]].name)
    decreases n
  {
    assert WellPlaced(ins, i);
    if k > 0 { NamesNotEmpty(ins, ins[i].parent, n - 1, k - 1); }
  }

  /** The path of the child `name` of directory inode `parent`, whether or not it exists. */
  method ChildPath(fs: CatFs, parent: int, name: string, size: nat) returns (r: PathResult, ghost n: nat)
    requires Tree(fs.inodes)
    ensures r.Path? ==> Used(fs.inodes, parent) && 0 < |name| < NAME_MAX && Reach(fs.inodes, parent, n) && |r.path| < size
    ensures r.Path? ==> r.path == Join(PathOf(fs.inodes, parent, n), name)
    ensures r.Path? && '/' !in name ==> LookupPath(fs.inodes, r.path) == FindChild(fs.inodes, parent, name, 1)
    ensures r.TooLong? ==> !Used(fs.inodes, parent) || |name| == 0 || |name| >= NAME_MAX
                           || (Reach(fs.inodes, parent, n) && |Join(PathOf(fs.inodes, parent, n), name)| >= size)
  {
    n := 0;
    if |name| == 0 || |name| >= NAME_MAX { return TooLong, n; }
    if 0 <= parent < INODE_MAX && !fs.inodes[parent].kind.Free? { n := DepthOf(fs.inodes, parent); }
    r := PathForIndex(fs, parent, size);
    if r.TooLong? { return; }
    forall m: nat | Reach(fs.inodes, parent, m)
      ensures m == n
    {
      ReachUnique(fs.inodes, parent, m, n);
    }
    if '/' !in name { LookupOfChild(fs.inodes, parent, n, name); }
    r := AppendName(r.path, name, size);
  }

  /** Appends one name to a path, a slash before it unless the path is the root's, if the buffer has room. */
  method AppendName(dir: string, name: string, size: nat) returns (r: PathResult)
    requires dir != "" && dir[0] == '/' && |dir| < size && name != ""
    ensures r == if |Join(dir, name)| < size then Path(Join(dir, name)) else TooLong
  {
    var out := dir;
    if |out| > 1 {
      if |out| + 1 >= size { return TooLong; }
      out := out + "/";
    }
    if |out| + |name| >= size { return TooLong; }
    r := Path(out + name);
  }

  lemma JoinParts(dir: string, name: string)
    requires dir != "" && dir[0] == '/' && '/' !in name && (dir == "/" || dir[|dir| - 1] != '/')
    ensures Join(dir, name)[0] == '/' && DirPart(Join(dir, name)) == dir && BasePart(Join(dir, name)) == name
  {
    var path := Join(dir, name);
    var k := if dir == "/" then 0 else |dir|;
    assert path[k] == '/' && forall j | k < j < |path| :: path[j] != '/';
    assert LastSlash(path) == k;
  }

  lemma {:induction false} PathEnd(ins: seq<Inode>, i: int, n: nat)
    requires Tree(ins) && Used(ins, i) && Reach(ins, i, n)
    ensures var p := PathOf(ins, i, n); p == "/" || p[|p| - 1] != '/'
    decreases n
  {
    if n > 0 {
      assert WellPlaced(ins, i);
      var p, name := PathOf(ins, i, n), ins[i].name;
      assert p[|p| - 1] == name[|name| - 1];
    }
  }

  datatype VfsResult = NotDir | NameTooLong | NoSpace | Created(idx: int)

  /** Creates the child `name` of `dir`: the directory check here is what keeps the namespace a tree. */
  method CreateChild(fs: CatFs, dir: int, name: string, kind: Kind) returns (r: VfsResult)
    requires fs.Consistent() && Tree(fs.inodes) && !kind.Free? && '/' !in name
    requires forall n: nat | Reach(fs.inodes, dir, n) :: |PathOf(fs.inodes, dir, n)| < 64
    modifies fs
    ensures fs.Consistent() && Tree(fs.inodes) && fs.mounted == old(fs.mounted)
    ensures r.NotDir? <==> !(0 <= dir < INODE_MAX && old(fs.inodes)[dir].kind.Dir?)
    ensures r.NameTooLong? <==> !r.NotDir? && (|name| == 0 || |name| >= NAME_MAX)
    ensures r.Created? <==> fs.mounted && 0 <= dir < INODE_MAX && old(fs.inodes)[dir].kind.Dir? && ValidName(name)
                            && FindChild(old(fs.inodes), dir, name, 1) == -1 && old(fs.freeInodes) > 0
    ensures r.Created? ==> IsChild(fs.inodes, r.idx, dir, name) && fs.inodes[r.idx].kind == kind
    ensures r.Created? ==> OnlyAdds(old(fs.inodes), fs.inodes, r.idx)
    ensures r.Created? ==> fs.inodes == old(fs.inodes)[r.idx := fs.inodes[r.idx]] && fs.im.store == old(fs.im.store)
    ensures !r.Created? ==> fs.inodes == old(fs.inodes) && fs.im == old(fs.im)
  {
    if dir < 0 || dir >= INODE_MAX || !fs.inodes[dir].kind.Dir? { return NotDir; }
    ghost var n;
    var p;
    p, n := ChildPath(fs, dir, name, VFS_PATH_MAX);
    if p.TooLong? {
      return NameTooLong;
    }
    PathEnd(fs.inodes, dir, n);
    JoinParts(PathOf(fs.inodes, dir, n), name);
    LookupOfPath(fs.inodes, dir, n);
    var idx := fs.Create(p.path, kind);
    if idx < 0 { return NoSpace; }
    return Created(idx);
  }
}
