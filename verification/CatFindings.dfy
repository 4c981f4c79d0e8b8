/** Concrete runs of CatFS at the inputs where it does not do what its callers may expect. */
module CatFindings {
  import opened Words
  import opened CatForest
  import opened CatStore
  import opened CatNames
  import opened CatLookup
  import opened CatFs
  import opened CatRun
  import opened CatFiles
  import CatPrune
  import CatBytes

  /** A name no inode has is not found in the root, with or without a leading slash. */
  lemma RootLacks(ins: seq<Inode>, name: string)
    requires |ins| == INODE_MAX && ins[0].kind.Dir? && ValidName(name) && forall i | 0 < i < INODE_MAX && Used(ins, i) :: ins[i].name != name
    ensures LookupPath(ins, "/" + name) == LookupPath(ins, name) == -1
  {
    LookupInRoot(ins, name);
    assert ("/" + name)[1..] == name;
  }

  lemma Parts()
    ensures DirPart("/a/b") == "/a" && BasePart("/a/b") == "b"
    ensures DirPart("/b/c") == "/b" && BasePart("/b/c") == "c"
    ensures DirPart("ab") == "/" && BasePart("ab") == "b"
  {
    assert LastSlash("ab") == 0;
    assert LastSlash("/a/b") == 2 && LastSlash("/b/c") == 2;
  }

  /** Creates an empty file by path, as the lowest free inode `x`. */
  method CreateAt(fs: CatFs, path: string, ghost x: int) returns (r: int)
    requires Ready(fs) && Tree(fs.inodes) && Allowed(CreateOp(path, File)) && Creatable(fs.inodes, path) && fs.freeInodes > 0
    requires 0 < x < INODE_MAX && fs.inodes[x].kind.Free? && forall j | 0 < j < x :: Used(fs.inodes, j)
    modifies fs
    ensures Ready(fs) && r == x && (Tree(fs.inodes) <==> CreatesInTree(old(fs.inodes), path))
    ensures fs.inodes == old(fs.inodes)[x := NewInode(BasePart(path), File, LookupPath(old(fs.inodes), DirPart(path)))]
    ensures LookupPath(fs.inodes, path) == if '/' in path then x else -1
    ensures fs.im.store == old(fs.im.store) && fs.freeBlocks == old(fs.freeBlocks) && fs.freeInodes == old(fs.freeInodes) - 1
  {
    ghost var ins := fs.inodes;
    r := fs.Create(path, File);
    assert Used(ins, r) || r >= x;
    assert r <= x;
  }

  /** Creates a file of a new name in the root. */
  method AddFile(fs: CatFs, name: string, ghost x: int)
    requires Ready(fs) && Tree(fs.inodes) && fs.freeInodes > 0 && ValidName(name)
    requires forall i | 0 < i < INODE_MAX && Used(fs.inodes, i) :: fs.inodes[i].name != name
    requires 0 < x < INODE_MAX && fs.inodes[x].kind.Free? && forall j | 0 < j < x :: Used(fs.inodes, j)
    modifies fs
    ensures Ready(fs) && Tree(fs.inodes) && fs.inodes == old(fs.inodes)[x := NewInode(name, File, 0)]
    ensures fs.im.store == old(fs.im.store) && fs.freeBlocks == old(fs.freeBlocks) && fs.freeInodes == old(fs.freeInodes) - 1
  {
    RootLacks(fs.inodes, name);
    var path := "/" + name;
    assert LastSlash(path) == 0 && BasePart(path) == name;
    var r := CreateAt(fs, path, x);
  }

  /** A formatted disk with one empty file, "/a", as inode 1. */
  method OneFile(sectors: seq<Sector>) returns (fs: CatFs)
    requires |sectors| == BLOCKS_MAX
    ensures fresh(fs) && Ready(fs) && fs.inodes[1] == NewInode("a", File, 0) && fs.freeInodes > 0 && fs.freeBlocks == BLOCKS_MAX - 1
    ensures forall i | 1 < i < INODE_MAX :: fs.inodes[i] == EMPTY_INODE
    ensures StateOf(fs).store == map[] && Tree(fs.inodes)
  {
    fs := Start(sectors);
    AddFile(fs, "a", 1);
  }

  /** The same with two bytes in the file. */
  method TwoBytes(sectors: seq<Sector>) returns (fs: CatFs)
    requires |sectors| == BLOCKS_MAX
    ensures fresh(fs) && Ready(fs) && Whole(StateOf(fs), 1) && BytesOf(StateOf(fs), 1) == [7, 8]
    ensures Live(fs.im, 1) && fs.inodes[1].kind.File? && fs.inodes[1].size == 2 && (1, 0) in fs.im.store
  {
    fs := OneFile(sectors);
    ghost var s := StateOf(fs);
    var w := DoWrite(fs, 1, 0, [7, 8]);
    assert w == 2;
    WriteBytes(1, 0, [7, 8], w, s, StateOf(fs), 1);
    TwoBytesAre(BytesOf(s, 1));
  }

  lemma TwoBytesAre(c: seq<Byte>)
    requires c == []
    ensures CatBytes.Splice(c, 0, [7, 8][..2]) == [7, 8]
  {
  }

  /** A file of two bytes read from byte 1 on with length 2^32 - 1 delivers 511 bytes. */
  method ReadPastEnd(sectors: seq<Sector>) returns (fs: CatFs, n: int)
    requires |sectors| == BLOCKS_MAX
    ensures fresh(fs) && Ready(fs) && Whole(StateOf(fs), 1) && BytesOf(StateOf(fs), 1) == [7, 8] && n == 511
  {
    fs := TwoBytes(sectors);
    var data;
    n, data := DoRead(fs, 1, 1, 0xFFFF_FFFF);
    ReadBytes(fs.im.store, 1, 2, 1, 0xFFFF_FFFF, data);
  }

  /** A byte written at 1024 of an empty file leaves a hole before it, and a read of the whole file from the start delivers nothing. */
  method HoleReadsNothing(sectors: seq<Sector>) returns (fs: CatFs, n: int)
    requires |sectors| == BLOCKS_MAX
    ensures fresh(fs) && Ready(fs) && fs.inodes[1].size == 1025 && (1, 2) in fs.im.store && n == 0
  {
    fs := OneFile(sectors);
    ghost var store := fs.im.store;
    var w := DoWrite(fs, 1, 1024, [7]);
    assert w == 1;
    assert CatBytes.WrittenAt(store, fs.im.store, 1, 1024, [7][..1], (1, 0));
    assert CatBytes.WrittenAt(store, fs.im.store, 1, 1024, [7][..1], (1, 2));
    var data;
    n, data := DoRead(fs, 1, 0, 1025);
    assert n > 0 ==> CatBytes.Touched((1, 0), 1, 0, |data|);
  }

  /** Creating "/a/b" where "/a" is a file succeeds, and the namespace is no longer a tree. */
  method CreateUnderFile(sectors: seq<Sector>) returns (fs: CatFs, r: int)
    requires |sectors| == BLOCKS_MAX
    ensures fresh(fs) && Ready(fs) && fs.inodes[1].kind.File? && r == 2 && fs.inodes[2].parent == 1 && !Tree(fs.inodes)
  {
    fs := OneFile(sectors);
    Parts();
    BelowOne(fs.inodes);
    r := CreateAt(fs, "/a/b", 2);
  }

  /** With "/a" as its only inode but the root, "/a/b" can be created. */
  lemma BelowOne(ins: seq<Inode>)
    requires |ins| == INODE_MAX && ins[0].kind.Dir? && ins[1] == NewInode("a", File, 0)
    requires forall i | 1 < i < INODE_MAX :: ins[i] == EMPTY_INODE
    ensures LookupPath(ins, "/a") == 1 && LookupPath(ins, "/a/b") == -1
  {
    assert IsChild(ins, 1, 0, "a");
    LookupInRoot(ins, "a");
    assert "/" + "a" == "/a";
    Parts();
    BelowNothing(ins, "/a/b");
  }

  /** A path without a slash loses its first character: creating "ab" makes the root's child "b", and "ab" names nothing. */
  method CreateRelative(sectors: seq<Sector>) returns (fs: CatFs, r: int)
    requires |sectors| == BLOCKS_MAX
    ensures fresh(fs) && Ready(fs) && r == 1 && fs.inodes[1].name == "b" && fs.inodes[1].parent == 0
    ensures LookupPath(fs.inodes, "ab") == -1
  {
    fs := Start(sectors);
    Parts();
    RootLacks(fs.inodes, "ab");
    r := CreateAt(fs, "ab", 1);
  }

  /** Two empty files, "/a" as inode 1 and "/b" as inode 2. */
  method TwoFiles(sectors: seq<Sector>) returns (fs: CatFs)
    requires |sectors| == BLOCKS_MAX
    ensures fresh(fs) && Ready(fs) && Tree(fs.inodes)
    ensures fs.inodes[1] == NewInode("a", File, 0) && fs.inodes[2] == NewInode("b", File, 0)
    ensures forall i | 2 < i < INODE_MAX :: fs.inodes[i] == EMPTY_INODE
  {
    fs := OneFile(sectors);
    AddFile(fs, "b", 2);
  }

  /** "/b" names inode 2; after "/a" is removed, creating "ab" hides it behind the new inode 1. */
  method CreateHides(sectors: seq<Sector>) returns (fs: CatFs, r: int, ghost before: seq<Inode>)
    requires |sectors| == BLOCKS_MAX
    ensures fresh(fs) && Ready(fs) && r == 1 && |before| == INODE_MAX && fs.inodes == before[1 := NewInode("b", File, 0)]
    ensures LookupPath(before, "/b") == 2 && LookupPath(fs.inodes, "/b") == 1
  {
    fs := TwoFiles(sectors);
    Parts();
    var u := fs.Unlink(1);
    before := fs.inodes;
    RootLacks(before, "ab");
    r := CreateAt(fs, "ab", 1);
    FoundFirst(before);
  }

  lemma FoundFirst(ins: seq<Inode>)
    requires |ins| > 2 && ins[0].kind.Dir? && ins[1] == EMPTY_INODE && ins[2] == NewInode("b", File, 0)
    ensures LookupPath(ins, "/b") == 2 && LookupPath(ins[1 := NewInode("b", File, 0)], "/b") == 1
  {
    var n := NewInode("b", File, 0);
    LookupInRoot(ins, "b");
    LookupInRoot(ins[1 := n], "b");
    assert "/" + "b" == "/b";
    assert IsChild(ins, 2, 0, "b") && !IsChild(ins, 1, 0, "b");
    assert FindChild(ins, 0, "b", 2) == 2;
    FindChildAdded(ins, 1, n, 0, "b", 1);
  }

  /** Renaming "/a" to "b/c" succeeds; the namespace is no tree, and no path, not even the one printed for it, names the inode. */
  method RenameSlash(sectors: seq<Sector>) returns (fs: CatFs, r: int)
    requires |sectors| == BLOCKS_MAX
    ensures fresh(fs) && Ready(fs) && r == 0 && !Tree(fs.inodes)
    ensures Reach(fs.inodes, 1, 1) && PathOf(fs.inodes, 1, 1) == "/b/c" && LookupPath(fs.inodes, "/b/c") == -1
    ensures !Named(fs.inodes, 1)
  {
    fs := OneFile(sectors);
    assert Reach(fs.inodes, 0, 0);
    r := fs.Rename(1, 0, "b/c");
    ghost var ins := fs.inodes;
    assert Reach(ins, 0, 0) && Reach(ins, 1, 1);
    PrintedNotFound(ins);
  }

  lemma PrintedNotFound(ins: seq<Inode>)
    requires |ins| == INODE_MAX && ins[0].kind.Dir? && Reach(ins, 1, 1) && ins[1].parent == 0 && ins[1].name == "b/c"
    requires forall i | 1 < i < |ins| :: ins[i] == EMPTY_INODE
    ensures PathOf(ins, 1, 1) == "/b/c" && LookupPath(ins, "/b/c") == -1
  {
    RootLacks(ins, "b");
    assert "/" + "b" == "/b" && "/" + "b/c" == "/b/c";
    PrintedInRoot(ins, 1, 1);
    Parts();
    BelowNothing(ins, "/b/c");
  }

  lemma PrintedInRoot(ins: seq<Inode>, i: int, n: nat)
    requires n == 1 && Reach(ins, i, n) && 0 < i < |ins| && ins[i].parent == 0
    ensures PathOf(ins, i, n) == "/" + ins[i].name
  {
  }

  /** A path names nothing if its directory part does not, or names an inode without children. */
  lemma BelowNothing(ins: seq<Inode>, path: string)
    requires |ins| > 0 && ins[0].kind.Dir? && '/' in path && 0 < |BasePart(path)| < NAME_MAX
    requires var d := LookupPath(ins, DirPart(path)); d == -1 || forall j | 0 < j < |ins| && Used(ins, j) :: ins[j].parent != d
    ensures LookupPath(ins, path) == -1
  {
    var names, base := Components(DirPart(path)), BasePart(path);
    ComponentsSplit(path);
    LookupWalks(ins, DirPart(path));
    LookupWalks(ins, path);
    LookupFinds(ins, DirPart(path));
    WalkAppend(ins, 0, names, [base]);
    var d := Walk(ins, 0, names);
    if d != -1 {
      var f := FindChild(ins, d, base, 1);
      assert f != -1 ==> IsChild(ins, f, d, base);
      assert Walk(ins, d, [base]) == f;
    }
  }

  /** Growing a file to 2^32 - 1 and cutting it back by 15 bytes frees all its blocks. */
  method TruncateLosesAll(sectors: seq<Sector>) returns (fs: CatFs, ghost before: Image)
    requires |sectors| == BLOCKS_MAX
    ensures fresh(fs) && fs.Valid() && fs.inodes[1].size == 0xFFFF_FFF0
    ensures (1, 0) in before.store && (1, 0) !in fs.im.store
  {
    fs := TwoBytes(sectors);
    ghost var grown;
    var r;
    r, grown := fs.Truncate(1, 0xFFFF_FFFF);
    before := fs.im;
    ghost var cut;
    r, cut := fs.Truncate(1, 0xFFFF_FFF0);
    NothingKept(before, cut);
  }

  lemma NothingKept(im: Image, cut: Image)
    requires CatPrune.Pruned(im, cut, 1, 0, CatPrune.SlotsOf(1))
    ensures (1, 0) !in cut.store
  {
    assert CatPrune.PrunedAt(im, cut, 1, 0, CatPrune.SlotsOf(1), Ind(1));
  }
}
