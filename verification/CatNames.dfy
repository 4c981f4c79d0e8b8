/** The CatFS directory tree: parent pointers, path lookup and path printing. */
module CatNames {
  import opened Words
  import opened CatForest
  import Bitmap

  const NAME_MAX := 56

  predicate Used(ins: seq<Inode>, i: int) {
    0 <= i < |ins| && !ins[i].kind.Free?
  }

  predicate ValidName(name: string) {
    0 < |name| < NAME_MAX && '/' !in name
  }

  /** Inode `i` reaches the root in `n` steps along its parents. */
  ghost predicate Reach(ins: seq<Inode>, i: int, n: nat)
    decreases n
  {
    if n == 0 then i == 0
    else 0 < i < |ins| && Reach(ins, ins[i].parent, n - 1)
  }

  ghost predicate Rooted(ins: seq<Inode>, i: int) {
    exists n: nat :: Reach(ins, i, n)
  }

  /** Following parents ends at the root, an only directory without one, from every inode, in use or not. */
  ghost predicate Grounded(ins: seq<Inode>) {
    && |ins| == INODE_MAX && ins[0].kind.Dir? && ins[0].parent == -1
    && forall i {:trigger Rooted(ins, i)} | 0 <= i < |ins| :: Rooted(ins, i)
  }

  /** Inode `i` has a valid name under a directory and no sibling shares it. */
  ghost predicate WellPlaced(ins: seq<Inode>, i: int)
    requires Used(ins, i)
  {
    && ValidName(ins[i].name)
    && 0 <= ins[i].parent < |ins| && ins[ins[i].parent].kind.Dir?
    && Rooted(ins, i)
    && forall j | 0 < j < |ins| && j != i && Used(ins, j) && ins[j].parent == ins[i].parent :: ins[j].name != ins[i].name
  }

  /** The namespace is a tree rooted at inode 0. */
  ghost predicate Tree(ins: seq<Inode>) {
    && |ins| == INODE_MAX && ins[0].kind.Dir? && ins[0].parent == -1
    && forall i {:trigger WellPlaced(ins, i)} | 0 < i < |ins| && Used(ins, i) :: WellPlaced(ins, i)
  }

  /** Inode `a` lies on the way from `i` to the root. */
  ghost predicate OnChain(ins: seq<Inode>, i: int, n: nat, a: int)
    requires Reach(ins, i, n)
    decreases n
  {
    i == a || (n > 0 && OnChain(ins, ins[i].parent, n - 1, a))
  }

  lemma {:induction false} ReachUnique(ins: seq<Inode>, i: int, m: nat, n: nat)
    requires Reach(ins, i, m) && Reach(ins, i, n)
    ensures m == n
    decreases n
  {
    if m > 0 && n > 0 { ReachUnique(ins, ins[i].parent, m - 1, n - 1); }
  }

  /** Changing inode `x` alone does not touch chains that avoid it. */
  lemma {:induction false} ReachFrame(ins: seq<Inode>, ins': seq<Inode>, x: int, i: int, n: nat)
    requires |ins| == |ins'| && Reach(ins, i, n) && !OnChain(ins, i, n, x)
    requires forall j | 0 <= j < |ins| && j != x :: ins'[j].parent == ins[j].parent
    ensures Reach(ins', i, n)
    decreases n
  {
    if n > 0 { ReachFrame(ins, ins', x, ins[i].parent, n - 1); }
  }

  /** Re-hanging `x` under a place whose chain avoids `x` keeps every chain rooted. */
  lemma {:induction false} ReachAfterMove(ins: seq<Inode>, ins': seq<Inode>, x: int, i: int, n: nat, m: nat)
    requires |ins| == |ins'| && Reach(ins, i, n) && 0 < x < |ins|
    requires forall j | 0 <= j < |ins| && j != x :: ins'[j].parent == ins[j].parent
    requires Reach(ins, ins'[x].parent, m) && !OnChain(ins, ins'[x].parent, m, x)
    ensures Rooted(ins', i)
    decreases n
  {
    if i == x {
      ReachFrame(ins, ins', x, ins'[x].parent, m);
      assert Reach(ins', x, m + 1);
    } else if n > 0 {
      ReachAfterMove(ins, ins', x, ins[i].parent, n - 1, m);
      var k: nat :| Reach(ins', ins[i].parent, k);
      assert Reach(ins', i, k + 1);
    } else {
      assert Reach(ins', 0, 0);
    }
  }

  /** Re-hanging `x` under a place whose chain avoids it keeps everything grounded. */
  lemma GroundedMove(ins: seq<Inode>, x: int, n: Inode, m: nat)
    requires Grounded(ins) && 0 < x < |ins| && Reach(ins, n.parent, m) && !OnChain(ins, n.parent, m, x)
    ensures Grounded(ins[x := n])
  {
    var ins' := ins[x := n];
    forall i | 0 <= i < |ins| ensures Rooted(ins', i) {
      assert Rooted(ins, i);
      var k: nat :| Reach(ins, i, k);
      ReachAfterMove(ins, ins', x, i, k, m);
    }
  }

  lemma GroundedFrame(ins: seq<Inode>, ins': seq<Inode>)
    requires Grounded(ins) && |ins'| == |ins| && ins'[0].kind.Dir? && forall j | 0 <= j < |ins| :: ins'[j].parent == ins[j].parent
    ensures Grounded(ins')
  {
    forall i | 0 <= i < |ins| ensures Rooted(ins', i) {
      assert Rooted(ins, i);
      var n: nat :| Reach(ins, i, n);
      ReachSame(ins, ins', i, n);
    }
  }

  lemma GroundDepth(ins: seq<Inode>, i: int) returns (n: nat)
    requires Grounded(ins) && 0 <= i < |ins|
    ensures Reach(ins, i, n)
  {
    assert Rooted(ins, i);
    n :| Reach(ins, i, n);
  }

  /** In a tree every inode on the way up is in use. */
  lemma {:induction false} ChainUsed(ins: seq<Inode>, i: int, n: nat, a: int)
    requires Tree(ins) && Used(ins, i) && Reach(ins, i, n) && OnChain(ins, i, n, a)
    ensures Used(ins, a)
    decreases n
  {
    if i != a {
      assert WellPlaced(ins, i);
      ChainUsed(ins, ins[i].parent, n - 1, a);
    }
  }

  predicate SameNames(a: Inode, b: Inode) {
    a.kind == b.kind && a.parent == b.parent && a.name == b.name
  }

  /** The tree depends on kinds, parents and names only. */
  lemma TreeFrame(ins: seq<Inode>, ins': seq<Inode>)
    requires Tree(ins) && |ins'| == |ins| && forall j | 0 <= j < |ins| :: SameNames(ins[j], ins'[j])
    ensures Tree(ins')
  {
    forall i | 0 < i < |ins'| && Used(ins', i)
      ensures WellPlaced(ins', i)
    {
      assert WellPlaced(ins, i);
      var n: nat :| Reach(ins, i, n);
      ReachSame(ins, ins', i, n);
    }
  }

  lemma {:induction false} ReachSame(ins: seq<Inode>, ins': seq<Inode>, i: int, n: nat)
    requires |ins'| == |ins| && Reach(ins, i, n) && forall j | 0 <= j < |ins| :: ins'[j].parent == ins[j].parent
    ensures Reach(ins', i, n)
    decreases n
  {
    if n > 0 { ReachSame(ins, ins', ins[i].parent, n - 1); }
  }

  /** Removing a non-directory or an empty directory leaves a tree. */
  lemma TreeUnlink(ins: seq<Inode>, x: int)
    requires Tree(ins) && 0 < x < |ins| && Used(ins, x)
    requires ins[x].kind.Dir? ==> forall j | 0 < j < |ins| && Used(ins, j) :: ins[j].parent != x
    ensures Tree(ins[x := EMPTY_INODE])
  {
    var ins' := ins[x := EMPTY_INODE];
    forall i | 0 < i < |ins'| && Used(ins', i)
      ensures WellPlaced(ins', i)
    {
      assert WellPlaced(ins, i);
      var n: nat :| Reach(ins, i, n);
      assert Reach(ins, 0, 0);
      ReachAfterMove(ins, ins', x, i, n, 0);
    }
  }

  /** Removing an inode keeps everything grounded, and a tree if it has no children or is no directory. */
  lemma Unlinked(ins: seq<Inode>, x: int)
    requires Grounded(ins) && 0 < x < |ins| && Used(ins, x) && !(ins[x].kind.Dir? && HasChild(ins, x))
    ensures Grounded(ins[x := EMPTY_INODE]) && (Tree(ins) ==> Tree(ins[x := EMPTY_INODE]))
  {
    assert Reach(ins, 0, 0);
    GroundedMove(ins, x, EMPTY_INODE, 0);
    if Tree(ins) { TreeUnlink(ins, x); }
  }

  predicate NameFree(ins: seq<Inode>, x: int, parent: int, name: string) {
    forall j | 0 < j < |ins| && j != x && Used(ins, j) && ins[j].parent == parent :: ins[j].name != name
  }

  /** Adding an inode keeps the tree exactly when its parent is a directory and its name is legal and new there. */
  lemma TreeCreate(ins: seq<Inode>, x: int, n: Inode)
    requires Tree(ins) && 0 < x < |ins| && ins[x].kind.Free? && !n.kind.Free? && Used(ins, n.parent)
    ensures Tree(ins[x := n]) <==> ins[n.parent].kind.Dir? && ValidName(n.name) && NameFree(ins, x, n.parent, n.name)
  {
    var ins' := ins[x := n];
    if ins[n.parent].kind.Dir? && ValidName(n.name) && NameFree(ins, x, n.parent, n.name) {
      var m := DepthOf(ins, n.parent);
      if OnChain(ins, n.parent, m, x) { ChainUsed(ins, n.parent, m, x); }
      forall i | 0 < i < |ins'| && Used(ins', i)
        ensures WellPlaced(ins', i)
      {
        if i == x {
          ReachFrame(ins, ins', x, n.parent, m);
          assert Reach(ins', x, m + 1);
        } else {
          assert WellPlaced(ins, i);
          var k: nat :| Reach(ins, i, k);
          ReachAfterMove(ins, ins', x, i, k, m);
        }
      }
    } else if WellPlaced(ins', x) {
      PlacedNeeds(ins, x, n);
    }
  }

  /** What an inode put at `x` needs to be well placed. */
  lemma PlacedNeeds(ins: seq<Inode>, x: int, n: Inode)
    requires 0 < x < |ins| && !n.kind.Free? && WellPlaced(ins[x := n], x)
    ensures ValidName(n.name) && NameFree(ins, x, n.parent, n.name)
    ensures 0 <= n.parent < |ins| && (n.parent != x ==> ins[n.parent].kind.Dir?)
  {
    var ins' := ins[x := n];
    forall j | 0 < j < |ins| && j != x && Used(ins, j) && ins[j].parent == n.parent ensures ins[j].name != n.name {
      assert Used(ins', j) && ins'[j] == ins[j];
    }
  }

  /** A chain that meets `x` still meets it after `x` alone has changed. */
  lemma {:induction false} ChainToMoved(ins: seq<Inode>, ins': seq<Inode>, x: int, i: int, n: nat, k: nat) returns (k': nat)
    requires |ins| == |ins'| && Reach(ins, i, n) && OnChain(ins, i, n, x) && x > 0 && Reach(ins', i, k)
    requires forall j | 0 <= j < |ins| && j != x :: ins'[j].parent == ins[j].parent
    ensures k' <= k && Reach(ins', x, k')
    decreases n
  {
    if i == x {
      k' := k;
    } else {
      k' := ChainToMoved(ins, ins', x, ins[i].parent, n - 1, k - 1);
    }
  }

  /** Moving an inode keeps the tree exactly when its new place is a directory not below it and its name is legal and new there. */
  lemma TreeRename(ins: seq<Inode>, x: int, n: Inode, m: nat)
    requires Tree(ins) && 0 < x < |ins| && Used(ins, x) && n.kind == ins[x].kind && Reach(ins, n.parent, m)
    ensures Tree(ins[x := n]) <==>
              ins[n.parent].kind.Dir? && ValidName(n.name) && NameFree(ins, x, n.parent, n.name) && !OnChain(ins, n.parent, m, x)
  {
    var ins' := ins[x := n];
    if OnChain(ins, n.parent, m, x) {
      MovedBelowItself(ins, ins', x, n.parent, m);
      assert !WellPlaced(ins', x);
    } else if ins[n.parent].kind.Dir? && ValidName(n.name) && NameFree(ins, x, n.parent, n.name) {
      forall i | 0 < i < |ins'| && Used(ins', i)
        ensures WellPlaced(ins', i)
      {
        assert WellPlaced(ins, i);
        var k: nat :| Reach(ins, i, k);
        ReachAfterMove(ins, ins', x, i, k, m);
      }
    } else if WellPlaced(ins', x) {
      PlacedNeeds(ins, x, n);
    }
  }

  /** An inode moved below itself no longer reaches the root. */
  lemma MovedBelowItself(ins: seq<Inode>, ins': seq<Inode>, x: int, parent: int, m: nat)
    requires |ins| == |ins'| && 0 < x < |ins| && Reach(ins, parent, m) && OnChain(ins, parent, m, x)
    requires forall j | 0 <= j < |ins| && j != x :: ins'[j].parent == ins[j].parent
    requires ins'[x].parent == parent
    ensures !Rooted(ins', x)
  {
    if Rooted(ins', x) {
      var k: nat :| Reach(ins', x, k);
      var k' := ChainToMoved(ins, ins', x, parent, m, k - 1);
      ReachUnique(ins', x, k, k');
    }
  }

  /** The inodes strictly above the root on the way from `i`. */
  ghost function ChainSet(ins: seq<Inode>, i: int, n: nat): set<int>
    requires Reach(ins, i, n)
    decreases n
  {
    if n == 0 then {} else {i} + ChainSet(ins, ins[i].parent, n - 1)
  }

  ghost predicate ReachWithin(ins: seq<Inode>, i: int, n: nat) {
    exists k: nat :: k <= n && Reach(ins, i, k)
  }

  /** A chain repeats no inode, so it has fewer than `INODE_MAX` steps. */
  lemma {:induction false} ChainIsShort(ins: seq<Inode>, i: int, n: nat)
    requires Reach(ins, i, n)
    ensures |ChainSet(ins, i, n)| == n
    ensures forall a | a in ChainSet(ins, i, n) :: 0 < a < |ins| && ReachWithin(ins, a, n)
    decreases n
  {
    if n > 0 {
      var p := ins[i].parent;
      ChainIsShort(ins, p, n - 1);
      if i in ChainSet(ins, p, n - 1) {
        var k: nat :| k <= n - 1 && Reach(ins, i, k);
        ReachUnique(ins, i, n, k);
      }
      forall a | a in ChainSet(ins, i, n)
        ensures ReachWithin(ins, a, n)
      {
        if a != i {
          var k: nat :| k <= n - 1 && Reach(ins, a, k);
          assert k <= n;
        }
      }
    }
  }

  lemma DepthBound(ins: seq<Inode>, i: int, n: nat)
    requires Reach(ins, i, n) && |ins| == INODE_MAX
    ensures n < INODE_MAX
  {
    ChainIsShort(ins, i, n);
    Bitmap.FullBelow(INODE_MAX, ChainSet(ins, i, n));
    assert 0 !in ChainSet(ins, i, n);
  }

  // ---- Paths ----

  /** How many leading characters of `p` one component takes: up to a slash, at most 55. */
  function ComponentLength(p: string, n: nat): (r: nat)
    requires n <= |p| && n < NAME_MAX
    ensures n <= r <= |p| && r < NAME_MAX
    ensures forall k | n <= k < r :: p[k] != '/'
    ensures r == |p| || p[r] == '/' || r == NAME_MAX - 1
    decreases |p| - n
  {
    if n < |p| && p[n] != '/' && n < NAME_MAX - 1 then ComponentLength(p, n + 1) else n
  }

  /** What is left of `p` after its first component and the slash that may follow it. */
  function AfterComponent(p: string): (r: string)
    ensures p != "" ==> |r| < |p|
  {
    var n := ComponentLength(p, 0);
    if n < |p| && p[n] == '/' then p[n + 1..] else p[n..]
  }

  /** The components of a path, empty ones skipped and long ones split every 55 characters. */
  function Components(p: string): seq<string>
    decreases |p|
  {
    if p == "" then []
    else
      var n := ComponentLength(p, 0);
      (if n == 0 then [] else [p[..n]]) + Components(AfterComponent(p))
  }

  /** Whether inode `i` is the child of `dir` called `name`. */
  predicate IsChild(ins: seq<Inode>, i: int, dir: int, name: string) {
    0 < i < |ins| && Used(ins, i) && ins[i].parent == dir && ins[i].name == name
  }

  /** The lowest-numbered child of `dir` called `name` from index `from` on, or -1. */
  function FindChild(ins: seq<Inode>, dir: int, name: string, from: int): (r: int)
    requires 1 <= from
    ensures r == -1 ==> forall j | from <= j < |ins| :: !IsChild(ins, j, dir, name)
    ensures r != -1 ==> from <= r < |ins| && IsChild(ins, r, dir, name)
    decreases |ins| - from
  {
    if from >= |ins| then -1
    else if IsChild(ins, from, dir, name) then from
    else FindChild(ins, dir, name, from + 1)
  }

  function Walk(ins: seq<Inode>, cur: int, names: seq<string>): int
    decreases |names|
  {
    if names == [] then cur
    else
      var next := FindChild(ins, cur, names[0], 1);
      if next < 0 then -1 else Walk(ins, next, names[1..])
  }

  /** The inode a path names, or -1. */
  function LookupPath(ins: seq<Inode>, path: string): int {
    if path == "/" then 0
    else if |ins| == 0 || !ins[0].kind.Dir? then -1
    else Walk(ins, 0, Components(if path != "" && path[0] == '/' then path[1..] else path))
  }

  lemma {:induction false} WalkAppend(ins: seq<Inode>, cur: int, a: seq<string>, b: seq<string>)
    ensures Walk(ins, cur, a + b) == if Walk(ins, cur, a) < 0 && a != [] then -1 else Walk(ins, Walk(ins, cur, a), b)
    decreases |a|
  {
    if a == [] {
      assert a + b == b;
    } else {
      var next := FindChild(ins, cur, a[0], 1);
      assert (a + b)[1..] == a[1..] + b;
      if next >= 0 { WalkAppend(ins, next, a[1..], b); }
    }
  }

  /** Splitting off the first component of a path that is continued by a slash. */
  lemma AfterAppend(a: string, tail: string)
    requires tail != "" && tail[0] == '/'
    ensures ComponentLength(a + tail, 0) == ComponentLength(a, 0)
    ensures (a + tail)[..ComponentLength(a, 0)] == a[..ComponentLength(a, 0)]
    ensures AfterComponent(a + tail) == if ComponentLength(a, 0) == |a| then tail[1..] else AfterComponent(a) + tail
  {
    ComponentStops(a, tail, 0);
    var n := ComponentLength(a, 0);
    if n == |a| {
      assert (a + tail)[n] == '/' && (a + tail)[n + 1..] == tail[1..];
    } else {
      assert (a + tail)[n] == a[n];
      assert (a + tail)[n + 1..] == a[n + 1..] + tail && (a + tail)[n..] == a[n..] + tail;
    }
  }

  /** One step of `Components`. */
  lemma ComponentsStep(a: string)
    requires a != ""
    ensures Components(a) == FirstComponent(a) + Components(AfterComponent(a))
  {
  }

  function FirstComponent(a: string): seq<string> {
    if ComponentLength(a, 0) == 0 then [] else [a[..ComponentLength(a, 0)]]
  }

  /** Appending "/name" to a path appends one component. */
  lemma {:induction false} ComponentsAppend(a: string, name: string)
    requires ValidName(name)
    ensures Components(a + ("/" + name)) == Components(a) + [name]
    decreases |a|
  {
    var tail := "/" + name;
    ComponentsSingle(name);
    if a == "" {
      assert a + tail == tail;
      ComponentsSlashSingle(name);
    } else {
      AfterAppend(a, tail);
      FirstAppend(a, tail);
      ComponentsStep(a);
      ComponentsStep(a + tail);
      if ComponentLength(a, 0) == |a| {
        assert tail[1..] == name && AfterComponent(a) == "";
      } else {
        ComponentsAppend(AfterComponent(a), name);
      }
    }
  }

  lemma FirstAppend(a: string, tail: string)
    requires tail != "" && tail[0] == '/'
    ensures FirstComponent(a + tail) == FirstComponent(a)
  {
    AfterAppend(a, tail);
  }

  lemma {:induction false} ComponentStops(a: string, tail: string, n: nat)
    requires n <= |a| && n < NAME_MAX && tail != "" && tail[0] == '/'
    ensures ComponentLength(a + tail, n) == ComponentLength(a, n)
    decreases |a| - n
  {
    if n < |a| && a[n] != '/' && n < NAME_MAX - 1 { ComponentStops(a, tail, n + 1); }
  }

  lemma {:induction false} WholeComponent(name: string, n: nat)
    requires ValidName(name) && n <= |name|
    ensures ComponentLength(name, n) == |name|
    decreases |name| - n
  {
    if n < |name| { WholeComponent(name, n + 1); }
  }

  lemma ComponentsSingle(name: string)
    requires ValidName(name)
    ensures Components(name) == [name]
  {
    WholeComponent(name, 0);
    assert name[..|name|] == name;
    assert AfterComponent(name) == "";
  }

  lemma ComponentsSlashSingle(name: string)
    requires ValidName(name)
    ensures Components("/" + name) == [name]
  {
    var p := "/" + name;
    assert ComponentLength(p, 0) == 0;
    assert AfterComponent(p) == name;
    ComponentsSingle(name);
  }

  lemma {:induction false} ComponentsTrailingSlash(a: string)
    ensures Components(a + "/") == Components(a)
    decreases |a|
  {
    if a == "" {
      assert a + "/" == "/";
      assert ComponentLength("/", 0) == 0 && AfterComponent("/") == "";
    } else {
      AfterAppend(a, "/");
      var n := ComponentLength(a, 0);
      if n == |a| {
        assert AfterComponent(a) == "" && AfterComponent(a + "/") == "";
      } else {
        ComponentsTrailingSlash(AfterComponent(a));
      }
    }
  }

  lemma ComponentsLeadingSlash(path: string)
    requires path != "" && path[0] == '/'
    ensures Components(path) == Components(path[1..])
  {
    ComponentsStep(path);
    AfterSlash(path);
    assert FirstComponent(path) == [];
  }

  lemma AfterSlash(path: string)
    requires path != "" && path[0] == '/'
    ensures ComponentLength(path, 0) == 0 && AfterComponent(path) == path[1..]
  {
  }

  /** A leading slash makes no difference to the components, so a lookup always walks them from the root. */
  lemma LookupWalks(ins: seq<Inode>, path: string)
    requires |ins| > 0 && ins[0].kind.Dir?
    ensures LookupPath(ins, path) == Walk(ins, 0, Components(path))
  {
    if path != "" && path[0] == '/' { ComponentsLeadingSlash(path); }
  }

  /** A directory path followed by one more name. */
  function Join(dir: string, name: string): string {
    (if dir == "/" then dir else dir + "/") + name
  }

  /** The path printed for inode `i`, `n` steps below the root. */
  ghost function PathOf(ins: seq<Inode>, i: int, n: nat): (p: string)
    requires Reach(ins, i, n)
    ensures p != "" && p[0] == '/'
    decreases n
  {
    if n == 0 then "/" else Join(PathOf(ins, ins[i].parent, n - 1), ins[i].name)
  }

  ghost function NamesOf(ins: seq<Inode>, i: int, n: nat): seq<string>
    requires Reach(ins, i, n)
    decreases n
  {
    if n == 0 then [] else NamesOf(ins, ins[i].parent, n - 1) + [ins[i].name]
  }

  lemma JoinComponents(dir: string, name: string)
    requires ValidName(name)
    ensures Components(Join(dir, name)) == Components(dir) + [name]
  {
    if dir == "/" {
      ComponentsSlashSingle(name);
      ComponentsLeadingSlash(dir);
    } else {
      assert Join(dir, name) == dir + ("/" + name);
      ComponentsAppend(dir, name);
    }
  }

  lemma {:induction false} PathComponents(ins: seq<Inode>, i: int, n: nat)
    requires Tree(ins) && Used(ins, i) && Reach(ins, i, n)
    ensures Components(PathOf(ins, i, n)) == NamesOf(ins, i, n)
    decreases n
  {
    if n == 0 {
      ComponentsLeadingSlash("/");
    } else {
      assert WellPlaced(ins, i);
      PathComponents(ins, ins[i].parent, n - 1);
      JoinComponents(PathOf(ins, ins[i].parent, n - 1), ins[i].name);
    }
  }

  lemma {:induction false} WalkNames(ins: seq<Inode>, i: int, n: nat)
    requires Tree(ins) && Used(ins, i) && Reach(ins, i, n)
    ensures Walk(ins, 0, NamesOf(ins, i, n)) == i
    decreases n
  {
    if n > 0 {
      var p := ins[i].parent;
      assert WellPlaced(ins, i);
      WalkNames(ins, p, n - 1);
      WalkAppend(ins, 0, NamesOf(ins, p, n - 1), [ins[i].name]);
      ChildFound(ins, i);
    }
  }

  lemma ChildFound(ins: seq<Inode>, i: int)
    requires Tree(ins) && 0 < i < |ins| && Used(ins, i)
    ensures FindChild(ins, ins[i].parent, ins[i].name, 1) == i
  {
    assert WellPlaced(ins, i);
    var r := FindChild(ins, ins[i].parent, ins[i].name, 1);
    assert IsChild(ins, i, ins[i].parent, ins[i].name);
    if r != -1 { assert WellPlaced(ins, r); }
  }

  /** Looking up the printed path of an inode finds that inode. */
  lemma LookupOfPath(ins: seq<Inode>, i: int, n: nat)
    requires Tree(ins) && Used(ins, i) && Reach(ins, i, n)
    ensures LookupPath(ins, PathOf(ins, i, n)) == i
  {
    PathComponents(ins, i, n);
    WalkNames(ins, i, n);
    LookupWalks(ins, PathOf(ins, i, n));
  }

  /** Appending a child name to a printed path steps the lookup by exactly that child. */
  lemma LookupOfChild(ins: seq<Inode>, i: int, n: nat, name: string)
    requires Tree(ins) && Used(ins, i) && Reach(ins, i, n) && ValidName(name)
    ensures LookupPath(ins, Join(PathOf(ins, i, n), name)) == FindChild(ins, i, name, 1)
  {
    var dir := PathOf(ins, i, n);
    PathComponents(ins, i, n);
    WalkNames(ins, i, n);
    JoinComponents(dir, name);
    LookupWalks(ins, Join(dir, name));
    WalkAppend(ins, 0, NamesOf(ins, i, n), [name]);
    assert Walk(ins, i, [name]) == FindChild(ins, i, name, 1);
  }

  // ---- Creating by path ----

  /** The position of the last slash of a path, 0 if there is none. */
  function LastSlash(path: string): (k: nat)
    requires path != ""
    ensures k < |path| && (k > 0 || path[0] == '/' ==> path[k] == '/') && forall j | k < j < |path| :: path[j] != '/'
  {
    if |path| == 1 || path[|path| - 1] == '/' then |path| - 1 else LastSlash(path[..|path| - 1])
  }

  function DirPart(path: string): (d: string)
    requires path != ""
    ensures d != "" && (path[0] == '/' ==> d[0] == '/')
  {
    if LastSlash(path) == 0 then "/" else path[..LastSlash(path)]
  }

  /** What follows the last slash; a path without a slash loses its first character. */
  function BasePart(path: string): (b: string)
    requires path != ""
    ensures '/' !in b
  {
    path[LastSlash(path) + 1..]
  }

  /** A path with a slash has the components of its directory part and then the name after the last slash. */
  lemma ComponentsSplit(path: string)
    requires '/' in path && |BasePart(path)| < NAME_MAX
    ensures Components(path) == Components(DirPart(path)) + if BasePart(path) == "" then [] else [BasePart(path)]
  {
    var d, b, k := DirPart(path), BasePart(path), LastSlash(path);
    if k == 0 {
      ComponentsLeadingSlash(path);
      ComponentsLeadingSlash(d);
      if b != "" { ComponentsSingle(b); }
    } else if b == "" {
      assert path == d + "/";
      ComponentsTrailingSlash(d);
    } else {
      assert path == d + ("/" + b);
      ComponentsAppend(d, b);
    }
  }

  /** Looking up a path is looking up its directory part and then one more name. */
  lemma LookupSplit(ins: seq<Inode>, path: string)
    requires '/' in path && |BasePart(path)| < NAME_MAX && |ins| > 0 && ins[0].kind.Dir?
    requires LookupPath(ins, DirPart(path)) >= 0
    ensures var dir := LookupPath(ins, DirPart(path));
            LookupPath(ins, path) == if BasePart(path) == "" then dir else FindChild(ins, dir, BasePart(path), 1)
  {
    var d, b := DirPart(path), BasePart(path);
    ComponentsSplit(path);
    LookupWalks(ins, d);
    LookupWalks(ins, path);
    var c := Components(d);
    if b == "" {
      assert c + [] == c;
    } else {
      WalkAppend(ins, 0, c, [b]);
      assert Walk(ins, Walk(ins, 0, c), [b]) == FindChild(ins, Walk(ins, 0, c), b, 1);
    }
  }

  lemma {:induction false} WalkFinds(ins: seq<Inode>, cur: int, names: seq<string>)
    requires Used(ins, cur)
    ensures Walk(ins, cur, names) == -1 || Used(ins, Walk(ins, cur, names))
    decreases |names|
  {
    if names != [] {
      var next := FindChild(ins, cur, names[0], 1);
      if next >= 0 { WalkFinds(ins, next, names[1..]); }
    }
  }

  /** What is found from a place whose chain avoids a free inode has such a chain too. */
  lemma {:induction false} WalkAvoidsFree(ins: seq<Inode>, cur: int, k: nat, names: seq<string>, x: int) returns (n: nat)
    requires 0 <= x < |ins| && ins[x].kind.Free? && Reach(ins, cur, k) && !OnChain(ins, cur, k, x)
    ensures Walk(ins, cur, names) >= 0 ==> Reach(ins, Walk(ins, cur, names), n) && !OnChain(ins, Walk(ins, cur, names), n, x)
    decreases |names|
  {
    n := k;
    if names != [] {
      var next := FindChild(ins, cur, names[0], 1);
      if next >= 0 {
        assert Reach(ins, next, k + 1);
        n := WalkAvoidsFree(ins, next, k + 1, names[1..], x);
      }
    }
  }

  /** Filling a free inode below one found by its path keeps everything grounded. */
  lemma GroundedCreate(ins: seq<Inode>, dir: string, x: int, n: Inode)
    requires Grounded(ins) && 0 < x < |ins| && ins[x].kind.Free? && n.parent == LookupPath(ins, dir) >= 0
    ensures Grounded(ins[x := n])
  {
    LookupWalks(ins, dir);
    assert Reach(ins, 0, 0);
    var m := WalkAvoidsFree(ins, 0, 0, Components(dir), x);
    GroundedMove(ins, x, n, m);
  }

  lemma LookupFinds(ins: seq<Inode>, path: string)
    requires |ins| > 0 && ins[0].kind.Dir?
    ensures LookupPath(ins, path) == -1 || Used(ins, LookupPath(ins, path))
  {
    LookupWalks(ins, path);
    WalkFinds(ins, 0, Components(path));
  }

  ghost function FreeInodes(ins: seq<Inode>): set<int> {
    set i | 0 <= i < |ins| && ins[i].kind.Free?
  }

  lemma FreeInodesTaken(ins: seq<Inode>, i: int, n: Inode)
    requires 0 <= i < |ins| && ins[i].kind.Free? && !n.kind.Free?
    ensures |FreeInodes(ins)| > 0 && |FreeInodes(ins[i := n])| == |FreeInodes(ins)| - 1
  {
    assert FreeInodes(ins) == FreeInodes(ins[i := n]) + {i};
  }

  lemma FreeInodesReturned(ins: seq<Inode>, i: int, n: Inode)
    requires 0 <= i < |ins| && !ins[i].kind.Free? && n.kind.Free?
    ensures |FreeInodes(ins[i := n])| == |FreeInodes(ins)| + 1
  {
    assert FreeInodes(ins[i := n]) == FreeInodes(ins) + {i};
  }

  lemma FreeInodesSame(ins: seq<Inode>, ins': seq<Inode>)
    requires |ins| == |ins'| && forall j | 0 <= j < |ins| :: ins'[j].kind.Free? <==> ins[j].kind.Free?
    ensures FreeInodes(ins) == FreeInodes(ins')
  {
  }

  lemma NameIsFree(ins: seq<Inode>, x: int, parent: int, name: string)
    requires FindChild(ins, parent, name, 1) == -1
    ensures NameFree(ins, x, parent, name)
  {
    forall j | 0 < j < |ins| && j != x && Used(ins, j) && ins[j].parent == parent
      ensures ins[j].name != name
    {
      assert !IsChild(ins, j, parent, name);
    }
  }

  /** A name not taken by another inode than a free one is not taken at all. */
  lemma NameFreeAnywhere(ins: seq<Inode>, x: int, parent: int, name: string)
    requires 0 <= x < |ins| && ins[x].kind.Free?
    ensures NameFree(ins, x, parent, name) <==> NameFree(ins, 0, parent, name)
  {
  }

  lemma EmptyTree(ins: seq<Inode>)
    requires |ins| == INODE_MAX && ins[0].kind.Dir? && ins[0].parent == -1
    requires forall i | 0 < i < INODE_MAX :: ins[i].kind.Free?
    ensures Tree(ins) && |FreeInodes(ins)| == INODE_MAX - 1
    ensures (forall i | 0 < i < INODE_MAX :: ins[i].parent == 0) ==> Grounded(ins)
  {
    var s := FreeInodes(ins);
    Bitmap.FullBelow(INODE_MAX, s + {0});
    if forall i | 0 < i < INODE_MAX :: ins[i].parent == 0 {
      forall i | 0 <= i < INODE_MAX ensures Rooted(ins, i) {
        assert Reach(ins, 0, 0) && (i != 0 ==> Reach(ins, i, 1));
      }
    }
  }

  /** The inode `catfs_create` fills in. */
  function NewInode(name: string, kind: Kind, parent: int): Inode {
    EMPTY_INODE.(name := name, kind := kind, parent := parent, perms := if kind.Dir? then 0x1ED else 0x1A4)
  }

  /** A new inode has no bytes and no blocks; the owner may read and write it, others read it, and all search it if a directory. */
  lemma NewInodeIs(name: string, kind: Kind, parent: int)
    ensures var n := NewInode(name, kind, parent);
      && n.name == name && n.kind == kind && n.parent == parent && n.size == 0
      && n.blocks == Zeros(DIRECT) && n.indirect == 0 && n.dindirect == 0
      && (n.perms / 64, n.perms / 8 % 8, n.perms % 8) == if kind.Dir? then (4 + 2 + 1, 4 + 1, 4 + 1) else (4 + 2, 4, 4)
  {
  }

  /** Creating `path` is possible: its directory part exists, the path does not. */
  predicate Creatable(ins: seq<Inode>, path: string)
    requires path != ""
  {
    LookupPath(ins, DirPart(path)) >= 0 && LookupPath(ins, path) < 0
  }

  lemma CreatableName(ins: seq<Inode>, path: string, x: int)
    requires '/' in path && |BasePart(path)| < NAME_MAX && |ins| > 0 && ins[0].kind.Dir?
    requires Creatable(ins, path)
    ensures ValidName(BasePart(path)) && Used(ins, LookupPath(ins, DirPart(path)))
    ensures NameFree(ins, x, LookupPath(ins, DirPart(path)), BasePart(path))
  {
    LookupSplit(ins, path);
    LookupFinds(ins, DirPart(path));
    NameIsFree(ins, x, LookupPath(ins, DirPart(path)), BasePart(path));
  }

  /** Creating `path` would keep the tree: its directory part is a directory with no child of the new name. */
  predicate CreatesInTree(ins: seq<Inode>, path: string)
    requires path != ""
  {
    var parent := LookupPath(ins, DirPart(path));
    Used(ins, parent) && ins[parent].kind.Dir? && ValidName(BasePart(path)) && NameFree(ins, 0, parent, BasePart(path))
  }

  ghost predicate HasChild(ins: seq<Inode>, x: int) {
    exists j | 0 < j < |ins| && Used(ins, j) :: ins[j].parent == x
  }

  /** Directory `i` is `x` itself or lies somewhere below it. */
  ghost predicate Below(ins: seq<Inode>, i: int, x: int) {
    exists n: nat :: Reach(ins, i, n) && OnChain(ins, i, n, x)
  }

  /** What a rename asks for: a live inode, a directory not below it, and a name of legal length that is new there. */
  ghost predicate CanRename(ins: seq<Inode>, idx: int, parent: int, name: string) {
    && idx > 0 && Used(ins, idx) && 0 <= parent < |ins| && ins[parent].kind.Dir?
    && 0 < |name| < NAME_MAX && !Below(ins, parent, idx) && NameFree(ins, idx, parent, name)
  }

  lemma DepthOf(ins: seq<Inode>, i: int) returns (n: nat)
    requires Tree(ins) && Used(ins, i)
    ensures Reach(ins, i, n)
  {
    if i == 0 {
      n := 0;
    } else {
      assert WellPlaced(ins, i);
      n :| Reach(ins, i, n);
    }
  }

  lemma BelowIs(ins: seq<Inode>, i: int, x: int, n: nat)
    requires Reach(ins, i, n)
    ensures Below(ins, i, x) <==> OnChain(ins, i, n, x)
  {
    if Below(ins, i, x) {
      var m: nat :| Reach(ins, i, m) && OnChain(ins, i, m, x);
      ReachUnique(ins, i, m, n);
    }
  }
}
