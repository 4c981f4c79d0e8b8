/** Which inode every path names once an inode has been created or renamed. */
module CatLookup {
  import opened CatForest
  import opened CatNames

  /** Filling the free inode `x` changes a search exactly when `x` is what is looked for and comes first. */
  lemma {:induction false} FindChildAdded(ins: seq<Inode>, x: int, n: Inode, dir: int, name: string, from: int)
    requires 0 < x < |ins| && ins[x].kind.Free? && !n.kind.Free? && 1 <= from
    ensures var f := FindChild(ins, dir, name, from);
            FindChild(ins[x := n], dir, name, from) ==
            if n.parent == dir && n.name == name && from <= x && (f == -1 || x < f) then x else f
    decreases |ins| - from
  {
    if from < |ins| {
      assert from != x ==> IsChild(ins[x := n], from, dir, name) == IsChild(ins, from, dir, name);
      FindChildAdded(ins, x, n, dir, name, from + 1);
    }
  }

  /** Inode `x` is free to become `n`: nothing hangs below it. */
  predicate Vacant(ins: seq<Inode>, x: int, n: Inode) {
    && 0 < x < |ins| && ins[x].kind.Free? && !n.kind.Free? && n.parent != x
    && forall j | 0 < j < |ins| && Used(ins, j) :: ins[j].parent != x
  }

  lemma VacantInTree(ins: seq<Inode>, x: int, n: Inode)
    requires Tree(ins) && 0 < x < |ins| && ins[x].kind.Free? && !n.kind.Free? && Used(ins, n.parent)
    ensures Vacant(ins, x, n)
  {
    forall j | 0 < j < |ins| && Used(ins, j) ensures ins[j].parent != x {
      assert WellPlaced(ins, j);
    }
  }

  /** Nothing is found below the new inode. */
  lemma WalkFromNew(ins: seq<Inode>, x: int, n: Inode, names: seq<string>)
    requires Vacant(ins, x, n)
    ensures Walk(ins[x := n], x, names) == if names == [] then x else -1
  {
  }

  /** Walks that never ask for a name the new inode takes over end where they did, or newly at `x`. */
  lemma {:induction false} WalkAdded(ins: seq<Inode>, x: int, n: Inode, cur: int, names: seq<string>)
    requires Vacant(ins, x, n) && cur != x
    requires n.name in names ==> FindChild(ins, n.parent, n.name, 1) < x
    ensures Added(Walk(ins, cur, names), Walk(ins[x := n], cur, names), x)
    decreases |names|
  {
    if names != [] {
      FindChildAdded(ins, x, n, cur, names[0], 1);
      var f := FindChild(ins, cur, names[0], 1);
      if f != -1 {
        WalkAdded(ins, x, n, f, names[1..]);
      } else {
        WalkFromNew(ins, x, n, names[1..]);
      }
    }
  }

  /** What a path named before and after: the same inode, or nothing and then `x`. */
  predicate Added(before: int, after: int, x: int) {
    after == before || (before == -1 && after == x)
  }

  /** Every path names what it named, except that some that named nothing now name `x`. */
  ghost predicate OnlyAdds(ins: seq<Inode>, ins': seq<Inode>, x: int) {
    forall p: string :: Added(LookupPath(ins, p), LookupPath(ins', p), x)
  }

  lemma {:induction false} ComponentsAreNames(p: string)
    ensures forall name | name in Components(p) :: ValidName(name)
    decreases |p|
  {
    if p != "" { ComponentsAreNames(AfterComponent(p)); }
  }

  /** The new inode takes no name over: it has none a path could ask for, or a lower-numbered sibling keeps it. */
  predicate TakesNothingOver(ins: seq<Inode>, x: int, n: Inode) {
    n.name == "" || FindChild(ins, n.parent, n.name, 1) < x
  }

  lemma AddsWhenNew(ins: seq<Inode>, x: int, n: Inode)
    requires Vacant(ins, x, n) && ins[0].kind.Dir? && TakesNothingOver(ins, x, n)
    ensures OnlyAdds(ins, ins[x := n], x)
  {
    forall p: string ensures Added(LookupPath(ins, p), LookupPath(ins[x := n], p), x) {
      LookupWalks(ins, p);
      LookupWalks(ins[x := n], p);
      ComponentsAreNames(p);
      WalkAdded(ins, x, n, 0, Components(p));
    }
  }

  lemma LookupInRoot(ins: seq<Inode>, name: string)
    requires |ins| > 0 && ins[0].kind.Dir? && ValidName(name)
    ensures LookupPath(ins, "/" + name) == FindChild(ins, 0, name, 1)
  {
    LookupWalks(ins, "/" + name);
    ComponentsSlashSingle(name);
    assert Walk(ins, 0, [name]) == FindChild(ins, 0, name, 1);
  }

  /** A new child of the root hides a sibling of the same name with a higher number. */
  lemma HidesSibling(ins: seq<Inode>, x: int, n: Inode)
    requires Vacant(ins, x, n) && ins[0].kind.Dir? && n.parent == 0 && ValidName(n.name) && FindChild(ins, 0, n.name, 1) > x
    ensures !OnlyAdds(ins, ins[x := n], x)
  {
    LookupInRoot(ins, n.name);
    LookupInRoot(ins[x := n], n.name);
    FindChildAdded(ins, x, n, 0, n.name, 1);
    assert !Added(LookupPath(ins, "/" + n.name), LookupPath(ins[x := n], "/" + n.name), x);
  }

  /** A path without a slash asks for itself, or for its first 55 characters and then one more. */
  lemma SlashFreeComponents(path: string)
    requires '/' !in path && 0 < |path| <= NAME_MAX
    ensures Components(path) == if |path| < NAME_MAX then [path] else [path[..NAME_MAX - 1], path[NAME_MAX - 1..]]
  {
    if |path| < NAME_MAX {
      ComponentsSingle(path);
    } else {
      assert ComponentLength(path, 0) == NAME_MAX - 1;
      ComponentsSingle(path[NAME_MAX - 1..]);
      ComponentsStep(path);
    }
  }

  lemma WalkTwo(ins: seq<Inode>, names: seq<string>)
    requires |names| == 2 && FindChild(ins, 0, names[0], 1) >= 0
    ensures Walk(ins, 0, names) == FindChild(ins, FindChild(ins, 0, names[0], 1), names[1], 1)
  {
    assert names[1..] == [names[1]];
    var next := FindChild(ins, 0, names[0], 1);
    assert Walk(ins, next, [names[1]]) == FindChild(ins, next, names[1], 1);
  }

  /** A path without a slash does not name the child of the root that it creates. */
  lemma SlashFreeMisses(ins: seq<Inode>, path: string, x: int, n: Inode)
    requires Vacant(ins, x, n) && ins[0].kind.Dir? && '/' !in path && 0 < |path| <= NAME_MAX
    requires LookupPath(ins, path) == -1 && n.name == path[1..]
    ensures LookupPath(ins[x := n], path) == -1
  {
    var ins' := ins[x := n];
    var names := Components(path);
    LookupWalks(ins, path);
    LookupWalks(ins', path);
    SlashFreeComponents(path);
    FindChildAdded(ins, x, n, 0, names[0], 1);
    var f := FindChild(ins, 0, names[0], 1);
    if |path| < NAME_MAX {
      assert |names[0]| != |n.name|;
    } else if FindChild(ins', 0, names[0], 1) == x {
      WalkFromNew(ins, x, n, names[1..]);
    } else if f != -1 {
      FindChildAdded(ins, x, n, f, names[1], 1);
      WalkTwo(ins, names);
      WalkTwo(ins', names);
    }
  }

  /** A path with a slash names the inode it creates, and no other path is affected. */
  lemma SlashedFinds(ins: seq<Inode>, path: string, x: int, n: Inode)
    requires Vacant(ins, x, n) && ins[0].kind.Dir? && '/' in path && |BasePart(path)| < NAME_MAX && Creatable(ins, path)
    requires n.name == BasePart(path) && n.parent == LookupPath(ins, DirPart(path))
    ensures LookupPath(ins[x := n], path) == x && OnlyAdds(ins, ins[x := n], x)
  {
    LookupSplit(ins, path);
    AddsWhenNew(ins, x, n);
    assert Added(LookupPath(ins, DirPart(path)), LookupPath(ins[x := n], DirPart(path)), x);
    LookupSplit(ins[x := n], path);
    FindChildAdded(ins, x, n, n.parent, n.name, 1);
  }

  /**
   * Creating by path at inode `x`: the path names the new inode exactly if it has a slash, and every other path names what it
   * did exactly unless the new inode hides a sibling, which only a path without a slash can bring about.
   */
  lemma CreatedNames(ins: seq<Inode>, path: string, x: int, n: Inode)
    requires Tree(ins) && path != "" && |BasePart(path)| < NAME_MAX && Creatable(ins, path)
    requires 0 < x < |ins| && ins[x].kind.Free? && !n.kind.Free?
    requires n.name == BasePart(path) && n.parent == LookupPath(ins, DirPart(path))
    ensures LookupPath(ins[x := n], path) == if '/' in path then x else -1
    ensures OnlyAdds(ins, ins[x := n], x) <==> '/' in path || BasePart(path) == "" || FindChild(ins, 0, BasePart(path), 1) < x
  {
    LookupFinds(ins, DirPart(path));
    LookupFinds(ins, path);
    VacantInTree(ins, x, n);
    if '/' in path {
      SlashedFinds(ins, path, x, n);
    } else {
      SlashFreeMisses(ins, path, x, n);
      AddsIffNothingHidden(ins, x, n);
    }
  }

  lemma AddsIffNothingHidden(ins: seq<Inode>, x: int, n: Inode)
    requires Vacant(ins, x, n) && ins[0].kind.Dir? && n.parent == 0 && |n.name| < NAME_MAX && '/' !in n.name
    ensures OnlyAdds(ins, ins[x := n], x) <==> TakesNothingOver(ins, x, n)
  {
    if TakesNothingOver(ins, x, n) {
      AddsWhenNew(ins, x, n);
    } else {
      HidesSibling(ins, x, n);
    }
  }

  /** Creating by path keeps the tree exactly when it makes a new name in a directory: for paths with a slash, exactly when the
      directory part names a directory. */
  lemma CreatedInTree(ins: seq<Inode>, path: string, x: int, n: Inode)
    requires Tree(ins) && path != "" && |BasePart(path)| < NAME_MAX && Creatable(ins, path)
    requires 0 < x < |ins| && ins[x].kind.Free? && !n.kind.Free?
    requires n.name == BasePart(path) && n.parent == LookupPath(ins, DirPart(path))
    ensures Tree(ins[x := n]) <==> CreatesInTree(ins, path)
    ensures Used(ins, n.parent) && ('/' in path ==> (Tree(ins[x := n]) <==> ins[n.parent].kind.Dir?))
    ensures LookupPath(ins[x := n], path) == if '/' in path then x else -1
    ensures OnlyAdds(ins, ins[x := n], x) <==> '/' in path || BasePart(path) == "" || FindChild(ins, 0, BasePart(path), 1) < x
  {
    LookupFinds(ins, DirPart(path));
    TreeCreate(ins, x, n);
    NameFreeAnywhere(ins, x, n.parent, n.name);
    if '/' in path { CreatableName(ins, path, x); }
    CreatedNames(ins, path, x, n);
  }

  /** Some path names inode `i`. */
  ghost predicate Named(ins: seq<Inode>, i: int) {
    exists p: string :: LookupPath(ins, p) == i
  }

  lemma {:induction false} WalkAvoids(ins: seq<Inode>, cur: int, names: seq<string>, i: int)
    requires 0 < i < |ins| && cur != i && ins[i].name !in names
    ensures Walk(ins, cur, names) != i
    decreases |names|
  {
    if names != [] {
      var next := FindChild(ins, cur, names[0], 1);
      if next >= 0 { WalkAvoids(ins, next, names[1..], i); }
    }
  }

  /** No path names an inode whose name has a slash. */
  lemma SlashedIsUnnamed(ins: seq<Inode>, i: int)
    requires 0 < i < |ins| && ins[0].kind.Dir? && '/' in ins[i].name
    ensures !Named(ins, i)
  {
    forall p: string ensures LookupPath(ins, p) != i {
      LookupWalks(ins, p);
      ComponentsAreNames(p);
      WalkAvoids(ins, 0, Components(p), i);
    }
  }

  lemma TreeIsNamed(ins: seq<Inode>, i: int)
    requires Tree(ins) && Used(ins, i)
    ensures Named(ins, i)
  {
    var n := DepthOf(ins, i);
    LookupOfPath(ins, i, n);
  }
}
