/** Lexical path normalisation: '/', '.' and '..', without looking at the file system. */
module Posix {
  import opened Wrappers

  const PATH_MAX := 1024

  // ---- Components ----

  /** Length of the run of characters before the next slash. */
  function PartLength(s: string): (n: nat)
    ensures n <= |s| && (n < |s| ==> s[n] == '/') && forall k | 0 <= k < n :: s[k] != '/'
  {
    if s == "" || s[0] == '/' then 0 else 1 + PartLength(s[1..])
  }

  /** The non-empty components between slashes. */
  function Parts(s: string): seq<string>
    decreases |s|
  {
    if s == "" then []
    else if s[0] == '/' then Parts(s[1..])
    else [s[..PartLength(s)]] + Parts(s[PartLength(s)..])
  }

  /** One component applied to a stack: '.' stays, '..' goes up (the root has no parent), a name goes down. */
  function Apply(stack: seq<string>, part: string): seq<string> {
    if part == "." then stack
    else if part == ".." then (if stack == [] then [] else stack[..|stack| - 1])
    else stack + [part]
  }

  function Eval(stack: seq<string>, parts: seq<string>): seq<string>
    decreases |parts|
  {
    if parts == [] then stack else Eval(Apply(stack, parts[0]), parts[1..])
  }

  function Slashed(stack: seq<string>): string {
    if stack == [] then "" else Slashed(stack[..|stack| - 1]) + "/" + stack[|stack| - 1]
  }

  function Render(stack: seq<string>): string {
    if stack == [] then "/" else Slashed(stack)
  }

  /** The canonical form of an absolute path. */
  function Normal(raw: string): string { Render(Eval([], Parts(raw))) }

  // ---- What evaluation leaves ----

  predicate Plain(part: string) { part != "" && '/' !in part }
  predicate Clean(part: string) { Plain(part) && part != "." && part != ".." }
  predicate AllPlain(parts: seq<string>) { forall i | 0 <= i < |parts| :: Plain(parts[i]) }
  predicate AllClean(parts: seq<string>) { forall i | 0 <= i < |parts| :: Clean(parts[i]) }

  lemma {:induction false} PartsPlain(s: string)
    ensures AllPlain(Parts(s))
    decreases |s|
  {
    if s != "" {
      if s[0] == '/' {
        PartsPlain(s[1..]);
      } else {
        PartsPlain(s[PartLength(s)..]);
        assert Plain(s[..PartLength(s)]);
      }
    }
  }

  lemma {:induction false} EvalClean(stack: seq<string>, parts: seq<string>)
    requires AllClean(stack) && AllPlain(parts)
    ensures AllClean(Eval(stack, parts))
    decreases |parts|
  {
    if parts != [] {
      assert Plain(parts[0]);
      EvalClean(Apply(stack, parts[0]), parts[1..]);
    }
  }

  lemma {:induction false} EvalOfClean(stack: seq<string>, parts: seq<string>)
    requires AllClean(parts)
    ensures Eval(stack, parts) == stack + parts
    decreases |parts|
  {
    if parts != [] {
      assert Clean(parts[0]);
      EvalOfClean(stack + [parts[0]], parts[1..]);
      assert stack + [parts[0]] + parts[1..] == stack + parts;
    } else {
      assert stack + parts == stack;
    }
  }

  lemma {:induction false} EvalAppend(stack: seq<string>, a: seq<string>, b: seq<string>)
    ensures Eval(stack, a + b) == Eval(Eval(stack, a), b)
    decreases |a|
  {
    if a == [] {
      assert a + b == b;
    } else {
      assert (a + b)[1..] == a[1..] + b;
      EvalAppend(Apply(stack, a[0]), a[1..], b);
    }
  }

  /** A component followed by nothing or a slash is split off whole. */
  lemma {:induction false} PartsFirst(x: string, rest: string)
    requires x != "" && (forall k | 0 <= k < |x| :: x[k] != '/') && (rest != "" ==> rest[0] == '/')
    ensures Parts(x + rest) == [x] + Parts(rest)
  {
    var s := x + rest;
    PartLengthIs(s, |x|);
    assert s[..|x|] == x && s[|x|..] == rest;
  }

  lemma {:induction false} PartsSlash(a: string, b: string)
    ensures Parts(a + "/" + b) == Parts(a) + Parts(b)
    decreases |a|
  {
    if a == "" {
      assert (a + "/" + b)[1..] == b;
    } else if a[0] == '/' {
      assert (a + "/" + b)[1..] == a[1..] + "/" + b;
      PartsSlash(a[1..], b);
    } else {
      var n := PartLength(a);
      var x, a' := a[..n], a[n..];
      assert a == x + a' && a + "/" + b == x + (a' + "/" + b);
      PartsSlash(a', b);
      PartsBehind(x, a', a' + "/" + b, Parts(b));
    }
  }

  lemma {:induction false} PartsBehind(x: string, a: string, c: string, more: seq<string>)
    requires x != "" && (forall k | 0 <= k < |x| :: x[k] != '/') && (a != "" ==> a[0] == '/') && (c != "" ==> c[0] == '/')
    requires Parts(c) == Parts(a) + more
    ensures Parts(x + c) == Parts(x + a) + more
  {
    PartsFirst(x, a);
    PartsFirst(x, c);
    assert [x] + (Parts(a) + more) == [x] + Parts(a) + more;
  }

  lemma PartLengthIs(s: string, n: nat)
    requires n <= |s| && (n < |s| ==> s[n] == '/') && forall k | 0 <= k < n :: s[k] != '/'
    ensures PartLength(s) == n
  {
    var m := PartLength(s);
  }

  lemma PartsOfPlain(part: string)
    requires Plain(part)
    ensures Parts(part) == [part]
  {
    assert forall k | 0 <= k < |part| :: part[k] != '/' by {
      forall k | 0 <= k < |part| ensures part[k] != '/' { assert part[k] in part; }
    }
    PartLengthIs(part, |part|);
    assert part[..|part|] == part && part[|part|..] == "";
  }

  /** Printing a stack and splitting it again gives the stack back. */
  lemma {:induction false} PartsOfRender(stack: seq<string>)
    requires AllPlain(stack)
    ensures Parts(Slashed(stack)) == stack && Parts(Render(stack)) == stack
  {
    if stack != [] {
      var n := |stack| - 1;
      PartsOfRender(stack[..n]);
      PartsSlash(Slashed(stack[..n]), stack[n]);
      PartsOfPlain(stack[n]);
      assert stack == stack[..n] + [stack[n]];
    } else {
      assert Render(stack)[1..] == "";
    }
  }

  /** No empty, '.' or '..' component is left. */
  lemma NormalIsClean(raw: string)
    ensures AllClean(Parts(Normal(raw))) && Parts(Normal(raw)) == Eval([], Parts(raw))
  {
    PartsPlain(raw);
    EvalClean([], Parts(raw));
    PartsOfRender(Eval([], Parts(raw)));
  }

  lemma NormalIdempotent(raw: string)
    ensures Normal(Normal(raw)) == Normal(raw)
  {
    NormalIsClean(raw);
    EvalOfClean([], Parts(Normal(raw)));
    assert [] + Parts(Normal(raw)) == Parts(Normal(raw));
  }

  /** Resolving against a base continues evaluation from where the base ended. */
  lemma ResolveContinues(base: string, path: string)
    ensures Normal(base + "/" + path) == Render(Eval(Parts(Normal(base)), Parts(path)))
  {
    PartsSlash(base, path);
    EvalAppend([], Parts(base), Parts(path));
    NormalIsClean(base);
  }

  // ---- The laws of paths ----

  /** A path has one component more below a slash. */
  lemma PartsBelow(a: string, part: string)
    requires Plain(part)
    ensures Parts(a + "/" + part) == Parts(a) + [part]
  {
    PartsSlash(a, part);
    PartsOfPlain(part);
  }

  lemma EvalBelow(stack: seq<string>, parts: seq<string>, part: string)
    ensures Eval(stack, parts + [part]) == Apply(Eval(stack, parts), part)
  {
    EvalAppend(stack, parts, [part]);
    assert [part][1..] == [];
  }

  /** Two beginnings with the same components can be exchanged. */
  lemma SameBeginning(a: string, a': string, b: string)
    requires Eval([], Parts(a)) == Eval([], Parts(a'))
    ensures Normal(a + "/" + b) == Normal(a' + "/" + b)
  {
    PartsSlash(a, b);
    PartsSlash(a', b);
    EvalAppend([], Parts(a), Parts(b));
    EvalAppend([], Parts(a'), Parts(b));
  }

  /** A name followed by '..' goes. */
  lemma NormalUp(a: string, name: string, b: string)
    requires Clean(name)
    ensures Normal(a + "/" + name + "/../" + b) == Normal(a + "/" + b)
  {
    var down := a + "/" + name;
    var up := down + "/" + "..";
    assert down + "/../" + b == up + "/" + b;
    PartsBelow(a, name);
    PartsBelow(down, "..");
    EvalBelow([], Parts(a), name);
    EvalBelow([], Parts(down), "..");
    var at := Eval([], Parts(a));
    assert (at + [name])[..|at|] == at;
    SameBeginning(up, a, b);
  }

  /** The root is its own parent. */
  lemma NormalTop(b: string)
    ensures Normal("/../" + b) == Normal("/" + b)
  {
    assert "/../" + b == "/.." + "/" + b && "/.." == "" + "/" + ".." && "/" + b == "" + "/" + b;
    PartsBelow("", "..");
    EvalBelow([], [], "..");
    assert Parts("") + [".."] == [".."] && [] + [".."] == [".."];
    SameBeginning("/..", "", b);
  }

  /** '.' goes, and so does an empty component. */
  lemma NormalHere(a: string, b: string)
    ensures Normal(a + "/./" + b) == Normal(a + "/" + b) && Normal(a + "//" + b) == Normal(a + "/" + b)
  {
    assert a + "/./" + b == (a + "/" + ".") + "/" + b && a + "//" + b == (a + "/" + "") + "/" + b;
    PartsBelow(a, ".");
    EvalBelow([], Parts(a), ".");
    SameBeginning(a + "/" + ".", a, b);
    PartsSlash(a, "");
    assert Parts(a) + [] == Parts(a);
    SameBeginning(a + "/" + "", a, b);
  }

  /** Any other name is put below what comes before it. */
  lemma NormalDown(a: string, name: string)
    requires Clean(name)
    ensures Normal(a + "/" + name) == (if Normal(a) == "/" then "" else Normal(a)) + "/" + name
  {
    PartsBelow(a, name);
    EvalBelow([], Parts(a), name);
    var at := Eval([], Parts(a));
    var below := at + [name];
    assert below[..|below| - 1] == at && below[|below| - 1] == name && Apply(at, name) == below;
    assert Slashed(below) == Slashed(at) + "/" + name;
    SlashedStarts(a, at);
  }

  lemma SlashedStarts(a: string, at: seq<string>)
    requires at == Eval([], Parts(a))
    ensures at != [] ==> Slashed(at) != "/"
  {
    PartsPlain(a);
    EvalClean([], Parts(a));
    if at != [] {
      assert Clean(at[|at| - 1]);
      assert |Slashed(at)| == |Slashed(at[..|at| - 1])| + 1 + |at[|at| - 1]|;
    }
  }

  /** A printed stack of names is its own normal form. */
  lemma NormalOfNames(names: seq<string>)
    requires AllClean(names)
    ensures Normal(Render(names)) == Render(names)
  {
    PartsOfRender(names);
    EvalOfClean([], names);
    assert [] + names == names;
  }

  lemma NormalExample()
    ensures Normal("/a/b/../c") == "/a/c"
  {
    assert "/a/b/../c" == "/a" + "/" + "b" + "/../" + "c" && "/a" == "" + "/" + "a";
    NormalUp("/a", "b", "c");
    NormalDown("/a", "c");
    NormalDown("", "a");
    assert Normal("") == "/";
    assert "" + "/" + "a" == "/a" && "/a" + "/" + "c" == "/a/c";
  }

  // ---- Length ----

  function Weight(parts: seq<string>): nat {
    if parts == [] then 0 else Weight(parts[..|parts| - 1]) + 1 + |parts[|parts| - 1]|
  }

  lemma {:induction false} SlashedLength(stack: seq<string>)
    ensures |Slashed(stack)| == Weight(stack)
  {
    if stack != [] { SlashedLength(stack[..|stack| - 1]); }
  }

  lemma {:induction false} WeightCons(p: string, rest: seq<string>)
    ensures Weight([p] + rest) == 1 + |p| + Weight(rest)
  {
    if rest == [] {
      assert [p] + rest == [p] && [p][..0] == [];
    } else {
      var n := |rest| - 1;
      assert ([p] + rest)[..|rest|] == [p] + rest[..n];
      WeightCons(p, rest[..n]);
    }
  }

  lemma ApplyWeight(stack: seq<string>, part: string)
    ensures Weight(Apply(stack, part)) <= Weight(stack) + 1 + |part|
  {
    if part != "." && part != ".." { assert (stack + [part])[..|stack|] == stack; }
  }

  lemma {:induction false} EvalWeight(stack: seq<string>, parts: seq<string>)
    ensures Weight(Eval(stack, parts)) <= Weight(stack) + Weight(parts)
    decreases |parts|
  {
    if parts != [] {
      ApplyWeight(stack, parts[0]);
      EvalWeight(Apply(stack, parts[0]), parts[1..]);
      WeightCons(parts[0], parts[1..]);
      assert parts == [parts[0]] + parts[1..];
    }
  }

  lemma {:induction false} PartsWeight(s: string)
    ensures Weight(Parts(s)) <= |s| + if s == "" || s[0] == '/' then 0 else 1
    decreases |s|
  {
    if s != "" {
      if s[0] == '/' {
        PartsWeight(s[1..]);
      } else {
        var n := PartLength(s);
        PartsWeight(s[n..]);
        WeightCons(s[..n], Parts(s[n..]));
      }
    }
  }

  /** Normalisation never lengthens an absolute path. */
  lemma NormalShortens(raw: string)
    requires raw != "" && raw[0] == '/'
    ensures |Normal(raw)| <= |raw|
  {
    PartsWeight(raw);
    EvalWeight([], Parts(raw));
    SlashedLength(Eval([], Parts(raw)));
  }

  // ---- The buffer loop ----

  /** Cuts the last component off a printed stack, scanning back for the slash. */
  method Pop(out: string, ghost stack: seq<string>) returns (out': string)
    requires AllClean(stack) && out == Render(stack)
    ensures out' == Render(Apply(stack, ".."))
  {
    out' := out;
    var used := |out|;
    if used > 1 {
      ghost var n := |stack| - 1;
      ghost var m := |Slashed(stack[..n])|;
      PopSplit(stack, out);
      while used > 1 && out[used - 1] != '/'
        invariant m + 1 <= used <= |out|
      {
        used := used - 1;
      }
      if used > 1 { used := used - 1; }
      out' := out[..used];
    }
  }

  /** A printed non-empty stack is the printed rest, a slash, and a last component without slashes. */
  lemma {:induction false} PopSplit(stack: seq<string>, out: string)
    requires AllClean(stack) && out == Render(stack) && |out| > 1
    ensures stack != []
    ensures var m := |Slashed(stack[..|stack| - 1])|;
      && m < |out| && out[m] == '/' && out[..m] == Slashed(stack[..|stack| - 1])
      && (forall k | m < k < |out| :: out[k] != '/')
      && (m == 0 <==> |stack| == 1)
  {
  }

  /** Pushes a component, unless it would not fit. */
  method Push(out: string, part: string, ghost stack: seq<string>) returns (fits: bool, out': string)
    requires AllClean(stack) && out == Render(stack) && Clean(part)
    ensures fits == (|Render(stack + [part])| < PATH_MAX)
    ensures fits ==> out' == Render(stack + [part])
  {
    out' := out;
    assert (stack + [part])[..|stack|] == stack;
    assert stack != [] ==> Clean(stack[|stack| - 1]);
    if stack == [] { assert Slashed(stack) + "/" == out; } else { assert Slashed(stack) == out; }
    assert Render(stack + [part]) == Slashed(stack) + "/" + part;
    if |out| > 1 {
      if |out| + 1 + |part| >= PATH_MAX { return false, out'; }
      out' := out + "/";
    } else {
      if |out| + |part| >= PATH_MAX { return false, out'; }
    }
    fits, out' := true, out' + part;
  }

  method SkipSlashes(raw: string, p: nat) returns (a: nat)
    requires p < |raw| && raw[p] == '/'
    ensures p < a <= |raw| && Parts(raw[p..]) == Parts(raw[a..]) && (a < |raw| ==> raw[a] != '/')
  {
    a := p;
    while a < |raw| && raw[a] == '/'
      invariant p <= a <= |raw| && Parts(raw[p..]) == Parts(raw[a..]) && (a == p ==> raw[a] == '/')
    {
      assert raw[a..][1..] == raw[a + 1..];
      a := a + 1;
    }
  }

  /** Bounds of the next component after skipping slashes; both are the end if there is none. */
  method NextPart(raw: string, p: nat) returns (a: nat, b: nat)
    requires p < |raw| && raw[p] == '/'
    ensures p < a <= b <= |raw|
    ensures a == |raw| ==> Parts(raw[p..]) == []
    ensures a < |raw| ==> Plain(raw[a..b]) && Parts(raw[p..]) == [raw[a..b]] + Parts(raw[b..])
    ensures b < |raw| ==> raw[b] == '/'
  {
    a := SkipSlashes(raw, p);
    b := a;
    while b < |raw| && raw[b] != '/'
      invariant a <= b <= |raw| && forall k | a <= k < b :: raw[k] != '/'
    {
      b := b + 1;
    }
    if a < |raw| {
      SplitAt(raw, a, b);
    } else {
      assert raw[a..] == "";
    }
  }

  lemma {:induction false} SplitAt(raw: string, a: nat, b: nat)
    requires a < b <= |raw| && (forall k | a <= k < b :: raw[k] != '/') && (b < |raw| ==> raw[b] == '/')
    ensures Plain(raw[a..b]) && Parts(raw[a..]) == [raw[a..b]] + Parts(raw[b..])
  {
    var x := raw[a..b];
    assert forall k | 0 <= k < |x| :: x[k] == raw[a + k];
    assert raw[a..] == x + raw[b..];
    PartsFirst(x, raw[b..]);
  }

  /** Applies one component to the printed stack. */
  method Step(out: string, part: string, ghost stack: seq<string>) returns (fits: bool, out': string)
    requires AllClean(stack) && out == Render(stack) && |out| < PATH_MAX && Plain(part)
    ensures AllClean(Apply(stack, part))
    ensures fits <==> |Render(Apply(stack, part))| < PATH_MAX
    ensures fits ==> out' == Render(Apply(stack, part))
  {
    fits, out' := true, out;
    if part == "." { return; }
    if part == ".." {
      out' := Pop(out, stack);
      PopShortens(stack);
    } else {
      fits, out' := Push(out, part, stack);
    }
  }

  lemma PopShortens(stack: seq<string>)
    ensures |Render(Apply(stack, ".."))| <= |Render(stack)|
  {
  }

  /** At no component does the path so far outgrow the buffer. */
  predicate FitsThroughout(parts: seq<string>) {
    forall j | 0 <= j <= |parts| :: Short(parts[..j])
  }

  predicate Short(parts: seq<string>) { |Render(Eval([], parts))| < PATH_MAX }

  /** Inputs shorter than the buffer never outgrow it. */
  lemma ShortFits(raw: string)
    requires raw != "" && raw[0] == '/' && |raw| < PATH_MAX
    ensures FitsThroughout(Parts(raw))
  {
    var parts := Parts(raw);
    PartsWeight(raw);
    forall j | 0 <= j <= |parts| ensures |Render(Eval([], parts[..j]))| < PATH_MAX {
      EvalWeight([], parts[..j]);
      WeightPrefix(parts, j);
      SlashedLength(Eval([], parts[..j]));
    }
  }

  lemma {:induction false} WeightPrefix(parts: seq<string>, j: nat)
    requires j <= |parts|
    ensures Weight(parts[..j]) <= Weight(parts)
  {
    if j < |parts| {
      WeightPrefix(parts[..|parts| - 1], j);
      assert parts[..|parts| - 1][..j] == parts[..j];
    } else {
      assert parts[..j] == parts;
    }
  }

  /** One more component read. */
  lemma {:induction false} NextStep(seen: seq<string>, part: string, rest: seq<string>, parts: seq<string>)
    requires parts == seen + ([part] + rest)
    ensures parts == seen + [part] + rest && Eval([], seen + [part]) == Apply(Eval([], seen), part)
    ensures seen + [part] <= parts
  {
    EvalAppend([], seen, [part]);
    assert [part][1..] == [];
  }

  /**
   * Canonical form of an absolute path in a buffer of 1024 bytes: relative paths are refused, and so are exactly those
   * that outgrow the buffer at some component, which inputs below 1024 characters never do.
   */
  method Normalize(raw: string) returns (r: Option<string>)
    ensures r == if raw != "" && raw[0] == '/' && FitsThroughout(Parts(raw)) then Some(Normal(raw)) else None
    ensures raw != "" && raw[0] == '/' && |raw| < PATH_MAX ==> r.Some?
  {
    if raw == "" || raw[0] != '/' { return None; }
    if |raw| < PATH_MAX { ShortFits(raw); }
    r := NormalizeLoop(raw, Parts(raw));
  }

  method NormalizeLoop(raw: string, ghost parts: seq<string>) returns (r: Option<string>)
    requires raw != "" && raw[0] == '/' && parts == Parts(raw)
    ensures r == if FitsThroughout(parts) then Some(Render(Eval([], parts))) else None
  {
    var out := "/";
    ghost var seen: seq<string> := [];
    var p := 0;
    assert raw[0..] == raw && [] + parts == parts;
    while p < |raw|
      invariant 0 <= p <= |raw| && (p < |raw| ==> raw[p] == '/')
      invariant out == Render(Eval([], seen)) && AllClean(Eval([], seen)) && parts == seen + Parts(raw[p..])
      invariant FitsThroughout(seen)
    {
      var a, b := NextPart(raw, p);
      if a == |raw| {
        assert parts == seen;
        return Some(out);
      }
      var fits;
      fits, out := StepOn(out, raw[a..b], seen, Parts(raw[b..]), parts);
      if !fits { return None; }
      seen := seen + [raw[a..b]];
      p := b;
    }
    assert raw[p..] == "" && parts == seen;
    return Some(out);
  }

  /** One component further on. */
  method StepOn(out: string, part: string, ghost seen: seq<string>, ghost rest: seq<string>, ghost parts: seq<string>)
      returns (fits: bool, out': string)
    requires Plain(part) && parts == seen + ([part] + rest) && FitsThroughout(seen)
    requires out == Render(Eval([], seen)) && AllClean(Eval([], seen))
    ensures parts == seen + [part] + rest
    ensures fits ==> out' == Render(Eval([], seen + [part])) && AllClean(Eval([], seen + [part])) && FitsThroughout(seen + [part])
    ensures !fits ==> !FitsThroughout(parts)
  {
    NextStep(seen, part, rest, parts);
    assert |out| < PATH_MAX by { assert seen[..|seen|] == seen && Short(seen); }
    fits, out' := Step(out, part, Eval([], seen));
    FitsNext(seen, part, parts);
  }

  /** Whether the path so far fits, one component further on. */
  lemma {:induction false} FitsNext(seen: seq<string>, part: string, parts: seq<string>)
    requires FitsThroughout(seen) && seen + [part] <= parts
    ensures if Short(seen + [part]) then FitsThroughout(seen + [part]) else !FitsThroughout(parts)
  {
    var next := seen + [part];
    forall j | 0 <= j <= |seen| ensures Short(next[..j]) { assert next[..j] == seen[..j]; }
    assert next[..|next|] == next && parts[..|next|] == next;
  }

  /** What a path means relative to a base directory. */
  function Resolved(base: string, path: string): string {
    if path != "" && path[0] == '/' then Normal(path) else Render(Eval(Parts(Normal(base)), Parts(path)))
  }

  /** A trailing slash on the base makes no difference. */
  lemma TrailingSlash(base: string, path: string)
    requires base != "" && base[|base| - 1] == '/'
    ensures Normal(base + path) == Normal(base + "/" + path)
  {
    var b := base[..|base| - 1];
    assert base == b + "/" && base + path == b + "/" + path && base == b + "/" + "";
    PartsSlash(b, path);
    PartsSlash(b, "");
    PartsSlash(base, path);
    assert Parts(b) + [] == Parts(b);
  }

  /** Resolves a path against a base: refused when empty, relative to no absolute base, or too long for the buffer. */
  method BasePath(base: string, path: string) returns (r: Option<string>)
    ensures r == if path == "" || base == "" || base[0] != '/' then None
                 else if path[0] == '/' then (if |path| >= PATH_MAX then None else Some(Resolved(base, path)))
                 else if |base| + 1 + |path| >= PATH_MAX then None else Some(Resolved(base, path))
  {
    if path == "" || base == "" || base[0] != '/' { return None; }
    var raw;
    if path[0] == '/' {
      if |path| >= PATH_MAX { return None; }
      raw := path;
    } else {
      if |base| + 1 + |path| >= PATH_MAX { return None; }
      raw := base;
      if raw[|raw| - 1] != '/' { raw := raw + "/"; } else { TrailingSlash(base, path); }
      raw := raw + path;
      ResolveContinues(base, path);
    }
    r := Normalize(raw);
  }
}
