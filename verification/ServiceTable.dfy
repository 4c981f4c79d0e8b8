/** Service declarations: dependency lists, the two ways they are split, and what can be started. */
module ServiceTable {

  /** The longest name the starting code can hold. */
  const NAME_MAX := 31

  datatype Service = Service(name: string, deps: string, mask: bv32)
  datatype State = Stopped | Started | Failed

  // ---- Dependency lists ----

  /** Position of the first comma, the length if there is none. */
  function Comma(s: string): (n: nat)
    ensures n <= |s| && (n < |s| ==> s[n] == ',') && forall k | 0 <= k < n :: s[k] != ','
  {
    if s == "" || s[0] == ',' then 0 else 1 + Comma(s[1..])
  }

  /** What follows the token that ends at `n`: one comma is skipped. */
  function After(s: string, n: nat): string
    requires n <= |s|
  {
    if n < |s| && s[n] == ',' then s[n + 1..] else s[n..]
  }

  /** The comma-separated tokens, as the stopping code reads them. */
  function Tokens(s: string): seq<string>
    decreases |s|
  {
    if s == "" then [] else [s[..Comma(s)]] + Tokens(After(s, Comma(s)))
  }

  lemma {:induction false} TokensStart(s: string, t: string)
    requires s != ""
    ensures t in Tokens(s) <==> t == s[..Comma(s)] || t in Tokens(After(s, Comma(s)))
  {
  }

  function Cut(s: string): nat { if Comma(s) <= NAME_MAX then Comma(s) else NAME_MAX }

  /** The tokens as the starting code reads them: cut at 31 characters. */
  function Chunks(s: string): seq<string>
    decreases |s|
  {
    if s == "" then [] else [s[..Cut(s)]] + Chunks(After(s, Cut(s)))
  }

  /** The two readings agree exactly when no token is too long. */
  lemma {:induction false} ReadingsAgree(s: string)
    ensures Tokens(s) == Chunks(s) <==> forall t | t in Tokens(s) :: |t| <= NAME_MAX
    decreases |s|
  {
    if s != "" {
      var t, c := s[..Comma(s)], s[..Cut(s)];
      var ts, cs := Tokens(After(s, Comma(s))), Chunks(After(s, Cut(s)));
      HeadsAndTails(t, ts, c, cs);
      ShortTokens(t, ts);
      if Comma(s) <= NAME_MAX {
        ReadingsAgree(After(s, Comma(s)));
      } else {
        assert |t| != |c|;
      }
    }
  }

  lemma HeadsAndTails(t: string, ts: seq<string>, c: string, cs: seq<string>)
    ensures [t] + ts == [c] + cs <==> t == c && ts == cs
  {
    var a, b := [t] + ts, [c] + cs;
    assert a[0] == t && b[0] == c && a[1..] == ts && b[1..] == cs;
  }

  lemma ShortTokens(t: string, ts: seq<string>)
    ensures (forall u | u in [t] + ts :: |u| <= NAME_MAX) <==> |t| <= NAME_MAX && forall u | u in ts :: |u| <= NAME_MAX
  {
  }

  // ---- Tables ----

  /** Index of the first service of that name, -1 if there is none. */
  function Find(decls: seq<Service>, name: string): (i: int)
    ensures -1 <= i < |decls|
    ensures i >= 0 ==> decls[i].name == name && forall k | 0 <= k < i :: decls[k].name != name
    ensures i < 0 ==> forall k | 0 <= k < |decls| :: decls[k].name != name
  {
    if decls == [] then -1
    else
      var f := Find(decls[..|decls| - 1], name);
      if f >= 0 then f else if decls[|decls| - 1].name == name then |decls| - 1 else -1
  }

  /** Every dependency name fits the starting code's buffer. */
  predicate Readable(decls: seq<Service>) {
    forall i | 0 <= i < |decls| :: Tokens(decls[i].deps) == Chunks(decls[i].deps)
  }

  predicate IsStarted(state: seq<State>, i: int) {
    0 <= i < |state| && state[i] == Started
  }

  /** All of the listed services are started. */
  predicate AllStarted(decls: seq<Service>, state: seq<State>, names: seq<string>) {
    forall t | t in names && t != "" :: IsStarted(state, Find(decls, t))
  }

  /** Started implies all listed dependencies started. */
  ghost predicate Closed(decls: seq<Service>, state: seq<State>) {
    && |state| == |decls|
    && forall i | IsStarted(state, i) :: AllStarted(decls, state, Chunks(decls[i].deps))
  }

  /** Nothing that was started has been lost. */
  ghost predicate Grown(before: seq<State>, after: seq<State>) {
    |before| == |after| && forall i | IsStarted(before, i) :: IsStarted(after, i)
  }

  lemma {:induction false} GrownKeepsAll(decls: seq<Service>, before: seq<State>, after: seq<State>, names: seq<string>)
    requires AllStarted(decls, before, names) && Grown(before, after)
    ensures AllStarted(decls, after, names)
  {
  }

  /** A service whose dependencies are started may be started. */
  lemma {:induction false} StartCloses(decls: seq<Service>, state: seq<State>, i: nat)
    requires Closed(decls, state) && i < |decls| && AllStarted(decls, state, Chunks(decls[i].deps))
    ensures Closed(decls, state[i := Started])
  {
  }

  /** Another started service has service `i` on its list, as the starting code reads it. */
  ghost predicate Needed(decls: seq<Service>, state: seq<State>, i: int)
    requires |state| == |decls|
  {
    exists k, t | IsStarted(state, k) && k != i && t in Chunks(decls[k].deps) && t != "" :: Find(decls, t) == i
  }

  /** A service may stop running exactly when no other started service needs it. */
  lemma {:induction false} StopCloses(decls: seq<Service>, state: seq<State>, i: nat, s: State)
    requires Closed(decls, state) && i < |decls| && s != Started
    ensures Closed(decls, state[i := s]) <==> !Needed(decls, state, i)
  {
  }

  lemma {:induction false} IdleCloses(decls: seq<Service>, state: seq<State>, i: nat, s: State)
    requires Closed(decls, state) && i < |decls| && state[i] != Started && s != Started
    ensures Closed(decls, state[i := s]) && Grown(state, state[i := s]) && Grown(state[i := s], state)
  {
  }

  // ---- What can be started ----

  /** Service `i` can be brought up through dependency chains no longer than `k`. */
  predicate Within(decls: seq<Service>, state: seq<State>, enabled: seq<bool>, i: int, k: nat)
    requires |state| == |decls| == |enabled|
    decreases k, 0
  {
    IsStarted(state, i) || (0 <= i < |decls| && enabled[i] && k > 0 && AllWithin(decls, state, enabled, Chunks(decls[i].deps), k - 1))
  }

  predicate AllWithin(decls: seq<Service>, state: seq<State>, enabled: seq<bool>, names: seq<string>, k: nat)
    requires |state| == |decls| == |enabled|
    decreases k, 1
  {
    forall t {:trigger t in names} | t in names && t != "" :: Within(decls, state, enabled, Find(decls, t), k)
  }

  /**
   * Service `i` is startable: it runs, or it is enabled and all its dependencies are startable, with no
   * circular appeal to itself.
   */
  ghost predicate Startable(decls: seq<Service>, state: seq<State>, enabled: seq<bool>, i: int)
    requires |state| == |decls| == |enabled|
  {
    exists k: nat :: Within(decls, state, enabled, i, k)
  }

  ghost predicate AllStartable(decls: seq<Service>, state: seq<State>, enabled: seq<bool>, names: seq<string>)
    requires |state| == |decls| == |enabled|
  {
    forall t | t in names && t != "" :: Startable(decls, state, enabled, Find(decls, t))
  }

  lemma {:induction false} WithinMore(decls: seq<Service>, state: seq<State>, enabled: seq<bool>, i: int, k: nat, l: nat)
    requires |state| == |decls| == |enabled| && k <= l && Within(decls, state, enabled, i, k)
    ensures Within(decls, state, enabled, i, l)
    decreases k, 0
  {
    if !IsStarted(state, i) { AllWithinMore(decls, state, enabled, Chunks(decls[i].deps), k - 1, l - 1); }
  }

  lemma {:induction false} AllWithinMore(decls: seq<Service>, state: seq<State>, enabled: seq<bool>, names: seq<string>, k: nat, l: nat)
    requires |state| == |decls| == |enabled| && k <= l && AllWithin(decls, state, enabled, names, k)
    ensures AllWithin(decls, state, enabled, names, l)
    decreases k, 1
  {
    forall t | t in names && t != "" ensures Within(decls, state, enabled, Find(decls, t), l) {
      WithinMore(decls, state, enabled, Find(decls, t), k, l);
    }
  }

  /** The length of the shortest chain. */
  ghost function Rank(decls: seq<Service>, state: seq<State>, enabled: seq<bool>, i: int): (k: nat)
    requires |state| == |decls| == |enabled| && Startable(decls, state, enabled, i)
    ensures Within(decls, state, enabled, i, k)
    ensures forall j: nat | j < k :: !Within(decls, state, enabled, i, j)
  {
    var k: nat :| Within(decls, state, enabled, i, k);
    Least(decls, state, enabled, i, k)
  }

  ghost function Least(decls: seq<Service>, state: seq<State>, enabled: seq<bool>, i: int, k: nat): (r: nat)
    requires |state| == |decls| == |enabled| && Within(decls, state, enabled, i, k)
    ensures Within(decls, state, enabled, i, r)
    ensures forall j: nat | j < r :: !Within(decls, state, enabled, i, j)
  {
    if k > 0 && Within(decls, state, enabled, i, k - 1) then Least(decls, state, enabled, i, k - 1)
    else
      assert forall j: nat | j < k :: !Within(decls, state, enabled, i, j) by {
        forall j: nat | j < k ensures !Within(decls, state, enabled, i, j) {
          if Within(decls, state, enabled, i, j) { WithinMore(decls, state, enabled, i, j, k - 1); }
        }
      }
      k
  }

  /** A startable service that is not running is enabled and depends only on startable services of lower rank. */
  lemma {:induction false} StartableUnfolds(decls: seq<Service>, state: seq<State>, enabled: seq<bool>, i: int)
    requires |state| == |decls| == |enabled| && Startable(decls, state, enabled, i) && !IsStarted(state, i)
    ensures 0 <= i < |decls| && enabled[i]
    ensures forall t | t in Chunks(decls[i].deps) && t != "" ::
      Startable(decls, state, enabled, Find(decls, t))
      && Rank(decls, state, enabled, Find(decls, t)) < Rank(decls, state, enabled, i)
  {
    var k := Rank(decls, state, enabled, i);
    assert AllWithin(decls, state, enabled, Chunks(decls[i].deps), k - 1);
    forall t | t in Chunks(decls[i].deps) && t != ""
      ensures Startable(decls, state, enabled, Find(decls, t))
              && Rank(decls, state, enabled, Find(decls, t)) < k
    {
      assert Within(decls, state, enabled, Find(decls, t), k - 1);
    }
  }

  /** Conversely an enabled service whose dependencies are all startable is startable. */
  lemma {:induction false} StartableFolds(decls: seq<Service>, state: seq<State>, enabled: seq<bool>, i: int)
    requires |state| == |decls| == |enabled| && 0 <= i < |decls| && enabled[i]
    requires AllStartable(decls, state, enabled, Chunks(decls[i].deps))
    ensures Startable(decls, state, enabled, i)
  {
    var k := CommonBound(decls, state, enabled, Chunks(decls[i].deps));
    assert Within(decls, state, enabled, i, k + 1);
  }

  lemma {:induction false} CommonBound(decls: seq<Service>, state: seq<State>, enabled: seq<bool>, names: seq<string>) returns (k: nat)
    requires |state| == |decls| == |enabled| && AllStartable(decls, state, enabled, names)
    ensures AllWithin(decls, state, enabled, names, k)
    decreases |names|
  {
    k := 0;
    if names != [] {
      var rest := names[1..];
      var k1 := CommonBound(decls, state, enabled, rest);
      if names[0] == "" {
        k := k1;
        assert forall t | t in names && t != "" :: t in rest;
      } else {
        var k2 := Rank(decls, state, enabled, Find(decls, names[0]));
        k := k1 + k2;
        forall t | t in names && t != "" ensures Within(decls, state, enabled, Find(decls, t), k) {
          if t == names[0] {
            WithinMore(decls, state, enabled, Find(decls, t), k2, k);
          } else {
            assert t in rest;
            WithinMore(decls, state, enabled, Find(decls, t), k1, k);
          }
        }
      }
    }
  }

  // ---- Runlevels ----

  datatype Level = Halt | Single | Multi | Graphical

  function Bit(l: Level): bv32 {
    match l
    case Halt => 1
    case Single => 2
    case Multi => 8
    case Graphical => 32
  }

  /** The number of a runlevel, which is the number of its bit. */
  function Number(l: Level): bv32 {
    match l
    case Halt => 0
    case Single => 1
    case Multi => 3
    case Graphical => 5
  }

  lemma BitIs(l: Level)
    ensures Bit(l) == 1 << Number(l)
  {
  }

  predicate InLevel(s: Service, l: Level) { s.mask & Bit(l) != 0 }

  /** Dependencies are declared before their dependents and run wherever those do. */
  predicate Ordered(decls: seq<Service>) {
    forall i, t | 0 <= i < |decls| && t in Chunks(decls[i].deps) && t != "" :: DependsDown(decls, i, Find(decls, t))
  }

  predicate DependsDown(decls: seq<Service>, i: int, j: int) {
    && 0 <= i < |decls| && -1 <= j < i
    && (j >= 0 ==> forall l: Level :: InLevel(decls[i], l) ==> InLevel(decls[j], l))
  }

  /** The shipped table. */
  const SHIPPED: seq<Service> :=
    [Service("filesystem", "", 42), Service("scheduler", "filesystem", 42), Service("network", "filesystem", 40),
     Service("usernet", "network", 40), Service("exp", "scheduler", 32)]

  /** At most one dependency, of a readable length. */
  predicate Simple(s: string) { |s| <= NAME_MAX && forall k | 0 <= k < |s| :: s[k] != ',' }

  lemma {:induction false} SingleToken(s: string)
    requires Simple(s)
    ensures Tokens(s) == Chunks(s) == if s == "" then [] else [s]
  {
    assert s[..|s|] == s && s[|s|..] == "";
  }

  lemma {:induction false} SimpleTable(decls: seq<Service>)
    requires forall i | 0 <= i < |decls| :: Simple(decls[i].deps)
    ensures Readable(decls)
    ensures forall i, t | 0 <= i < |decls| && t in Chunks(decls[i].deps) :: t == decls[i].deps
  {
  }

  lemma {:induction false} FindAt(decls: seq<Service>, name: string, i: nat)
    requires i < |decls| && decls[i].name == name && forall k | 0 <= k < i :: decls[k].name != name
    ensures Find(decls, name) == i
  {
  }

  lemma {:induction false} ShippedPlaces(decls: seq<Service>)
    requires decls == SHIPPED
    ensures |decls| == 5 && decls[0].deps == "" && forall i | 0 <= i < |decls| :: Simple(decls[i].deps)
    ensures Find(decls, decls[1].deps) == 0 && Find(decls, decls[2].deps) == 0
    ensures Find(decls, decls[3].deps) == 2 && Find(decls, decls[4].deps) == 1
  {
    assert decls[0].name[0] == 'f' && decls[1].name[0] == 's' && decls[2].name[0] == 'n';
    FindAt(decls, decls[1].deps, 0);
    FindAt(decls, decls[2].deps, 0);
    FindAt(decls, decls[3].deps, 2);
    FindAt(decls, decls[4].deps, 1);
  }

  lemma {:induction false} ShippedLevels(decls: seq<Service>)
    requires decls == SHIPPED
    ensures DependsDown(decls, 1, 0) && DependsDown(decls, 2, 0) && DependsDown(decls, 3, 2) && DependsDown(decls, 4, 1)
  {
  }

  /** Nothing runs in halt, the file system and the scheduler in single, those and the network services in multi, all in graphical. */
  lemma {:induction false} ShippedRuns(decls: seq<Service>, k: nat, l: Level)
    requires decls == SHIPPED && k < |decls|
    ensures InLevel(decls[k], l) <==> l == Graphical || (l == Multi && decls[k].name != "exp")
                                      || (l == Single && (decls[k].name == "filesystem" || decls[k].name == "scheduler"))
  {
    assert decls[0].name[0] == 'f' && decls[1].name[0] == 's' && decls[2].name[0] == 'n' && decls[3].name[0] == 'u' && decls[4].name[0] == 'e';
    if k == 0 {} else if k == 1 {} else if k == 2 {} else if k == 3 {} else { assert k == 4; }
  }

  predicate SimplyOrdered(decls: seq<Service>, i: int)
    requires 0 <= i < |decls|
  {
    var f := Find(decls, decls[i].deps);
    Simple(decls[i].deps) && (decls[i].deps == "" || (f >= 0 && DependsDown(decls, i, f)))
  }

  lemma {:induction false} SimpleTableOrdered(decls: seq<Service>)
    requires forall i | 0 <= i < |decls| :: SimplyOrdered(decls, i)
    ensures Readable(decls) && Ordered(decls) && Complete(decls)
  {
    forall i | 0 <= i < |decls| ensures Simple(decls[i].deps) { assert SimplyOrdered(decls, i); }
    SimpleTable(decls);
    forall i, t | 0 <= i < |decls| && t in Chunks(decls[i].deps) && t != ""
      ensures DependsDown(decls, i, Find(decls, t)) && Find(decls, t) >= 0
    {
      assert t == decls[i].deps && SimplyOrdered(decls, i);
    }
  }

  /** Every listed dependency is declared. */
  predicate Complete(decls: seq<Service>) {
    forall i, t | 0 <= i < |decls| && t in Chunks(decls[i].deps) && t != "" :: Find(decls, t) >= 0
  }

  /** The shipped table can be read by both parsers, lists only declared services, and is ordered. */
  lemma {:induction false} ShippedIsOrdered(decls: seq<Service>)
    requires decls == SHIPPED
    ensures Readable(decls) && Ordered(decls) && Complete(decls)
  {
    ShippedPlaces(decls);
    ShippedLevels(decls);
    forall i | 0 <= i < |decls| ensures SimplyOrdered(decls, i) {
      assert i == 0 || i == 1 || i == 2 || i == 3 || i == 4;
    }
    SimpleTableOrdered(decls);
  }
}
