/** The service manager: recursive dependency start, guarded stop, runlevel transitions, over whole runs. */
module Services {
  import opened ServiceTable
  import Sequences

  /** How many entries are not being visited: what the recursion uses up. */
  function Idle(visiting: seq<bool>): nat {
    if visiting == [] then 0 else Idle(visiting[..|visiting| - 1]) + if visiting[|visiting| - 1] then 0 else 1
  }

  lemma {:induction false} VisitingUsesUp(visiting: seq<bool>, i: nat)
    requires i < |visiting| && !visiting[i]
    ensures Idle(visiting[i := true]) == Idle(visiting) - 1
  {
    var n := |visiting| - 1;
    var after := visiting[i := true];
    if i < n {
      VisitingUsesUp(visiting[..n], i);
      assert after[..n] == visiting[..n][i := true];
    } else {
      assert after[..n] == visiting[..n];
    }
  }

  /** From `base` only startable services have been started, and none stopped. */
  ghost predicate Tracked(decls: seq<Service>, base: seq<State>, enabled: seq<bool>, state: seq<State>) {
    && |base| == |decls| == |enabled| && Grown(base, state)
    && forall k | IsStarted(state, k) :: Startable(decls, base, enabled, k)
  }

  /** If `v` is startable then so is `j`, through a shorter chain. */
  ghost predicate Ahead(decls: seq<Service>, base: seq<State>, enabled: seq<bool>, v: int, j: int)
    requires |base| == |decls| == |enabled|
  {
    Startable(decls, base, enabled, v) ==>
      Startable(decls, base, enabled, j) && Rank(decls, base, enabled, j) < Rank(decls, base, enabled, v)
  }

  /** Every service being visited waits for `j`. */
  ghost predicate Awaited(decls: seq<Service>, base: seq<State>, enabled: seq<bool>, visiting: seq<bool>, j: int)
    requires |base| == |decls| == |enabled|
  {
    forall v | 0 <= v < |visiting| && visiting[v] :: Ahead(decls, base, enabled, v, j)
  }

  predicate Parked(visiting: seq<bool>, state: seq<State>) {
    forall v | 0 <= v < |visiting| && visiting[v] :: !IsStarted(state, v)
  }

  lemma {:induction false} AwaitedStep(decls: seq<Service>, base: seq<State>, enabled: seq<bool>, visiting: seq<bool>, i: nat, t: string)
    requires |base| == |decls| == |enabled| == |visiting| && i < |decls| && !IsStarted(base, i)
    requires Awaited(decls, base, enabled, visiting, i)
    requires t in Chunks(decls[i].deps) && t != ""
    ensures Awaited(decls, base, enabled, visiting[i := true], Find(decls, t))
  {
    var j := Find(decls, t);
    if Startable(decls, base, enabled, i) { StartableUnfolds(decls, base, enabled, i); }
    assert Ahead(decls, base, enabled, i, j);
    forall v | 0 <= v < |visiting| && visiting[i := true][v] ensures Ahead(decls, base, enabled, v, j) {
      if v != i { assert Ahead(decls, base, enabled, v, i); }
    }
  }

  ghost predicate AllAwaited(decls: seq<Service>, base: seq<State>, enabled: seq<bool>, visiting: seq<bool>, names: seq<string>)
    requires |base| == |decls| == |enabled| == |visiting|
  {
    forall t | t in names && t != "" :: Awaited(decls, base, enabled, visiting, Find(decls, t))
  }

  lemma {:induction false} AwaitedAll(decls: seq<Service>, base: seq<State>, enabled: seq<bool>, visiting: seq<bool>, i: nat)
    requires |base| == |decls| == |enabled| == |visiting| && i < |decls| && !IsStarted(base, i)
    requires Awaited(decls, base, enabled, visiting, i)
    ensures AllAwaited(decls, base, enabled, visiting[i := true], Chunks(decls[i].deps))
  {
    forall t | t in Chunks(decls[i].deps) && t != ""
      ensures Awaited(decls, base, enabled, visiting[i := true], Find(decls, t))
    {
      AwaitedStep(decls, base, enabled, visiting, i, t);
    }
  }

  /** What starting `i` needs: it runs, or it may start and its dependencies are startable. */
  ghost predicate CanStart(decls: seq<Service>, base: seq<State>, enabled: seq<bool>, i: int, manual: bool)
    requires |base| == |decls| == |enabled|
  {
    IsStarted(base, i)
    || (0 <= i < |decls| && (manual || enabled[i]) && AllStartable(decls, base, enabled, Chunks(decls[i].deps)))
  }

  lemma {:induction false} CanStartMeans(decls: seq<Service>, base: seq<State>, enabled: seq<bool>, i: int)
    requires |base| == |decls| == |enabled|
    ensures CanStart(decls, base, enabled, i, false) <==> Startable(decls, base, enabled, i)
  {
    if IsStarted(base, i) {
      assert Within(decls, base, enabled, i, 0);
    } else if Startable(decls, base, enabled, i) {
      StartableUnfolds(decls, base, enabled, i);
    } else if CanStart(decls, base, enabled, i, false) {
      StartableFolds(decls, base, enabled, i);
    }
  }

  /** A service that is being visited is not startable, and one that is not enabled only by hand. */
  lemma {:induction false} Refusals(decls: seq<Service>, base: seq<State>, enabled: seq<bool>, state: seq<State>, visiting: seq<bool>, i: nat)
    requires |visiting| == |decls| && Tracked(decls, base, enabled, state) && i < |decls| && !IsStarted(state, i)
    requires Awaited(decls, base, enabled, visiting, i)
    ensures visiting[i] ==> !Startable(decls, base, enabled, i)
    ensures !enabled[i] ==> !Startable(decls, base, enabled, i)
  {
  }

  /** Starting a startable service keeps track. */
  lemma {:induction false} TrackStart(decls: seq<Service>, base: seq<State>, enabled: seq<bool>, state: seq<State>, i: nat)
    requires Tracked(decls, base, enabled, state) && i < |decls| && Startable(decls, base, enabled, i)
    ensures Tracked(decls, base, enabled, state[i := Started])
  {
  }

  lemma {:induction false} TrackIdle(decls: seq<Service>, base: seq<State>, enabled: seq<bool>, before: seq<State>, after: seq<State>)
    requires Tracked(decls, base, enabled, before) && Grown(before, after) && Grown(after, before)
    ensures Tracked(decls, base, enabled, after)
  {
  }

  lemma {:induction false} TrackedAll(decls: seq<Service>, base: seq<State>, enabled: seq<bool>, state: seq<State>, names: seq<string>)
    requires Tracked(decls, base, enabled, state) && AllStarted(decls, state, names)
    ensures AllStartable(decls, base, enabled, names)
  {
  }

  lemma {:induction false} NewIsEnabled(decls: seq<Service>, base: seq<State>, enabled: seq<bool>, state: seq<State>)
    requires Tracked(decls, base, enabled, state)
    ensures forall k | IsStarted(state, k) && !IsStarted(base, k) :: enabled[k]
  {
  }

  // ---- Levels ----

  predicate Covers(decls: seq<Service>, i: int, k: int) {
    0 <= i < |decls| && 0 <= k < |decls| && forall l: Level :: InLevel(decls[i], l) ==> InLevel(decls[k], l)
  }

  /** Whatever has been started runs in every level that `i` runs in. */
  ghost predicate Spread(decls: seq<Service>, i: int, before: seq<State>, after: seq<State>) {
    Ordered(decls) ==> forall k | IsStarted(after, k) && !IsStarted(before, k) :: Covers(decls, i, k)
  }

  lemma {:induction false} SpreadTrans(decls: seq<Service>, i: nat, t: string, a: seq<State>, b: seq<State>, c: seq<State>)
    requires i < |decls| && t in Chunks(decls[i].deps) && t != ""
    requires Spread(decls, i, a, b) && Spread(decls, Find(decls, t), b, c)
    ensures Spread(decls, i, a, c)
  {
  }

  /** The next chunk of the rest of a list is on the list. */
  lemma {:induction false} NextListed(list: string, done: seq<string>, p: string)
    requires p != "" && Chunks(list) == done + Chunks(p)
    ensures p[..Cut(p)] in Chunks(list) && Chunks(list) == done + [p[..Cut(p)]] + Chunks(After(p, Cut(p)))
    ensures |After(p, Cut(p))| < |p|
  {
    Sequences.Regroup(done, [p[..Cut(p)]], Chunks(After(p, Cut(p))));
    assert Chunks(list)[|done|] == p[..Cut(p)];
  }

  // ---- Requests ----

  /** A request begins with nothing visited and its own state as the base. */
  lemma {:induction false} FreshContext(decls: seq<Service>, enabled: seq<bool>, visiting: seq<bool>, state: seq<State>)
    requires |state| == |decls| == |enabled| == |visiting| && forall v | v in visiting :: !v
    ensures Tracked(decls, state, enabled, state) && Parked(visiting, state)
    ensures forall i :: Awaited(decls, state, enabled, visiting, i)
  {
    forall k | IsStarted(state, k) ensures Startable(decls, state, enabled, k) {
      assert Within(decls, state, enabled, k, 0);
    }
    forall v | 0 <= v < |visiting| ensures !visiting[v] { assert visiting[v] in visiting; }
  }

  /** A started service lists `name`, as the stopping code reads the lists. */
  predicate Listed(decls: seq<Service>, state: seq<State>, name: string, n: nat)
    requires n <= |decls| == |state|
  {
    exists k | 0 <= k < n :: state[k] == Started && name in Tokens(decls[k].deps)
  }

  /** Where both parsers read the lists alike, a service that no started one lists is not needed. */
  lemma {:induction false} UnlistedIsFree(decls: seq<Service>, state: seq<State>, i: nat)
    requires Readable(decls) && |state| == |decls| && i < |decls| && !Listed(decls, state, decls[i].name, |decls|)
    ensures !Needed(decls, state, i)
  {
  }

  lemma {:induction false} LongList(s: string)
    requires 31 < |s| <= 62 && Comma(s) == |s|
    ensures Tokens(s) == [s] && Chunks(s) == [s[..31], s[31..]]
  {
    assert s[..|s|] == s && s[|s|..] == "";
    var rest := s[31..];
    assert forall k | 0 <= k < |rest| :: rest[k] == s[31 + k];
    SingleToken(rest);
  }

  /** A dependency of 40 characters: starting reads two names, stopping one, so a needed service can be stopped. */
  lemma {:induction false} LongNameStops(s: string) returns (decls: seq<Service>, state: seq<State>)
    requires |s| == 40 && Comma(s) == |s|
    ensures |decls| == 3 && decls[2].deps == s && Closed(decls, state)
    ensures !Listed(decls, state, decls[0].name, |decls|) && !Closed(decls, state[0 := Stopped])
  {
    decls := [Service(s[..31], "", 42), Service(s[31..], "", 42), Service("", s, 42)];
    state := [Started, Started, Started];
    LongList(s);
    SingleToken("");
    FindAt(decls, s[..31], 0);
    FindAt(decls, s[31..], 1);
    LongClosed(decls, state, s[..31], s[31..]);
    LongUnlisted(decls, state, s[..31]);
    NeededBy(decls, state, 0, 2, s[..31]);
    StopCloses(decls, state, 0, Stopped);
  }

  lemma {:induction false} LongClosed(decls: seq<Service>, state: seq<State>, a: string, b: string)
    requires |decls| == |state| == 3 && (forall k | 0 <= k < |state| :: state[k] == Started)
    requires Find(decls, a) >= 0 && Find(decls, b) >= 0
    requires Chunks(decls[0].deps) == [] == Chunks(decls[1].deps) && Chunks(decls[2].deps) == [a, b]
    ensures Closed(decls, state)
  {
    forall i, t | 0 <= i < |decls| && t in Chunks(decls[i].deps) && t != "" ensures Find(decls, t) >= 0 {
      assert i == 0 || i == 1 || i == 2;
      assert t == a || t == b;
    }
    AllRunning(decls, state);
  }

  lemma {:induction false} LongUnlisted(decls: seq<Service>, state: seq<State>, a: string)
    requires |decls| == |state| == 3
    requires Tokens(decls[0].deps) == [] == Tokens(decls[1].deps) && a !in Tokens(decls[2].deps)
    ensures !Listed(decls, state, a, |decls|)
  {
  }

  lemma {:induction false} AllRunning(decls: seq<Service>, state: seq<State>)
    requires |state| == |decls| && (forall k | 0 <= k < |state| :: state[k] == Started) && Complete(decls)
    ensures Closed(decls, state)
  {
  }

  lemma {:induction false} NeededBy(decls: seq<Service>, state: seq<State>, i: int, k: int, t: string)
    requires |state| == |decls| && IsStarted(state, k) && k != i && t in Chunks(decls[k].deps) && t != "" && Find(decls, t) == i
    ensures Needed(decls, state, i)
  {
  }

  /** The state after a transition to `l` has stopped what does not belong, down to entry `n`. */
  function Trimmed(decls: seq<Service>, state: seq<State>, l: Level, n: nat): (r: seq<State>)
    requires |state| == |decls|
    ensures |r| == |state|
    ensures forall k | 0 <= k < |r| ::
      r[k] == if k >= n && state[k] == Started && !InLevel(decls[k], l) then Stopped else state[k]
  {
    seq(|state|, k requires 0 <= k < |state| =>
      if k >= n && state[k] == Started && !InLevel(decls[k], l) then Stopped else state[k])
  }

  lemma {:induction false} TrimCloses(decls: seq<Service>, before: seq<State>, l: Level, i: nat, s: State)
    requires |before| == |decls| && i < |decls| && Ordered(decls) && s != Started && !InLevel(decls[i], l)
    requires Closed(decls, Trimmed(decls, before, l, i + 1))
    ensures Closed(decls, Trimmed(decls, before, l, i + 1)[i := s])
  {
  }

  /** Every listed dependency of an enabled service is enabled. */
  predicate EnabledBelow(decls: seq<Service>, enabled: seq<bool>)
    requires |enabled| == |decls|
  {
    forall i, t | 0 <= i < |decls| && enabled[i] && t in Chunks(decls[i].deps) && t != "" ::
      Find(decls, t) >= 0 ==> enabled[Find(decls, t)]
  }

  /** In an ordered table with all dependencies declared and enabled, whatever is enabled can start. */
  lemma {:induction false} OrderedStarts(decls: seq<Service>, state: seq<State>, enabled: seq<bool>, i: nat)
    requires |state| == |decls| == |enabled| && Ordered(decls) && Complete(decls) && EnabledBelow(decls, enabled)
    requires i < |decls| && enabled[i]
    ensures Startable(decls, state, enabled, i)
    decreases i
  {
    forall t | t in Chunks(decls[i].deps) && t != "" ensures Startable(decls, state, enabled, Find(decls, t)) {
      assert DependsDown(decls, i, Find(decls, t));
      OrderedStarts(decls, state, enabled, Find(decls, t));
    }
    StartableFolds(decls, state, enabled, i);
  }

  /** The states differ at most in service `i`. */
  predicate OneStep(a: seq<State>, b: seq<State>, i: int) {
    |a| == |b| && 0 <= i < |a| && b == a[i := b[i]]
  }

  ghost predicate OneStepped(a: seq<State>, b: seq<State>) { exists i :: OneStep(a, b, i) }

  /** A record of states that ends with `state`, each differing from the one before in at most one service. */
  ghost predicate Recorded(history: seq<seq<State>>, state: seq<State>) {
    forall u: bool {:trigger RecordedAt(history, state, u)} :: RecordedAt(history, state, u)
  }

  ghost predicate RecordedAt(history: seq<seq<State>>, state: seq<State>, u: bool) {
    && |history| > 0 && history[|history| - 1] == state
    && forall k | 0 <= k < |history| - 1 :: OneStepped(history[k], history[k + 1])
  }

  lemma {:induction false} RecordedStep(history: seq<seq<State>>, state: seq<State>, i: nat, s: State)
    requires Recorded(history, state) && i < |state|
    ensures Recorded(history + [state[i := s]], state[i := s])
  {
    assert RecordedAt(history, state, true);
    var next := state[i := s];
    assert OneStep(state, next, i);
    var h := history + [next];
    forall k | 0 <= k < |h| - 1 ensures OneStepped(h[k], h[k + 1]) {
      if k < |history| - 1 { assert OneStepped(history[k], history[k + 1]); }
    }
  }

  /** Dependencies hold in every recorded state. */
  ghost predicate AllClosed(decls: seq<Service>, history: seq<seq<State>>) {
    forall h {:trigger ClosedIn(decls, history, h)} :: ClosedIn(decls, history, h)
  }

  ghost predicate ClosedIn(decls: seq<Service>, history: seq<seq<State>>, h: seq<State>) {
    h in history ==> Closed(decls, h)
  }

  lemma {:induction false} AllClosedStep(decls: seq<Service>, history: seq<seq<State>>, s: seq<State>)
    requires AllClosed(decls, history) && Closed(decls, s)
    ensures AllClosed(decls, history + [s])
  {
    forall h ensures ClosedIn(decls, history + [s], h) { assert ClosedIn(decls, history, h); }
  }

  datatype Op = StartOp(name: string) | StopOp(name: string) | RestartOp(name: string)
              | EnableOp(name: string, on: bool) | LevelOp(level: Level)

  /** What the table must be for these requests to keep dependencies. */
  predicate Tame(decls: seq<Service>, ops: seq<Op>) {
    Readable(decls) && (Ordered(decls) || forall op | op in ops :: !op.LevelOp?)
  }

  // ---- Callbacks ----

  /** A callback of service `i` that was run, and how it came out. */
  datatype Call = Call(i: int, start: bool, ok: bool)

  /** Service `i` lists service `j`. */
  ghost predicate DependsOn(decls: seq<Service>, i: int, j: int) {
    0 <= i < |decls| && exists t :: t in Chunks(decls[i].deps) && t != "" && j == Find(decls, t)
  }

  /** The path leads from `i` to `k`, each of its services listing the next. */
  ghost predicate Leads(decls: seq<Service>, path: seq<int>, i: int, k: int) {
    && path != [] && path[0] == i && path[|path| - 1] == k
    && forall m | 0 < m < |path| :: DependsOn(decls, path[m - 1], path[m])
  }

  ghost predicate Reached(decls: seq<Service>, i: int, k: int) {
    exists path :: Leads(decls, path, i, k)
  }

  /** What is reached from service `i`. */
  ghost function From(decls: seq<Service>, i: int): iset<int> { iset k | Reached(decls, i, k) }

  lemma {:induction false} FromSelf(decls: seq<Service>, i: int)
    ensures i in From(decls, i)
  {
    assert Leads(decls, [i], i, i);
  }

  lemma {:induction false} FromDep(decls: seq<Service>, i: int, t: string)
    requires 0 <= i < |decls| && t in Chunks(decls[i].deps) && t != ""
    ensures From(decls, Find(decls, t)) <= From(decls, i)
  {
    assert DependsOn(decls, i, Find(decls, t));
    forall k | k in From(decls, Find(decls, t)) ensures k in From(decls, i) {
      var path :| Leads(decls, path, Find(decls, t), k);
      LeadsLonger(decls, path, Find(decls, t), k, i);
    }
  }

  lemma {:induction false} LeadsLonger(decls: seq<Service>, path: seq<int>, j: int, k: int, i: int)
    requires Leads(decls, path, j, k) && DependsOn(decls, i, j)
    ensures Leads(decls, [i] + path, i, k)
  {
  }

  /** Where dependencies hold, all that is reached from a started service is started. */
  lemma {:induction false} ReachedRuns(decls: seq<Service>, state: seq<State>, i: int, k: int)
    requires Closed(decls, state) && IsStarted(state, i) && Reached(decls, i, k)
    ensures IsStarted(state, k)
  {
    var path :| Leads(decls, path, i, k);
    PathRuns(decls, state, path, i, k, |path| - 1);
  }

  lemma {:induction false} PathRuns(decls: seq<Service>, state: seq<State>, path: seq<int>, i: int, k: int, m: nat)
    requires Closed(decls, state) && IsStarted(state, i) && Leads(decls, path, i, k) && m < |path|
    ensures IsStarted(state, path[m])
  {
    if m > 0 {
      PathRuns(decls, state, path, i, k, m - 1);
      NextRuns(decls, state, path[m - 1], path[m]);
    }
  }

  lemma {:induction false} NextRuns(decls: seq<Service>, state: seq<State>, i: int, j: int)
    requires Closed(decls, state) && IsStarted(state, i) && DependsOn(decls, i, j)
    ensures IsStarted(state, j)
  {
    var names := Chunks(decls[i].deps);
    assert AllStarted(decls, state, names);
    var t :| t in names && t != "" && j == Find(decls, t);
  }

  /** Services of `area` have been started: each callback run was the start of another of them that did not run, and it runs
      afterwards exactly if that went well; all went well but perhaps the last, and did if `good`; no state has changed but
      those of services of `area` that have been started so or have failed, and nothing has been stopped. */
  ghost predicate Begun(area: iset<int>, calls: seq<Call>, state: seq<State>, calls': seq<Call>, state': seq<State>, good: bool) {
    && |state| == |state'| && calls <= calls'
    && forall n {:trigger BegunAt(area, calls, state, calls', state', good, n)} :: BegunAt(area, calls, state, calls', state', good, n)
  }

  ghost predicate BegunAt(area: iset<int>, calls: seq<Call>, state: seq<State>, calls': seq<Call>, state': seq<State>, good: bool, n: int)
    requires |state| == |state'|
  {
    && (|calls| <= n < |calls'| ==>
          var c := calls'[n];
          && c.start && c.i in area && !IsStarted(state, c.i) && (c.ok <==> IsStarted(state', c.i))
          && (!c.ok ==> !good && n == |calls'| - 1)
          && forall m | |calls| <= m < n :: calls'[m].i != c.i)
    && (!good ==> |calls| < |calls'| && !calls'[|calls'| - 1].ok)
    && (0 <= n < |state| && state'[n] != state[n] ==> n in area && (state'[n] == Failed || state'[n] == Started))
    && (0 <= n < |state| && state'[n] == Started && state[n] != Started ==> HasCall(calls, calls', n))
    && (0 <= n < |state| && state[n] == Started ==> state'[n] == Started)
  }

  /** Among the callbacks run is the successful start of service `k`. */
  ghost predicate HasCall(calls: seq<Call>, calls': seq<Call>, k: int) {
    exists m :: |calls| <= m < |calls'| && calls'[m] == Call(k, true, true)
  }

  lemma {:induction false} BegunNothing(area: iset<int>, calls: seq<Call>, state: seq<State>)
    ensures Begun(area, calls, state, calls, state, true)
  {
  }

  lemma {:induction false} BegunFailed(area: iset<int>, calls: seq<Call>, state: seq<State>, calls': seq<Call>, state': seq<State>, good: bool, i: int)
    requires Begun(area, calls, state, calls', state', good) && i in area && 0 <= i < |state'| && state'[i] != Started
    ensures Begun(area, calls, state, calls', state'[i := Failed], good)
  {
    var next := state'[i := Failed];
    forall n ensures BegunAt(area, calls, state, calls', next, good, n) {
      assert BegunAt(area, calls, state, calls', state', good, n);
      if |calls| <= n < |calls'| { assert IsStarted(next, calls'[n].i) <==> IsStarted(state', calls'[n].i); }
      assert BegunAt(area, calls, state, calls', state', good, i);
    }
  }

  /** One more callback, the start of service `i`. */
  lemma {:induction false} BegunCall(area: iset<int>, calls: seq<Call>, state: seq<State>, calls': seq<Call>, state': seq<State>, i: int, ok: bool)
    requires Begun(area, calls, state, calls', state', true) && i in area && 0 <= i < |state'| && state'[i] != Started
    ensures Begun(area, calls, state, calls' + [Call(i, true, ok)], state'[i := if ok then Started else Failed], ok)
  {
    var next, log := state'[i := if ok then Started else Failed], calls' + [Call(i, true, ok)];
    assert BegunAt(area, calls, state, calls', state', true, i);
    assert log[|calls'|] == Call(i, true, ok);
    forall n ensures BegunAt(area, calls, state, log, next, ok, n) {
      assert BegunAt(area, calls, state, calls', state', true, n);
      if |calls| <= n < |calls'| { assert log[n] == calls'[n] && IsStarted(state', calls'[n].i); }
      if n == |calls'| {
        forall m | |calls| <= m < n ensures log[m].i != i { assert BegunAt(area, calls, state, calls', state', true, m); }
      }
      if 0 <= n < |state| && n != i && HasCall(calls, calls', n) {
        var m :| |calls| <= m < |calls'| && calls'[m] == Call(n, true, true);
        assert log[m] == Call(n, true, true);
      }
    }
  }

  lemma {:induction false} BegunTrans(area: iset<int>, c0: seq<Call>, s0: seq<State>, c1: seq<Call>, s1: seq<State>,
                                      c2: seq<Call>, s2: seq<State>, good: bool)
    requires Begun(area, c0, s0, c1, s1, true) && Begun(area, c1, s1, c2, s2, good)
    ensures Begun(area, c0, s0, c2, s2, good)
  {
    forall n ensures BegunAt(area, c0, s0, c2, s2, good, n) {
      assert BegunAt(area, c0, s0, c1, s1, true, n) && BegunAt(area, c1, s1, c2, s2, good, n);
      if |c0| <= n < |c2| { BegunTransCall(area, c0, s0, c1, s1, c2, s2, good, n); }
      if HasCall(c0, c1, n) {
        var m :| |c0| <= m < |c1| && c1[m] == Call(n, true, true);
        assert c2[m] == Call(n, true, true);
      }
      if HasCall(c1, c2, n) {
        var m :| |c1| <= m < |c2| && c2[m] == Call(n, true, true);
        assert |c0| <= m < |c2| && c2[m] == Call(n, true, true);
      }
    }
  }

  lemma {:induction false} BegunTransCall(area: iset<int>, c0: seq<Call>, s0: seq<State>, c1: seq<Call>, s1: seq<State>,
                                          c2: seq<Call>, s2: seq<State>, good: bool, n: int)
    requires Begun(area, c0, s0, c1, s1, true) && Begun(area, c1, s1, c2, s2, good) && |c0| <= n < |c2|
    ensures var c := c2[n];
      && c.start && c.i in area && !IsStarted(s0, c.i) && (c.ok <==> IsStarted(s2, c.i)) && (!c.ok ==> !good && n == |c2| - 1)
      && forall m | |c0| <= m < n :: c2[m].i != c.i
  {
    var c := c2[n];
    assert BegunAt(area, c0, s0, c1, s1, true, n) && BegunAt(area, c1, s1, c2, s2, good, n);
    assert BegunAt(area, c1, s1, c2, s2, good, c.i) && BegunAt(area, c0, s0, c1, s1, true, c.i);
    forall m | |c0| <= m < n ensures c2[m].i != c.i {
      if m < |c1| <= n {
        assert c2[m] == c1[m];
        assert BegunAt(area, c0, s0, c1, s1, true, m);
      }
    }
  }

  lemma {:induction false} BegunWiden(area: iset<int>, area': iset<int>, calls: seq<Call>, state: seq<State>, calls': seq<Call>,
                                      state': seq<State>, good: bool)
    requires Begun(area, calls, state, calls', state', good) && area <= area'
    ensures Begun(area', calls, state, calls', state', good)
  {
    forall n ensures BegunAt(area', calls, state, calls', state', good, n) {
      assert BegunAt(area, calls, state, calls', state', good, n);
    }
  }

  /** No state has changed but to started. */
  ghost predicate OnlyStarts(state: seq<State>, state': seq<State>) {
    |state| == |state'| && forall k | 0 <= k < |state| :: state'[k] == state[k] || state'[k] == Started
  }

  // ---- What the requests mean ----

  /** What a request can see and change, and the callbacks run so far. */
  datatype View = View(state: seq<State>, enabled: seq<bool>, level: Level, faults: nat, calls: seq<Call>)

  ghost predicate Fits(decls: seq<Service>, v: View) { |v.state| == |v.enabled| == |decls| }

  /** The service runs afterwards exactly on success, which is exactly when it can be started and no callback fails;
      nothing is stopped, and nothing started but it and enabled services reached from it, each by one callback. */
  ghost predicate StartMeans(decls: seq<Service>, name: string, ok: bool, v: View, v': View)
    requires Fits(decls, v)
  {
    var i := Find(decls, name);
    && v'.enabled == v.enabled && v'.level == v.level && v'.faults >= v.faults && Grown(v.state, v'.state)
    && (ok <==> IsStarted(v'.state, i)) && (ok <==> v'.faults == v.faults && CanStart(decls, v.state, v.enabled, i, true))
    && (!ok && i >= 0 ==> v'.state[i] == Failed)
    && (forall k | IsStarted(v'.state, k) && !IsStarted(v.state, k) :: v.enabled[k] || k == i)
    && Begun(From(decls, i), v.calls, v.state, v'.calls, v'.state, v'.faults == v.faults) && (ok ==> OnlyStarts(v.state, v'.state))
  }

  /** After a successful start in which dependencies hold, the services newly started are exactly those reached from the one
      named that did not run, and each has had its callback. */
  lemma {:induction false} StartExact(decls: seq<Service>, name: string, v: View, v': View, k: int)
    requires Fits(decls, v) && StartMeans(decls, name, true, v, v') && Closed(decls, v'.state) && 0 <= k < |decls|
    ensures IsStarted(v'.state, k) && !IsStarted(v.state, k) <==> k in From(decls, Find(decls, name)) && !IsStarted(v.state, k)
    ensures IsStarted(v'.state, k) && !IsStarted(v.state, k) <==> HasCall(v.calls, v'.calls, k)
  {
    var i := Find(decls, name);
    assert BegunAt(From(decls, i), v.calls, v.state, v'.calls, v'.state, true, k);
    if k in From(decls, i) { ReachedRuns(decls, v'.state, i, k); }
    if HasCall(v.calls, v'.calls, k) {
      var m :| |v.calls| <= m < |v'.calls| && v'.calls[m] == Call(k, true, true);
      assert BegunAt(From(decls, i), v.calls, v.state, v'.calls, v'.state, true, m);
    }
  }

  ghost predicate StopMeans(decls: seq<Service>, name: string, ok: bool, v: View, v': View)
    requires Fits(decls, v)
  {
    var i := Find(decls, name);
    if !IsStarted(v.state, i) || Listed(decls, v.state, name, |decls|) then !ok && v' == v
    else
      && v'.faults >= v.faults && ok == (v'.faults == v.faults)
      && v' == v.(state := v.state[i := if ok then Stopped else Failed], faults := v'.faults, calls := v.calls + [Call(i, false, ok)])
  }

  /** Refused where a stop would be; otherwise, unless the stop fails, the start of a service that does not run. */
  ghost predicate RestartMeans(decls: seq<Service>, name: string, ok: bool, v: View, v': View)
    requires Fits(decls, v)
  {
    var i := Find(decls, name);
    if !IsStarted(v.state, i) then (i < 0 ==> !ok && v' == v) && StartMeans(decls, name, ok, v, v')
    else if Listed(decls, v.state, name, |decls|) then !ok && v' == v
    else
      || (!ok && v'.faults > v.faults
          && v' == v.(state := v.state[i := Failed], faults := v'.faults, calls := v.calls + [Call(i, false, false)]))
      || StartMeans(decls, name, ok, v.(state := v.state[i := Stopped], calls := v.calls + [Call(i, false, true)]), v')
  }

  ghost predicate EnableMeans(decls: seq<Service>, name: string, on: bool, ok: bool, v: View, v': View)
    requires Fits(decls, v)
  {
    var i := Find(decls, name);
    ok == (i >= 0) && v' == if ok then v.(enabled := v.enabled[i := on]) else v
  }

  /** All enabled services of the level below `n` are startable from `base`. */
  ghost predicate LevelStartable(decls: seq<Service>, base: seq<State>, enabled: seq<bool>, l: Level, n: nat)
    requires |base| == |decls| == |enabled| && n <= |decls|
  {
    forall k | 0 <= k < n && InLevel(decls[k], l) && enabled[k] :: Startable(decls, base, enabled, k)
  }

  predicate LevelStarted(decls: seq<Service>, state: seq<State>, enabled: seq<bool>, l: Level, n: nat)
    requires |state| == |decls| == |enabled| && n <= |decls|
  {
    forall k | 0 <= k < n && InLevel(decls[k], l) && enabled[k] :: state[k] == Started
  }

  /** Service `i` of the level, and what has been started and can be started before it. */
  lemma {:induction false} LevelNext(decls: seq<Service>, base: seq<State>, enabled: seq<bool>, state: seq<State>, l: Level, i: nat)
    requires |base| == |decls| == |enabled| == |state| && i < |decls| && InLevel(decls[i], l) && enabled[i]
    ensures LevelStarted(decls, state, enabled, l, i) && state[i] == Started ==> LevelStarted(decls, state, enabled, l, i + 1)
    ensures LevelStartable(decls, base, enabled, l, i) && Startable(decls, base, enabled, i) ==> LevelStartable(decls, base, enabled, l, i + 1)
    ensures !Startable(decls, base, enabled, i) ==> !LevelStartable(decls, base, enabled, l, |decls|)
  {
  }

  lemma {:induction false} LevelSkip(decls: seq<Service>, base: seq<State>, enabled: seq<bool>, state: seq<State>, l: Level, i: nat)
    requires |base| == |decls| == |enabled| == |state| && i < |decls| && !(InLevel(decls[i], l) && enabled[i])
    requires LevelStarted(decls, state, enabled, l, i) && LevelStartable(decls, base, enabled, l, i)
    ensures LevelStarted(decls, state, enabled, l, i + 1) && LevelStartable(decls, base, enabled, l, i + 1)
  {
  }

  predicate WithinLevel(decls: seq<Service>, state: seq<State>, l: Level)
    requires |state| == |decls|
  {
    forall k | 0 <= k < |decls| && state[k] == Started :: InLevel(decls[k], l)
  }

  /** In an ordered table, what lay within the level still does. */
  ghost predicate StaysWithin(decls: seq<Service>, l: Level, before: seq<State>, after: seq<State>) {
    |before| == |after| == |decls| && (Ordered(decls) && WithinLevel(decls, before, l) ==> WithinLevel(decls, after, l))
  }

  /** Starting a service of the level, with what it needs, keeps to the level. */
  lemma {:induction false} SpreadStays(decls: seq<Service>, l: Level, i: nat, base: seq<State>, before: seq<State>, after: seq<State>)
    requires i < |decls| && InLevel(decls[i], l) && |before| == |after| == |decls| && Spread(decls, i, before, after)
    ensures StaysWithin(decls, l, base, before) ==> StaysWithin(decls, l, base, after)
  {
    if StaysWithin(decls, l, base, before) && Ordered(decls) && WithinLevel(decls, base, l) {
      forall k | 0 <= k < |decls| && after[k] == Started ensures InLevel(decls[k], l) {
        if !IsStarted(before, k) { assert IsStarted(after, k) && Covers(decls, i, k); }
      }
    }
  }

  /** Success exactly when no callback fails and all enabled services of the level can be started. Then exactly those run
      that ran before or are enabled, within the level; in any case nothing of the level is stopped, and nothing started
      but enabled services of the level. Where the table is not ordered, dependencies outside the level may be started too.
      The callbacks run are the stops of what does not belong, last first, up to one that fails; then starts, each of another
      service that is, or is reached from, an enabled one of the level. */
  ghost predicate LevelMeans(decls: seq<Service>, l: Level, ok: bool, v: View, v': View)
    requires Fits(decls, v)
  {
    && v'.enabled == v.enabled && v'.faults >= v.faults && |v'.state| == |decls|
    && v'.level == (if ok then l else v.level)
    && (ok && Ordered(decls) ==> WithinLevel(decls, v'.state, l))
    && (ok && l != Halt ==> LevelStarted(decls, v'.state, v'.enabled, l, |decls|))
    && (ok <==> && v'.faults == v.faults
                && (l == Halt || LevelStartable(decls, Trimmed(decls, v.state, l, 0), v.enabled, l, |decls|)))
    && Grown(Trimmed(decls, v.state, l, 0), v'.state)
    && (forall k | IsStarted(v'.state, k) && !IsStarted(v.state, k) :: v.enabled[k] && (Ordered(decls) ==> InLevel(decls[k], l)))
    && (TrimFailed(decls, l, v, v')
        || Begun(LevelArea(decls, v.enabled, l), v.calls + TrimCalls(decls, v.state, l, 0), Trimmed(decls, v.state, l, 0),
                 v'.calls, v'.state, v'.faults == v.faults))
    && (ok ==> OnlyStarts(Trimmed(decls, v.state, l, 0), v'.state))
    && (l == Halt && !TrimFailed(decls, l, v, v') ==> v'.state == Trimmed(decls, v.state, l, 0) && v'.calls == v.calls + TrimCalls(decls, v.state, l, 0))
  }

  /** A level change whose first half has gone well, leaving the view `mid`. */
  lemma {:induction false} LevelRaised(decls: seq<Service>, l: Level, ok: bool, v: View, mid: View, v': View)
    requires Fits(decls, v) && mid.state == Trimmed(decls, v.state, l, 0) && mid.calls == v.calls + TrimCalls(decls, v.state, l, 0)
    requires v'.enabled == v.enabled && v'.faults >= v.faults && v'.level == (if ok then l else v.level) && l != Halt
    requires Grown(mid.state, v'.state) && StaysWithin(decls, l, mid.state, v'.state)
    requires ok ==> LevelStarted(decls, v'.state, v.enabled, l, |decls|) && OnlyStarts(mid.state, v'.state)
    requires ok <==> v'.faults == v.faults && LevelStartable(decls, mid.state, v.enabled, l, |decls|)
    requires forall k | IsStarted(v'.state, k) && !IsStarted(mid.state, k) :: v.enabled[k]
    requires Begun(LevelArea(decls, v.enabled, l), mid.calls, mid.state, v'.calls, v'.state, v'.faults == v.faults)
    ensures LevelMeans(decls, l, ok, v, v')
  {
    assert WithinLevel(decls, mid.state, l);
    forall k | IsStarted(v'.state, k) && !IsStarted(v.state, k) ensures v.enabled[k] && (Ordered(decls) ==> InLevel(decls[k], l)) {
      assert !IsStarted(mid.state, k);
    }
  }

  lemma {:induction false} LevelHalted(decls: seq<Service>, v: View, v': View)
    requires Fits(decls, v) && v'.state == Trimmed(decls, v.state, Halt, 0) && v'.calls == v.calls + TrimCalls(decls, v.state, Halt, 0)
    requires v' == v.(state := v'.state, calls := v'.calls, level := Halt)
    ensures LevelMeans(decls, Halt, true, v, v')
  {
    BegunNothing(LevelArea(decls, v.enabled, Halt), v'.calls, v'.state);
    assert WithinLevel(decls, v'.state, Halt);
  }

  lemma {:induction false} LevelRefused(decls: seq<Service>, l: Level, v: View, v': View)
    requires Fits(decls, v) && TrimFailed(decls, l, v, v') && v'.enabled == v.enabled && v'.level == v.level
    ensures LevelMeans(decls, l, false, v, v')
  {
    var i :| TrimFailedAt(decls, l, v, v', i);
    assert Grown(Trimmed(decls, v.state, l, 0), v'.state);
  }

  /** The stops of the services from `n` on that run outside the level, last first. */
  function TrimCalls(decls: seq<Service>, state: seq<State>, l: Level, n: nat): seq<Call>
    requires |state| == |decls| && n <= |decls|
    decreases |decls| - n
  {
    if n == |decls| then []
    else TrimCalls(decls, state, l, n + 1) + if state[n] == Started && !InLevel(decls[n], l) then [Call(n, false, true)] else []
  }

  /** The stop of a service outside the level has failed, those after it having been stopped. */
  ghost predicate TrimFailed(decls: seq<Service>, l: Level, v: View, v': View)
    requires Fits(decls, v)
  {
    v'.faults > v.faults && exists i :: TrimFailedAt(decls, l, v, v', i)
  }

  ghost predicate TrimFailedAt(decls: seq<Service>, l: Level, v: View, v': View, i: int)
    requires Fits(decls, v)
  {
    && 0 <= i < |decls| && v.state[i] == Started && !InLevel(decls[i], l)
    && v'.state == Trimmed(decls, v.state, l, i + 1)[i := Failed]
    && v'.calls == v.calls + TrimCalls(decls, v.state, l, i + 1) + [Call(i, false, false)]
  }

  /** The services from `n` on that run outside the level have been stopped; stated so that it is passed on without unfolding. */
  ghost predicate TrimmedTo(decls: seq<Service>, l: Level, v: View, state: seq<State>, calls: seq<Call>, n: nat) {
    forall u: bool {:trigger TrimmedToAt(decls, l, v, state, calls, n, u)} :: TrimmedToAt(decls, l, v, state, calls, n, u)
  }

  ghost predicate TrimmedToAt(decls: seq<Service>, l: Level, v: View, state: seq<State>, calls: seq<Call>, n: nat, u: bool) {
    && Fits(decls, v) && n <= |decls|
    && state == Trimmed(decls, v.state, l, n) && calls == v.calls + TrimCalls(decls, v.state, l, n)
  }

  lemma {:induction false} TrimStarts(decls: seq<Service>, l: Level, v: View)
    requires Fits(decls, v)
    ensures TrimmedTo(decls, l, v, v.state, v.calls, |decls|)
  {
    assert Trimmed(decls, v.state, l, |decls|) == v.state;
    assert v.calls + [] == v.calls;
  }

  /** One service more: it is left alone, stopped, or fails to stop. */
  lemma {:induction false} TrimNext(decls: seq<Service>, l: Level, v: View, state: seq<State>, calls: seq<Call>, i: nat)
    requires TrimmedTo(decls, l, v, state, calls, i + 1)
    ensures Fits(decls, v) && i < |decls| == |state|
    ensures if state[i] == Started && !InLevel(decls[i], l)
            then TrimmedTo(decls, l, v, state[i := Stopped], calls + [Call(i, false, true)], i)
            else TrimmedTo(decls, l, v, state, calls, i)
  {
    assert TrimmedToAt(decls, l, v, state, calls, i + 1, true);
    var done := TrimCalls(decls, v.state, l, i + 1);
    if state[i] == Started && !InLevel(decls[i], l) {
      assert state[i := Stopped] == Trimmed(decls, v.state, l, i);
      Sequences.Regroup(v.calls, done, [Call(i, false, true)]);
    } else {
      assert state == Trimmed(decls, v.state, l, i);
      assert done + [] == done;
    }
  }

  lemma {:induction false} TrimBreaks(decls: seq<Service>, l: Level, v: View, state: seq<State>, calls: seq<Call>, i: nat, v': View)
    requires TrimmedTo(decls, l, v, state, calls, i + 1) && i < |decls| == |state| && Fits(decls, v)
    requires state[i] == Started && !InLevel(decls[i], l) && v'.faults > v.faults
    requires v'.state == state[i := Failed] && v'.calls == calls + [Call(i, false, false)]
    ensures TrimFailed(decls, l, v, v') && Grown(Trimmed(decls, v.state, l, 0), v'.state) && Grown(v'.state, v.state)
  {
    assert TrimmedToAt(decls, l, v, state, calls, i + 1, true);
    assert TrimFailedAt(decls, l, v, v', i);
  }

  lemma {:induction false} TrimKeeps(decls: seq<Service>, l: Level, v: View, state: seq<State>, calls: seq<Call>, i: nat, s: State)
    requires TrimmedTo(decls, l, v, state, calls, i + 1) && i < |decls| == |state| && !InLevel(decls[i], l) && s != Started
    requires Ordered(decls) && Closed(decls, state)
    ensures Closed(decls, state[i := s])
  {
    assert TrimmedToAt(decls, l, v, state, calls, i + 1, true);
    TrimCloses(decls, v.state, l, i, s);
  }

  lemma {:induction false} TrimEnds(decls: seq<Service>, l: Level, v: View, state: seq<State>, calls: seq<Call>)
    requires TrimmedTo(decls, l, v, state, calls, 0)
    ensures Fits(decls, v) && state == Trimmed(decls, v.state, l, 0) && calls == v.calls + TrimCalls(decls, v.state, l, 0)
    ensures Grown(state, v.state)
  {
    assert TrimmedToAt(decls, l, v, state, calls, 0, true);
  }

  predicate Belongs(decls: seq<Service>, enabled: seq<bool>, l: Level, r: int)
    requires |enabled| == |decls|
  {
    0 <= r < |decls| && InLevel(decls[r], l) && enabled[r]
  }

  /** The enabled services of the level and what is reached from them. */
  ghost function LevelArea(decls: seq<Service>, enabled: seq<bool>, l: Level): iset<int>
    requires |enabled| == |decls|
  {
    iset k | InArea(decls, enabled, l, k)
  }

  ghost predicate InArea(decls: seq<Service>, enabled: seq<bool>, l: Level, k: int)
    requires |enabled| == |decls|
  {
    exists r :: Belongs(decls, enabled, l, r) && Reached(decls, r, k)
  }

  /** What a request means; stated so that it is passed on without unfolding. */
  ghost predicate OpMeans(decls: seq<Service>, op: Op, ok: bool, v: View, v': View) {
    forall u: bool {:trigger OpMeansAt(decls, op, ok, v, v', u)} :: OpMeansAt(decls, op, ok, v, v', u)
  }

  ghost predicate OpMeansAt(decls: seq<Service>, op: Op, ok: bool, v: View, v': View, u: bool) {
    && Fits(decls, v)
    && match op
       case StartOp(name) => StartMeans(decls, name, ok, v, v')
       case StopOp(name) => StopMeans(decls, name, ok, v, v')
       case RestartOp(name) => RestartMeans(decls, name, ok, v, v')
       case EnableOp(name, on) => EnableMeans(decls, name, on, ok, v, v')
       case LevelOp(l) => LevelMeans(decls, l, ok, v, v')
  }

  /** Every request of a run does what it should; stated so that it is passed on without unfolding. */
  ghost predicate Answered(decls: seq<Service>, ops: seq<Op>, oks: seq<bool>, trace: seq<View>) {
    && |oks| == |ops| && |trace| == |ops| + 1
    && forall k {:trigger AnsweredAt(decls, ops, oks, trace, k)} :: AnsweredAt(decls, ops, oks, trace, k)
  }

  ghost predicate AnsweredAt(decls: seq<Service>, ops: seq<Op>, oks: seq<bool>, trace: seq<View>, k: int)
    requires |oks| == |ops| && |trace| == |ops| + 1
  {
    0 <= k < |ops| ==> OpMeans(decls, ops[k], oks[k], trace[k], trace[k + 1])
  }

  lemma {:induction false} AnsweredExtends(decls: seq<Service>, ops: seq<Op>, oks: seq<bool>, trace: seq<View>, op: Op, ok: bool, v: View)
    requires Answered(decls, ops, oks, trace) && OpMeans(decls, op, ok, trace[|ops|], v)
    ensures Answered(decls, ops + [op], oks + [ok], trace + [v])
  {
    forall k ensures AnsweredAt(decls, ops + [op], oks + [ok], trace + [v], k) { assert AnsweredAt(decls, ops, oks, trace, k); }
  }

  class Manager {
    const decls: seq<Service>
    var state: seq<State>
    var enabled: seq<bool>
    var visiting: seq<bool>
    var level: Level
    /** Every value the state has had, the present one last, and how many callbacks have failed. */
    ghost var history: seq<seq<State>>
    ghost var faults: nat
    /** Every callback run so far. */
    ghost var calls: seq<Call>

    ghost predicate Sized()
      reads this
    {
      |state| == |enabled| == |visiting| == |decls|
    }

    /** The present state is the last of those recorded, which follow each other one change at a time. */
    ghost predicate Valid()
      reads this
    {
      Sized() && Recorded(history, state)
    }

    /** Started implies dependencies started, now and at every step that led here. */
    ghost predicate Kept()
      reads this
    {
      Valid() && Closed(decls, state) && AllClosed(decls, history)
    }

    ghost function ViewOf(): View
      reads this
    {
      View(state, enabled, level, faults, calls)
    }

    ghost predicate Quiet()
      reads this
    {
      forall v | v in visiting :: !v
    }

    constructor (decls: seq<Service>, enabled: seq<bool>)
      requires |enabled| == |decls|
      ensures Kept() && Quiet() && this.decls == decls && this.enabled == enabled && faults == 0 && calls == []
      ensures history == [state] && forall i | 0 <= i < |decls| :: state[i] == Stopped
    {
      this.decls, this.enabled := decls, enabled;
      var none := seq(|decls|, _ => Stopped);
      state, visiting := none, seq(|decls|, _ => false);
      level, history, faults, calls := Single, [none], 0, [];
      assert RecordedAt([none], none, true);
    }

    method SetState(i: nat, s: State)
      requires Sized() && Recorded(history, state) && i < |decls|
      modifies this`state, this`history
      ensures Sized() && Recorded(history, state) && state == old(state)[i := s] && history == old(history) + [state]
      ensures old(AllClosed(decls, history)) && Closed(decls, state) ==> AllClosed(decls, history)
    {
      RecordedStep(history, state, i, s);
      if AllClosed(decls, history) && Closed(decls, state[i := s]) { AllClosedStep(decls, history, state[i := s]); }
      state := state[i := s];
      history := history + [state];
    }

    /** A start or stop callback: any outcome. */
    method Callback(i: int, start: bool) returns (ok: bool)
      modifies this`faults, this`calls
      ensures faults == old(faults) + (if ok then 0 else 1) && calls == old(calls) + [Call(i, start, ok)]
    {
      ok := *;
      calls := calls + [Call(i, start, ok)];
      if !ok { faults := faults + 1; }
    }

    method Lookup(name: string) returns (i: int)
      ensures i == Find(decls, name)
    {
      i := 0;
      while i < |decls|
        invariant 0 <= i <= |decls|
        invariant forall k | 0 <= k < i :: decls[k].name != name
      {
        if decls[i].name == name { return; }
        i := i + 1;
      }
      i := -1;
    }

    method DependencyPresent(list: string, name: string) returns (yes: bool)
      ensures yes == (name in Tokens(list))
    {
      var p := list;
      while p != ""
        invariant name in Tokens(list) <==> name in Tokens(p)
        decreases |p|
      {
        var n := 0;
        while n < |p| && p[n] != ','
          invariant 0 <= n <= Comma(p)
        {
          n := n + 1;
        }
        TokensStart(p, name);
        if p[..n] == name { return true; }
        p := After(p, n);
      }
      return false;
    }

    /** What every caller of the recursion keeps, relative to the state `base` the request began in. */
    ghost predicate Context(base: seq<State>)
      reads this
    {
      Valid() && Tracked(decls, base, enabled, state) && Parked(visiting, state)
    }

    method Fail(i: nat, ghost base: seq<State>)
      requires Context(base) && i < |decls| && !IsStarted(state, i)
      modifies this`state, this`history
      ensures old(history) <= history
      ensures Context(base) && state == old(state)[i := Failed]
      ensures Grown(old(state), state) && Grown(state, old(state))
      ensures old(Kept()) ==> Kept()
    {
      if Closed(decls, state) { IdleCloses(decls, state, i, Failed); }
      SetState(i, Failed);
      TrackIdle(decls, base, enabled, old(state), state);
    }

    /**
     * Start service `i`, its dependencies first. Terminates on every table, cyclic or not; never stops
     * anything; succeeds exactly when the service ends up started, which is exactly when no callback
     * fails and it can be started at all.
     */
    method StartEntry(i: int, manual: bool, ghost base: seq<State>) returns (ok: bool)
      requires Context(base) && -1 <= i < |decls| && Awaited(decls, base, enabled, visiting, i)
      requires manual ==> Quiet()
      modifies this`state, this`visiting, this`history, this`faults, this`calls
      ensures old(history) <= history
      ensures Valid() && visiting == old(visiting) && faults >= old(faults) && Parked(visiting, state)
      ensures old(Kept()) ==> Kept()
      ensures !manual ==> Context(base)
      ensures Grown(old(state), state) && Spread(decls, i, old(state), state)
      ensures ok <==> IsStarted(state, i)
      ensures !ok && i >= 0 ==> state[i] == if visiting[i] || manual || enabled[i] then Failed else old(state)[i]
      ensures forall k | IsStarted(state, k) && k != i :: Startable(decls, base, enabled, k)
      ensures ok <==> faults == old(faults) && (CanStart(decls, base, enabled, i, manual) || IsStarted(old(state), i))
      ensures Begun(From(decls, i), old(calls), old(state), calls, state, faults == old(faults)) && (ok ==> OnlyStarts(old(state), state))
      decreases Idle(visiting), 1
    {
      BegunNothing(From(decls, i), calls, state);
      if i < 0 { return false; }
      CanStartMeans(decls, base, enabled, i);
      if state[i] == Started { return true; }
      Refusals(decls, base, enabled, state, visiting, i);
      if visiting[i] {
        assert visiting[i] in visiting && !manual;
        FromSelf(decls, i);
        BegunFailed(From(decls, i), calls, state, calls, state, true, i);
        Fail(i, base);
        return false;
      }
      if !manual && !enabled[i] { return false; }
      ok := StartBody(i, manual, base);
    }

    /** The rest of a start, once nothing speaks against it: dependencies, then the callback. */
    method StartBody(i: nat, manual: bool, ghost base: seq<State>) returns (ok: bool)
      requires Context(base) && i < |decls| && Awaited(decls, base, enabled, visiting, i)
      requires !IsStarted(state, i) && !visiting[i] && (manual || enabled[i])
      modifies this`state, this`visiting, this`history, this`faults, this`calls
      ensures old(history) <= history
      ensures Valid() && visiting == old(visiting) && faults >= old(faults) && Parked(visiting, state)
      ensures old(Kept()) ==> Kept()
      ensures enabled[i] ==> Context(base)
      ensures Grown(old(state), state) && Spread(decls, i, old(state), state)
      ensures state[i] == if ok then Started else Failed
      ensures forall k | IsStarted(state, k) && k != i :: Startable(decls, base, enabled, k)
      ensures ok <==> faults == old(faults) && AllStartable(decls, base, enabled, Chunks(decls[i].deps))
      ensures Begun(From(decls, i), old(calls), old(state), calls, state, faults == old(faults)) && (ok ==> OnlyStarts(old(state), state))
      decreases Idle(visiting), 0
    {
      VisitingUsesUp(visiting, i);
      AwaitedAll(decls, base, enabled, visiting, i);
      visiting := visiting[i := true];
      ok := StartDeps(i, base);
      visiting := visiting[i := false];
      assert visiting == old(visiting);
      FromSelf(decls, i);
      if !ok {
        BegunFailed(From(decls, i), old(calls), old(state), calls, state, faults == old(faults), i);
        Fail(i, base);
        return;
      }
      ghost var c, s := calls, state;
      ok := Finish(i, base);
      BegunCall(From(decls, i), old(calls), old(state), c, s, i, ok);
    }

    /** Runs the start callback of a service whose dependencies are all started. */
    method Finish(i: nat, ghost base: seq<State>) returns (ok: bool)
      requires Context(base) && i < |decls| && !IsStarted(state, i) && !visiting[i]
      requires AllStarted(decls, state, Chunks(decls[i].deps))
      modifies this`state, this`history, this`faults, this`calls
      ensures old(history) <= history
      ensures Valid() && Parked(visiting, state)
      ensures old(Kept()) ==> Kept()
      ensures enabled[i] ==> Context(base)
      ensures ok == (faults == old(faults)) && faults >= old(faults)
      ensures state == old(state)[i := if ok then Started else Failed] && calls == old(calls) + [Call(i, true, ok)]
      ensures Grown(old(state), state)
      ensures forall k | k != i :: IsStarted(state, k) <==> IsStarted(old(state), k)
    {
      ok := Callback(i, true);
      if !ok {
        Fail(i, base);
        return;
      }
      if Closed(decls, state) { StartCloses(decls, state, i); }
      TrackedAll(decls, base, enabled, state, Chunks(decls[i].deps));
      if enabled[i] {
        StartableFolds(decls, base, enabled, i);
        TrackStart(decls, base, enabled, state, i);
      }
      SetState(i, Started);
    }

    /** Starts the dependencies of `i` in order, stopping at the first that fails. */
    method StartDeps(i: nat, ghost base: seq<State>) returns (ok: bool)
      requires Context(base) && i < |decls| && visiting[i]
      requires AllAwaited(decls, base, enabled, visiting, Chunks(decls[i].deps))
      modifies this`state, this`visiting, this`history, this`faults, this`calls
      ensures Context(base) && visiting == old(visiting) && faults >= old(faults) && old(history) <= history
      ensures old(Kept()) ==> Kept()
      ensures Grown(old(state), state) && Spread(decls, i, old(state), state)
      ensures ok ==> faults == old(faults) && AllStarted(decls, state, Chunks(decls[i].deps))
      ensures !ok && faults == old(faults) ==> !AllStartable(decls, base, enabled, Chunks(decls[i].deps))
      ensures Begun(From(decls, i), old(calls), old(state), calls, state, faults == old(faults)) && (ok ==> OnlyStarts(old(state), state))
      decreases Idle(visiting), 2, 2
    {
      var p := decls[i].deps;
      ghost var done: seq<string> := [];
      BegunNothing(From(decls, i), calls, state);
      ok := true;
      while p != ""
        invariant Context(base) && visiting == old(visiting) && faults == old(faults) && old(history) <= history && ok
        invariant old(Kept()) ==> Kept()
        invariant Grown(old(state), state) && Spread(decls, i, old(state), state)
        invariant Chunks(decls[i].deps) == done + Chunks(p) && AllStarted(decls, state, done)
        invariant Begun(From(decls, i), old(calls), old(state), calls, state, true) && OnlyStarts(old(state), state)
        decreases |p|
      {
        ghost var c, s := calls, state;
        ok, p, done := StartNext(i, p, base, old(state), done);
        BegunTrans(From(decls, i), old(calls), old(state), c, s, calls, state, faults == old(faults));
        if !ok { return; }
      }
    }

    /** The first dependency of the rest `p` of the list, keeping what has been achieved since `first`. */
    method StartNext(i: nat, p: string, ghost base: seq<State>, ghost first: seq<State>, ghost done: seq<string>)
        returns (ok: bool, p': string, ghost done': seq<string>)
      requires Context(base) && i < |decls| && visiting[i] && p != "" && Chunks(decls[i].deps) == done + Chunks(p)
      requires AllAwaited(decls, base, enabled, visiting, Chunks(decls[i].deps))
      requires Grown(first, state) && Spread(decls, i, first, state) && AllStarted(decls, state, done)
      modifies this`state, this`visiting, this`history, this`faults, this`calls
      ensures Context(base) && visiting == old(visiting) && faults >= old(faults) && old(history) <= history
      ensures old(Kept()) ==> Kept()
      ensures Grown(first, state) && Spread(decls, i, first, state)
      ensures ok ==> faults == old(faults) && |p'| < |p| && Chunks(decls[i].deps) == done' + Chunks(p') && AllStarted(decls, state, done')
      ensures !ok && faults == old(faults) ==> !AllStartable(decls, base, enabled, Chunks(decls[i].deps))
      ensures Begun(From(decls, i), old(calls), old(state), calls, state, faults == old(faults)) && (ok ==> OnlyStarts(old(state), state))
      decreases Idle(visiting), 2, 1
    {
      var n := NextChunk(p);
      var dep := p[..n];
      p', done', ok := After(p, n), done + [dep], true;
      NextListed(decls[i].deps, done, p);
      BegunNothing(From(decls, i), calls, state);
      if dep != "" { ok := StartOne(i, dep, base, first, done); }
    }

    method NextChunk(p: string) returns (n: nat)
      ensures n == Cut(p) <= |p|
    {
      n := 0;
      while n < |p| && p[n] != ',' && n + 1 < 32
        invariant 0 <= n <= Cut(p)
      {
        n := n + 1;
      }
    }

    /** One dependency of `i`, keeping what has been achieved since `first`. */
    method StartOne(i: nat, dep: string, ghost base: seq<State>, ghost first: seq<State>, ghost done: seq<string>) returns (ok: bool)
      requires Context(base) && i < |decls| && visiting[i]
      requires dep in Chunks(decls[i].deps) && dep != "" && Awaited(decls, base, enabled, visiting, Find(decls, dep))
      requires Grown(first, state) && Spread(decls, i, first, state) && AllStarted(decls, state, done)
      modifies this`state, this`visiting, this`history, this`faults, this`calls
      ensures old(history) <= history
      ensures Context(base) && visiting == old(visiting) && faults >= old(faults)
      ensures old(Kept()) ==> Kept()
      ensures Grown(first, state) && Spread(decls, i, first, state) && AllStarted(decls, state, done)
      ensures (ok <==> IsStarted(state, Find(decls, dep))) && (ok ==> faults == old(faults))
      ensures !ok && faults == old(faults) ==> !AllStartable(decls, base, enabled, Chunks(decls[i].deps))
      ensures Begun(From(decls, i), old(calls), old(state), calls, state, faults == old(faults)) && (ok ==> OnlyStarts(old(state), state))
      decreases Idle(visiting), 2, 0
    {
      var j := Lookup(dep);
      ok := StartEntry(j, false, base);
      FromDep(decls, i, dep);
      BegunWiden(From(decls, j), From(decls, i), old(calls), old(state), calls, state, faults == old(faults));
      SpreadTrans(decls, i, dep, first, old(state), state);
      GrownKeepsAll(decls, old(state), state, done);
      CanStartMeans(decls, base, enabled, j);
    }

    /** Manual start: nothing but the named service and enabled dependencies is started. */
    method Start(name: string) returns (ok: bool)
      requires Valid() && Quiet()
      modifies this`state, this`visiting, this`history, this`faults, this`calls
      ensures Valid() && visiting == old(visiting) && old(history) <= history
      ensures old(Kept()) ==> Kept()
      ensures StartMeans(decls, name, ok, old(ViewOf()), ViewOf())
    {
      FreshContext(decls, enabled, visiting, state);
      var i := Lookup(name);
      ok := StartEntry(i, true, state);
      forall k | IsStarted(state, k) && !IsStarted(old(state), k) ensures enabled[k] || k == i {
        if k != i { StartableUnfolds(decls, old(state), enabled, k); }
      }
    }

    method HasStartedDependent(i: nat) returns (yes: bool)
      requires Sized() && i < |decls|
      ensures yes == Listed(decls, state, decls[i].name, |decls|)
    {
      var k := 0;
      while k < |decls|
        invariant 0 <= k <= |decls| && !Listed(decls, state, decls[i].name, k)
      {
        if state[k] == Started {
          var listed := DependencyPresent(decls[k].deps, decls[i].name);
          if listed { return true; }
        }
        k := k + 1;
      }
      return false;
    }

    /** Stop: refused unless the service runs and no started service lists it; then exactly it stops. Dependencies
        hold afterwards exactly if no other started service needs it, which is certain for readable tables. */
    method Stop(name: string) returns (ok: bool)
      requires Valid()
      modifies this`state, this`history, this`faults, this`calls
      ensures Valid() && old(history) <= history
      ensures StopMeans(decls, name, ok, old(ViewOf()), ViewOf())
      ensures old(Kept()) ==> (Kept() <==> state == old(state) || !Needed(decls, old(state), Find(decls, name)))
      ensures old(Kept()) && Readable(decls) ==> Kept()
    {
      var i := Lookup(name);
      if i < 0 || state[i] != Started { return false; }
      var listed := HasStartedDependent(i);
      if listed { return false; }
      if Readable(decls) && Closed(decls, state) { UnlistedIsFree(decls, state, i); }
      ok := StopEntry(i);
    }

    /** Runs the stop callback of a running service. */
    method StopEntry(i: nat) returns (ok: bool)
      requires Valid() && IsStarted(state, i)
      modifies this`state, this`history, this`faults, this`calls
      ensures Valid() && old(history) <= history
      ensures ok == (faults == old(faults)) && faults >= old(faults)
      ensures state == old(state)[i := if ok then Stopped else Failed] && calls == old(calls) + [Call(i, false, ok)]
      ensures old(Kept()) ==> (Kept() <==> !Needed(decls, old(state), i))
    {
      if Closed(decls, state) {
        StopCloses(decls, state, i, Failed);
        StopCloses(decls, state, i, Stopped);
      }
      ok := Callback(i, false);
      SetState(i, if ok then Stopped else Failed);
    }

    /** Restart is stop, if running, then start. */
    method Restart(name: string) returns (ok: bool)
      requires Valid() && Quiet()
      modifies this`state, this`visiting, this`history, this`faults, this`calls
      ensures Valid() && visiting == old(visiting) && old(history) <= history
      ensures old(Kept()) && (Readable(decls) || !Needed(decls, old(state), Find(decls, name))) ==> Kept()
      ensures RestartMeans(decls, name, ok, old(ViewOf()), ViewOf())
    {
      var i := Lookup(name);
      if i < 0 { return false; }
      if state[i] == Started {
        var stopped := Stop(name);
        if !stopped { return false; }
      }
      ok := Start(name);
    }

    method SetEnabled(name: string, on: bool) returns (ok: bool)
      requires Valid()
      modifies this`enabled
      ensures Valid() && (old(Kept()) ==> Kept()) && EnableMeans(decls, name, on, ok, old(ViewOf()), ViewOf())
    {
      var i := Lookup(name);
      if i < 0 { return false; }
      enabled := enabled[i := on];
      return true;
    }

    /** Stops, last declared first, every started service outside the level. */
    method Trim(l: Level) returns (ok: bool)
      requires Valid()
      modifies this`state, this`history, this`faults, this`calls
      ensures Valid() && ok == (faults == old(faults)) && faults >= old(faults) && old(history) <= history
      ensures old(Kept()) && Ordered(decls) ==> Kept()
      ensures Grown(Trimmed(decls, old(state), l, 0), state) && Grown(state, old(state))
      ensures ok ==> state == Trimmed(decls, old(state), l, 0) && calls == old(calls) + TrimCalls(decls, old(state), l, 0)
      ensures !ok ==> TrimFailed(decls, l, old(ViewOf()), ViewOf())
    {
      ghost var v := ViewOf();
      var i := |decls|;
      TrimStarts(decls, l, v);
      ok := true;
      while i > 0
        invariant 0 <= i <= |decls| && Valid() && faults == old(faults) && old(history) <= history && ok
        invariant old(Kept()) && Ordered(decls) ==> Kept()
        invariant TrimmedTo(decls, l, v, state, calls, i)
      {
        i := i - 1;
        ok := TrimOne(i, l, v);
        if !ok { return; }
      }
      TrimEnds(decls, l, v, state, calls);
    }

    /** Stops service `i` if it runs outside the level, those after it being done. */
    method TrimOne(i: nat, l: Level, ghost v: View) returns (ok: bool)
      requires Valid() && i < |decls| && Fits(decls, v) && TrimmedTo(decls, l, v, state, calls, i + 1) && faults == v.faults
      modifies this`state, this`history, this`faults, this`calls
      ensures Valid() && ok == (faults == old(faults)) && faults >= old(faults) && old(history) <= history
      ensures old(Kept()) && Ordered(decls) ==> Kept()
      ensures ok ==> TrimmedTo(decls, l, v, state, calls, i)
      ensures !ok ==> TrimFailed(decls, l, v, ViewOf()) && Grown(Trimmed(decls, v.state, l, 0), state) && Grown(state, v.state)
    {
      ok := true;
      TrimNext(decls, l, v, state, calls, i);
      if state[i] == Started && !InLevel(decls[i], l) {
        if Closed(decls, state) && Ordered(decls) {
          TrimKeeps(decls, l, v, state, calls, i, Failed);
          TrimKeeps(decls, l, v, state, calls, i, Stopped);
        }
        ghost var before, log := state, calls;
        ok := Callback(i, false);
        SetState(i, if ok then Stopped else Failed);
        if !ok { TrimBreaks(decls, l, v, before, log, i, ViewOf()); }
      }
    }

    /** Starts every enabled service of the level, in order. */
    method Raise(l: Level) returns (ok: bool)
      requires Valid() && Quiet()
      modifies this`state, this`visiting, this`history, this`faults, this`calls
      ensures old(history) <= history
      ensures Valid() && visiting == old(visiting) && faults >= old(faults) && Grown(old(state), state)
      ensures StaysWithin(decls, l, old(state), state)
      ensures old(Kept()) ==> Kept()
      ensures ok ==> LevelStarted(decls, state, enabled, l, |decls|)
      ensures ok <==> faults == old(faults) && LevelStartable(decls, old(state), enabled, l, |decls|)
      ensures forall k | IsStarted(state, k) && !IsStarted(old(state), k) :: enabled[k]
      ensures Begun(LevelArea(decls, enabled, l), old(calls), old(state), calls, state, faults == old(faults)) && (ok ==> OnlyStarts(old(state), state))
    {
      FreshContext(decls, enabled, visiting, state);
      ok := RaiseFrom(l, state);
      NewIsEnabled(decls, old(state), enabled, state);
    }

    method RaiseFrom(l: Level, ghost base: seq<State>) returns (ok: bool)
      requires Context(base) && Quiet() && base == state
      modifies this`state, this`visiting, this`history, this`faults, this`calls
      ensures old(history) <= history
      ensures Context(base) && visiting == old(visiting) && faults >= old(faults) && StaysWithin(decls, l, base, state)
      ensures old(Kept()) ==> Kept()
      ensures ok ==> LevelStarted(decls, state, enabled, l, |decls|)
      ensures ok <==> faults == old(faults) && LevelStartable(decls, base, enabled, l, |decls|)
      ensures Begun(LevelArea(decls, enabled, l), old(calls), old(state), calls, state, faults == old(faults)) && (ok ==> OnlyStarts(old(state), state))
    {
      var i := 0;
      BegunNothing(LevelArea(decls, enabled, l), calls, state);
      ok := true;
      while i < |decls|
        invariant 0 <= i <= |decls| && Context(base) && visiting == old(visiting) && faults == old(faults) && ok
        invariant (old(Kept()) ==> Kept()) && old(history) <= history && StaysWithin(decls, l, base, state)
        invariant LevelStarted(decls, state, enabled, l, i) && LevelStartable(decls, base, enabled, l, i)
        invariant Begun(LevelArea(decls, enabled, l), old(calls), old(state), calls, state, true) && OnlyStarts(old(state), state)
      {
        ghost var c, s := calls, state;
        ok := RaiseNext(i, l, base);
        BegunTrans(LevelArea(decls, enabled, l), old(calls), old(state), c, s, calls, state, faults == old(faults));
        if !ok { return; }
        i := i + 1;
      }
    }

    /** Service `i` if it is an enabled one of the level, those before it being done. */
    method RaiseNext(i: nat, l: Level, ghost base: seq<State>) returns (ok: bool)
      requires Context(base) && Quiet() && i < |decls| && StaysWithin(decls, l, base, state)
      requires LevelStarted(decls, state, enabled, l, i) && LevelStartable(decls, base, enabled, l, i)
      modifies this`state, this`visiting, this`history, this`faults, this`calls
      ensures old(history) <= history
      ensures Context(base) && visiting == old(visiting) && faults >= old(faults) && StaysWithin(decls, l, base, state)
      ensures old(Kept()) ==> Kept()
      ensures ok ==> faults == old(faults) && LevelStarted(decls, state, enabled, l, i + 1) && LevelStartable(decls, base, enabled, l, i + 1)
      ensures !ok && faults == old(faults) ==> !LevelStartable(decls, base, enabled, l, |decls|)
      ensures Begun(LevelArea(decls, enabled, l), old(calls), old(state), calls, state, faults == old(faults)) && (ok ==> OnlyStarts(old(state), state))
    {
      BegunNothing(LevelArea(decls, enabled, l), calls, state);
      if !InLevel(decls[i], l) || !enabled[i] {
        LevelSkip(decls, base, enabled, state, l, i);
        return true;
      }
      ok := RaiseOne(i, l, base);
      LevelNext(decls, base, enabled, state, l, i);
    }

    method RaiseOne(i: nat, l: Level, ghost base: seq<State>) returns (ok: bool)
      requires Context(base) && Quiet()
      requires i < |decls| && InLevel(decls[i], l) && enabled[i] && LevelStarted(decls, state, enabled, l, i)
      modifies this`state, this`visiting, this`history, this`faults, this`calls
      ensures old(history) <= history
      ensures Context(base) && visiting == old(visiting) && faults >= old(faults)
      ensures old(Kept()) ==> Kept()
      ensures LevelStarted(decls, state, enabled, l, i)
      ensures StaysWithin(decls, l, base, old(state)) ==> StaysWithin(decls, l, base, state)
      ensures ok ==> faults == old(faults) && state[i] == Started && Startable(decls, base, enabled, i)
      ensures !ok && faults == old(faults) ==> !Startable(decls, base, enabled, i)
      ensures Begun(LevelArea(decls, enabled, l), old(calls), old(state), calls, state, faults == old(faults)) && (ok ==> OnlyStarts(old(state), state))
    {
      FreshContext(decls, enabled, visiting, state);
      assert forall v | 0 <= v < |visiting| :: visiting[v] in visiting;
      ok := StartEntry(i, false, base);
      CanStartMeans(decls, base, enabled, i);
      assert Belongs(decls, enabled, l, i);
      assert forall k | Reached(decls, i, k) :: InArea(decls, enabled, l, k);
      BegunWiden(From(decls, i), LevelArea(decls, enabled, l), old(calls), old(state), calls, state, faults == old(faults));
      SpreadStays(decls, l, i, base, old(state), state);
      forall k | 0 <= k < i && InLevel(decls[k], l) && enabled[k] ensures state[k] == Started {
        assert IsStarted(old(state), k);
      }
    }

    /**
     * Runlevel change. Succeeds exactly when no callback fails and, except for halt, all enabled services of the level
     * can be started; then those of the level run that ran before or are enabled.
     */
    method SetRunlevel(l: Level) returns (ok: bool)
      requires Valid() && Quiet()
      modifies this`state, this`visiting, this`history, this`faults, this`calls, this`level
      ensures Valid() && visiting == old(visiting) && old(history) <= history
      ensures old(Kept()) && Ordered(decls) ==> Kept()
      ensures LevelMeans(decls, l, ok, old(ViewOf()), ViewOf())
    {
      ok := Trim(l);
      if !ok {
        LevelRefused(decls, l, old(ViewOf()), ViewOf());
        return;
      }
      ghost var mid := ViewOf();
      if l != Halt {
        ok := Raise(l);
        if ok { level := l; }
        LevelRaised(decls, l, ok, old(ViewOf()), mid, ViewOf());
        return;
      }
      level := l;
      LevelHalted(decls, old(ViewOf()), ViewOf());
    }

    /** One request. */
    method Execute(op: Op) returns (ok: bool)
      requires Valid() && Quiet()
      modifies this
      ensures Valid() && Quiet() && old(history) <= history
      ensures old(Kept()) && Readable(decls) && (op.LevelOp? ==> Ordered(decls)) ==> Kept()
      ensures OpMeans(decls, op, ok, old(ViewOf()), ViewOf())
    {
      match op
      case StartOp(name) => ok := Start(name);
      case StopOp(name) => ok := Stop(name);
      case RestartOp(name) => ok := Restart(name);
      case EnableOp(name, on) => ok := SetEnabled(name, on);
      case LevelOp(l) => ok := SetRunlevel(l);
    }

    /** Any run of requests, whatever the callbacks do: each request does what it should, and the states on the way
        are recorded one change at a time. Dependencies hold in all of them if the names of the table are short enough and,
        where runlevels change, it is ordered. */
    method Run(ops: seq<Op>) returns (oks: seq<bool>, ghost trace: seq<View>)
      requires Valid() && Quiet()
      modifies this
      ensures Valid() && Quiet() && old(history) <= history && (old(Kept()) && Tame(decls, ops) ==> Kept())
      ensures Answered(decls, ops, oks, trace) && trace[0] == old(ViewOf()) && trace[|ops|] == ViewOf()
      ensures forall v | v in trace :: v.state in history
    {
      oks, trace := [], [ViewOf()];
      assert RecordedAt(history, state, true);
      for i := 0 to |ops|
        invariant Valid() && Quiet() && old(history) <= history && (old(Kept()) && Tame(decls, ops) ==> Kept())
        invariant |trace| == i + 1 && trace[0] == old(ViewOf()) && trace[i] == ViewOf() && Answered(decls, ops[..i], oks, trace)
        invariant forall v | v in trace :: v.state in history
      {
        assert ops[i] in ops;
        ghost var before := history;
        var ok := Execute(ops[i]);
        AnsweredExtends(decls, ops[..i], oks, trace, ops[i], ok, ViewOf());
        assert ops[..i] + [ops[i]] == ops[..i + 1];
        assert forall h | h in before :: h in history;
        assert RecordedAt(history, state, true) && state in history;
        oks, trace := oks + [ok], trace + [ViewOf()];
      }
      assert ops[..|ops|] == ops;
    }
  }
}
