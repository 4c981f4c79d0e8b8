/** The falling-block game: its state, every key and tick, and the invariant of whole runs. */
module Tetris {
  import opened TetrisBoard

  const MOD32 := 0x1_0000_0000

  datatype Key = Left | Right | Down | Up | Drop | Reset | Other
  datatype Input = Press(key: Key, now: nat) | Tick(now: nat)

  /** A position of the game: board, active and next piece, lines cleared and pieces locked since the start, random seed,
      last tick. */
  datatype Play = Play(grid: seq<Row>, piece: nat, next: nat, rotation: nat, x: int, y: nat, lines: int, locked: nat,
                       over: bool, seed: nat, lastTick: nat)

  predicate Legal(p: Play) { IsGrid(p.grid) && p.piece < 7 && p.next < 7 && p.rotation < 4 }

  function Rand(seed: nat): (r: nat)
    ensures r < MOD32
  {
    (seed * 1664525 + 1013904223) % MOD32
  }

  /** The row on which a piece falling from `y` comes to rest. */
  function Landing(g: seq<Row>, s: Box, x: int, y: nat): nat
    requires IsGrid(g)
    decreases H - y
  {
    if y >= 19 || Collides(g, s, x, y + 1) then y else Landing(g, s, x, y + 1)
  }

  /** There and on the way the piece has room, and one row lower it has not. */
  lemma {:induction false} LandingRests(g: seq<Row>, s: Box, x: int, y: nat)
    requires IsGrid(g) && !Collides(g, s, x, y)
    ensures var r := Landing(g, s, x, y);
      r >= y && !Collides(g, s, x, r) && Collides(g, s, x, r + 1) && forall k | y <= k <= r :: !Collides(g, s, x, k)
  {
    LandingBelow(g, s, x, y);
    forall k | y <= k <= Landing(g, s, x, y) ensures !Collides(g, s, x, k) { LandingClear(g, s, x, y, k); }
  }

  lemma {:induction false} LandingBelow(g: seq<Row>, s: Box, x: int, y: nat)
    requires IsGrid(g)
    ensures Landing(g, s, x, y) >= y && Collides(g, s, x, Landing(g, s, x, y) + 1)
    decreases H - y
  {
    if y >= 19 { BottomCollides(g, s, x, y + 1); }
    var r, stops := LandingStep(g, s, x, y);
    if !stops { LandingBelow(g, s, x, y + 1); }
  }

  lemma {:induction false} LandingClear(g: seq<Row>, s: Box, x: int, y: nat, k: nat)
    requires IsGrid(g) && !Collides(g, s, x, y) && y <= k <= Landing(g, s, x, y)
    ensures !Collides(g, s, x, k)
    decreases k - y
  {
    if y < k {
      var r, stops := LandingStep(g, s, x, y);
      LandingClear(g, s, x, y + 1, k);
    }
  }

  lemma LandingStep(g: seq<Row>, s: Box, x: int, y: nat) returns (r: nat, stops: bool)
    requires IsGrid(g)
    ensures r == Landing(g, s, x, y) && stops == (y >= 19 || Collides(g, s, x, y + 1))
    ensures r == if stops then y else Landing(g, s, x, y + 1)
  {
    r, stops := Landing(g, s, x, y), y >= 19 || Collides(g, s, x, y + 1);
  }

  predicate NoFull(g: seq<Row>) { forall i | 0 <= i < |g| :: !Full(g[i]) }

  /** The board once the piece at (x, y) is locked and full rows are gone. */
  function Locked(g: seq<Row>, s: Box, x: int, y: int, v: nat): (g': seq<Row>)
    requires IsGrid(g)
    ensures IsGrid(g')
  {
    Cleared(Placed(g, s, x, y, v, 4 * |s|))
  }

  function LinesOf(g: seq<Row>, s: Box, x: int, y: int, v: nat): (n: int)
    requires IsGrid(g)
    ensures n >= 0
  {
    20 - |Open(Placed(g, s, x, y, v, 4 * |s|))|
  }

  lemma {:induction false} CoversTaken(g: seq<Row>, s: Box, x: int, y: int, r: nat, c: nat)
    requires IsGrid(g) && r < 20 && c < 10 && Covers(s, x, y, 4 * |s|, r, c) && g[r][c] != 0
    ensures Collides(g, s, x, y)
  {
  }

  /** Locking a piece that does not collide overwrites nothing, adds four cells and removes ten a line. */
  lemma {:induction false} LockedFacts(g: seq<Row>, s: Box, x: int, y: int, v: nat)
    requires IsGrid(g) && v != 0 && y >= 0 && !Collides(g, s, x, y)
    ensures Cells(Locked(g, s, x, y, v)) == Cells(g) + 4 - 10 * LinesOf(g, s, x, y, v)
    ensures NoFull(Locked(g, s, x, y, v))
    ensures forall r, c | 0 <= r < 20 && 0 <= c < 10 && g[r][c] != 0 :: Placed(g, s, x, y, v, 4 * |s|)[r][c] == g[r][c]
  {
    LockedCount(g, s, x, y, v);
    EmptyRowFacts();
    LockedKeeps(g, s, x, y, v);
  }

  lemma {:induction false} LockedCount(g: seq<Row>, s: Box, x: int, y: int, v: nat)
    requires IsGrid(g) && v != 0 && y >= 0 && !Collides(g, s, x, y)
    ensures Cells(Locked(g, s, x, y, v)) == Cells(g) + 4 - 10 * LinesOf(g, s, x, y, v)
  {
    PlacedCells(g, s, x, y, v, 4 * |s|);
    BitsAre(s, 4 * |s|);
    ClearedCells(Placed(g, s, x, y, v, 4 * |s|));
  }

  lemma {:induction false} LockedKeeps(g: seq<Row>, s: Box, x: int, y: int, v: nat)
    requires IsGrid(g) && v != 0 && y >= 0 && !Collides(g, s, x, y)
    ensures forall r, c | 0 <= r < 20 && 0 <= c < 10 && g[r][c] != 0 :: Placed(g, s, x, y, v, 4 * |s|)[r][c] == g[r][c]
  {
    forall r, c | 0 <= r < 20 && 0 <= c < 10 && g[r][c] != 0
      ensures Placed(g, s, x, y, v, 4 * |s|)[r][c] == g[r][c]
    {
      PlacedAt(g, s, x, y, v, 4 * |s|, r, c);
      if Covers(s, x, y, 4 * |s|, r, c) { CoversTaken(g, s, x, y, r, c); }
    }
  }

  /** The rows of `cur` that are not full are those of `g`, below `n` empty ones; stated so that it is passed on without unfolding. */
  ghost predicate Reduced(cur: seq<Row>, n: nat, g: seq<Row>) {
    forall u: bool {:trigger ReducedAt(cur, n, g, u)} :: ReducedAt(cur, n, g, u)
  }

  ghost predicate ReducedAt(cur: seq<Row>, n: nat, g: seq<Row>, u: bool) {
    IsGrid(cur) && IsGrid(g) && Open(cur) == Empties(n) + Open(g)
  }

  lemma {:induction false} ReducedToSelf(g: seq<Row>)
    requires IsGrid(g)
    ensures Reduced(g, 0, g)
  {
    assert Empties(0) + Open(g) == Open(g);
  }

  /** Once no full row is left the board is cleared, and the empty rows count those that were. */
  lemma {:induction false} ReducedIsCleared(cur: seq<Row>, n: nat, g: seq<Row>)
    requires Reduced(cur, n, g) && NoFull(cur)
    ensures IsGrid(g) && cur == Cleared(g) && n == 20 - |Open(g)|
  {
    assert ReducedAt(cur, n, g, true);
    OpenAll(cur);
  }

  /** One more full row removed: the open rows gain an empty one on top, and rows below stay. */
  lemma {:induction false} DropOnce(cur: seq<Row>, r: nat, g: seq<Row>, n: nat)
    requires IsGrid(cur) && r < 20 && Full(cur[r]) && Reduced(cur, n, g)
    ensures n < 20 && Reduced(Dropped(cur, r), n + 1, g)
    ensures forall k | r < k < 20 :: Dropped(cur, r)[k] == cur[k]
  {
    assert ReducedAt(cur, n, g, true);
    DroppedOpen(cur, r);
    assert Empties(n + 1) == [EMPTY_ROW] + Empties(n);
    assert |Open(Dropped(cur, r))| <= 20;
  }

  // ---- The rules on positions ----

  function SpawnOf(p: Play): (q: Play)
    requires Legal(p)
    ensures Legal(q) && q.grid == p.grid
  {
    var seed := Rand(p.seed);
    p.(piece := p.next, next := seed % 7, rotation := 0, x := 3, y := 0, seed := seed,
       over := p.over || Collides(p.grid, Shape(p.next, 0), 3, 0))
  }

  function LockOf(p: Play): (q: Play)
    requires Legal(p)
    ensures Legal(q)
  {
    var s := Shape(p.piece, p.rotation);
    SpawnOf(p.(grid := Locked(p.grid, s, p.x, p.y, p.piece + 1),
               lines := p.lines + LinesOf(p.grid, s, p.x, p.y, p.piece + 1), locked := p.locked + 1))
  }

  /** Locking is settling and then spawning. */
  lemma LockSteps(p: Play) returns (settled: Play, q: Play)
    requires Legal(p)
    ensures var s, v := Shape(p.piece, p.rotation), p.piece + 1;
      settled == p.(grid := Locked(p.grid, s, p.x, p.y, v), lines := p.lines + LinesOf(p.grid, s, p.x, p.y, v), locked := p.locked + 1)
    ensures Legal(settled) && q == SpawnOf(settled) == LockOf(p)
  {
    var s := Shape(p.piece, p.rotation);
    settled := p.(grid := Locked(p.grid, s, p.x, p.y, p.piece + 1),
                  lines := p.lines + LinesOf(p.grid, s, p.x, p.y, p.piece + 1), locked := p.locked + 1);
    q := SpawnOf(settled);
  }

  predicate RestsAt(p: Play)
    requires Legal(p)
  {
    Collides(p.grid, Shape(p.piece, p.rotation), p.x, p.y + 1)
  }

  /** One step down. */
  function FallOf(p: Play): (q: Play)
    requires Legal(p)
    ensures Legal(q)
  {
    if p.over then p else if RestsAt(p) then LockOf(p) else p.(y := p.y + 1)
  }

  lemma FallCases(p: Play) returns (q: Play, rests: bool)
    requires Legal(p) && !p.over
    ensures q == FallOf(p) && rests == RestsAt(p)
    ensures q == if rests then LockOf(p) else p.(y := p.y + 1)
  {
    q, rests := FallOf(p), RestsAt(p);
  }

  function Falls(p: Play, n: nat): (q: Play)
    requires Legal(p)
    ensures Legal(q)
    decreases n
  {
    if n == 0 then p else Falls(FallOf(p), n - 1)
  }

  /** `n` steps down lead from `p` to `q`; stated so that it is passed on without unfolding. */
  ghost predicate FallsTo(p: Play, n: nat, q: Play) {
    forall u: bool {:trigger FallsToAt(p, n, q, u)} :: FallsToAt(p, n, q, u)
  }

  ghost predicate FallsToAt(p: Play, n: nat, q: Play, u: bool) { Legal(p) && Falls(p, n) == q }

  lemma {:induction false} FallsNext(p: Play, n: nat, q: Play) returns (p': Play)
    requires FallsTo(p, n, q) && n > 0
    ensures Legal(p) && p' == FallOf(p) && FallsTo(p', n - 1, q)
  {
    assert FallsToAt(p, n, q, true);
    p' := FallOf(p);
  }

  /** There is no step left, or none that does anything. */
  lemma {:induction false} FallsDone(p: Play, n: nat, q: Play)
    requires FallsTo(p, n, q) && (n == 0 || p.over)
    ensures p == q
  {
    assert FallsToAt(p, n, q, true);
    if p.over { FallsOver(p, n); }
  }

  lemma {:induction false} FallsOver(p: Play, n: nat)
    requires Legal(p) && p.over
    ensures Falls(p, n) == p
  {
    if n > 0 { FallsOver(p, n - 1); }
  }

  function DropOf(p: Play): (q: Play)
    requires Legal(p)
    ensures Legal(q)
  {
    LockOf(p.(y := Landing(p.grid, Shape(p.piece, p.rotation), p.x, p.y)))
  }

  function MoveOf(p: Play, dx: int): (q: Play)
    requires Legal(p)
    ensures Legal(q)
  {
    if Collides(p.grid, Shape(p.piece, p.rotation), p.x + dx, p.y) then p else p.(x := p.x + dx)
  }

  function TurnOf(p: Play): (q: Play)
    requires Legal(p)
    ensures Legal(q)
  {
    var r := (p.rotation + 1) % 4;
    if Collides(p.grid, Shape(p.piece, r), p.x, p.y) then p else p.(rotation := r)
  }

  /** A new game on a board of the usual number of rows. */
  function FreshOf(rows: nat, start: nat, now: nat): (q: Play)
    requires rows == 20
    ensures Legal(q)
  {
    SpawnOf(BlankOf(rows, start, now))
  }

  function BlankOf(rows: nat, start: nat, now: nat): (q: Play)
    requires rows == 20
    ensures Legal(q)
  {
    Play(Empties(rows), 0, Rand(start) % 7, 0, 0, 0, 0, 0, false, Rand(start), now)
  }

  function PressOf(p: Play, key: Key, start: nat, now: nat): (q: Play)
    requires Legal(p)
    ensures Legal(q)
  {
    if key == Reset then FreshOf(|p.grid|, start, now)
    else if p.over then p
    else
      match key
      case Left => MoveOf(p, -1)
      case Right => MoveOf(p, 1)
      case Down => FallOf(p)
      case Up => TurnOf(p)
      case Drop => DropOf(p)
      case _ => p
  }

  /** Left and right move the piece one column where there is room, and undo each other. */
  lemma SidewaysKeys(p: Play, start: nat, now: nat)
    requires Legal(p) && !p.over && HasRoomAt(p, p.rotation, p.x, p.y)
    ensures PressOf(p, Left, start, now) == if HasRoomAt(p, p.rotation, p.x - 1, p.y) then p.(x := p.x - 1) else p
    ensures PressOf(p, Right, start, now) == if HasRoomAt(p, p.rotation, p.x + 1, p.y) then p.(x := p.x + 1) else p
    ensures HasRoomAt(p, p.rotation, p.x - 1, p.y) ==> PressOf(PressOf(p, Left, start, now), Right, start, now) == p
  {
    var l := LeftIs(p, start, now);
    var r := RightIs(p, start, now);
    if HasRoomAt(p, p.rotation, p.x - 1, p.y) { var back := RightIs(l, start, now); }
  }

  predicate HasRoomAt(p: Play, rotation: nat, x: int, y: int)
    requires Legal(p) && rotation < 4
  {
    !Collides(p.grid, Shape(p.piece, rotation), x, y)
  }

  lemma LeftIs(p: Play, start: nat, now: nat) returns (q: Play)
    requires Legal(p) && !p.over
    ensures q == PressOf(p, Left, start, now) && q == if HasRoomAt(p, p.rotation, p.x - 1, p.y) then p.(x := p.x - 1) else p
  {
    q := MoveOf(p, -1);
  }

  lemma RightIs(p: Play, start: nat, now: nat) returns (q: Play)
    requires Legal(p) && !p.over
    ensures q == PressOf(p, Right, start, now) && q == if HasRoomAt(p, p.rotation, p.x + 1, p.y) then p.(x := p.x + 1) else p
  {
    q := MoveOf(p, 1);
  }

  /** Up turns the piece to the next of its four shapes where there is room. */
  lemma TurningKey(p: Play, start: nat, now: nat)
    requires Legal(p) && !p.over
    ensures var r := if p.rotation == 3 then 0 else p.rotation + 1;
      PressOf(p, Up, start, now) == if HasRoomAt(p, r, p.x, p.y) then p.(rotation := r) else p
  {
    var q := TurnOf(p);
  }

  /** Down lowers the piece where there is room. */
  lemma LoweringKey(p: Play, start: nat, now: nat)
    requires Legal(p) && !p.over && HasRoomAt(p, p.rotation, p.x, p.y + 1)
    ensures PressOf(p, Down, start, now) == p.(y := p.y + 1)
  {
    var q, rests := FallCases(p);
  }

  /** A piece enters unturned, in the middle of the top: its cells lie in columns 3 to 6 of the first two rows. */
  lemma SpawnEnters(p: Play)
    requires Legal(p)
    ensures var q := SpawnOf(p);
      && q.piece == p.next && q.seed == Rand(p.seed) && q.next == q.seed % 7 && q.grid == p.grid && q.lines == p.lines
      && q.rotation == 0 && q.x == 3 && q.y == 0
      && forall k: nat | k < 16 && Bit(Shape(q.piece, q.rotation), k) :: 3 <= q.x + k % 4 <= 6 && 0 <= q.y + k / 4 <= 1
  {
    var q := SpawnOf(p);
    forall k: nat | k < 16 && Bit(Shape(q.piece, 0), k) ensures k / 4 <= 1 { FirstRows(q.piece, k); }
  }

  lemma FirstRows(piece: nat, k: nat)
    requires piece < 7 && k < 16 && Bit(Shape(piece, 0), k)
    ensures k / 4 <= 1
  {
    if piece == 0 {} else if piece == 1 {} else if piece == 2 {} else if piece == 3 {} else if piece == 4 {} else if piece == 5 {}
  }

  lemma RandFrom(seed: nat)
    requires seed == 1
    ensures Rand(seed) == 1015568748
  {
  }

  /** How many steps are due: one per forty ticks of the wrapping counter, at most three. */
  function StepsDue(last: nat, now: nat): nat {
    var n := (now - last) % MOD32 / 40;
    if n > 3 then 3 else n
  }

  lemma StepsDueAre(last: nat, now: nat)
    requires last < MOD32 && now < MOD32
    ensures var d := if now >= last then now - last else now + MOD32 - last;
      StepsDue(last, now) == if d < 40 then 0 else if d < 80 then 1 else if d < 120 then 2 else 3
  {
    var d := if now >= last then now - last else now + MOD32 - last;
    assert (now - last) % MOD32 == d;
  }

  function TickOf(p: Play, now: nat): (q: Play)
    requires Legal(p)
    ensures Legal(q)
  {
    var n := StepsDue(p.lastTick, now);
    if p.over || n == 0 then p else AdvanceOf(p, n)
  }

  function AdvanceOf(p: Play, n: nat): (q: Play)
    requires Legal(p)
    ensures Legal(q)
  {
    Falls(p.(lastTick := (p.lastTick + n * 40) % MOD32), n)
  }

  lemma {:induction false} FallsKeepTime(p: Play, n: nat)
    requires Legal(p)
    ensures Falls(p, n).lastTick == p.lastTick
    decreases n
  {
    if n > 0 {
      FallKeepsTime(p);
      FallsKeepTime(FallOf(p), n - 1);
    }
  }

  lemma FallKeepsTime(p: Play)
    requires Legal(p)
    ensures FallOf(p).lastTick == p.lastTick
  {
    if !p.over { var q, rests := FallCases(p); var settled, r := LockSteps(p); }
  }

  /** The clock after the steps due: unless some were skipped, none is due then. */
  lemma ClockAfter(last: nat, now: nat) returns (n: nat, t: nat)
    requires last < MOD32 && now < MOD32
    ensures n == StepsDue(last, now) && t == (last + n * 40) % MOD32
    ensures t == if last + 40 * n < MOD32 then last + 40 * n else last + 40 * n - MOD32
    ensures (if now >= last then now - last else now + MOD32 - last) < 160 ==> StepsDue(t, now) == 0
  {
    n := StepsDue(last, now);
    t := (last + n * 40) % MOD32;
    StepsDueAre(last, now);
    StepsDueAre(t, now);
  }

  /** A tick of a live game uses up forty ticks of the clock for each step it makes, and no more: unless steps were skipped, none
      is due afterwards. */
  lemma TickKeepsTime(p: Play, now: nat) returns (n: nat, t: nat)
    requires Legal(p) && !p.over && p.lastTick < MOD32 && now < MOD32
    ensures n == StepsDue(p.lastTick, now) && t == TickOf(p, now).lastTick
    ensures t == if p.lastTick + 40 * n < MOD32 then p.lastTick + 40 * n else p.lastTick + 40 * n - MOD32
    ensures (if now >= p.lastTick then now - p.lastTick else now + MOD32 - p.lastTick) < 160 ==> StepsDue(t, now) == 0
  {
    n, t := ClockAfter(p.lastTick, now);
    if n > 0 { AdvanceKeepsTime(p, n); }
  }

  lemma AdvanceKeepsTime(p: Play, n: nat)
    requires Legal(p)
    ensures AdvanceOf(p, n).lastTick == (p.lastTick + n * 40) % MOD32
  {
    FallsKeepTime(p.(lastTick := (p.lastTick + n * 40) % MOD32), n);
  }

  /** How many rows the piece can fall. */
  function Clearance(p: Play): (n: int)
    requires Legal(p)
  {
    Landing(p.grid, Shape(p.piece, p.rotation), p.x, p.y) - p.y
  }

  /** Dropping leads from `p` to `q`; stated so that it is passed on without unfolding. */
  ghost predicate DropsTo(p: Play, q: Play) {
    forall u: bool {:trigger DropsToAt(p, q, u)} :: DropsToAt(p, q, u)
  }

  ghost predicate DropsToAt(p: Play, q: Play, u: bool) { Legal(p) && DropOf(p) == q }

  /** A piece that can fall drops to the same place from one row lower. */
  lemma DropLower(p: Play) returns (p': Play)
    requires Legal(p) && !p.over && HasRoomAt(p, p.rotation, p.x, p.y) && !RestsAt(p)
    ensures p' == FallOf(p) && p' == p.(y := p.y + 1) && Clearance(p) == Clearance(p') + 1
    ensures HasRoomAt(p', p'.rotation, p'.x, p'.y) && p'.y < 20
  {
    var rests;
    p', rests := FallCases(p);
    LandingRests(p.grid, Shape(p.piece, p.rotation), p.x, p.y);
  }

  lemma DropSame(p: Play, p': Play, q: Play)
    requires Legal(p) && p' == p.(y := p.y + 1) && Clearance(p) == Clearance(p') + 1 && DropsTo(p', q)
    ensures DropsTo(p, q)
  {
    assert DropsToAt(p', q, true);
    assert p.(y := p.y + Clearance(p)) == p'.(y := p'.y + Clearance(p'));
  }

  lemma DropRests(p: Play) returns (q: Play)
    requires Legal(p) && !p.over && RestsAt(p)
    ensures Clearance(p) == 0 && DropsTo(p, q) && FallsTo(p, 1, q)
  {
    assert p.(y := Landing(p.grid, Shape(p.piece, p.rotation), p.x, p.y)) == p;
    var rests;
    q, rests := FallCases(p);
    FallsFirst(p, q, 0, q);
  }

  lemma {:induction false} FallsFirst(p: Play, p': Play, n: nat, q: Play)
    requires Legal(p) && p' == FallOf(p) && (if n == 0 then p' == q else FallsTo(p', n, q))
    ensures FallsTo(p, n + 1, q)
  {
    if n > 0 { assert FallsToAt(p', n, q, true); }
    assert Falls(p', n) == q && Falls(p, n + 1) == Falls(p', n);
  }

  /** Dropping a piece comes to lowering it until it locks. */
  lemma {:induction false} DropIsFalls(p: Play) returns (n: nat, q: Play)
    requires Legal(p) && !p.over && HasRoomAt(p, p.rotation, p.x, p.y)
    ensures n == Clearance(p) && DropsTo(p, q) && FallsTo(p, n + 1, q)
    decreases 20 - p.y
  {
    if RestsAt(p) {
      n := 0;
      q := DropRests(p);
    } else {
      var p' := DropLower(p);
      n, q := DropIsFalls(p');
      DropSame(p, p', q);
      n := n + 1;
      FallsFirst(p, p', n, q);
    }
  }

  /** A new game: an empty board, nothing counted, the first two pieces drawn one after the other. */
  lemma FreshGame(start: nat, now: nat)
    ensures var p := FreshOf(20, start, now);
      && p.grid == Empties(20) && p.lines == 0 && p.locked == 0 && p.lastTick == now
      && p.piece == Rand(start) % 7 && p.next == Rand(Rand(start)) % 7 && p.seed == Rand(Rand(start)) && p.x == 3 && p.y == 0
  {
    SpawnEnters(BlankOf(20, start, now));
  }

  function InputOf(p: Play, i: Input, start: nat): (q: Play)
    requires Legal(p)
    ensures Legal(q)
  {
    match i
    case Press(key, now) => PressOf(p, key, start, now)
    case Tick(now) => TickOf(p, now)
  }

  function Played(p: Play, inputs: seq<Input>, start: nat): (q: Play)
    requires Legal(p)
    ensures Legal(q)
  {
    if inputs == [] then p else InputOf(Played(p, inputs[..|inputs| - 1], start), inputs[|inputs| - 1], start)
  }

  lemma {:induction false} PlayedNext(p: Play, inputs: seq<Input>, k: nat, start: nat)
    requires Legal(p) && k < |inputs|
    ensures Played(p, inputs[..k + 1], start) == InputOf(Played(p, inputs[..k], start), inputs[k], start)
  {
    assert inputs[..k + 1][..k] == inputs[..k];
  }

  /** Four cells for each locked piece less ten for each line, a hundred points a line, no full row. */
  predicate Balanced(g: seq<Row>, locked: nat, lines: int, score: int) {
    Cells(g) == 4 * locked - 10 * lines && score == 100 * lines && NoFull(g)
  }

  /** What placing and clearing come to, and that the books balance again. */
  lemma {:induction false} SettledFacts(g: seq<Row>, s: Box, x: int, y: int, v: nat, locked: nat, lines: int, score: int)
    requires IsGrid(g) && v != 0 && y >= 0 && !Collides(g, s, x, y) && Balanced(g, locked, lines, score)
    ensures var p := Placed(g, s, x, y, v, 4 * |s|); Cleared(p) == Locked(g, s, x, y, v) && 20 - |Open(p)| == LinesOf(g, s, x, y, v)
    ensures var n := LinesOf(g, s, x, y, v); Balanced(Locked(g, s, x, y, v), locked + 1, lines + n, score + 100 * n)
  {
    LockedFacts(g, s, x, y, v);
  }

  class Game {
    const board: array2<nat>
    var piece: nat
    var next: nat
    var rotation: nat
    var x: int
    var y: int
    var score: int
    var lines: int
    var over: bool
    var seed: nat
    var lastTick: nat
    /** Pieces locked since the last reset. */
    ghost var locked: nat

    /** The board's contents, row by row. */
    ghost var grid: seq<Row>

    /** The board has its size and `grid` shows its contents. */
    ghost predicate Synced()
      reads this`grid, board
    {
      && board.Length0 == 20 && board.Length1 == 10 && IsGrid(grid)
      && forall r, c {:trigger board[r, c]} | 0 <= r < 20 && 0 <= c < 10 :: board[r, c] == grid[r][c]
    }

    ghost predicate Typed()
      reads this
    {
      piece < 7 && next < 7 && rotation < 4 && y >= 0 && seed < MOD32 && lastTick < MOD32
    }

    ghost function Current(): Box
      requires Typed()
      reads this
    {
      Shape(piece, rotation)
    }

    /** The position. */
    ghost function View(): (p: Play)
      requires Typed() && IsGrid(grid)
      reads this
      ensures Legal(p)
    {
      Play(grid, piece, next, rotation, x, y, lines, locked, over, seed, lastTick)
    }

    /** Holds between any two inputs: the active piece has room and the books balance. */
    ghost predicate Valid()
      reads this, board
    {
      && Synced() && Typed()
      && (!over ==> !Collides(grid, Current(), x, y))
      && Balanced(grid, locked, lines, score)
    }

    method Put(r: nat, c: nat, v: nat)
      requires Synced() && r < 20 && c < 10
      modifies board, this`grid
      ensures Synced() && grid == TetrisBoard.Put(old(grid), r, c, v)
    {
      board[r, c] := v;
      grid := TetrisBoard.Put(grid, r, c, v);
    }

    method Collide(p: nat, rot: nat, ox: int, oy: int) returns (hit: bool)
      requires Synced() && p < 7 && rot < 4
      ensures hit == Collides(grid, Shape(p, rot), ox, oy)
    {
      var s := Shape(p, rot);
      var j := 0;
      while j < 4
        invariant 0 <= j <= 4
        invariant forall k: nat | k < 4 * j && Bit(s, k) :: !Blocked(grid, ox, oy, k)
      {
        var i := 0;
        while i < 4
          invariant 0 <= i <= 4
          invariant forall k: nat | k < 4 * j + i && Bit(s, k) :: !Blocked(grid, ox, oy, k)
        {
          hit := Probe(s, ox, oy, i, j);
          if hit { return; }
          i := i + 1;
        }
        j := j + 1;
      }
      hit := false;
    }

    method Probe(s: Box, ox: int, oy: int, i: nat, j: nat) returns (hit: bool)
      requires Synced() && i < 4 && j < 4
      ensures hit == (Bit(s, 4 * j + i) && Blocked(grid, ox, oy, 4 * j + i))
    {
      ghost var k := 4 * j + i;
      assert k / 4 == j && k % 4 == i;
      hit := false;
      if Bit(s, 4 * j + i) {
        var c0, r0 := ox + i, oy + j;
        if c0 < 0 || c0 >= W || r0 >= H { return true; }
        if r0 >= 0 && board[r0, c0] != 0 { return true; }
      }
    }

    // ---- Clearing lines ----

    /** Row `r` becomes a copy of the row above. */
    method CopyDown(r: nat)
      requires Synced() && 0 < r < 20
      modifies board, this`grid
      ensures Synced() && grid == old(grid)[r := old(grid)[r - 1]]
    {
      var c := 0;
      while c < 10
        invariant 0 <= c <= 10 && Synced() && grid == old(grid)[r := grid[r]]
        invariant forall k | 0 <= k < c :: grid[r][k] == old(grid)[r - 1][k]
      {
        Put(r, c, board[r - 1, c]);
        c := c + 1;
      }
      assert grid[r] == old(grid)[r - 1];
    }

    method EmptyOut(r: nat)
      requires Synced() && r < 20
      modifies board, this`grid
      ensures Synced() && grid == old(grid)[r := EMPTY_ROW]
    {
      var c := 0;
      while c < 10
        invariant 0 <= c <= 10 && Synced() && grid == old(grid)[r := grid[r]]
        invariant forall k | 0 <= k < c :: grid[r][k] == 0
      {
        Put(r, c, 0);
        c := c + 1;
      }
      assert grid[r] == EMPTY_ROW;
    }

    /** Removes row `r`: the rows above move down and an empty one enters. */
    method DropRow(r: nat)
      requires Synced() && r < 20
      modifies board, this`grid
      ensures Synced() && grid == Dropped(old(grid), r)
    {
      ghost var g := grid;
      var k := r;
      while k > 0
        invariant 0 <= k <= r && Synced()
        invariant grid == g[..k + 1] + g[k..r] + g[r + 1..]
      {
        CopyDown(k);
        k := k - 1;
        assert grid == g[..k + 1] + g[k..r] + g[r + 1..];
      }
      EmptyOut(0);
      assert grid == Dropped(g, r);
    }

    method IsFull(r: nat) returns (full: bool)
      requires Synced() && r < 20
      ensures full == Full(grid[r])
    {
      var c := 0;
      while c < 10
        invariant 0 <= c <= 10 && forall k | 0 <= k < c :: grid[r][k] != 0
      {
        if board[r, c] == 0 {
          assert grid[r][c] == 0;
          return false;
        }
        c := c + 1;
      }
      return true;
    }

    /** Removes row `r` if it is full, when `n` rows of `g` have been removed before. */
    method ClearAt(r: nat, ghost g: seq<Row>, ghost n: nat) returns (full: bool)
      requires Synced() && r < 20 && Reduced(grid, n, g)
      modifies board, this`grid
      ensures Synced() && full == Full(old(grid)[r])
      ensures !full ==> grid == old(grid)
      ensures full ==> n < 20 && Reduced(grid, n + 1, g)
      ensures full ==> forall k | r < k < 20 :: grid[k] == old(grid)[k]
    {
      full := IsFull(r);
      if full {
        DropOnce(grid, r, g, n);
        DropRow(r);
      }
    }

    /** Clears every full row, bottom up, looking at a row again after removing it. */
    method ClearLines()
      requires Synced()
      modifies this`lines, this`score, this`grid, board
      ensures Synced() && grid == Cleared(old(grid))
      ensures lines == old(lines) + 20 - |Open(old(grid))|
      ensures score == old(score) + 100 * (lines - old(lines))
    {
      ghost var g := grid;
      ghost var n: nat := 0;
      ReducedToSelf(g);
      var r := 19;
      while r >= 0
        invariant -1 <= r < 20 && Synced()
        invariant Reduced(grid, n, g)
        invariant forall k | r < k < 20 :: !Full(grid[k])
        invariant lines == old(lines) + n && score == old(score) + 100 * n
        decreases 20 - n, r
      {
        var full := ClearAt(r, g, n);
        if full {
          lines, score, n := lines + 1, score + 100, n + 1;
        } else {
          r := r - 1;
        }
      }
      ReducedIsCleared(grid, n, g);
    }

    // ---- Locking and spawning ----

    /** Writes the cells of the active piece that lie on the board. */
    method Place()
      requires Synced() && Typed()
      modifies board, this`grid
      ensures Synced() && grid == Placed(old(grid), Current(), x, y, piece + 1, 4 * |Current()|)
    {
      ghost var g := grid;
      var j := 0;
      while j < 4
        invariant 0 <= j <= 4 && Synced()
        invariant grid == Placed(g, Current(), x, y, piece + 1, 4 * j)
      {
        PlaceRow(j, g);
        j := j + 1;
      }
    }

    method PlaceRow(j: nat, ghost g: seq<Row>)
      requires Synced() && Typed() && j < 4 && IsGrid(g)
      requires grid == Placed(g, Current(), x, y, piece + 1, 4 * j)
      modifies board, this`grid
      ensures Synced() && grid == Placed(g, Current(), x, y, piece + 1, 4 * j + 4)
    {
      var i := 0;
      while i < 4
        invariant 0 <= i <= 4 && Synced()
        invariant grid == Placed(g, Current(), x, y, piece + 1, 4 * j + i)
      {
        PlaceCell(i, j, g);
        i := i + 1;
      }
    }

    method PlaceCell(i: nat, j: nat, ghost g: seq<Row>)
      requires Synced() && Typed() && i < 4 && j < 4 && IsGrid(g)
      requires grid == Placed(g, Current(), x, y, piece + 1, 4 * j + i)
      modifies board, this`grid
      ensures Synced() && grid == Placed(g, Current(), x, y, piece + 1, 4 * j + i + 1)
    {
      ghost var k := 4 * j + i;
      assert k / 4 == j && k % 4 == i;
      if Bit(Shape(piece, rotation), 4 * j + i) {
        var c0, r0 := x + i, y + j;
        if 0 <= r0 < H && 0 <= c0 < W { Put(r0, c0, piece + 1); }
      }
    }

    method Random() returns (v: nat)
      modifies this`seed
      ensures v == seed == Rand(old(seed))
    {
      seed := (seed * 1664525 + 1013904223) % MOD32;
      v := seed;
    }

    /** The next piece enters at the top; the game is over if it has no room. */
    method Spawn()
      requires Synced() && Typed() && !over
      modifies this`piece, this`next, this`rotation, this`x, this`y, this`over, this`seed
      ensures Typed() && View() == SpawnOf(old(View()))
      ensures over == Collides(grid, Current(), x, y)
    {
      var v := Random();
      piece, next, rotation, x, y := next, v % 7, 0, 3, 0;
      var hit := Collide(piece, rotation, x, y);
      if hit { over := true; }
    }

    /** The active piece becomes part of the board, full rows go, the next piece enters. */
    method Lock()
      requires Valid() && !over
      modifies this, board
      ensures Valid() && View() == LockOf(old(View()))
    {
      ghost var settled, q := LockSteps(View());
      Settle();
      assert View() == settled;
      Spawn();
      assert View() == q;
    }

    /** The piece is written to the board and full rows go. */
    method Settle()
      requires Valid() && !over
      modifies this`grid, this`lines, this`score, this`locked, board
      ensures Synced() && Balanced(grid, locked, lines, score) && locked == old(locked) + 1
      ensures grid == Locked(old(grid), Current(), x, y, piece + 1)
      ensures lines == old(lines) + LinesOf(old(grid), Current(), x, y, piece + 1)
    {
      SettledFacts(grid, Current(), x, y, piece + 1, locked, lines, score);
      Place();
      ClearLines();
      locked := locked + 1;
    }

    // ---- Inputs ----

    method Init(start: nat, now: nat)
      requires Synced() && start < MOD32 && now < MOD32
      modifies this, board
      ensures Valid() && View() == FreshOf(|grid|, start, now)
    {
      Blank(start, now);
      Spawn();
    }

    /** An empty board, counters at zero and the first random number drawn. */
    method Blank(start: nat, now: nat)
      requires Synced() && start < MOD32 && now < MOD32
      modifies this, board
      ensures Synced() && Typed() && View() == BlankOf(|grid|, start, now) && Balanced(grid, locked, lines, score)
    {
      EmptyBoard();
      piece, rotation, x, y, score, lines, over, locked := 0, 0, 0, 0, 0, 0, false, 0;
      seed, lastTick, next := start, now, 0;
      var v := Random();
      next := v % 7;
    }

    method EmptyBoard()
      requires Synced()
      modifies board, this`grid
      ensures Synced() && grid == Empties(|grid|) && Cells(grid) == 0 && NoFull(grid)
    {
      var r := 0;
      while r < 20
        invariant 0 <= r <= 20 && Synced() && forall k | 0 <= k < r :: grid[k] == EMPTY_ROW
      {
        EmptyOut(r);
        r := r + 1;
      }
      assert grid == Empties(|grid|);
      EmptyCells(|grid|);
      EmptyRowFacts();
    }

    /** Moves exactly when there is room. */
    method TryMove(dx: int)
      requires Valid() && !over
      modifies this`x
      ensures Valid() && View() == MoveOf(old(View()), dx)
    {
      var hit := Collide(piece, rotation, x + dx, y);
      if !hit { x := x + dx; }
    }

    /** Turns exactly when there is room. */
    method Rotate()
      requires Valid() && !over
      modifies this`rotation
      ensures Valid() && View() == TurnOf(old(View()))
    {
      var r := (rotation + 1) % 4;
      var hit := Collide(piece, r, x, y);
      if !hit { rotation := r; }
    }

    /** One row down, or locked if it rests. */
    method Fall()
      requires Valid() && !over
      modifies this, board
      ensures Valid() && View() == FallOf(old(View()))
    {
      ghost var q, rests := FallCases(View());
      var hit := Collide(piece, rotation, x, y + 1);
      assert hit == rests;
      if hit { Lock(); } else { Lower(); }
      assert View() == q;
    }

    /** One row down where there is room. */
    method Lower()
      requires Valid() && !Collides(grid, Current(), x, y + 1)
      modifies this`y
      ensures Valid() && View() == old(View()).(y := old(y) + 1)
    {
      y := y + 1;
    }

    /** Straight down to the landing row, then locked. */
    method HardDrop()
      requires Valid() && !over
      modifies this, board
      ensures Valid() && View() == DropOf(old(View()))
    {
      ghost var s := Current();
      Descend(s);
      Lock();
    }

    method Descend(ghost s: Box)
      requires Synced() && Typed() && s == Current() && !Collides(grid, s, x, y)
      modifies this`y
      ensures Typed() && !Collides(grid, s, x, y) && y == Landing(grid, s, x, old(y))
    {
      ghost var first, goal := y, Landing(grid, s, x, y);
      LandingRests(grid, s, x, y);
      var hit := Rests(s, first);
      while !hit
        invariant Synced() && Typed() && s == Current() && first <= y <= goal
        invariant hit == (y == goal)
        decreases goal - y
      {
        y := y + 1;
        hit := Rests(s, first);
      }
    }

    /** Whether the piece, on its way down from `first`, has reached its landing row. */
    method Rests(ghost s: Box, ghost first: nat) returns (hit: bool)
      requires Synced() && Typed() && s == Current() && !Collides(grid, s, x, first)
      requires first <= y <= Landing(grid, s, x, first)
      ensures hit == (y == Landing(grid, s, x, first))
    {
      LandingRests(grid, s, x, first);
      hit := Collide(piece, rotation, x, y + 1);
    }

    /** What each key does; when the game is over only a reset does anything. */
    method Press(key: Key, start: nat, now: nat)
      requires Valid() && start < MOD32 && now < MOD32
      modifies this, board
      ensures Valid() && View() == PressOf(old(View()), key, start, now)
    {
      match key
      case Reset => Init(start, now);
      case Left => if !over { TryMove(-1); }
      case Right => if !over { TryMove(1); }
      case Down => if !over { Fall(); }
      case Up => if !over { Rotate(); }
      case Drop => if !over { HardDrop(); }
      case Other =>
    }

    /** As many steps as are due, ending early if the game does. */
    method TickTo(now: nat)
      requires Valid() && now < MOD32
      modifies this, board
      ensures Valid() && View() == TickOf(old(View()), now)
    {
      if over { return; }
      var steps := Due(now);
      if steps > 0 { Advance(steps); }
    }

    /** The steps due at time `now`; none before forty ticks have passed. */
    method Due(now: nat) returns (steps: nat)
      requires Typed()
      ensures steps == StepsDue(lastTick, now)
    {
      var elapsed := (now - lastTick) % MOD32;
      if elapsed < 40 { return 0; }
      steps := elapsed / 40;
      if steps > 3 { steps := 3; }
    }

    method Advance(steps: nat)
      requires Valid()
      modifies this, board
      ensures Valid() && View() == AdvanceOf(old(View()), steps)
    {
      lastTick := (lastTick + steps * 40) % MOD32;
      FallMany(steps);
    }

    method FallMany(n: nat)
      requires Valid()
      modifies this, board
      ensures Valid() && View() == Falls(old(View()), n)
    {
      var steps := n;
      ghost var goal := Falls(View(), n);
      assert FallsTo(View(), n, goal);
      while steps > 0 && !over
        invariant Valid() && 0 <= steps && FallsTo(View(), steps, goal)
        decreases steps
      {
        FallTowards(steps, goal);
        steps := steps - 1;
      }
      FallsDone(View(), steps, goal);
    }

    /** One of the steps that lead to `goal`. */
    method FallTowards(ghost steps: nat, ghost goal: Play)
      requires Valid() && !over && steps > 0 && FallsTo(View(), steps, goal)
      modifies this, board
      ensures Valid() && FallsTo(View(), steps - 1, goal)
    {
      ghost var p := FallsNext(View(), steps, goal);
      Fall();
      assert View() == p;
    }

    method Take(i: Input, start: nat)
      requires Valid() && start < MOD32 && i.now < MOD32
      modifies this, board
      ensures Valid() && View() == InputOf(old(View()), i, start)
    {
      match i
      case Press(key, now) => Press(key, start, now);
      case Tick(now) => TickTo(now);
    }

    /** Any sequence of keys and ticks keeps the invariant and plays by the rules. */
    method Run(inputs: seq<Input>, start: nat)
      requires Valid() && start < MOD32 && forall i | i in inputs :: i.now < MOD32
      modifies this, board
      ensures Valid() && View() == Played(old(View()), inputs, start)
    {
      var k := 0;
      ghost var first := View();
      while k < |inputs|
        invariant 0 <= k <= |inputs| && Valid() && View() == Played(first, inputs[..k], start)
      {
        assert inputs[k] in inputs;
        PlayedNext(first, inputs, k, start);
        Take(inputs[k], start);
        k := k + 1;
      }
      assert inputs[..k] == inputs;
    }

    constructor (start: nat, now: nat)
      requires start < MOD32 && now < MOD32
      ensures Valid() && fresh(board) && View() == FreshOf(|grid|, start, now)
    {
      board := new nat[20, 10]((r, c) => 0);
      grid := Empties(20);
      new;
      Init(start, now);
    }
  }
}
