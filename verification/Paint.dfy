/** The paint canvas: queue flood fill over a 32x18 grid, with one-step undo. */
module Paint {
  /** Positions are numbered row by row: 18 rows of 32. */
  predicate OnCanvas(p: int) { 0 <= p < 576 }

  /** The position reached from `p` in direction `d`: left, right, up, down. */
  function Step(p: int, d: nat): int {
    if d == 0 then p - 1 else if d == 1 then p + 1 else if d == 2 then p - 32 else p + 32
  }

  /** Direction `d` does not leave the canvas at `p`. */
  predicate Inside(p: int, d: nat) {
    if d == 0 then p % 32 != 0 else if d == 1 then p % 32 + 1 != 32 else if d == 2 then p / 32 != 0 else p / 32 + 1 != 18
  }

  predicate Adjacent(p: int, q: int) {
    OnCanvas(p) && exists d: nat | d < 4 :: Inside(p, d) && q == Step(p, d)
  }

  /** Adjacency is between cells that share a side: same row or same column, one apart. */
  lemma AdjacentMeans(p: int, q: int)
    requires OnCanvas(p) && OnCanvas(q)
    ensures Adjacent(p, q) <==>
      (p / 32 == q / 32 && (p % 32 == q % 32 + 1 || q % 32 == p % 32 + 1))
      || (p % 32 == q % 32 && (p / 32 == q / 32 + 1 || q / 32 == p / 32 + 1))
  {
    var x, y, x', y' := p % 32, p / 32, q % 32, q / 32;
    assert p == 32 * y + x && q == 32 * y' + x';
    if y == y' && x == x' + 1 { assert Inside(p, 0) && q == Step(p, 0); }
    if y == y' && x' == x + 1 { assert Inside(p, 1) && q == Step(p, 1); }
    if x == x' && y == y' + 1 { assert Inside(p, 2) && q == Step(p, 2); }
    if x == x' && y' == y + 1 { assert Inside(p, 3) && q == Step(p, 3); }
  }

  lemma StepStays(p: int, d: nat)
    requires OnCanvas(p) && d < 4 && Inside(p, d)
    ensures OnCanvas(Step(p, d)) && Adjacent(p, Step(p, d))
  {
  }

  /** A walk over cells that all have the colour `c`. */
  predicate Walk(g: seq<nat>, c: nat, w: seq<int>)
    requires |g| == 576
  {
    && |w| > 0 && (forall i | 0 <= i < |w| :: OnCanvas(w[i]) && g[w[i]] == c)
    && forall i | 0 < i < |w| :: Adjacent(w[i - 1], w[i])
  }

  predicate WalkTo(g: seq<nat>, c: nat, w: seq<int>, a: int, b: int)
    requires |g| == 576
  {
    Walk(g, c, w) && w[0] == a && w[|w| - 1] == b
  }

  /** `b` lies in the 4-connected component of colour `c` around `a`. */
  ghost predicate Connected(g: seq<nat>, c: nat, a: int, b: int)
    requires |g| == 576
  {
    exists w :: WalkTo(g, c, w, a, b)
  }

  lemma ConnectedSelf(g: seq<nat>, a: int)
    requires |g| == 576 && OnCanvas(a)
    ensures Connected(g, g[a], a, a)
  {
    assert WalkTo(g, g[a], [a], a, a);
  }

  lemma ConnectedStep(g: seq<nat>, c: nat, a: int, b: int, q: int)
    requires |g| == 576 && Connected(g, c, a, b) && Adjacent(b, q) && OnCanvas(q) && g[q] == c
    ensures Connected(g, c, a, q)
  {
    var w :| WalkTo(g, c, w, a, b);
    assert WalkTo(g, c, w + [q], a, q);
  }

  /** A set of cells closed under same-colour steps holds every cell a walk from it reaches. */
  lemma {:induction false} ClosedHolds(g: seq<nat>, c: nat, s: seq<int>, w: seq<int>, n: nat)
    requires |g| == 576 && Walk(g, c, w) && w[0] in s && n < |w|
    requires forall p, q | p in s && Adjacent(p, q) && OnCanvas(q) && g[q] == c :: q in s
    ensures w[n] in s
  {
    if n > 0 { ClosedHolds(g, c, s, w, n - 1); }
  }

  /** Distinct positions on the canvas. */
  predicate Distinct(s: seq<int>) {
    (forall i | 0 <= i < |s| :: OnCanvas(s[i])) && forall i, j | 0 <= i < j < |s| :: s[i] != s[j]
  }

  lemma {:induction false} Pigeons(s: seq<int>, bound: nat)
    requires forall i | 0 <= i < |s| :: 0 <= s[i] < bound
    requires forall i, j | 0 <= i < j < |s| :: s[i] != s[j]
    ensures |s| <= bound
  {
    assert s != [] ==> 0 <= s[0] < bound;
    if bound > 0 {
      var top := bound - 1;
      if i :| 0 <= i < |s| && s[i] == top {
        var rest := s[..i] + s[i + 1..];
        assert forall k | 0 <= k < |rest| :: rest[k] == if k < i then s[k] else s[k + 1];
        Pigeons(rest, top);
      } else {
        Pigeons(s, top);
      }
    }
  }

  /** `g` with the cells of `s` set to `v`. */
  predicate Painted(g: seq<nat>, s: seq<int>, v: nat, g': seq<nat>) {
    |g| == |g'| == 576 && forall p | 0 <= p < 576 :: g'[p] == if p in s then v else g[p]
  }

  /** Every cell of the queue is connected to the start. */
  ghost predicate Reached(g: seq<nat>, c: nat, a: int, s: seq<int>)
    requires |g| == 576
  {
    forall p | p in s :: Connected(g, c, a, p)
  }

  /** The first `n` cells of the queue have had all their neighbours of the colour queued. */
  predicate Expanded(g: seq<nat>, c: nat, s: seq<int>, n: nat)
    requires |g| == 576 && n <= |s|
  {
    forall i, d | 0 <= i < n && 0 <= d < 4 :: ExpandedAt(g, c, s, s[i], d)
  }

  predicate ExpandedAt(g: seq<nat>, c: nat, s: seq<int>, p: int, d: nat)
    requires |g| == 576
  {
    Inside(p, d) && OnCanvas(Step(p, d)) && g[Step(p, d)] == c ==> Step(p, d) in s
  }

  predicate ExpandedUpTo(g: seq<nat>, c: nat, s: seq<int>, p: int, n: nat)
    requires |g| == 576
  {
    forall d | 0 <= d < n :: ExpandedAt(g, c, s, p, d)
  }

  /** A fully expanded queue is exactly the component. */
  lemma {:induction false} ExpandedIsComponent(g: seq<nat>, c: nat, a: int, s: seq<int>)
    requires |g| == 576 && a in s && Reached(g, c, a, s) && Expanded(g, c, s, |s|)
    ensures forall p :: p in s <==> Connected(g, c, a, p)
  {
    forall p, q | p in s && Adjacent(p, q) && OnCanvas(q) && g[q] == c ensures q in s {
      var i :| 0 <= i < |s| && s[i] == p;
      var d: nat :| d < 4 && Inside(p, d) && q == Step(p, d);
      assert ExpandedAt(g, c, s, s[i], d);
    }
    forall p | Connected(g, c, a, p) ensures p in s {
      var w :| WalkTo(g, c, w, a, p);
      ClosedHolds(g, c, s, w, |w| - 1);
    }
  }

  class Canvas {
    const pixels: array<nat>
    const undo: array<nat>
    const queue: array<int>
    var undoValid: bool
    var color: nat
    var cursor: nat

    ghost predicate Valid()
      reads this
    {
      && pixels.Length == undo.Length == queue.Length == 576 && cursor < 576
      && pixels != undo
    }

    constructor ()
      ensures Valid() && fresh(pixels) && fresh(undo) && fresh(queue) && !undoValid && color == 1
      ensures forall p | 0 <= p < 576 :: pixels[p] == 0
    {
      pixels, undo, queue := new nat[576](_ => 0), new nat[576](_ => 0), new int[576](_ => 0);
      undoValid, color, cursor := false, 1, 0;
    }

    method Snapshot()
      requires Valid()
      modifies undo, this`undoValid
      ensures undo[..] == pixels[..] && undoValid
    {
      Copy(pixels, undo);
      undoValid := true;
    }

    method Copy(from: array<nat>, to: array<nat>)
      requires from.Length == to.Length && from != to
      modifies to
      ensures to[..] == from[..]
    {
      var i := 0;
      while i < from.Length
        invariant 0 <= i <= from.Length && to[..i] == from[..i]
      {
        to[i] := from[i];
        i := i + 1;
      }
    }

    /** Restores the last snapshot, once. */
    method Undo()
      requires Valid()
      modifies pixels, this`undoValid
      ensures !undoValid
      ensures pixels[..] == if old(undoValid) then undo[..] else old(pixels[..])
    {
      if !undoValid { return; }
      Copy(undo, pixels);
      undoValid := false;
    }

    /** What holds while filling the component of colour `c` around `a` on canvas `g` with `v`. */
    ghost predicate Filling(g: seq<nat>, c: nat, v: nat, a: int, tail: nat)
      reads this, pixels, queue
    {
      && Valid() && tail <= 576 && |g| == 576 && c != v
      && Distinct(queue[..tail]) && a in queue[..tail] && Reached(g, c, a, queue[..tail])
      && (forall p | p in queue[..tail] :: g[p] == c)
      && Painted(g, queue[..tail], v, pixels[..])
    }

    /** Queues and paints a neighbour that still has the old colour; the queue never overflows. */
    method Visit(p: int, d: nat, ghost g: seq<nat>, c: nat, v: nat, ghost a: int, tail: nat) returns (tail': nat)
      requires Filling(g, c, v, a, tail) && p in queue[..tail] && d < 4
      modifies pixels, queue
      ensures Filling(g, c, v, a, tail') && tail <= tail' && queue[..tail] == old(queue[..tail])
      ensures ExpandedAt(g, c, queue[..tail'], p, d)
    {
      tail' := tail;
      if !Inside(p, d) { return; }
      var q := Step(p, d);
      StepStays(p, d);
      if pixels[q] == c {
        ghost var s := queue[..tail];
        EnqueueFacts(g, c, v, a, s, p, q, pixels[..]);
        pixels[q] := v;
        if tail < 576 {
          queue[tail] := q;
          tail' := tail + 1;
        }
        assert queue[..tail'] == s + [q];
        assert pixels[..] == old(pixels[..])[q := v];
      }
    }

    /** All four neighbours of the queue's next cell. */
    method Expand(head: nat, ghost g: seq<nat>, c: nat, v: nat, ghost a: int, tail: nat) returns (tail': nat)
      requires Filling(g, c, v, a, tail) && head < tail && Expanded(g, c, queue[..tail], head)
      modifies pixels, queue
      ensures Filling(g, c, v, a, tail') && tail <= tail'
      ensures Expanded(g, c, queue[..tail'], head + 1)
    {
      tail' := tail;
      var p := queue[head];
      ghost var s := queue[..tail];
      var d := 0;
      while d < 4
        invariant 0 <= d <= 4 && Filling(g, c, v, a, tail')
        invariant s <= queue[..tail'] && ExpandedUpTo(g, c, queue[..tail'], p, d)
      {
        tail' := VisitNext(p, d, g, c, v, a, tail', s);
        d := d + 1;
      }
      ExpandedGrows(g, c, s, queue[..tail'], head);
    }

    /** The next neighbour of `p`, when those before it are done and `s` is a prefix of the queue holding `p`. */
    method VisitNext(p: int, d: nat, ghost g: seq<nat>, c: nat, v: nat, ghost a: int, tail: nat, ghost s: seq<int>) returns (tail': nat)
      requires Filling(g, c, v, a, tail) && d < 4 && s <= queue[..tail] && p in s
      requires ExpandedUpTo(g, c, queue[..tail], p, d)
      modifies pixels, queue
      ensures Filling(g, c, v, a, tail') && tail <= tail' && s <= queue[..tail']
      ensures ExpandedUpTo(g, c, queue[..tail'], p, d + 1)
    {
      assert p in queue[..tail];
      tail' := Visit(p, d, g, c, v, a, tail);
      assert queue[..tail'][..tail] == old(queue[..tail]);
      forall k | 0 <= k < d ensures ExpandedAt(g, c, queue[..tail'], p, k) {
        assert ExpandedAt(g, c, old(queue[..tail]), p, k);
      }
    }

    /** Recolours the component of the cursor's colour around the cursor; a snapshot is kept for undo. */
    method Fill()
      requires Valid()
      modifies pixels, undo, queue, this`undoValid
      ensures Valid()
      ensures var g, a := old(pixels[..]), cursor;
        if g[a] == color then
          pixels[..] == g && undo[..] == old(undo[..]) && undoValid == old(undoValid)
        else
          undo[..] == g && undoValid
          && forall p | 0 <= p < 576 :: Connected(g, g[a], a, p) ==> pixels[p] == color
      ensures var g, a := old(pixels[..]), cursor;
        forall p | 0 <= p < 576 :: !Connected(g, g[a], a, p) ==> pixels[p] == g[p]
    {
      var c, v := pixels[cursor], color;
      if c == v { return; }
      ghost var g := pixels[..];
      Snapshot();
      assert undo[..] == g;
      Flood(c, v, g);
    }

    /** Undo after a fill that painted gives back the exact canvas. */
    method FillThenUndo()
      requires Valid() && pixels[cursor] != color
      modifies pixels, undo, queue, this`undoValid
      ensures pixels[..] == old(pixels[..]) && !undoValid
    {
      Fill();
      Undo();
    }

    method Flood(c: nat, v: nat, ghost g: seq<nat>)
      requires Valid() && c != v && g == pixels[..] && g[cursor] == c
      modifies pixels, queue
      ensures |g| == 576 && forall p | 0 <= p < 576 :: pixels[p] == if Connected(g, c, cursor, p) then v else g[p]
    {
      var head, tail := 0, 1;
      queue[0] := cursor;
      pixels[cursor] := v;
      assert queue[..1] == [cursor];
      ConnectedSelf(g, cursor);
      while head < tail
        invariant 0 <= head <= tail && Filling(g, c, v, cursor, tail)
        invariant Expanded(g, c, queue[..tail], head)
        decreases 576 - head
      {
        tail := Expand(head, g, c, v, cursor, tail);
        head := head + 1;
      }
      ExpandedIsComponent(g, c, cursor, queue[..tail]);
    }
  }

  /** Expansion survives later additions to the queue. */
  lemma {:induction false} ExpandedGrows(g: seq<nat>, c: nat, s: seq<int>, s': seq<int>, n: nat)
    requires |g| == 576 && n < |s| <= |s'| && s <= s' && Expanded(g, c, s, n)
    requires ExpandedUpTo(g, c, s', s[n], 4)
    ensures Expanded(g, c, s', n + 1)
  {
    forall i, d | 0 <= i < n + 1 && 0 <= d < 4 ensures ExpandedAt(g, c, s', s'[i], d) {
      assert s'[i] == s[i];
      if i < n { assert ExpandedAt(g, c, s, s[i], d); }
    }
  }

  lemma {:induction false} EnqueueFacts(g: seq<nat>, c: nat, v: nat, a: int, s: seq<int>, p: int, q: int, now: seq<nat>)
    requires |g| == 576 && c != v && Distinct(s) && Reached(g, c, a, s) && Painted(g, s, v, now)
    requires p in s && Adjacent(p, q) && OnCanvas(q) && now[q] == c
    ensures g[q] == c && |s| < 576 && Distinct(s + [q]) && Reached(g, c, a, s + [q])
    ensures Painted(g, s + [q], v, now[q := v])
  {
    assert q !in s;
    ConnectedStep(g, c, a, p, q);
    Pigeons(s + [q], 576);
  }
}
