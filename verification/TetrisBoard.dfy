/** The falling-block board as a value: shapes, collision, placing a piece and clearing full rows. */
module TetrisBoard {
  import Sequences

  const W := 10
  const H := 20

  type Row = r: seq<nat> | |r| == 10 witness [0, 0, 0, 0, 0, 0, 0, 0, 0, 0]
  predicate IsGrid(g: seq<Row>) { |g| == 20 }

  // ---- Shapes ----

  function PickMask(rot: nat, a: bv16, b: bv16, c: bv16, d: bv16): bv16
    requires rot < 4
  {
    if rot == 0 then a else if rot == 1 then b else if rot == 2 then c else d
  }

  /** The kernel's table: each piece in its four rotations, as a 16-bit mask over a 4x4 box. */
  function Mask(piece: nat, rot: nat): bv16
    requires piece < 7 && rot < 4
  {
    match piece
    case 0 => PickMask(rot, 0x000F, 0x2222, 0x000F, 0x2222)
    case 1 => PickMask(rot, 0x0066, 0x0066, 0x0066, 0x0066)
    case 2 => PickMask(rot, 0x0027, 0x0262, 0x0072, 0x0232)
    case 3 => PickMask(rot, 0x0036, 0x0231, 0x0036, 0x0231)
    case 4 => PickMask(rot, 0x0063, 0x0132, 0x0063, 0x0132)
    case 5 => PickMask(rot, 0x0071, 0x0223, 0x0047, 0x0622)
    case _ => PickMask(rot, 0x0074, 0x0226, 0x0017, 0x0322)
  }

  /** Bit `k` of a mask: the cell in row k/4, column k%4 of the box. */
  predicate MaskBit(m: bv16, k: nat) {
    if k == 0 then m & 0x0001 != 0 else if k == 1 then m & 0x0002 != 0 else if k == 2 then m & 0x0004 != 0
    else if k == 3 then m & 0x0008 != 0 else if k == 4 then m & 0x0010 != 0 else if k == 5 then m & 0x0020 != 0
    else if k == 6 then m & 0x0040 != 0 else if k == 7 then m & 0x0080 != 0 else if k == 8 then m & 0x0100 != 0
    else if k == 9 then m & 0x0200 != 0 else if k == 10 then m & 0x0400 != 0 else if k == 11 then m & 0x0800 != 0
    else if k == 12 then m & 0x1000 != 0 else if k == 13 then m & 0x2000 != 0 else if k == 14 then m & 0x4000 != 0
    else k == 15 && m & 0x8000 != 0
  }

  /** The set bits of a 16-bit mask over a 4x4 box, ascending; bit k is row k/4, column k%4. */
  type Box = b: seq<nat> | |b| == 4 && b[0] < b[1] < b[2] < b[3] < 16 witness [0, 1, 2, 3]

  function Pick(rot: nat, a: Box, b: Box, c: Box, d: Box): Box
    requires rot < 4
  {
    if rot == 0 then a else if rot == 1 then b else if rot == 2 then c else d
  }

  /** Each piece in its four rotations. */
  function Shape(piece: nat, rot: nat): Box
    requires piece < 7 && rot < 4
  {
    match piece
    case 0 => Pick(rot, [0, 1, 2, 3], [1, 5, 9, 13], [0, 1, 2, 3], [1, 5, 9, 13])
    case 1 => Pick(rot, [1, 2, 5, 6], [1, 2, 5, 6], [1, 2, 5, 6], [1, 2, 5, 6])
    case 2 => Pick(rot, [0, 1, 2, 5], [1, 5, 6, 9], [1, 4, 5, 6], [1, 4, 5, 9])
    case 3 => Pick(rot, [1, 2, 4, 5], [0, 4, 5, 9], [1, 2, 4, 5], [0, 4, 5, 9])
    case 4 => Pick(rot, [0, 1, 5, 6], [1, 4, 5, 8], [0, 1, 5, 6], [1, 4, 5, 8])
    case 5 => Pick(rot, [0, 4, 5, 6], [0, 1, 5, 9], [0, 1, 2, 6], [1, 5, 9, 10])
    case _ => Pick(rot, [2, 4, 5, 6], [1, 2, 5, 9], [0, 1, 2, 4], [1, 5, 8, 9])
  }

  predicate Bit(s: Box, k: nat) {
    k == s[0] || k == s[1] || k == s[2] || k == s[3]
  }

  /** How many of the first `n` cells are set. */
  function Bits(s: Box, n: nat): nat {
    if n == 0 then 0 else Bits(s, n - 1) + if Bit(s, n - 1) then 1 else 0
  }

  /** The box lists exactly the set bits of the mask. */
  predicate Decodes(m: bv16, b: Box) {
    forall k: nat | k < 16 :: MaskBit(m, k) <==> Bit(b, k)
  }

  lemma Decoded1()
    ensures Decodes(0x000F, [0, 1, 2, 3])
    ensures Decodes(0x2222, [1, 5, 9, 13])
    ensures Decodes(0x0066, [1, 2, 5, 6])
    ensures Decodes(0x0027, [0, 1, 2, 5])
    ensures Decodes(0x0262, [1, 5, 6, 9])
    ensures Decodes(0x0072, [1, 4, 5, 6])
    ensures Decodes(0x0232, [1, 4, 5, 9])
  {
  }

  lemma Decoded2()
    ensures Decodes(0x0036, [1, 2, 4, 5])
    ensures Decodes(0x0231, [0, 4, 5, 9])
    ensures Decodes(0x0063, [0, 1, 5, 6])
    ensures Decodes(0x0132, [1, 4, 5, 8])
    ensures Decodes(0x0071, [0, 4, 5, 6])
    ensures Decodes(0x0223, [0, 1, 5, 9])
  {
  }

  lemma Decoded3()
    ensures Decodes(0x0047, [0, 1, 2, 6])
    ensures Decodes(0x0622, [1, 5, 9, 10])
    ensures Decodes(0x0074, [2, 4, 5, 6])
    ensures Decodes(0x0226, [1, 2, 5, 9])
    ensures Decodes(0x0017, [0, 1, 2, 4])
    ensures Decodes(0x0322, [1, 5, 8, 9])
  {
  }

  /** The shapes are the kernel's masks. */
  lemma ShapesDecodeMasks(piece: nat, rot: nat)
    requires piece < 7 && rot < 4
    ensures Decodes(Mask(piece, rot), Shape(piece, rot))
  {
    Decoded1();
    Decoded2();
    Decoded3();
  }

  function Below(a: nat, n: nat): nat { if a < n then 1 else 0 }

  /** Counting a box's cells. */
  lemma {:induction false} BitsAre(s: Box, n: nat)
    ensures Bits(s, n) == Below(s[0], n) + Below(s[1], n) + Below(s[2], n) + Below(s[3], n)
  {
    if n > 0 { BitsAre(s, n - 1); }
  }

  /** How many of the first `n` bits of a mask are set. */
  function MaskCells(m: bv16, n: nat): nat {
    if n == 0 then 0 else MaskCells(m, n - 1) + if MaskBit(m, n - 1) then 1 else 0
  }

  lemma {:induction false} MaskCellsAre(m: bv16, b: Box, n: nat)
    requires Decodes(m, b) && n <= 16
    ensures MaskCells(m, n) == Bits(b, n)
  {
    if n > 0 { MaskCellsAre(m, b, n - 1); }
  }

  /** Every piece in every rotation has four cells. */
  lemma FourCells(piece: nat, rot: nat, n: nat)
    requires piece < 7 && rot < 4 && n == 16
    ensures MaskCells(Mask(piece, rot), n) == 4
  {
    ShapesDecodeMasks(piece, rot);
    MaskCellsAre(Mask(piece, rot), Shape(piece, rot), n);
    BitsAre(Shape(piece, rot), n);
  }

  // ---- Collision and placement ----

  /** Cell `k` of the box at (x, y) is outside the board or already taken. Above the board nothing collides. */
  predicate Blocked(g: seq<Row>, x: int, y: int, k: nat)
    requires IsGrid(g)
  {
    var c0, r0 := x + k % 4, y + k / 4;
    c0 < 0 || c0 >= W || r0 >= H || (r0 >= 0 && g[r0][c0] != 0)
  }

  predicate Collides(g: seq<Row>, s: Box, x: int, y: int)
    requires IsGrid(g)
  {
    exists k: nat | k < 16 :: Bit(s, k) && Blocked(g, x, y, k)
  }

  /** Beside or below the board, or on a taken cell; above the board nothing is in the way. */
  predicate Taken(g: seq<Row>, r: int, c: int)
    requires IsGrid(g)
  {
    c < 0 || c > 9 || r > 19 || (r >= 0 && g[r][c] != 0)
  }

  /** A piece collides exactly if one of its cells is taken. */
  lemma CollidesMeans(g: seq<Row>, s: Box, x: int, y: int)
    requires IsGrid(g)
    ensures Collides(g, s, x, y) <==> exists r, c :: Covers(s, x, y, 16, r, c) && Taken(g, r, c)
  {
    if Collides(g, s, x, y) {
      var k: nat :| k < 16 && Bit(s, k) && Blocked(g, x, y, k);
      var r, c := TakenBy(g, s, x, y, k);
    }
    if r, c :| Covers(s, x, y, 16, r, c) && Taken(g, r, c) { CollidesBy(g, s, x, y, r, c, 4 * (r - y) + (c - x)); }
  }

  lemma TakenBy(g: seq<Row>, s: Box, x: int, y: int, k: nat) returns (r: int, c: int)
    requires IsGrid(g) && k < 16 && Bit(s, k) && Blocked(g, x, y, k)
    ensures Covers(s, x, y, 16, r, c) && Taken(g, r, c)
  {
    r, c := y + k / 4, x + k % 4;
    assert k == 4 * (r - y) + (c - x);
  }

  lemma CollidesBy(g: seq<Row>, s: Box, x: int, y: int, r: int, c: int, k: nat)
    requires IsGrid(g) && Covers(s, x, y, 16, r, c) && Taken(g, r, c) && k == 4 * (r - y) + (c - x)
    ensures Collides(g, s, x, y)
  {
    assert k / 4 == r - y && k % 4 == c - x;
    assert Bit(s, k) && Blocked(g, x, y, k);
  }

  /** A piece below the bottom row collides, so every fall ends. */
  lemma BottomCollides(g: seq<Row>, s: Box, x: int, y: int)
    requires IsGrid(g) && y >= H
    ensures Collides(g, s, x, y)
  {
    var k := s[0];
    assert Bit(s, k) && Blocked(g, x, y, k);
  }

  function Put(g: seq<Row>, r: nat, c: nat, v: nat): (g': seq<Row>)
    requires IsGrid(g) && r < H && c < W
    ensures IsGrid(g')
  {
    g[r := g[r][c := v]]
  }

  /** The first `n` cells of the box written, those that lie on the board. */
  function Placed(g: seq<Row>, s: Box, x: int, y: int, v: nat, n: nat): (g': seq<Row>)
    requires IsGrid(g) && n <= 16
    ensures IsGrid(g')
  {
    if n == 0 then g
    else
      var p := Placed(g, s, x, y, v, n - 1);
      var c0, r0 := x + (n - 1) % 4, y + (n - 1) / 4;
      if Bit(s, n - 1) && 0 <= r0 < H && 0 <= c0 < W then Put(p, r0, c0, v) else p
  }

  /** Position (r, c) is one of the first `n` cells of the piece. */
  predicate Covers(s: Box, x: int, y: int, n: nat, r: int, c: int) {
    && 0 <= r - y < 4 && 0 <= c - x < 4
    && 4 * (r - y) + (c - x) < n <= 16 && Bit(s, 4 * (r - y) + (c - x))
  }

  lemma CoversStep(s: Box, x: int, y: int, n: nat, r: int, c: int)
    requires 0 < n <= 16
    ensures Covers(s, x, y, n, r, c) <==>
      Covers(s, x, y, n - 1, r, c) || (Bit(s, n - 1) && r == y + (n - 1) / 4 && c == x + (n - 1) % 4)
  {
  }

  /** A placed piece shows its value on exactly its own cells. */
  lemma {:induction false} PlacedAt(g: seq<Row>, s: Box, x: int, y: int, v: nat, n: nat, r: nat, c: nat)
    requires IsGrid(g) && n <= 16 && r < H && c < W
    ensures Placed(g, s, x, y, v, n)[r][c] == if Covers(s, x, y, n, r, c) then v else g[r][c]
  {
    if n > 0 {
      PlacedAt(g, s, x, y, v, n - 1, r, c);
      CoversStep(s, x, y, n, r, c);
    }
  }

  // ---- Counting cells ----

  function RowCells(row: seq<nat>): nat {
    if row == [] then 0 else RowCells(row[..|row| - 1]) + if row[|row| - 1] != 0 then 1 else 0
  }

  function Cells(g: seq<Row>): nat {
    if g == [] then 0 else Cells(g[..|g| - 1]) + RowCells(g[|g| - 1])
  }

  lemma {:induction false} RowCellsSet(row: seq<nat>, c: nat, v: nat)
    requires c < |row|
    ensures RowCells(row[c := v]) == RowCells(row) + (if v != 0 then 1 else 0) - (if row[c] != 0 then 1 else 0)
  {
    var n := |row| - 1;
    if c < n {
      RowCellsSet(row[..n], c, v);
      assert row[c := v][..n] == row[..n][c := v];
    } else {
      assert row[c := v][..n] == row[..n];
    }
  }

  lemma {:induction false} CellsSet(g: seq<Row>, r: nat, row: Row)
    requires r < |g|
    ensures Cells(g[r := row]) == Cells(g) + RowCells(row) - RowCells(g[r])
  {
    var n := |g| - 1;
    if r < n {
      CellsSet(g[..n], r, row);
      assert g[r := row][..n] == g[..n][r := row];
    } else {
      assert g[r := row][..n] == g[..n];
    }
  }

  lemma {:induction false} CellsConcat(a: seq<Row>, b: seq<Row>)
    ensures Cells(a + b) == Cells(a) + Cells(b)
  {
    if b == [] {
      assert a + b == a;
    } else {
      var n := |b| - 1;
      CellsConcat(a, b[..n]);
      assert (a + b)[..|a + b| - 1] == a + b[..n];
    }
  }

  /** A piece that does not collide lands whole, on empty cells. */
  lemma {:induction false} PlacedCells(g: seq<Row>, s: Box, x: int, y: int, v: nat, n: nat)
    requires IsGrid(g) && n <= 16 && v != 0 && y >= 0 && !Collides(g, s, x, y)
    ensures Cells(Placed(g, s, x, y, v, n)) == Cells(g) + Bits(s, n)
  {
    if n > 0 {
      PlacedCells(g, s, x, y, v, n - 1);
      if Bit(s, n - 1) {
        var k := n - 1;
        var c0, r0 := x + k % 4, y + k / 4;
        assert !Blocked(g, x, y, k);
        var p := Placed(g, s, x, y, v, k);
        PlacedAt(g, s, x, y, v, k, r0, c0);
        assert 4 * (r0 - y) + (c0 - x) == k;
        RowCellsSet(p[r0], c0, v);
        CellsSet(p, r0, p[r0][c0 := v]);
      }
    }
  }

  // ---- Clearing rows ----

  predicate Full(row: Row) { forall c | 0 <= c < 10 :: row[c] != 0 }

  const EMPTY_ROW: Row := [0, 0, 0, 0, 0, 0, 0, 0, 0, 0]

  function Empties(n: nat): (g: seq<Row>)
    ensures |g| == n && forall i | 0 <= i < n :: g[i] == EMPTY_ROW
  {
    seq(n, _ => EMPTY_ROW)
  }

  /** The rows that are not full, in order. */
  function Open(g: seq<Row>): (r: seq<Row>)
    ensures |r| <= |g| && forall i | 0 <= i < |r| :: !Full(r[i])
  {
    if g == [] then [] else Open(g[..|g| - 1]) + if Full(g[|g| - 1]) then [] else [g[|g| - 1]]
  }

  lemma {:induction false} OpenConcat(a: seq<Row>, b: seq<Row>)
    ensures Open(a + b) == Open(a) + Open(b)
  {
    if b == [] {
      assert a + b == a;
    } else {
      var n := |b| - 1;
      OpenConcat(a, b[..n]);
      assert (a + b)[..|a + b| - 1] == a + b[..n];
    }
  }

  lemma {:induction false} OpenAll(g: seq<Row>)
    requires forall i | 0 <= i < |g| :: !Full(g[i])
    ensures Open(g) == g
  {
    if g != [] {
      OpenAll(g[..|g| - 1]);
      assert g == g[..|g| - 1] + [g[|g| - 1]];
    }
  }

  /** The board after all full rows have gone: the others in order, below empty rows. */
  function Cleared(g: seq<Row>): (g': seq<Row>)
    ensures |g'| == |g|
  {
    Empties(|g| - |Open(g)|) + Open(g)
  }

  lemma FullRowCells(row: Row)
    requires Full(row)
    ensures RowCells(row) == 10
  {
    RowCellsUpTo(row, 10);
    assert row[..10] == row;
  }

  lemma {:induction false} RowCellsUpTo(row: Row, n: nat)
    requires n <= 10 && forall c | 0 <= c < n :: row[c] != 0
    ensures RowCells(row[..n]) == n
  {
    if n > 0 {
      RowCellsUpTo(row, n - 1);
      assert row[..n][..n - 1] == row[..n - 1];
    }
  }

  /** Dropping row `y` and pushing an empty row in at the top. */
  function Dropped(g: seq<Row>, y: nat): (g': seq<Row>)
    requires y < |g|
    ensures |g'| == |g|
  {
    [EMPTY_ROW] + g[..y] + g[y + 1..]
  }

  lemma SplitRows(g: seq<Row>, y: nat)
    requires y < |g|
    ensures g == g[..y] + [g[y]] + g[y + 1..]
  {
  }

  lemma OneRow(row: Row)
    ensures Open([row]) == if Full(row) then [] else [row]
    ensures Cells([row]) == RowCells(row)
  {
    assert [row][..0] == [];
  }

  lemma EmptyRowFacts()
    ensures !Full(EMPTY_ROW) && RowCells(EMPTY_ROW) == 0
  {
    var row := EMPTY_ROW;
    assert row[0] == 0;
    NoCells(row, 10);
    assert row[..10] == row;
  }

  lemma {:induction false} NoCells(row: Row, n: nat)
    requires n <= 10 && forall c | 0 <= c < n :: row[c] == 0
    ensures RowCells(row[..n]) == 0
  {
    if n > 0 {
      NoCells(row, n - 1);
      assert row[..n][..n - 1] == row[..n - 1];
    }
  }

  lemma {:induction false} DroppedOpen(g: seq<Row>, y: nat)
    requires y < |g| && Full(g[y])
    ensures Open(Dropped(g, y)) == [EMPTY_ROW] + Open(g)
  {
    SplitRows(g, y);
    FullRowOpens(g[..y], g[y], g[y + 1..]);
    EmptyRowOpens(g[..y], g[y + 1..]);
  }

  lemma {:induction false} EmptyRowOpens(a: seq<Row>, b: seq<Row>)
    ensures Open([EMPTY_ROW] + a + b) == [EMPTY_ROW] + (Open(a) + Open(b))
  {
    OpenConcat3([EMPTY_ROW], a, b);
    OneRow(EMPTY_ROW);
    EmptyRowFacts();
    Sequences.Regroup([EMPTY_ROW], Open(a), Open(b));
  }

  lemma {:induction false} FullRowOpens(a: seq<Row>, row: Row, b: seq<Row>)
    requires Full(row)
    ensures Open(a + [row] + b) == Open(a) + Open(b)
  {
    OpenConcat3(a, [row], b);
    OneRow(row);
    assert Open(a) + [] == Open(a);
  }

  lemma {:induction false} OpenConcat3(a: seq<Row>, b: seq<Row>, c: seq<Row>)
    ensures Open(a + b + c) == Open(a) + Open(b) + Open(c)
  {
    OpenConcat(a + b, c);
    OpenConcat(a, b);
  }

  /** Clearing removes ten cells for every full row. */
  lemma {:induction false} ClearedCells(g: seq<Row>)
    ensures Cells(Cleared(g)) == Cells(Open(g)) == Cells(g) - 10 * (|g| - |Open(g)|)
  {
    OpenCells(g);
    CellsConcat(Empties(|g| - |Open(g)|), Open(g));
    EmptyCells(|g| - |Open(g)|);
  }

  lemma {:induction false} OpenCells(g: seq<Row>)
    ensures Cells(Open(g)) == Cells(g) - 10 * (|g| - |Open(g)|)
  {
    if g != [] {
      var n := |g| - 1;
      OpenCells(g[..n]);
      if Full(g[n]) {
        FullRowCells(g[n]);
        assert Open(g) == Open(g[..n]);
      } else {
        CellsConcat(Open(g[..n]), [g[n]]);
        OneRow(g[n]);
      }
    }
  }

  lemma {:induction false} EmptyCells(n: nat)
    ensures Cells(Empties(n)) == 0
  {
    if n > 0 {
      EmptyCells(n - 1);
      assert Empties(n)[..n - 1] == Empties(n - 1);
      EmptyRowFacts();
    }
  }
}
