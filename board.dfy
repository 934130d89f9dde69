/**
 * The playing field: a width-by-height grid of cells, the collision test,
 * piece placement, line clearing and the vertical drop projection.
 */
module Boards {
  import opened Wrappers
  import opened Tetrominoes

  /** One grid cell, `{filled, color}`; an empty cell has colour `null`. */
  datatype Cell = Cell(filled: bool, color: Option<string>)

  const EmptyCell := Cell(false, None)

  type Row = seq<Cell>

  /** Rows top to bottom; grid[y][x] is column x of row y. */
  type Grid = seq<Row>

  predicate IsGrid(g: Grid, w: int, h: int)
  {
    |g| == h && forall y :: 0 <= y < |g| ==> |g[y]| == w
  }

  /** Cell (x, y) exists in g and holds no block. */
  predicate Free(g: Grid, x: int, y: int)
  {
    0 <= y < |g| && 0 <= x < |g[y]| && !g[y][x].filled
  }

  /** Every block of s offset by (x, y) lands on a free cell of g. */
  ghost predicate AdmitsAt(g: Grid, s: Shape, x: int, y: int)
  {
    forall r, c :: Filled(s, r, c) ==> Free(g, x + c, y + r)
  }

  /** No block of s offset by y is above row 0. */
  ghost predicate BelowTop(s: Shape, y: int)
  {
    forall r, c :: Filled(s, r, c) ==> 0 <= y + r
  }

  predicate AllEmpty(g: Grid)
  {
    forall y, x :: 0 <= y < |g| && 0 <= x < |g[y]| ==> g[y][x] == EmptyCell
  }

  /** `row.every(cell => cell.filled)`: a row of width 0 counts as full. */
  predicate RowFull(row: Row)
  {
    forall x :: 0 <= x < |row| ==> row[x].filled
  }

  predicate NoFullRow(g: Grid)
  {
    forall y :: 0 <= y < |g| ==> !RowFull(g[y])
  }

  function EmptyRow(w: nat): Row
  {
    seq(w, _ => EmptyCell)
  }

  function BlankRows(k: nat, w: nat): Grid
  {
    seq(k, _ => EmptyRow(w))
  }

  /** The number of full rows. */
  function FullCount(g: Grid): nat
  {
    if g == [] then 0 else (if RowFull(g[0]) then 1 else 0) + FullCount(g[1..])
  }

  /** The rows that are not full, in their original order. */
  function Survivors(g: Grid): Grid
  {
    if g == [] then [] else (if RowFull(g[0]) then [] else [g[0]]) + Survivors(g[1..])
  }

  /** What clearing full rows should leave: one blank row on top for every full
      row removed, then the remaining rows in their original order. */
  function Cleared(g: Grid, w: nat): Grid
  {
    BlankRows(FullCount(g), w) + Survivors(g)
  }

  /** Board cell (cx, cy) is under a block of shape s placed at (x, y). */
  predicate Covers(s: Shape, x: int, y: int, cx: int, cy: int)
  {
    Filled(s, cy - y, cx - x)
  }

  /** Matrix entry (r', c') comes before (r, c) in row-major order. */
  predicate Before(r': int, c': int, r: int, c: int)
  {
    r' < r || (r' == r && c' < c)
  }

  /** The grid after the blocks of s at (x, y) that come before matrix entry (r, c)
      in row-major order have been written in colour color. */
  function PartialStamp(g: Grid, s: Shape, x: int, y: int, color: string, r: int, c: int): Grid
  {
    seq(|g|, cy requires 0 <= cy < |g| =>
      seq(|g[cy]|, cx requires 0 <= cx < |g[cy]| =>
        if Covers(s, x, y, cx, cy) && Before(cy - y, cx - x, r, c) then Cell(true, Some(color)) else g[cy][cx]))
  }

  /** The grid after every block of s at (x, y) has been written in colour color. */
  function Stamp(g: Grid, s: Shape, x: int, y: int, color: string): Grid
  {
    PartialStamp(g, s, x, y, color, |s|, 0)
  }

  lemma EmptyRowNotFull(w: nat)
    requires w > 0
    ensures !RowFull(EmptyRow(w))
  {
    assert !EmptyRow(w)[0].filled;
  }

  /** The full rows and the survivors partition the rows; survivors are rows of g that are not full. */
  lemma {:induction false} SurvivorsFacts(g: Grid)
    ensures |Survivors(g)| + FullCount(g) == |g|
    ensures forall i :: 0 <= i < |Survivors(g)| ==> !RowFull(Survivors(g)[i]) && Survivors(g)[i] in g
  {
    if g != [] {
      SurvivorsFacts(g[1..]);
      var sv := Survivors(g);
      forall i | 0 <= i < |sv|
        ensures !RowFull(sv[i]) && sv[i] in g
      {
        if !RowFull(g[0]) && i == 0 {
          assert sv[0] == g[0];
        } else {
          var k := if RowFull(g[0]) then i else i - 1;
          assert sv[i] == Survivors(g[1..])[k];
          assert Survivors(g[1..])[k] in g[1..];
        }
      }
    }
  }

  /** Clearing keeps the grid's dimensions. */
  lemma ClearedDims(g: Grid, w: nat, h: nat)
    requires IsGrid(g, w, h)
    ensures IsGrid(Cleared(g, w), w, h)
  {
    SurvivorsFacts(g);
    var c := Cleared(g, w);
    forall y | 0 <= y < |c|
      ensures |c[y]| == w
    {
      if y >= FullCount(g) {
        assert c[y] == Survivors(g)[y - FullCount(g)];
      }
    }
  }

  /** No full row remains after clearing (blank rows are not full once w > 0). */
  lemma ClearedHasNoFullRow(g: Grid, w: nat)
    requires w > 0
    ensures NoFullRow(Cleared(g, w))
  {
    SurvivorsFacts(g);
    EmptyRowNotFull(w);
    var c := Cleared(g, w);
    forall y | 0 <= y < |c|
      ensures !RowFull(c[y])
    {
      if y >= FullCount(g) {
        assert c[y] == Survivors(g)[y - FullCount(g)];
      }
    }
  }

  /** A grid without full rows is left as it is and nothing is counted. */
  lemma {:induction false} ClearedWithoutFullRows(g: Grid, w: nat)
    requires NoFullRow(g)
    ensures FullCount(g) == 0 && Cleared(g, w) == g
  {
    if g != [] {
      assert !RowFull(g[0]);
      ClearedWithoutFullRows(g[1..], w);
      assert Survivors(g) == [g[0]] + g[1..];
    }
  }

  /** An all-empty grid of positive width has no full row. */
  lemma EmptyHasNoFullRow(g: Grid, w: nat, h: nat)
    requires IsGrid(g, w, h) && w > 0 && AllEmpty(g)
    ensures NoFullRow(g)
  {
    forall y | 0 <= y < |g|
      ensures !RowFull(g[y])
    {
      assert !g[y][0].filled;
    }
  }

  /** In particular an all-empty board clears nothing. */
  lemma ClearEmptyBoard(g: Grid, w: nat, h: nat)
    requires IsGrid(g, w, h) && w > 0 && AllEmpty(g)
    ensures FullCount(g) == 0 && Cleared(g, w) == g
  {
    EmptyHasNoFullRow(g, w, h);
    ClearedWithoutFullRows(g, w);
  }

  /** If every full row lies in rows lo .. hi-1, at most hi - lo rows are full. */
  lemma {:induction false} FullCountWithin(g: Grid, lo: int, hi: int)
    requires lo <= hi
    requires forall y :: 0 <= y < |g| && RowFull(g[y]) ==> lo <= y < hi
    ensures FullCount(g) <= hi - lo
  {
    if g != [] {
      var t := g[1..];
      assert forall y :: 0 <= y < |t| ==> t[y] == g[y + 1];
      if RowFull(g[0]) {
        FullCountWithin(t, 0, hi - 1);
      } else {
        FullCountWithin(t, lo - 1, hi - 1);
      }
    }
  }

  /** Stamping a shape onto a grid without full rows can only fill rows the shape's matrix spans. */
  lemma StampFullRows(g: Grid, s: Shape, x: int, y: int, color: string)
    requires NoFullRow(g)
    ensures |Stamp(g, s, x, y, color)| == |g|
    ensures forall cy :: 0 <= cy < |g| && RowFull(Stamp(g, s, x, y, color)[cy]) ==> y <= cy < y + |s|
  {
    var st := Stamp(g, s, x, y, color);
    forall cy | 0 <= cy < |g| && !(y <= cy < y + |s|)
      ensures st[cy] == g[cy]
    {
      assert |st[cy]| == |g[cy]|;
      forall cx | 0 <= cx < |g[cy]|
        ensures st[cy][cx] == g[cy][cx]
      {
        assert !Covers(s, x, y, cx, cy);
      }
    }
  }

  /** Hence, when no row was full before, a piece of at most four matrix rows completes at most four. */
  lemma StampCompletesAtMostFour(g: Grid, s: Shape, x: int, y: int, color: string)
    requires NoFullRow(g) && |s| <= 4
    ensures FullCount(Stamp(g, s, x, y, color)) <= 4
  {
    StampFullRows(g, s, x, y, color);
    FullCountWithin(Stamp(g, s, x, y, color), y, y + |s|);
  }

  /** Writing block (r, c) is one step of the row-major placement. */
  lemma StampStep(g: Grid, s: Shape, x: int, y: int, color: string, r: int, c: int)
    requires 0 <= r < |s| && 0 <= c < |s[r]|
    requires Filled(s, r, c) ==> 0 <= y + r < |g| && 0 <= x + c < |g[y + r]|
    ensures var p := PartialStamp(g, s, x, y, color, r, c);
      PartialStamp(g, s, x, y, color, r, c + 1) ==
        if Filled(s, r, c) then p[y + r := p[y + r][x + c := Cell(true, Some(color))]] else p
  {
    var p := PartialStamp(g, s, x, y, color, r, c);
    var q := PartialStamp(g, s, x, y, color, r, c + 1);
    var e := if Filled(s, r, c) then p[y + r := p[y + r][x + c := Cell(true, Some(color))]] else p;
    assert |q| == |e|;
    forall cy | 0 <= cy < |q|
      ensures q[cy] == e[cy]
    {
      assert |q[cy]| == |e[cy]|;
    }
  }

  /** Moving past the last entry of a matrix row. */
  lemma StampRowDone(g: Grid, s: Shape, x: int, y: int, color: string, r: int)
    requires 0 <= r < |s|
    ensures PartialStamp(g, s, x, y, color, r, |s[r]|) == PartialStamp(g, s, x, y, color, r + 1, 0)
  {
    var p := PartialStamp(g, s, x, y, color, r, |s[r]|);
    var q := PartialStamp(g, s, x, y, color, r + 1, 0);
    forall cy | 0 <= cy < |q|
      ensures p[cy] == q[cy]
    {
      assert |p[cy]| == |q[cy]|;
    }
  }

  /** After stamping, exactly the cells under a block of s hold a block of the piece's colour;
      every other cell, and the grid's dimensions, are as before. */
  lemma StampEffect(g: Grid, s: Shape, x: int, y: int, color: string, w: nat, h: nat)
    requires IsGrid(g, w, h)
    ensures IsGrid(Stamp(g, s, x, y, color), w, h)
    ensures forall cy, cx :: 0 <= cy < h && 0 <= cx < w ==>
      Stamp(g, s, x, y, color)[cy][cx] == if Covers(s, x, y, cx, cy) then Cell(true, Some(color)) else g[cy][cx]
  {
    var st := Stamp(g, s, x, y, color);
    forall cy, cx | 0 <= cy < h && 0 <= cx < w && Covers(s, x, y, cx, cy)
      ensures Before(cy - y, cx - x, |s|, 0)
    {
    }
  }

  /** Before any block has been met, nothing has been written. */
  lemma StampNothingYet(g: Grid, s: Shape, x: int, y: int, color: string, r: int, c: int)
    requires forall r', c' :: Filled(s, r', c') ==> !Before(r', c', r, c)
    ensures PartialStamp(g, s, x, y, color, r, c) == g
  {
    var p := PartialStamp(g, s, x, y, color, r, c);
    forall cy | 0 <= cy < |g|
      ensures p[cy] == g[cy]
    {
      assert |p[cy]| == |g[cy]|;
    }
  }

  /** Removing row y of a grid and putting a blank row on top, as clearLines does for a full row:
      one more blank row, one original row fewer and nothing lost from the survivors. */
  lemma ShiftOutFullRow(g0: Grid, w: nat, count: nat, j: nat)
    requires 0 < j <= |g0| && RowFull(g0[j - 1])
    ensures var G := BlankRows(count, w) + g0[..j] + Survivors(g0[j..]);
      var y := count + j - 1;
      [EmptyRow(w)] + G[..y] + G[y + 1..] == BlankRows(count + 1, w) + g0[..j - 1] + Survivors(g0[j - 1..])
    ensures FullCount(g0[j - 1..]) == FullCount(g0[j..]) + 1
  {
    var G := BlankRows(count, w) + g0[..j] + Survivors(g0[j..]);
    var y := count + j - 1;
    assert g0[j - 1..][1..] == g0[j..];
    assert G[..y] == BlankRows(count, w) + g0[..j - 1];
    assert G[y + 1..] == Survivors(g0[j..]);
    assert [EmptyRow(w)] + BlankRows(count, w) == BlankRows(count + 1, w);
  }

  /** The row clearLines tests next: the blank rows come first, then the unprocessed prefix of g0,
      whose last row is the one at index count + j - 1. */
  lemma PendingRow(g0: Grid, w: nat, count: nat, j: nat, y: int)
    requires j <= |g0| && 0 <= y
    requires y + 1 == count + j || (j == 0 && y + 1 <= count)
    ensures var G := BlankRows(count, w) + g0[..j] + Survivors(g0[j..]);
      y < |G| && G[y] == if j == 0 then EmptyRow(w) else g0[j - 1]
  {
    var G := BlankRows(count, w) + g0[..j] + Survivors(g0[j..]);
    if y < count {
      assert G[y] == BlankRows(count, w)[y];
    } else {
      assert G[y] == g0[..j][y - count];
    }
  }

  /** Passing over a row that is not full. */
  lemma SkipRow(g0: Grid, w: nat, count: nat, j: nat)
    requires 0 < j <= |g0| && !RowFull(g0[j - 1])
    ensures BlankRows(count, w) + g0[..j] + Survivors(g0[j..]) ==
      BlankRows(count, w) + g0[..j - 1] + Survivors(g0[j - 1..])
    ensures FullCount(g0[j - 1..]) == FullCount(g0[j..])
  {
    assert g0[j - 1..][1..] == g0[j..];
    assert g0[..j] == g0[..j - 1] + [g0[j - 1]];
  }

  class Board {
    const width: nat
    const height: nat
    var grid: Grid
    var gameOver: bool

    ghost predicate Valid()
      reads this
    {
      IsGrid(grid, width, height)
    }

    constructor (width: nat := 10, height: nat := 20)
      ensures Valid() && this.width == width && this.height == height
      ensures AllEmpty(grid) && !gameOver
    {
      this.width := width;
      this.height := height;
      new;
      grid := CreateEmptyGrid();
      gameOver := false;
    }

    /** A height-by-width grid of empty cells, built row by row. */
    method CreateEmptyGrid() returns (g: Grid)
      ensures IsGrid(g, width, height) && AllEmpty(g)
    {
      g := [];
      var y := 0;
      while y < height
        invariant 0 <= y <= height
        invariant IsGrid(g, width, y) && AllEmpty(g)
      {
        var row: Row := [];
        var x := 0;
        while x < width
          invariant 0 <= x <= width
          invariant |row| == x && forall c :: 0 <= c < x ==> row[c] == EmptyCell
        {
          row := row + [EmptyCell];
          x := x + 1;
        }
        g := g + [row];
        y := y + 1;
      }
    }

    /** The board's bounds are exactly the cells its grid has. */
    function IsWithinBounds(x: int, y: int): (b: bool)
      reads this
      ensures Valid() ==> (b <==> 0 <= y < |grid| && 0 <= x < |grid[y]|)
    {
      0 <= x < width && 0 <= y < height
    }

    /** A cell can take a block only if it is on the board (so never above row 0) and not filled. */
    function IsCellEmpty(x: int, y: int): (e: bool)
      reads this
      requires Valid()
      ensures e ==> IsWithinBounds(x, y) && 0 <= y
      ensures IsWithinBounds(x, y) ==> (e <==> !grid[y][x].filled)
      ensures e == Free(grid, x, y)
    {
      if !IsWithinBounds(x, y) then false else !grid[y][x].filled
    }

    /** Every block of s offset by (x, y) lands on an empty cell of the board. */
    ghost predicate Admits(s: Shape, x: int, y: int)
      reads this
    {
      AdmitsAt(grid, s, x, y)
    }

    /** Every block of s offset by (x, y) is on the board. */
    ghost predicate Within(s: Shape, x: int, y: int)
      reads this
    {
      forall r, c :: Filled(s, r, c) ==> IsWithinBounds(x + c, y + r)
    }

    /** Every block of s offset by (x, y) is in a column of the board and above its floor. */
    ghost predicate Placeable(s: Shape, x: int, y: int)
    {
      forall r, c :: Filled(s, r, c) ==> 0 <= x + c < width && y + r < height
    }

    /** A pose the board admits has every block on the board. */
    lemma AdmitsWithin(s: Shape, x: int, y: int)
      requires Valid() && Admits(s, x, y)
      ensures Within(s, x, y) && Placeable(s, x, y) && BelowTop(s, y)
    {
    }

    /** A shape with a block is admitted only above the floor. */
    lemma AdmitsAboveFloor(s: Shape, x: int, y: int)
      requires Valid() && Admits(s, x, y)
      requires exists r, c :: Filled(s, r, c)
      ensures y < height
    {
      var r, c :| Filled(s, r, c);
      assert IsCellEmpty(x + c, y + r);
    }

    /** A square matrix of side n whose square lies in the board's columns and above its floor can be placed. */
    lemma SquarePlaceable(s: Shape, n: nat, x: int, y: int)
      requires Square(s, n) && 0 <= x && x + n <= width && y + n <= height
      ensures Placeable(s, x, y)
    {
    }

    /** An all-empty board admits a square matrix of side n placed wholly on it. */
    lemma EmptyAdmitsSquare(s: Shape, n: nat, x: int, y: int)
      requires Valid() && AllEmpty(grid)
      requires Square(s, n) && 0 <= x && x + n <= width && 0 <= y && y + n <= height
      ensures Admits(s, x, y)
    {
      forall r, c | Filled(s, r, c)
        ensures IsCellEmpty(x + c, y + r)
      {
        assert grid[y + r][x + c] == EmptyCell;
      }
    }

    /** `isValidMove`: scans the current shape row by row and stops at the first blocked cell. */
    method IsValidMove(t: Tetromino) returns (ok: bool)
      requires Valid() && t.Valid()
      ensures ok == Admits(ShapeOf(t.kind, t.rotation), t.x, t.y)
    {
      var shape := t.GetCurrentShape();
      var r := 0;
      while r < |shape|
        invariant 0 <= r <= |shape|
        invariant forall r', c :: Filled(shape, r', c) && r' < r ==> IsCellEmpty(t.x + c, t.y + r')
      {
        var c := 0;
        while c < |shape[r]|
          invariant 0 <= c <= |shape[r]|
          invariant forall r', c' :: Filled(shape, r', c') && Before(r', c', r, c) ==> IsCellEmpty(t.x + c', t.y + r')
        {
          if shape[r][c] != 0 {
            if !IsCellEmpty(t.x + c, t.y + r) {
              assert Filled(shape, r, c);
              return false;
            }
          }
          c := c + 1;
        }
        r := r + 1;
      }
      return true;
    }

    /** `placeTetromino`: writes the blocks in row-major order and gives up, setting gameOver,
        at the first block above row 0. Rows are scanned top-down, so that block is the first
        block of all and the grid is left untouched when placement fails. */
    method PlaceTetromino(t: Tetromino) returns (ok: bool)
      requires Valid() && t.Valid()
      requires Placeable(t.GetCurrentShape(), t.x, t.y)
      modifies this`grid, this`gameOver
      ensures Valid()
      ensures ok == BelowTop(ShapeOf(t.kind, t.rotation), t.y)
      ensures old(Admits(ShapeOf(t.kind, t.rotation), t.x, t.y)) ==> ok
      ensures ok ==>
        grid == Stamp(old(grid), ShapeOf(t.kind, t.rotation), t.x, t.y, ColorOf(t.kind)) && gameOver == old(gameOver)
      ensures !ok ==> grid == old(grid) && gameOver
    {
      var shape := t.GetCurrentShape();
      if Admits(shape, t.x, t.y) {
        AdmitsWithin(shape, t.x, t.y);
      }
      ok := PlaceShape(shape, t.x, t.y, t.color);
    }

    /** placeTetromino's scan over the rows of shape s at (x, y): every row is written in turn,
        and the scan gives up at the first row with a block above row 0. */
    method PlaceShape(s: Shape, x: int, y: int, color: string) returns (ok: bool)
      requires Valid() && Placeable(s, x, y)
      modifies this`grid, this`gameOver
      ensures Valid()
      ensures ok == BelowTop(s, y)
      ensures ok ==> grid == Stamp(old(grid), s, x, y, color) && gameOver == old(gameOver)
      ensures !ok ==> grid == old(grid) && gameOver
    {
      ghost var g0 := grid;
      StampNothingYet(g0, s, x, y, color, 0, 0);
      var r := 0;
      while r < |s|
        invariant 0 <= r <= |s|
        invariant Valid() && gameOver == old(gameOver)
        invariant forall r', c :: Filled(s, r', c) && r' < r ==> 0 <= y + r'
        invariant grid == PartialStamp(g0, s, x, y, color, r, 0)
      {
        ok := PlaceRow(s, x, y, color, r, g0);
        if !ok {
          StampNothingYet(g0, s, x, y, color, r, 0);
          return false;
        }
        r := r + 1;
      }
      return true;
    }

    /** Matrix row r of placeTetromino's scan: when the row has a block above row 0 the scan
        stops at that row's first block, before anything of the row is written. */
    method PlaceRow(shape: Shape, x: int, y: int, color: string, r: int, ghost g0: Grid) returns (ok: bool)
      requires Valid() && 0 <= r < |shape| && Placeable(shape, x, y)
      requires IsGrid(g0, width, height) && grid == PartialStamp(g0, shape, x, y, color, r, 0)
      modifies this`grid, this`gameOver
      ensures Valid()
      ensures ok <==> forall c :: Filled(shape, r, c) ==> 0 <= y + r
      ensures ok ==> grid == PartialStamp(g0, shape, x, y, color, r + 1, 0) && gameOver == old(gameOver)
      ensures !ok ==> grid == old(grid) && gameOver
    {
      var c := 0;
      while c < |shape[r]|
        invariant 0 <= c <= |shape[r]|
        invariant Valid() && gameOver == old(gameOver)
        invariant grid == PartialStamp(g0, shape, x, y, color, r, c)
        invariant y + r < 0 ==> grid == old(grid) && forall c' :: 0 <= c' < c ==> !Filled(shape, r, c')
      {
        if shape[r][c] != 0 {
          var boardX, boardY := x + c, y + r;
          if boardY < 0 {
            assert Filled(shape, r, c);
            gameOver := true;
            return false;
          }
          StampStep(g0, shape, x, y, color, r, c);
          grid := grid[boardY := grid[boardY][boardX := Cell(true, Some(color))]];
        } else {
          StampStep(g0, shape, x, y, color, r, c);
        }
        c := c + 1;
      }
      StampRowDone(g0, shape, x, y, color, r);
      return true;
    }

    /** `clearLines`: scans rows bottom-up; a full row is removed by shifting every row above it
        down one and putting a blank row on top, and the same row index is tested again. */
    method ClearLines() returns (linesCleared: nat)
      requires Valid() && width > 0
      modifies this`grid
      ensures Valid()
      ensures linesCleared == FullCount(old(grid))
      ensures grid == Cleared(old(grid), width)
    {
      ghost var g0 := grid;
      ghost var j := height;
      linesCleared := 0;
      var y := height - 1;
      while y >= 0
        invariant -1 <= y < height
        invariant Clearing(g0, linesCleared, j, y)
        decreases y + 1, j
      {
        linesCleared, j, y := ClearStep(g0, linesCleared, j, y);
      }
      assert g0[0..] == g0;
    }

    /** The state of clearLines' scan: rows below y are done, the first j rows of the original
        grid g0 are still unprocessed, and count full rows have been replaced by blank rows on top. */
    ghost predicate Clearing(g0: Grid, count: nat, j: nat, y: int)
      reads this
    {
      Valid() && j <= |g0| && j <= height
      && (y + 1 == count + j || (j == 0 && y + 1 <= count))
      && count == FullCount(g0[j..])
      && grid == BlankRows(count, width) + g0[..j] + Survivors(g0[j..])
    }

    /** One pass of clearLines' loop body at row y: a full row is shifted out and y is tested
        again; any other row is kept and the scan moves up. */
    method ClearStep(ghost g0: Grid, count: nat, ghost j: nat, y: int) returns (count': nat, ghost j': nat, y': int)
      requires width > 0 && 0 <= y < height && Clearing(g0, count, j, y)
      modifies this`grid
      ensures Clearing(g0, count', j', y') && -1 <= y' <= y
      ensures y' < y || (y' == y && j' < j)
    {
      PendingRow(g0, width, count, j, y);
      EmptyRowNotFull(width);
      if RowFull(grid[y]) {
        ShiftOutFullRow(g0, width, count, j);
        ShiftDownOnto(y);
        count', j', y' := count + 1, j - 1, y;
      } else {
        count', y' := count, y - 1;
        if j > 0 {
          SkipRow(g0, width, count, j);
          j' := j - 1;
        } else {
          j' := j;
        }
      }
    }

    /** The body of clearLines for a full row y: every row above y moves down one, row 0 becomes blank. */
    method ShiftDownOnto(y: int)
      requires Valid() && 0 <= y < height
      modifies this`grid
      ensures Valid()
      ensures grid == [EmptyRow(width)] + old(grid)[..y] + old(grid)[y + 1..]
    {
      var yy := y;
      while yy > 0
        invariant 0 <= yy <= y && |grid| == height
        invariant forall i :: 0 <= i <= yy ==> grid[i] == old(grid)[i]
        invariant forall i :: yy < i <= y ==> grid[i] == old(grid)[i - 1]
        invariant forall i :: y < i < height ==> grid[i] == old(grid)[i]
      {
        grid := grid[yy := grid[yy - 1]];
        yy := yy - 1;
      }
      grid := grid[0 := EmptyRow(width)];
    }

    /** Where the drop projection of s from (x, y) ends: the last row offset of the unbroken run of
        admitted poses going down from y, or y - 1 when the pose (x, y) itself is not admitted. */
    ghost predicate DropTarget(s: Shape, x: int, y: int, ly: int)
      reads this
      requires Valid()
    {
      if Admits(s, x, y) then
        y <= ly && (forall k :: y <= k <= ly ==> Admits(s, x, k)) && !Admits(s, x, ly + 1)
      else
        ly == y - 1
    }

    /** A pose has only one drop target. */
    lemma DropTargetUnique(s: Shape, x: int, y: int, a: int, b: int)
      requires Valid() && DropTarget(s, x, y, a) && DropTarget(s, x, y, b)
      ensures a == b
    {
    }

    /** A piece resting on the stack (admitted, but not one row lower) is its own drop target;
        an admitted piece's target is admitted. */
    lemma DropTargetResting(s: Shape, x: int, y: int, ly: int)
      requires Valid() && Admits(s, x, y) && DropTarget(s, x, y, ly)
      ensures Admits(s, x, ly)
      ensures !Admits(s, x, y + 1) <==> ly == y
    {
    }

    /** `getDropPosition`: a clone moved down while the board admits it, then one step back up. */
    method GetDropPosition(t: Tetromino) returns (ghostPiece: Tetromino)
      requires Valid() && t.Valid()
      ensures fresh(ghostPiece) && ghostPiece.Valid()
      ensures ghostPiece.kind == t.kind && ghostPiece.x == t.x && ghostPiece.rotation == t.rotation
      ensures DropTarget(ShapeOf(t.kind, t.rotation), t.x, t.y, ghostPiece.y)
    {
      ghostPiece := t.Clone();
      SinkWhileAdmitted(ghostPiece);
      ghostPiece.y := ghostPiece.y - 1;
    }

    /** The while loop of getDropPosition: p moves down one row at a time for as long as the board
        admits it, so it stops at the first row offset, from its own, that the board does not admit. */
    method SinkWhileAdmitted(p: Tetromino)
      requires Valid() && p.Valid()
      modifies p
      ensures p.Valid() && p.x == old(p.x) && p.rotation == old(p.rotation)
      ensures !Admits(ShapeOf(p.kind, p.rotation), p.x, p.y)
      ensures old(p.y) <= p.y
      ensures forall k :: old(p.y) <= k < p.y ==> Admits(ShapeOf(p.kind, p.rotation), p.x, k)
    {
      var shape := p.GetCurrentShape();
      ghost var y0 := p.y;
      var ok := IsValidMove(p);
      while ok
        invariant p.Valid() && p.x == old(p.x) && p.rotation == old(p.rotation)
        invariant p.GetCurrentShape() == shape
        invariant ok == Admits(shape, p.x, p.y)
        invariant y0 <= p.y
        invariant forall k :: y0 <= k < p.y ==> Admits(shape, p.x, k)
        decreases height - p.y
      {
        AdmitsAboveFloor(shape, p.x, p.y);
        ghost var prev := p.y;
        p.MoveDown();
        ok := IsValidMove(p);
        forall k | y0 <= k < p.y
          ensures Admits(shape, p.x, k)
        {
          if k == prev {
          }
        }
      }
    }

    /** `reset`: a fresh all-empty grid of the same size, and the game is no longer over. */
    method Reset()
      requires Valid()
      modifies this
      ensures Valid() && AllEmpty(grid) && !gameOver
    {
      grid := CreateEmptyGrid();
      gameOver := false;
    }
  }
}
