/**
 * The playfield as a value: a grid of cells indexed grid[y][x], row 0 at the
 * top (the spawn row) and row h-1 at the bottom (the landing row). These
 * functions are what the in-place primitives of the game are proved against,
 * together with the count of occupied cells.
 */
module Playfield {
  import opened Colors

  datatype Coord = Coord(x: nat, y: nat)

  /** One cell. The colour is carried by the colour variant of the game; the
      monochrome variants keep only `occupied`, which every operation here
      treats exactly the same way. */
  datatype Cell = Cell(occupied: bool, color: Color)

  type Grid = seq<seq<Cell>>

  /** What memset(0) leaves in a cell: not occupied, colour word 0. */
  const Empty: Cell := Cell(false, Black)

  predicate InBounds(c: Coord, w: nat, h: nat)
  {
    c.x < w && c.y < h
  }

  predicate WellFormed(g: Grid, w: nat, h: nat)
  {
    |g| == h && forall y :: 0 <= y < h ==> |g[y]| == w
  }

  function Bit(c: Cell): nat
  {
    if c.occupied then 1 else 0
  }

  function Occupied(g: Grid, c: Coord): bool
    requires c.y < |g| && c.x < |g[c.y]|
  {
    g[c.y][c.x].occupied
  }

  function EmptyRow(w: nat): (r: seq<Cell>)
    ensures |r| == w
    ensures forall x :: 0 <= x < w ==> r[x] == Empty
  {
    seq(w, _ => Empty)
  }

  function EmptyGrid(w: nat, h: nat): (g: Grid)
    ensures WellFormed(g, w, h)
    ensures forall y :: 0 <= y < h ==> g[y] == EmptyRow(w)
  {
    seq(h, _ => EmptyRow(w))
  }

  /** One cell replaced, every other cell as it was. */
  function SetCell(g: Grid, c: Coord, v: Cell): (r: Grid)
    requires c.y < |g| && c.x < |g[c.y]|
    ensures |r| == |g| && forall y :: 0 <= y < |g| ==> |r[y]| == |g[y]|
    ensures r[c.y][c.x] == v
    ensures forall y, x :: 0 <= y < |g| && 0 <= x < |g[y]| && (y != c.y || x != c.x) ==> r[y][x] == g[y][x]
  {
    g[c.y := g[c.y][c.x := v]]
  }

  /** copyTile(to, from) followed by resetTile(from): the cell travels to
      `to`, `from` is left empty, and nothing else changes. */
  function Moved(g: Grid, from: Coord, to: Coord): (r: Grid)
    requires from.y < |g| && from.x < |g[from.y]|
    requires to.y < |g| && to.x < |g[to.y]|
    requires from != to
    ensures |r| == |g| && forall y :: 0 <= y < |g| ==> |r[y]| == |g[y]|
    ensures r[to.y][to.x] == g[from.y][from.x]
    ensures r[from.y][from.x] == Empty
    ensures forall y, x :: 0 <= y < |g| && 0 <= x < |g[y]| && (y != to.y || x != to.x) && (y != from.y || x != from.x)
              ==> r[y][x] == g[y][x]
  {
    SetCell(SetCell(g, to, g[from.y][from.x]), from, Empty)
  }

  /** The row is full when every one of its cells is occupied. */
  predicate RowFull(row: seq<Cell>)
  {
    forall x :: 0 <= x < |row| ==> row[x].occupied
  }

  /** Every row moves one down, the bottom row drops out, row 0 becomes empty. */
  function ShiftDown(g: Grid, w: nat): (r: Grid)
    requires |g| >= 1
    ensures |r| == |g|
    ensures r[0] == EmptyRow(w)
    ensures forall y :: 1 <= y < |g| ==> r[y] == g[y - 1]
  {
    [EmptyRow(w)] + g[..|g| - 1]
  }

  /** Number of occupied cells of a row. */
  function RowCount(row: seq<Cell>): (n: nat)
    ensures n <= |row|
  {
    if row == [] then 0 else Bit(row[0]) + RowCount(row[1..])
  }

  /** Number of occupied cells of a grid. */
  function Count(g: Grid): nat
  {
    if g == [] then 0 else RowCount(g[0]) + Count(g[1..])
  }

  lemma {:induction false} RowCountUpdate(row: seq<Cell>, x: nat, v: Cell)
    requires x < |row|
    ensures RowCount(row[x := v]) + Bit(row[x]) == RowCount(row) + Bit(v)
  {
    if x == 0 {
      assert row[x := v][1..] == row[1..];
    } else {
      RowCountUpdate(row[1..], x - 1, v);
      assert row[x := v][1..] == row[1..][x - 1 := v];
    }
  }

  lemma {:induction false} CountUpdateRow(g: Grid, y: nat, row: seq<Cell>)
    requires y < |g|
    ensures Count(g[y := row]) + RowCount(g[y]) == Count(g) + RowCount(row)
  {
    if y == 0 {
      assert g[y := row][1..] == g[1..];
    } else {
      CountUpdateRow(g[1..], y - 1, row);
      assert g[y := row][1..] == g[1..][y - 1 := row];
    }
  }

  /** Replacing one cell changes the count by what left and what arrived. */
  lemma CountSetCell(g: Grid, c: Coord, v: Cell)
    requires c.y < |g| && c.x < |g[c.y]|
    ensures Count(SetCell(g, c, v)) + Bit(g[c.y][c.x]) == Count(g) + Bit(v)
  {
    RowCountUpdate(g[c.y], c.x, v);
    CountUpdateRow(g, c.y, g[c.y][c.x := v]);
  }

  /** A move into an empty cell keeps the number of occupied cells. */
  lemma CountMoved(g: Grid, from: Coord, to: Coord)
    requires from.y < |g| && from.x < |g[from.y]|
    requires to.y < |g| && to.x < |g[to.y]|
    requires from != to && !g[to.y][to.x].occupied
    ensures Count(Moved(g, from, to)) == Count(g)
  {
    var g1 := SetCell(g, to, g[from.y][from.x]);
    CountSetCell(g, to, g[from.y][from.x]);
    CountSetCell(g1, from, Empty);
  }

  lemma {:induction false} CountAppend(a: Grid, b: Grid)
    ensures Count(a + b) == Count(a) + Count(b)
  {
    if a != [] {
      assert (a + b)[1..] == a[1..] + b;
      CountAppend(a[1..], b);
    } else {
      assert a + b == b;
    }
  }

  lemma {:induction false} RowCountFull(row: seq<Cell>)
    requires RowFull(row)
    ensures RowCount(row) == |row|
  {
    if row != [] {
      RowCountFull(row[1..]);
    }
  }

  lemma {:induction false} RowCountEmpty(w: nat)
    ensures RowCount(EmptyRow(w)) == 0
  {
    if w > 0 {
      assert EmptyRow(w)[1..] == EmptyRow(w - 1);
      RowCountEmpty(w - 1);
    }
  }

  lemma {:induction false} CountEmptyGrid(w: nat, h: nat)
    ensures Count(EmptyGrid(w, h)) == 0
  {
    if h > 0 {
      assert EmptyGrid(w, h)[1..] == EmptyGrid(w, h - 1);
      RowCountEmpty(w);
      CountEmptyGrid(w, h - 1);
    }
  }

  /** Clearing a full bottom row removes exactly one row's worth of cells. */
  lemma CountShiftDown(g: Grid, w: nat)
    requires |g| >= 1 && WellFormed(g, w, |g|) && RowFull(g[|g| - 1])
    ensures Count(ShiftDown(g, w)) + w == Count(g)
  {
    var h := |g|;
    assert g == g[..h - 1] + [g[h - 1]];
    CountAppend(g[..h - 1], [g[h - 1]]);
    CountAppend([EmptyRow(w)], g[..h - 1]);
    RowCountFull(g[h - 1]);
    RowCountEmpty(w);
    assert Count([g[h - 1]]) == RowCount(g[h - 1]) by {
      assert [g[h - 1]][1..] == [];
    }
    assert Count([EmptyRow(w)]) == 0 by {
      assert [EmptyRow(w)][1..] == [];
    }
  }
}
