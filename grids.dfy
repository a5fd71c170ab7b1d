/** The board as a value: eight columns of eight cells, read as g[x][y]. */
module Grids {
  import opened Tiles

  type Grid = seq<seq<Tile>>

  /** An 8x8 grid. */
  predicate IsGrid(g: Grid)
  {
    |g| == 8 && forall x :: 0 <= x < 8 ==> |g[x]| == 8
  }

  function Cell(g: Grid, p: Pos): Tile
    requires IsGrid(g) && OnBoard(p.0, p.1)
  {
    g[p.0][p.1]
  }

  /** The grid with cell (x, y) overwritten by v; every other cell keeps its tile. */
  function Set(g: Grid, x: int, y: int, v: Tile): (r: Grid)
    requires IsGrid(g) && OnBoard(x, y)
    ensures IsGrid(r) && r[x][y] == v
    ensures forall a, b :: OnBoard(a, b) && (a, b) != (x, y) ==> r[a][b] == g[a][b]
  {
    g[x := g[x][y := v]]
  }

  /** Two 8x8 grids that agree on every cell are the same grid. */
  lemma GridExt(g: Grid, h: Grid)
    requires IsGrid(g) && IsGrid(h)
    requires forall a, b :: OnBoard(a, b) ==> g[a][b] == h[a][b]
    ensures g == h
  {
    forall a | 0 <= a < 8
      ensures g[a] == h[a]
    {
      assert forall b :: 0 <= b < 8 ==> g[a][b] == h[a][b];
    }
  }

  /** Writing a cell's own tile back over a later write restores the grid. */
  lemma SetRestore(g: Grid, x: int, y: int, v: Tile)
    requires IsGrid(g) && OnBoard(x, y)
    ensures Set(Set(g, x, y, v), x, y, g[x][y]) == g
  {
    GridExt(Set(Set(g, x, y, v), x, y, g[x][y]), g);
  }

  /** The blank board. */
  function EmptyGrid(): (g: Grid)
    ensures IsGrid(g)
    ensures forall a, b :: OnBoard(a, b) ==> g[a][b] == Empty
  {
    seq(8, _ => seq(8, _ => Empty))
  }

  /** The starting position: X on (3,3) and (4,4), O on (3,4) and (4,3). */
  function StartGrid(): (g: Grid)
    ensures IsGrid(g)
  {
    Set(Set(Set(Set(EmptyGrid(), 3, 3, X), 3, 4, O), 4, 3, O), 4, 4, X)
  }

  /** Number of the first n cells of a column that hold t. */
  function CountColumn(col: seq<Tile>, t: Tile, n: nat): (c: nat)
    requires n <= |col|
    ensures c <= n
  {
    if n == 0 then 0 else CountColumn(col, t, n - 1) + (if col[n - 1] == t then 1 else 0)
  }

  /** Number of cells holding t in the first n columns. */
  function CountColumns(g: Grid, t: Tile, n: nat): (c: nat)
    requires IsGrid(g) && n <= 8
    ensures c <= 8 * n
  {
    if n == 0 then 0 else CountColumns(g, t, n - 1) + CountColumn(g[n - 1], t, |g[n - 1]|)
  }

  /** Number of cells of the board that hold t. */
  function Count(g: Grid, t: Tile): (c: nat)
    requires IsGrid(g)
    ensures c <= 64
  {
    CountColumns(g, t, |g|)
  }

  lemma {:induction false} CountColumnSet(col: seq<Tile>, y: int, v: Tile, t: Tile, n: nat)
    requires n <= |col| && 0 <= y < |col|
    ensures CountColumn(col[y := v], t, n)
         == CountColumn(col, t, n)
            + (if y < n then (if v == t then 1 else 0) - (if col[y] == t then 1 else 0) else 0)
  {
    if n > 0 {
      CountColumnSet(col, y, v, t, n - 1);
    }
  }

  lemma {:induction false} CountColumnsSet(g: Grid, x: int, y: int, v: Tile, t: Tile, n: nat)
    requires IsGrid(g) && OnBoard(x, y) && n <= 8
    ensures CountColumns(Set(g, x, y, v), t, n)
         == CountColumns(g, t, n)
            + (if x < n then (if v == t then 1 else 0) - (if g[x][y] == t then 1 else 0) else 0)
  {
    if n > 0 {
      CountColumnsSet(g, x, y, v, t, n - 1);
      if x == n - 1 {
        CountColumnSet(g[x], y, v, t, |g[x]|);
      } else {
        assert Set(g, x, y, v)[n - 1] == g[n - 1];
      }
    }
  }

  /** Writing v into one cell moves that cell from the count of its old tile to the count of v. */
  lemma CountSet(g: Grid, x: int, y: int, v: Tile, t: Tile)
    requires IsGrid(g) && OnBoard(x, y)
    ensures Count(Set(g, x, y, v), t)
         == Count(g, t) + (if v == t then 1 else 0) - (if g[x][y] == t then 1 else 0)
  {
    CountColumnsSet(g, x, y, v, t, |g|);
  }

  lemma {:induction false} CountColumnsPartition(g: Grid, n: nat)
    requires IsGrid(g) && n <= 8
    ensures CountColumns(g, X, n) + CountColumns(g, O, n) + CountColumns(g, Empty, n) == 8 * n
  {
    if n > 0 {
      CountColumnsPartition(g, n - 1);
      ColumnPartition(g[n - 1], |g[n - 1]|);
    }
  }

  lemma {:induction false} ColumnPartition(col: seq<Tile>, n: nat)
    requires n <= |col|
    ensures CountColumn(col, X, n) + CountColumn(col, O, n) + CountColumn(col, Empty, n) == n
  {
    if n > 0 {
      ColumnPartition(col, n - 1);
    }
  }

  /** Every one of the 64 cells holds exactly one of the three states. */
  lemma CountPartition(g: Grid)
    requires IsGrid(g)
    ensures Count(g, X) + Count(g, O) + Count(g, Empty) == 64
  {
    CountColumnsPartition(g, |g|);
  }

  lemma {:induction false} CountColumnsEmpty(t: Tile, n: nat)
    requires n <= 8
    ensures CountColumns(EmptyGrid(), t, n) == if t == Empty then 8 * n else 0
  {
    if n > 0 {
      CountColumnsEmpty(t, n - 1);
      CountColumnEmpty(EmptyGrid()[n - 1], t, |EmptyGrid()[n - 1]|);
    }
  }

  lemma {:induction false} CountColumnEmpty(col: seq<Tile>, t: Tile, n: nat)
    requires n <= |col| && forall i :: 0 <= i < |col| ==> col[i] == Empty
    ensures CountColumn(col, t, n) == if t == Empty then n else 0
  {
    if n > 0 {
      CountColumnEmpty(col, t, n - 1);
    }
  }

  /** The blank board has no X and no O tile. */
  lemma CountEmptyGrid(t: Tile)
    ensures Count(EmptyGrid(), t) == if t == Empty then 64 else 0
  {
    CountColumnsEmpty(t, |EmptyGrid()|);
  }

  /** The starting position holds X at (3,3) and (4,4), O at (3,4) and (4,3), is blank
      elsewhere, and scores two tiles for each side. */
  lemma StartPosition()
    ensures StartGrid()[3][3] == X && StartGrid()[4][4] == X
    ensures StartGrid()[3][4] == O && StartGrid()[4][3] == O
    ensures forall a, b :: OnBoard(a, b) && (a, b) !in {(3, 3), (3, 4), (4, 3), (4, 4)}
              ==> StartGrid()[a][b] == Empty
    ensures Count(StartGrid(), X) == 2 && Count(StartGrid(), O) == 2
    ensures Count(StartGrid(), Empty) == 60
  {
    var g0 := EmptyGrid();
    var g1 := Set(g0, 3, 3, X);
    var g2 := Set(g1, 3, 4, O);
    var g3 := Set(g2, 4, 3, O);
    forall t: Tile ensures Count(StartGrid(), t) == if t == Empty then 60 else 2 {
      CountEmptyGrid(t);
      CountSet(g0, 3, 3, X, t);
      CountSet(g1, 3, 4, O, t);
      CountSet(g2, 4, 3, O, t);
      CountSet(g3, 4, 4, X, t);
    }
  }
}
