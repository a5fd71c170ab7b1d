/** The mutable 8x8 board and the rules operations that read or write it in place. */
module BoardState {
  import opened Tiles
  import opened Grids
  import opened Capture
  import opened Moves

  /** The tile counts of a board: the source's {'X': ..., 'O': ...} dictionary. */
  datatype Score = Score(x: nat, o: nat)
  {
    /** The entry for tile t; blank has no entry. */
    function Of(t: Tile): nat
      requires t != Empty
    {
      if t == X then x else o
    }
  }

  /** Walks from (x0, y0), the k-th cell of a walk away from (xs, ys), back towards (xs, ys),
      noting every cell strictly in between: the walk's first k cells, far end first. */
  method WalkBack(xs: int, ys: int, x0: int, y0: int, dx: int, dy: int, ghost ray: seq<Pos>, ghost k: nat)
    returns (flips: seq<Pos>)
    requires IsWalkFrom(ray, xs, ys, dx, dy)
    requires k < |ray| && ray[k] == (x0, y0)
    ensures flips == Reversed(ray[..k])
  {
    var x, y := x0, y0;
    flips := [];
    ghost var j := k;
    while true
      invariant 0 <= j <= k && (x, y) == ray[j]
      invariant flips == Reversed(ray[j..k])
      decreases j
    {
      x, y := x - dx, y - dy;
      if j == 0 {
        assert (x, y) == (xs, ys);
      } else {
        assert (x, y) == ray[j - 1];
      }
      if x == xs && y == ys {
        break;
      }
      flips := flips + [(x, y)];
      j := j - 1;
      ReversedCons(ray[j..k]);
      assert ray[j..k][1..] == ray[j + 1..k];
    }
    assert ray[0..k] == ray[..k];
  }

  class Board {
    var cells: array2<Tile>

    ghost predicate Valid()
      reads this
    {
      cells.Length0 == 8 && cells.Length1 == 8
    }

    /** The board's current contents as a value. */
    ghost function Snapshot(): (g: Grid)
      reads this, cells
      requires Valid()
      ensures IsGrid(g)
      ensures forall a, b :: 0 <= a < 8 && 0 <= b < 8 ==> g[a][b] == cells[a, b]
    {
      var c := cells;
      seq(8, a requires 0 <= a < 8 reads c => seq(8, b requires 0 <= b < 8 reads c => c[a, b]))
    }

    /** A new, blank board. */
    constructor ()
      ensures Valid() && fresh(cells)
      ensures Snapshot() == EmptyGrid()
    {
      cells := new Tile[8, 8]((_, _) => Empty);
      new;
      GridExt(Snapshot(), EmptyGrid());
    }

    /** Blanks every cell, then places the four starting tiles. */
    method Reset()
      requires Valid()
      modifies cells
      ensures Snapshot() == StartGrid()
    {
      for x := 0 to 8
        invariant forall a, b :: 0 <= a < x && 0 <= b < 8 ==> cells[a, b] == Empty
      {
        for y := 0 to 8
          invariant forall a, b :: 0 <= a < x && 0 <= b < 8 ==> cells[a, b] == Empty
          invariant forall b :: 0 <= b < y ==> cells[x, b] == Empty
        {
          cells[x, y] := Empty;
        }
      }
      GridExt(Snapshot(), EmptyGrid());
      Put(3, 3, X);
      Put(3, 4, O);
      Put(4, 3, O);
      Put(4, 4, X);
    }

    /** Writes v into cell (x, y). */
    method Put(x: int, y: int, v: Tile)
      requires Valid() && OnBoard(x, y)
      modifies cells
      ensures Snapshot() == Set(old(Snapshot()), x, y, v)
    {
      ghost var g := Snapshot();
      cells[x, y] := v;
      GridExt(Snapshot(), Set(g, x, y, v));
    }

    /** Skips the run of `other` tiles along ray that starts at (x0, y0), the ray's second
        cell; stops on the first cell past the run, or as soon as the walk leaves the board. */
    method SkipRun(other: Tile, dx: int, dy: int, x0: int, y0: int, ghost ray: seq<Pos>) returns (x: int, y: int, ghost k: nat)
      requires Valid() && AllOnBoard(ray) && IsWalk(ray, dx, dy)
      requires 1 < |ray| && ray[1] == (x0, y0) && Cell(Snapshot(), ray[0]) == other
      ensures k == RunLength(Snapshot(), other, ray) && 1 <= k
      ensures OnBoard(x, y) <==> k < |ray|
      ensures k < |ray| ==> ray[k] == (x, y)
    {
      ghost var g := Snapshot();
      x, y, k := x0, y0, 1;
      while cells[x, y] == other
        invariant 1 <= k < |ray| && ray[k] == (x, y) && OnBoard(x, y)
        invariant forall j :: 0 <= j < k ==> Cell(g, ray[j]) == other
        decreases |ray| - k
      {
        x, y := x + dx, y + dy;
        k := k + 1;
        if !OnBoard(x, y) {
          break;
        }
      }
      RunLengthIs(g, other, ray, k);
    }

    /** The cells a move by t at (xs, ys) flips in direction (dx, dy), far end first. Reads the
        board as it stands, with the mover's tile already written into the target. */
    method ScanRay(t: Tile, xs: int, ys: int, dx: int, dy: int) returns (flips: seq<Pos>)
      requires Valid() && OnBoard(xs, ys) && IsDir(dx, dy)
      ensures flips == RayCaptures(Snapshot(), t, xs, ys, dx, dy)
    {
      RayIsWalk(xs, ys, dx, dy);
      flips := ScanWalk(t, xs, ys, dx, dy, Ray(xs, ys, dx, dy));
    }

    /** The scan of one direction, along the walk ray that leads away from (xs, ys). */
    method ScanWalk(t: Tile, xs: int, ys: int, dx: int, dy: int, ghost ray: seq<Pos>) returns (flips: seq<Pos>)
      requires Valid() && IsWalkFrom(ray, xs, ys, dx, dy)
      ensures flips == WalkCaptures(Snapshot(), t, ray)
    {
      ghost var g := Snapshot();
      var other := Other(t);
      flips := [];
      var x, y := xs + dx, ys + dy;
      if !(OnBoard(x, y) && cells[x, y] == other) {
        RunLengthIs(g, other, ray, 0);
        return;
      }
      // A piece of the other player is next to the target.
      x, y := x + dx, y + dy;
      if !OnBoard(x, y) {
        RunLengthIs(g, other, ray, 1);
        return;
      }
      assert (x, y) == ray[1];
      ghost var k;
      x, y, k := SkipRun(other, dx, dy, x, y, ray);
      if !OnBoard(x, y) {
        return;
      }
      if cells[x, y] == t {
        // Pieces to flip: walk back to the target, noting every cell on the way.
        flips := WalkBack(xs, ys, x, y, dx, dy, ray, k);
      }
    }

    /** The cells a move by t at (xs, ys) flips, the directions of dirs one after the other. */
    method ScanRays(t: Tile, xs: int, ys: int, dirs: seq<Pos>) returns (tilesToFlip: seq<Pos>)
      requires Valid() && OnBoard(xs, ys) && AllDirs(dirs)
      ensures tilesToFlip == Concat(RaysCaptures(Snapshot(), t, xs, ys, dirs))
    {
      ghost var parts := RaysCaptures(Snapshot(), t, xs, ys, dirs);
      tilesToFlip := [];
      for d := 0 to |dirs|
        invariant tilesToFlip == Concat(parts[..d])
      {
        var (dx, dy) := dirs[d];
        var ray := ScanRay(t, xs, ys, dx, dy);
        ConcatSnoc(parts, d);
        tilesToFlip := tilesToFlip + ray;
      }
      assert parts[..|dirs|] == parts;
    }

    /** The cells a move by t at the empty (xs, ys) flips. The target holds t while the eight
        directions are scanned and is blanked again after. */
    method ScanFromTarget(t: Tile, xs: int, ys: int) returns (tilesToFlip: seq<Pos>)
      requires Valid() && OnBoard(xs, ys) && cells[xs, ys] == Empty
      modifies cells
      ensures Snapshot() == old(Snapshot())
      ensures tilesToFlip == Captures(old(Snapshot()), t, xs, ys)
    {
      ghost var g := Snapshot();
      Put(xs, ys, t);  // temporarily set the tile on the board
      DirsAreDirections();
      tilesToFlip := ScanRays(t, xs, ys, Dirs);
      CapturesIgnoreTarget(g, t, xs, ys, t);
      Put(xs, ys, Empty);  // restore the empty space
      SetRestore(g, xs, ys, t);
    }

    /** None when a move by t at (xs, ys) is rejected, otherwise the cells it would flip. */
    method IsValidMove(t: Tile, xs: int, ys: int) returns (r: Option<seq<Pos>>)
      requires Valid() && OnBoard(xs, ys)
      modifies cells
      ensures Snapshot() == old(Snapshot())
      ensures r == ValidMove(old(Snapshot()), t, xs, ys)
    {
      if cells[xs, ys] != Empty || !OnBoard(xs, ys) {
        return None;
      }
      var tilesToFlip := ScanFromTarget(t, xs, ys);
      if |tilesToFlip| == 0 {
        return None;
      }
      return Some(tilesToFlip);
    }

    /** The legal targets for t in column x, y ascending: the inner loop of the scan. */
    method ValidMovesIn(t: Tile, x: int) returns (col: seq<Pos>)
      requires Valid() && 0 <= x < 8
      modifies cells
      ensures Snapshot() == old(Snapshot())
      ensures col == ValidMovesInColumn(old(Snapshot()), t, x, 8)
    {
      ghost var g := Snapshot();
      col := [];
      for y := 0 to 8
        invariant Snapshot() == g
        invariant col == ValidMovesInColumn(g, t, x, y)
      {
        var r := IsValidMove(t, x, y);
        if r != None {
          col := col + [(x, y)];
        }
      }
    }

    /** Every legal target for t, scanning x in the outer loop and y in the inner loop. */
    method GetValidMoves(t: Tile) returns (moves: seq<Pos>)
      requires Valid()
      modifies cells
      ensures Snapshot() == old(Snapshot())
      ensures moves == ValidMoves(old(Snapshot()), t)
    {
      ghost var g := Snapshot();
      moves := [];
      for x := 0 to 8
        invariant Snapshot() == g
        invariant moves == ValidMovesUpTo(g, t, x)
      {
        var col := ValidMovesIn(t, x);
        moves := moves + col;
      }
    }

    /** Counts the X and O tiles. */
    method GetScore() returns (s: Score)
      requires Valid()
      ensures s.x == Count(Snapshot(), X) && s.o == Count(Snapshot(), O)
    {
      ghost var g := Snapshot();
      var xscore, oscore := 0, 0;
      for x := 0 to 8
        invariant xscore == CountColumns(g, X, x) && oscore == CountColumns(g, O, x)
      {
        for y := 0 to 8
          invariant xscore == CountColumns(g, X, x) + CountColumn(g[x], X, y)
          invariant oscore == CountColumns(g, O, x) + CountColumn(g[x], O, y)
        {
          if cells[x, y] == X {
            xscore := xscore + 1;
          }
          if cells[x, y] == O {
            oscore := oscore + 1;
          }
        }
      }
      s := Score(xscore, oscore);
    }

    /** Writes t into every listed cell, first to last. */
    method FlipAll(flips: seq<Pos>, t: Tile)
      requires Valid() && AllOnBoard(flips)
      modifies cells
      ensures Snapshot() == ApplyFlips(old(Snapshot()), flips, t)
    {
      ghost var g := Snapshot();
      assert flips[..0] == [];
      for i := 0 to |flips|
        invariant Snapshot() == ApplyFlips(g, flips[..i], t)
      {
        var (x, y) := flips[i];
        Put(x, y, t);
        assert flips[..i + 1][..i] == flips[..i];
      }
      assert flips[..|flips|] == flips;
    }

    /** Places t at (xs, ys) and flips the captured tiles; false, with the board untouched,
        when the move is rejected. */
    method MakeMove(t: Tile, xs: int, ys: int) returns (ok: bool)
      requires Valid() && OnBoard(xs, ys)
      modifies cells
      ensures ok == ValidMove(old(Snapshot()), t, xs, ys).Some?
      ensures Snapshot() == Play(old(Snapshot()), t, xs, ys)
    {
      ghost var g := Snapshot();
      var tilesToFlip := IsValidMove(t, xs, ys);
      if tilesToFlip == None {
        return false;
      }
      var flips := tilesToFlip.value;
      CapturesSpec(g, t, xs, ys);
      Put(xs, ys, t);
      FlipAll(flips, t);
      return true;
    }

    /** An independent duplicate: a new board whose array is new and holds the same tiles. */
    method Copy() returns (dupe: Board)
      requires Valid()
      ensures fresh(dupe) && fresh(dupe.cells) && dupe.Valid()
      ensures dupe.Snapshot() == Snapshot()
    {
      dupe := new Board();
      for x := 0 to 8
        invariant fresh(dupe) && fresh(dupe.cells) && dupe.Valid()
        invariant forall a, b :: 0 <= a < x && 0 <= b < 8 ==> dupe.cells[a, b] == cells[a, b]
      {
        for y := 0 to 8
          invariant fresh(dupe) && fresh(dupe.cells) && dupe.Valid()
          invariant forall a, b :: 0 <= a < x && 0 <= b < 8 ==> dupe.cells[a, b] == cells[a, b]
          invariant forall b :: 0 <= b < y ==> dupe.cells[x, b] == cells[x, b]
        {
          dupe.cells[x, y] := cells[x, y];
        }
      }
      GridExt(dupe.Snapshot(), Snapshot());
    }
  }
}
