/** Cell contents, coordinates and the eight compass directions of the 8x8 board. */
module Tiles {

  /** What a cell holds: blank (' '), an 'X' tile or an 'O' tile. */
  datatype Tile = Empty | X | O

  datatype Option<+T> = None | Some(value: T)

  /** A board coordinate (x, y), indexed board[x][y]. */
  type Pos = (int, int)

  /** The tile a scan must cross before it reaches the mover's own tile.
      Every tile other than X is answered with X, so the result never equals its argument. */
  function Other(t: Tile): (o: Tile)
    ensures o != t && o != Empty
    ensures t != Empty ==> (t == X <==> o == O)
  {
    if t == X then O else X
  }

  /** Both coordinates lie in 0..7. */
  predicate OnBoard(x: int, y: int)
  {
    0 <= x <= 7 && 0 <= y <= 7
  }

  /** One of the four corner cells (0,0), (7,0), (0,7), (7,7). */
  function OnCorner(x: int, y: int): (c: bool)
    ensures c ==> OnBoard(x, y)
    ensures c ==> (x == 0 || x == 7) && (y == 0 || y == 7)
    ensures OnBoard(x, y) && (x == 0 || x == 7) && (y == 0 || y == 7) ==> c
  {
    (x == 0 && y == 0) || (x == 7 && y == 0) || (x == 0 && y == 7) || (x == 7 && y == 7)
  }

  /** The eight scan directions, in the order the capture scan visits them. */
  const Dirs: seq<Pos> := [(0, 1), (1, 1), (1, 0), (1, -1), (0, -1), (-1, -1), (-1, 0), (-1, 1)]

  /** The position of a direction in the scan order. */
  function DirIndex(h: Pos): (d: int)
    requires IsDir(h.0, h.1)
    ensures 0 <= d < 8 && Dirs[d] == h
  {
    if h == (0, 1) then 0
    else if h == (1, 1) then 1
    else if h == (1, 0) then 2
    else if h == (1, -1) then 3
    else if h == (0, -1) then 4
    else if h == (-1, -1) then 5
    else if h == (-1, 0) then 6
    else 7
  }

  /** A unit step in one of the eight compass directions. */
  predicate IsDir(dx: int, dy: int)
  {
    -1 <= dx <= 1 && -1 <= dy <= 1 && (dx != 0 || dy != 0)
  }

  /** Every entry is a compass direction. */
  predicate AllDirs(ds: seq<Pos>)
  {
    forall i :: 0 <= i < |ds| ==> IsDir(ds[i].0, ds[i].1)
  }

  predicate Distinct<T(==)>(s: seq<T>)
  {
    forall i, j :: 0 <= i < j < |s| ==> s[i] != s[j]
  }

  function Sgn(v: int): int
  {
    if v > 0 then 1 else if v < 0 then -1 else 0
  }

  /** The direction from `from` towards `to`, component by component. */
  function Heading(from: Pos, to: Pos): Pos
  {
    (Sgn(to.0 - from.0), Sgn(to.1 - from.1))
  }

  /** How many unit moves by dv (one of -1, 0, 1) keep a coordinate v of 0..7 inside 0..7;
      8 when dv does not move it. */
  function Room(v: int, dv: int): int
  {
    if dv > 0 then 7 - v else if dv < 0 then v else 8
  }

  /** j times a direction component c in -1..1, without multiplying. */
  function Scale(j: int, c: int): int
  {
    if c > 0 then j else if c < 0 then -j else 0
  }

  /** The cell j steps away from (x, y) in direction d. */
  function Step(x: int, y: int, d: Pos, j: int): Pos
  {
    (x + Scale(j, d.0), y + Scale(j, d.1))
  }

  /** The direction table lists every compass direction exactly once. */
  lemma DirsAreDirections()
    ensures |Dirs| == 8 && AllDirs(Dirs) && Distinct(Dirs)
    ensures forall d :: 0 <= d < 8 ==> DirIndex(Dirs[d]) == d
  {
  }
}
